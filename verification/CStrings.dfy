/**
  The kernel's own string functions (source/utils/common.cpp). A char pointer is
  the bytes from where it points on.
 */
module CStrings {
  import opened Bytes

  predicate Terminated(s: seq<byte>) {
    exists k :: 0 <= k < |s| && s[k] == 0
  }

  /** The string that s points to: the bytes before the first NUL. */
  function CString(s: seq<byte>): (r: seq<byte>)
    ensures |r| <= |s| && r == s[..|r|] && (forall k :: 0 <= k < |r| ==> s[k] != 0) && (|r| < |s| ==> s[|r|] == 0)
  {
    if s == [] || s[0] == 0 then [] else [s[0]] + CString(s[1..])
  }

  lemma {:induction false} CStringIs(s: seq<byte>, n: nat)
    requires n < |s| && s[n] == 0 && forall k :: 0 <= k < n ==> s[k] != 0
    ensures CString(s) == s[..n]
  {
    var r := CString(s);
  }

  method StrLen(s: seq<byte>) returns (len: nat)
    requires Terminated(s)
    ensures len == |CString(s)| < |s|
  {
    len := 0;
    while s[len] != 0
      invariant len < |s| && forall k :: 0 <= k < len ==> s[k] != 0
      decreases |s| - len
    {
      var z :| 0 <= z < |s| && s[z] == 0;
      len := len + 1;
    }
    CStringIs(s, len);
  }

  /** A char of this compiler is signed. */
  function Signed(b: byte): int {
    if b < 0x80 then b else b - 0x100
  }

  /** The bytes that strncmp reads exist: those up to the first difference, and at most num + 1 of them. */
  predicate Comparable(s1: seq<byte>, s2: seq<byte>, num: nat) {
    forall i :: 0 <= i <= num && i <= |s1| && i <= |s2| && s1[..i] == s2[..i] ==> i < |s1| && i < |s2|
  }

  /** Unlike the standard function it also compares position num, and does not stop at a NUL. */
  method StrNCmp(s1: seq<byte>, s2: seq<byte>, num: nat) returns (r: int)
    requires Comparable(s1, s2, num)
    ensures r == 0 <==> num < |s1| && num < |s2| && s1[..num + 1] == s2[..num + 1]
    ensures r != 0 ==>
      var i := (if r < 0 then -r else r) - 1;
      i < |s1| && i < |s2| && s1[..i] == s2[..i]
      && (if r < 0 then Signed(s1[i]) < Signed(s2[i]) else Signed(s1[i]) > Signed(s2[i]))
  {
    var i := 0;
    assert s1[..0] == s2[..0];
    while i < num
      invariant 0 <= i <= num && i < |s1| && i < |s2| && s1[..i] == s2[..i]
    {
      if s1[i] != s2[i] { break; }
      i := i + 1;
      assert s1[..i] == s1[..i - 1] + [s1[i - 1]] && s2[..i] == s2[..i - 1] + [s2[i - 1]];
    }
    if Signed(s1[i]) < Signed(s2[i]) {
      r := -(i + 1);
      assert s1[i] != s2[i];
    } else if Signed(s1[i]) > Signed(s2[i]) {
      r := i + 1;
      assert s1[i] != s2[i];
    } else {
      r := 0;
      assert s1[..i + 1] == s1[..i] + [s1[i]] && s2[..i + 1] == s2[..i] + [s2[i]];
    }
    if r != 0 && num < |s1| && num < |s2| { assert s1[..num + 1][i] == s1[i] && s2[..num + 1][i] == s2[i]; }
  }

  /** Compared over its own length, a string equals exactly the strings that are the same. */
  lemma {:induction false} ExactMatch(s1: seq<byte>, s2: seq<byte>)
    requires Terminated(s1) && Terminated(s2)
    ensures Comparable(s1, s2, |CString(s1)|)
    ensures var n := |CString(s1)|;
      (n < |s1| && n < |s2| && s1[..n + 1] == s2[..n + 1]) <==> CString(s1) == CString(s2)
  {
    var n, c2 := |CString(s1)|, CString(s2);
    TerminatedLength(s1);
    TerminatedLength(s2);
    forall i | 0 <= i <= n && i <= |s1| && i <= |s2| && s1[..i] == s2[..i] ensures i < |s1| && i < |s2| {
      forall k | 0 <= k < i ensures s1[k] == s2[k] { assert s1[..i][k] == s2[..i][k]; }
    }
    if n < |s2| && s1[..n + 1] == s2[..n + 1] {
      forall k | 0 <= k <= n ensures s1[k] == s2[k] { assert s1[..n + 1][k] == s2[..n + 1][k]; }
      CStringIs(s2, n);
      assert s1[..n] == s2[..n];
    }
    if CString(s1) == c2 {
      assert s1[..n] == s2[..n];
      assert s1[..n + 1] == s1[..n] + [0] && s2[..n + 1] == s2[..n] + [0];
    }
  }

  lemma {:induction false} TerminatedLength(s: seq<byte>)
    requires Terminated(s)
    ensures |CString(s)| < |s| && s[|CString(s)|] == 0
  {
  }

  function CopyLen(src: seq<byte>, num: int): nat
  {
    if num <= 0 then 0 else if num < |CString(src)| then num else |CString(src)|
  }

  /** What strncpy leaves in a buffer that was was: up to num bytes of the string, one NUL, and the rest as before. */
  predicate Copied(src: seq<byte>, num: int, was: seq<byte>, now: seq<byte>) {
    var n := CopyLen(src, num);
    n < |was| && n <= |src| && now == src[..n] + [0] + was[n + 1..]
  }

  /** Stops at a NUL, and always writes one NUL more than it copies. */
  method StrNCpy(dest: array<byte>, src: seq<byte>, num: int)
    requires CopyLen(src, num) < dest.Length && CopyLen(src, num) < |src|
    modifies dest
    ensures Copied(src, num, old(dest[..]), dest[..])
  {
    var i, left := 0, num;
    ghost var was, n := dest[..], CopyLen(src, num);
    while src[i] != 0 && left > 0
      invariant 0 <= i <= n && left == num - i
      invariant forall k :: 0 <= k < i ==> dest[k] == src[k]
      invariant forall k :: i <= k < dest.Length ==> dest[k] == was[k]
      decreases left
    {
      assert i < |CString(src)|;
      dest[i] := src[i];
      i := i + 1;
      left := left - 1;
    }
    assert i == n;
    dest[i] := 0;
    assert dest[..] == src[..n] + [0] + was[n + 1..];
  }
}
