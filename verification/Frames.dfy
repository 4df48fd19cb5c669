/**
  The bitmap of physical frames (source/paging_management.cpp:12-30, 179-234).
  A 32-bit word is its 32 bits, lowest first. getFreeFrame scans frameNumber_
  words although the bitmap has frameNumber_ / 32; the model's array is what is
  scanned, so its words past the bitmap are whatever memory follows.
 */
module Frames {

  const WORD: int := 32

  type Word = w: seq<bool> | |w| == 32 witness seq(32, i => false)

  predicate Full(w: Word) {
    forall j :: 0 <= j < WORD ==> w[j]
  }

  /** Frame n is marked busy. */
  predicate Used(words: seq<Word>, n: int) {
    0 <= n && n / WORD < |words| && words[n / WORD][n % WORD]
  }

  /** The frames below the limit that are not marked busy. */
  ghost function FreeBelow(words: seq<Word>, limit: int): set<int> {
    set n | 0 <= n < limit && !Used(words, n)
  }

  /** Busy frames stay busy. */
  ghost predicate KeepsUsed(words0: seq<Word>, words: seq<Word>) {
    |words| == |words0| && forall n :: Used(words0, n) ==> Used(words, n)
  }

  /** What allocFrame's search returns: the lowest frame not marked busy, or -1. */
  predicate IsFirstFree(words: seq<Word>, n: int) {
    if n == -1 then forall k :: 0 <= k < WORD * |words| ==> Used(words, k)
    else 0 <= n < WORD * |words| && !Used(words, n) && forall k :: 0 <= k < n ==> Used(words, k)
  }

  function Mark(words: seq<Word>, n: int): seq<Word>
    requires 0 <= n < WORD * |words|
  {
    words[n / WORD := words[n / WORD][n % WORD := true]]
  }

  lemma MarkIs(words: seq<Word>, n: int, k: int)
    requires 0 <= n < WORD * |words|
    ensures Used(Mark(words, n), k) <==> k == n || Used(words, k)
  {
    if 0 <= k && k / WORD == n / WORD && k % WORD == n % WORD { assert k == n; }
  }

  class FrameBitmap {
    const frames_: array<Word>
    const bitmapWords: nat  // frameNumber_ / 32, the words that belong to the bitmap

    ghost predicate Valid() {
      frames_.Length >= bitmapWords
    }

    constructor (frames: array<Word>, bitmapWords: nat)
      requires bitmapWords <= frames.Length
      ensures Valid() && frames_ == frames && this.bitmapWords == bitmapWords
    {
      frames_ := frames;
      this.bitmapWords := bitmapWords;
    }

    method GetFreeFrame() returns (index: int)
      ensures IsFirstFree(frames_[..], index)
    {
      var i := 0;
      while i < frames_.Length
        invariant 0 <= i <= frames_.Length
        invariant forall k :: 0 <= k < WORD * i ==> Used(frames_[..], k)
      {
        var w := frames_[i];
        if !Full(w) {
          var j := 0;
          while j < WORD
            invariant 0 <= j <= WORD
            invariant forall b :: 0 <= b < j ==> w[b]
          {
            if !w[j] {
              assert (i * WORD + j) / WORD == i && (i * WORD + j) % WORD == j;
              forall k | 0 <= k < i * WORD + j ensures Used(frames_[..], k) {
                if k >= WORD * i { assert k / WORD == i && k % WORD < j; }
              }
              return i * WORD + j;
            }
            j := j + 1;
          }
        }
        forall k | WORD * i <= k < WORD * (i + 1) ensures Used(frames_[..], k) {
          assert k / WORD == i;
        }
        i := i + 1;
      }
      index := -1;
    }

    /** Marks the frame that is handed out. */
    method Take() returns (index: int)
      modifies frames_
      ensures IsFirstFree(old(frames_[..]), index)
      ensures index == -1 ==> frames_[..] == old(frames_[..])
      ensures index != -1 ==> frames_[..] == Mark(old(frames_[..]), index)
    {
      index := GetFreeFrame();
      if index != -1 {
        var i, offset := index / WORD, index % WORD;
        frames_[i] := frames_[i][offset := true];
      }
    }
  }

  // ---------- Runs of allocations ----------

  /** The frames handed out by count allocations in a row; a release in between clears no bit. */
  ghost predicate HandedOut(words: seq<Word>, given: seq<int>)
    decreases |given|
  {
    given == [] ||
    (given[0] != -1 && IsFirstFree(words, given[0]) && HandedOut(Mark(words, given[0]), given[1..]))
  }

  /** Successive allocations hand out frames in strictly increasing order: none is given twice. */
  lemma {:induction false} HandedOutIncreasing(words: seq<Word>, given: seq<int>)
    requires HandedOut(words, given)
    ensures forall i :: 0 <= i < |given| ==> !Used(words, given[i])
    ensures forall i, j :: 0 <= i < j < |given| ==> given[i] < given[j]
    decreases |given|
  {
    if given != [] {
      var next := Mark(words, given[0]);
      HandedOutIncreasing(next, given[1..]);
      forall i | 0 < i < |given| ensures !Used(words, given[i]) && given[0] < given[i] {
        assert given[i] == given[1..][i - 1];
        MarkIs(words, given[0], given[i]);
      }
      forall i, j | 0 <= i < j < |given| ensures given[i] < given[j] {
        if i > 0 { assert given[i] == given[1..][i - 1] && given[j] == given[1..][j - 1]; }
      }
    }
  }

  /** The bitmap after such a run. */
  ghost function After(words: seq<Word>, given: seq<int>): seq<Word>
    requires HandedOut(words, given)
    decreases |given|
  {
    if given == [] then words else After(Mark(words, given[0]), given[1..])
  }

  lemma {:induction false} AfterIs(words: seq<Word>, given: seq<int>, k: int)
    requires HandedOut(words, given)
    ensures |After(words, given)| == |words|
    ensures Used(After(words, given), k) <==> k in given || Used(words, k)
    decreases |given|
  {
    if given != [] {
      assert given == [given[0]] + given[1..];
      MarkIs(words, given[0], k);
      AfterIs(Mark(words, given[0]), given[1..], k);
    }
  }

  /** One allocation more. */
  lemma {:induction false} HandedOutMore(words: seq<Word>, given: seq<int>, n: int)
    requires HandedOut(words, given) && n != -1 && IsFirstFree(After(words, given), n)
    ensures HandedOut(words, given + [n]) && After(words, given + [n]) == Mark(After(words, given), n)
    decreases |given|
  {
    var more := given + [n];
    if given == [] {
      assert more[1..] == [];
      assert After(Mark(words, n), more[1..]) == Mark(words, n);
    } else {
      HandedOutMore(Mark(words, given[0]), given[1..], n);
      assert more[1..] == given[1..] + [n];
    }
  }

  /** A run of allocations stays below a limit exactly when that many frames were free below it. Once none is,
      every further frame lies at the limit or above. */
  lemma {:induction false} WithinLimitIff(words: seq<Word>, given: seq<int>, limit: nat)
    requires HandedOut(words, given) && limit <= WORD * |words|
    ensures (forall i :: 0 <= i < |given| ==> given[i] < limit) <==> |given| <= |FreeBelow(words, limit)|
    ensures |given| <= |FreeBelow(words, limit)| ==>
              |FreeBelow(After(words, given), limit)| == |FreeBelow(words, limit)| - |given|
    ensures FreeBelow(words, limit) == {} ==>
              FreeBelow(After(words, given), limit) == {} && forall i :: 0 <= i < |given| ==> given[i] >= limit
    decreases |given|
  {
    if given == [] {
    } else {
      var n, rest := given[0], given[1..];
      WithinLimitIff(Mark(words, n), rest, limit);
      MarkFreeBelow(words, n, limit);
      if n >= limit { assert forall k :: 0 <= k < limit ==> Used(words, k); }
      FromRest(given, limit);
    }
  }

  lemma {:induction false} FromRest(given: seq<int>, limit: int)
    requires given != []
    ensures (forall i :: 0 <= i < |given| ==> given[i] < limit)
            <==> given[0] < limit && forall i :: 0 <= i < |given[1..]| ==> given[1..][i] < limit
    ensures given[0] >= limit && (forall i :: 0 <= i < |given[1..]| ==> given[1..][i] >= limit)
            ==> forall i :: 0 <= i < |given| ==> given[i] >= limit
  {
    forall i | 0 < i < |given| ensures given[i] == given[1..][i - 1] {}
    forall i | 0 <= i < |given[1..]| ensures given[1..][i] == given[i + 1] {}
  }

  predicate UsedPrefix(words: seq<Word>, k: int) {
    forall n :: 0 <= n < WORD * |words| ==> (Used(words, n) <==> n < k)
  }

  /** From a bitmap whose busy frames are 0..k-1 the next frames are k, k+1, ... . */
  lemma {:induction false} PrefixHandsOutInOrder(words: seq<Word>, k: nat, given: seq<int>)
    requires UsedPrefix(words, k) && HandedOut(words, given)
    ensures forall i :: 0 <= i < |given| ==> given[i] == k + i
    decreases |given|
  {
    if given != [] {
      assert k <= given[0] && (k < given[0] ==> Used(words, k));
      var next := Mark(words, k);
      forall n | 0 <= n < WORD * |next| ensures Used(next, n) <==> n < k + 1 { MarkIs(words, k, n); }
      PrefixHandsOutInOrder(next, k + 1, given[1..]);
      forall i | 0 <= i < |given| ensures given[i] == k + i { if i > 0 { assert given[i] == given[1..][i - 1]; } }
    }
  }

  /** The frame handed out belongs to the bitmap exactly when the bitmap still has a free frame;
      otherwise it is the index of a bit in the memory behind it, or -1. */
  lemma WithinBitmapIff(words: seq<Word>, bitmapWords: nat, n: int)
    requires bitmapWords <= |words| && IsFirstFree(words, n)
    ensures 0 <= n < WORD * bitmapWords <==> FreeBelow(words, WORD * bitmapWords) != {}
  {
    var free := FreeBelow(words, WORD * bitmapWords);
    if free != {} {
      var k :| k in free;
      assert !Used(words, k) && 0 <= k < WORD * |words|;
    }
    if 0 <= n < WORD * bitmapWords { assert n in free; }
  }

  /** Marking the lowest free frame takes exactly one frame from those below any limit above it. */
  lemma MarkFreeBelow(words: seq<Word>, n: int, limit: int)
    requires 0 <= n < WORD * |words| && !Used(words, n)
    ensures FreeBelow(Mark(words, n), limit) == FreeBelow(words, limit) - {n}
    ensures n < limit ==> |FreeBelow(Mark(words, n), limit)| == |FreeBelow(words, limit)| - 1
  {
    forall k ensures k in FreeBelow(Mark(words, n), limit) <==> k in FreeBelow(words, limit) - {n} {
      MarkIs(words, n, k);
    }
    if n < limit { assert n in FreeBelow(words, limit); }
  }
}
