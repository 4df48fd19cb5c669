/**
  The kernel's reader of the ramdisk image (source/vfs/initrd_fs.cpp). It works on
  the image in memory: init adds the image's address to each record's offset in place.
 */
module InitrdFs {
  import opened Bytes
  import opened CStrings
  import opened InitrdImage

  /** A child of the root: the 64 bytes of name_ and what stat would show. */
  datatype Node = Node(name: seq<byte>, inode: nat, length: u32)

  datatype Dirent = NoEntry | Dirent(name: seq<byte>, inode: nat)

  datatype Found = NotFound | Dev | Child(index: nat)

  const DEV: seq<byte> := [0x64, 0x65, 0x76, 0]  // "dev"

  /** Address of record i of an image at location. */
  function RecordAddr(location: u32, i: nat): nat {
    location + 4 + NODE * i
  }

  predicate RecordAt(m: seq<byte>, h: nat, name: seq<byte>, offset: int, length: int) {
    && h + NODE <= |m| && |name| < MAX_FILE_NAME_LEN
    && m[h + 1..h + 1 + MAX_FILE_NAME_LEN] == name + Zeros(MAX_FILE_NAME_LEN - |name|)
    && Get32(m, h + 65) == offset && Get32(m, h + 69) == length
  }

  ghost predicate ImageAt(m: seq<byte>, location: u32, fs: seq<File>) {
    Writable(fs) && location + ImageSize(fs) < WORLD == |m| && m[location..location + ImageSize(fs)] == Image(fs)
  }

  /** The image after the first k offsets have been turned into addresses. */
  ghost predicate Relocated(m: seq<byte>, location: u32, fs: seq<File>, k: nat) {
    && Writable(fs) && location + ImageSize(fs) < WORLD == |m|
    && (forall i {:trigger RecordAddr(location, i)} :: 0 <= i < |fs| ==>
          RecordAt(m, RecordAddr(location, i), Name(fs[i]),
                   OffsetOf(fs, i) + (if i < k then location else 0), |fs[i].data|))
    && (forall i {:trigger OffsetOf(fs, i)} :: 0 <= i < |fs| ==>
          (location + OffsetOf(fs, i) + |fs[i].data| <= |m|
           && m[location + OffsetOf(fs, i)..location + OffsetOf(fs, i) + |fs[i].data|] == fs[i].data))
  }

  lemma {:induction false} NodeBytesParts(name: seq<byte>, offset: u32, length: u32)
    requires |name| < MAX_FILE_NAME_LEN
    ensures RecordAt(NodeBytes(name, offset, length), 0, name, offset, length)
  {
    var padded := name + Zeros(MAX_FILE_NAME_LEN - |name|);
    var b := NodeBytes(name, offset, length);
    assert b == [FILE_MAGIC] + padded + (Le32(offset) + Le32(length));
    Middle([FILE_MAGIC], padded, Le32(offset) + Le32(length));
    assert b == ([FILE_MAGIC] + padded) + Le32(offset) + Le32(length);
    Middle([FILE_MAGIC] + padded, Le32(offset), Le32(length));
    assert b == ([FILE_MAGIC] + padded + Le32(offset)) + Le32(length) + [];
    Middle([FILE_MAGIC] + padded + Le32(offset), Le32(length), []);
    Get32Slice(b, 65);
    Get32Slice(b, 69);
  }

  lemma {:induction false} Middle(x: seq<byte>, y: seq<byte>, z: seq<byte>)
    ensures (x + y + z)[|x|..|x| + |y|] == y
  {
  }

  lemma {:induction false} Get32Slice(m: seq<byte>, p: nat)
    requires p + 4 <= |m|
    ensures Get32(m, p) == Get32(m[p..p + 4], 0)
  {
  }

  lemma {:induction false} RecordMoved(b: seq<byte>, m: seq<byte>, h: nat, name: seq<byte>, offset: int, length: int)
    requires |b| == NODE && h + NODE <= |m| && m[h..h + NODE] == b && RecordAt(b, 0, name, offset, length)
    ensures RecordAt(m, h, name, offset, length)
  {
    forall k | 0 <= k < NODE ensures m[h + k] == b[k] { assert m[h..h + NODE][k] == b[k]; }
    assert m[h + 1..h + 1 + MAX_FILE_NAME_LEN] == b[1..1 + MAX_FILE_NAME_LEN];
  }

  lemma {:induction false} ImageRecords(m: seq<byte>, location: u32, fs: seq<File>)
    requires ImageAt(m, location, fs)
    ensures Relocated(m, location, fs, 0) && Get32(m, location) == |fs|
  {
    ImageHead(m, location, fs);
    forall i | 0 <= i < |fs|
      ensures RecordAt(m, RecordAddr(location, i), Name(fs[i]), OffsetOf(fs, i), |fs[i].data|)
      ensures location + OffsetOf(fs, i) + |fs[i].data| <= |m| &&
          m[location + OffsetOf(fs, i)..location + OffsetOf(fs, i) + |fs[i].data|] == fs[i].data
    {
      ImageRecord(m, location, fs, i);
      ImageData(m, location, fs, i);
    }
  }

  lemma {:induction false} ImageRecord(m: seq<byte>, location: u32, fs: seq<File>, i: nat)
    requires ImageAt(m, location, fs) && i < |fs|
    ensures RecordAt(m, RecordAddr(location, i), Name(fs[i]), OffsetOf(fs, i), |fs[i].data|)
  {
    ImageParts(fs, i);
    OffsetBound(fs, 0, |fs|);
    OffsetBound(fs, i, |fs|);
    Within(m, location, ImageSize(fs), 4 + NODE * i, 4 + NODE * (i + 1));
    NodeBytesParts(Name(fs[i]), OffsetOf(fs, i), |fs[i].data|);
    RecordMoved(NodeOf(fs, i), m, RecordAddr(location, i), Name(fs[i]), OffsetOf(fs, i), |fs[i].data|);
  }

  lemma {:induction false} ImageData(m: seq<byte>, location: u32, fs: seq<File>, i: nat)
    requires ImageAt(m, location, fs) && i < |fs|
    ensures location + OffsetOf(fs, i) + |fs[i].data| <= |m| &&
          m[location + OffsetOf(fs, i)..location + OffsetOf(fs, i) + |fs[i].data|] == fs[i].data
  {
    ImageParts(fs, i);
    Within(m, location, ImageSize(fs), OffsetOf(fs, i), OffsetOf(fs, i) + |fs[i].data|);
  }

  lemma {:induction false} Within(m: seq<byte>, p: nat, n: nat, lo: nat, hi: nat)
    requires p + n <= |m| && lo <= hi <= n
    ensures m[p..p + n][lo..hi] == m[p + lo..p + hi]
  {
    var x, y := m[p..p + n][lo..hi], m[p + lo..p + hi];
    forall k | 0 <= k < hi - lo ensures x[k] == y[k] {
      assert x[k] == m[p..p + n][lo + k];
    }
  }

  lemma {:induction false} ImageHead(m: seq<byte>, location: u32, fs: seq<File>)
    requires ImageAt(m, location, fs)
    ensures Get32(m, location) == |fs| && 4 <= ImageSize(fs)
  {
    OffsetBound(fs, 0, |fs|);
    ImageStart(fs);
    HeadAt(m, location, ImageSize(fs), |fs|);
  }

  lemma {:induction false} HeadAt(m: seq<byte>, p: nat, n: nat, count: u32)
    requires 4 <= n && p + n <= |m| && m[p..p + n][..4] == Le32(count)
    ensures Get32(m, p) == count
  {
    Within(m, p, n, 0, 4);
    Get32Slice(m, p);
  }

  /** Bytes outside the offset field of record i are as they were. */
  lemma {:induction false} RelocateStep(m: seq<byte>, m': seq<byte>, location: u32, fs: seq<File>, i: nat)
    requires Relocated(m, location, fs, i) && i < |fs|
    requires var p := RecordAddr(location, i) + 65;
      p + 4 <= |m'| && SameOutside(m, m', p, p + 4) && Get32(m', p) == OffsetOf(fs, i) + location
    ensures Relocated(m', location, fs, i + 1)
  {
    var p := RecordAddr(location, i) + 65;
    forall j | 0 <= j < |fs|
      ensures RecordAt(m', RecordAddr(location, j), Name(fs[j]),
                       OffsetOf(fs, j) + (if j < i + 1 then location else 0), |fs[j].data|)
    {
      RecordKept(m, m', location, fs, i, j);
    }
    forall j | 0 <= j < |fs|
      ensures m'[location + OffsetOf(fs, j)..location + OffsetOf(fs, j) + |fs[j].data|] == fs[j].data
    {
      DataKept(m, m', location, fs, i, j);
    }
  }

  lemma {:induction false} DataKept(m: seq<byte>, m': seq<byte>, location: u32, fs: seq<File>, i: nat, j: nat)
    requires Relocated(m, location, fs, i) && i < |fs| && j < |fs|
    requires var p := RecordAddr(location, i) + 65; SameOutside(m, m', p, p + 4)
    ensures m'[location + OffsetOf(fs, j)..location + OffsetOf(fs, j) + |fs[j].data|] == fs[j].data
  {
    OffsetBound(fs, 0, j);
    var start := location + OffsetOf(fs, j);
    SameSlice(m, m', RecordAddr(location, i) + 65, start, start + |fs[j].data|);
  }

  lemma {:induction false} SameSlice(m: seq<byte>, m': seq<byte>, p: nat, a: nat, b: nat)
    requires SameOutside(m, m', p, p + 4) && a <= b <= |m| && (b <= p || p + 4 <= a)
    ensures m'[a..b] == m[a..b]
  {
  }

  lemma {:induction false} RecordKept(m: seq<byte>, m': seq<byte>, location: u32, fs: seq<File>, i: nat, j: nat)
    requires Relocated(m, location, fs, i) && i < |fs| && j < |fs|
    requires var p := RecordAddr(location, i) + 65;
      p + 4 <= |m'| && SameOutside(m, m', p, p + 4) && Get32(m', p) == OffsetOf(fs, i) + location
    ensures RecordAt(m', RecordAddr(location, j), Name(fs[j]),
                     OffsetOf(fs, j) + (if j < i + 1 then location else 0), |fs[j].data|)
  {
    var h, p := RecordAddr(location, j), RecordAddr(location, i) + 65;
    assert RecordAt(m, h, Name(fs[j]), OffsetOf(fs, j) + (if j < i then location else 0), |fs[j].data|);
    assert j < i ==> h + NODE <= p;
    assert j > i ==> p + 4 <= h;
    SameSlice(m, m', p, h + 1, h + 1 + MAX_FILE_NAME_LEN);
  }

  lemma {:induction false} RecordName(m: seq<byte>, h: nat, name: seq<byte>, offset: int, length: int)
    requires RecordAt(m, h, name, offset, length) && 0 !in name
    ensures Terminated(m[h + 1..h + NODE]) && CString(m[h + 1..h + NODE]) == name
  {
    var s, padded := m[h + 1..h + NODE], m[h + 1..h + 1 + MAX_FILE_NAME_LEN];
    assert forall k :: 0 <= k < MAX_FILE_NAME_LEN ==> s[k] == padded[k];
    assert padded[|name|] == Zeros(MAX_FILE_NAME_LEN - |name|)[0];
    forall k | 0 <= k < |name| ensures s[k] == name[k] && s[k] != 0 {
      assert padded[k] == name[k];
      assert name[k] in name;
    }
    CStringIs(s, |name|);
    assert s[..|name|] == name;
  }

  /** The child of the root that stands for file i. */
  predicate IsNode(n: Node, name: seq<byte>, i: nat, length: int) {
    && |n.name| == MAX_FILE_NAME_LEN && Terminated(n.name) && CString(n.name) == name
    && n.inode == i + 1 && n.length == length
  }

  /** The children so far are those of the first files, in order. */
  predicate Listed(children: seq<Node>, fs: seq<File>) {
    |children| <= |fs| &&
    forall i {:trigger children[i]} :: 0 <= i < |children| ==> IsNode(children[i], Name(fs[i]), i, |fs[i].data|)
  }

  lemma {:induction false} ListedStep(children: seq<Node>, child: Node, fs: seq<File>)
    requires Listed(children, fs) && |children| < |fs|
    requires var i := |children|; IsNode(child, Name(fs[i]), i, |fs[i].data|)
    ensures Listed(children + [child], fs)
  {
  }

  /** None of the first k files has the name. */
  predicate NoneNamed(fs: seq<File>, k: nat, name: seq<byte>) {
    forall i :: 0 <= i < k && i < |fs| ==> Name(fs[i]) != name
  }

  /** FileNode's constructor. */
  method MakeNode(name: seq<byte>, inode: nat, length: u32) returns (n: Node)
    requires Terminated(name) && |CString(name)| < MAX_FILE_NAME_LEN && inode > 0
    ensures IsNode(n, CString(name), inode - 1, length)
  {
    var len := StrLen(name);
    var nameLen := if len > MAX_FILE_NAME_LEN then MAX_FILE_NAME_LEN else len;
    var buffer := new byte[MAX_FILE_NAME_LEN](i => 0);
    StrNCpy(buffer, name, nameLen);
    n := Node(buffer[..], inode, length);
    assert buffer[..][len] == 0;
    assert forall k :: 0 <= k < len ==> buffer[..][k] == name[k];
    CStringIs(buffer[..], len);
  }

  /** The loop over the root's children. */
  method FindChild(children: seq<Node>, name: seq<byte>, ghost fs: seq<File>) returns (f: Found)
    requires Listed(children, fs) && |children| == |fs| && Terminated(name)
    ensures f != Dev && (f == NotFound ==> NoneNamed(fs, |fs|, CString(name)))
    ensures f.Child? ==> f.index < |fs| && Name(fs[f.index]) == CString(name) && NoneNamed(fs, f.index, CString(name))
  {
    var i := 0;
    while i < |children|
      invariant 0 <= i <= |children| && NoneNamed(fs, i, CString(name))
    {
      assert IsNode(children[i], Name(fs[i]), i, |fs[i].data|);
      var same := Matches(name, children[i].name);
      if same { return Child(i); }
      i := i + 1;
    }
    f := NotFound;
  }

  /** The buffer can hold what a read of size bytes copies and one NUL, and the copying ends inside memory. */
  predicate HasRoom(m: seq<byte>, start: nat, length: u32, offset: u32, size: u32, room: nat) {
    offset <= length && start + offset <= |m| ==>
      var src, num := m[start + offset..], AsInt(ReadCount(length, offset, size));
      CopyLen(src, num) < room && CopyLen(src, num) < |src|
  }

  /** Past the end nothing is copied; else strncpy copies from the file's place in memory. */
  predicate ReadFrom(m: seq<byte>, start: nat, length: u32, offset: u32, count: u32, was: seq<byte>, now: seq<byte>) {
    if offset > length then now == was
    else start + offset <= |m| && Copied(m[start + offset..], AsInt(count), was, now)
  }

  /** read, given the file's record. */
  method ReadFile(mem: array<byte>, start: u32, length: u32, offset: u32, size: u32, buffer: array<byte>,
                  ghost data: seq<byte>)
    returns (count: u32)
    requires start + length < WORLD == mem.Length && length == |data| && buffer != mem
    requires mem[start..start + length] == data && HasRoom(mem[..], start, length, offset, size, buffer.Length)
    modifies buffer
    ensures count == ReadCount(length, offset, size)
    ensures offset > length ==> count == 0 && buffer[..] == old(buffer[..])
    ensures offset + size <= length ==> count == size
    ensures offset <= length < offset + size < WORLD ==> count == length - offset
    ensures offset <= length && WORLD <= offset + size ==>
              count == if offset + size - WORLD <= length then size else length - offset
    ensures ReadFrom(old(mem[..]), start, length, offset, count, old(buffer[..]), buffer[..])
    ensures ReadBack(data, offset, count, buffer[..])
  {
    var n := size;
    if Add32(offset, n) > length {
      n := Sub32(length, offset);
    }
    if offset > length { return 0; }
    ghost var m, was := mem[..], buffer[..];
    var src := mem[start + offset..];
    assert src == m[start + offset..];
    StrNCpy(buffer, src, AsInt(n));
    assert mem[..] == m;
    assert data[offset..] <= src by { SourceStart(m, start, data, offset); }
    ReadBackWhenCopied(data, src, offset, n, was, buffer[..]);
    count := n;
  }

  /** The two numbers of record i of the image at location: where the file is, and its length. */
  method ReadHeader(mem: array<byte>, location: u32, ghost fs: seq<File>, i: nat) returns (start: u32, length: u32)
    requires Relocated(mem[..], location, fs, |fs|) && i < |fs|
    ensures start == location + OffsetOf(fs, i) && length == |fs[i].data| && start + length < WORLD == mem.Length
    ensures mem[start..start + length] == fs[i].data
  {
    RecordBounds(mem[..], location, fs, i);
    var h := RecordAddr(location, i);
    start := Load32(mem, h + 65);
    length := Load32(mem, h + 69);
  }

  lemma {:induction false} DevTerminated()
    ensures Terminated(DEV) && CString(DEV) == DEV[..3]
  {
    assert DEV[3] == 0;
    CStringIs(DEV, 3);
  }

  /** Copies a name into the buffer of the directory entry. */
  method PutName(buffer: array<byte>, name: seq<byte>)
    requires Terminated(name) && |CString(name)| < buffer.Length
    modifies buffer
    ensures CString(buffer[..]) == CString(name)
  {
    var n := StrLen(name);
    StrNCpy(buffer, name, n);
    buffer[n] := 0;
    TakeName(buffer[..], name);
  }

  /** Compares over the length of the first string. */
  method Matches(s1: seq<byte>, s2: seq<byte>) returns (same: bool)
    requires Terminated(s1) && Terminated(s2)
    ensures same <==> CString(s1) == CString(s2)
  {
    var n := StrLen(s1);
    ExactMatch(s1, s2);
    var r := StrNCmp(s1, s2, n);
    same := r == 0;
  }

  /** Compares over the length of the second string. */
  method MatchesOf(s1: seq<byte>, s2: seq<byte>) returns (same: bool)
    requires Terminated(s1) && Terminated(s2)
    ensures same <==> CString(s1) == CString(s2)
  {
    var n := StrLen(s2);
    ExactMatchOf(s1, s2);
    var r := StrNCmp(s1, s2, n);
    same := r == 0;
  }

  /** The arithmetic of read. */
  function ReadCount(length: u32, offset: u32, size: u32): u32 {
    if offset > length then 0 else if Add32(offset, size) > length then Sub32(length, offset) else size
  }

  /** An unsigned word passed as int. */
  function AsInt(n: u32): int {
    if n < 0x8000_0000 then n else n - WORLD
  }

  function Min(x: int, y: int): int { if x < y then x else y }

  /** Inside the file, read returns what is left or what was asked for exactly when offset + size does not
      wrap around to a position inside the file. */
  lemma {:induction false} ReadCountIff(length: u32, offset: u32, size: u32)
    requires offset <= length
    ensures ReadCount(length, offset, size) == Min(size, length - offset)
            <==> !(WORLD <= offset + size <= WORLD + length)
  {
  }

  /** What read leaves in the buffer: all bytes of the file asked for when none of them is NUL; in general
      exactly when what lay behind the first NUL in the buffer happens to be right. */
  lemma {:induction false} ReadDataIff(data: seq<byte>, rest: seq<byte>, count: nat, was: seq<byte>, now: seq<byte>)
    requires count <= |data| && count < |was| && Copied(data + rest, count, was, now)
    ensures var d := data[..count];
      && (0 !in d ==> now[..count] == d && now[count] == 0)
      && (now[..count] == d <==> var z := |CString(d)|; z < count ==> was[z + 1..count] == d[z + 1..])
  {
    var src, d := data + rest, data[..count];
    var n := CopyLen(src, count);
    var z := |CString(d)|;
    PrefixCString(src, d, count);
    assert n == z;
    assert d == src[..count];
    assert d[..z] == src[..z];
    if z < count {
      assert d[z] == 0 && d[z] in d;
      assert d == d[..z] + [0] + d[z + 1..];
      assert now[..count] == d[..z] + [0] + was[z + 1..count];
    } else {
      assert now[..count] == d;
      forall k | 0 <= k < count ensures d[k] != 0 {}
    }
  }

  /** The bytes asked for are in the buffer, with a NUL behind them, if they hold no NUL themselves. */
  predicate ReadBack(data: seq<byte>, offset: nat, count: nat, buffer: seq<byte>) {
    offset + count <= |data| && count < 0x8000_0000 && 0 !in data[offset..offset + count] ==>
      count < |buffer| && buffer[..count] == data[offset..offset + count] && buffer[count] == 0
  }

  /** What follows position offset of a file in memory starts with the rest of the file. */
  lemma {:induction false} SourceStart(m: seq<byte>, start: nat, data: seq<byte>, offset: nat)
    requires start + |data| <= |m| && m[start..start + |data|] == data && offset <= |data|
    ensures data[offset..] <= m[start + offset..]
  {
    forall k | offset <= k < |data| ensures m[start + k] == data[k] { assert m[start..start + |data|][k] == data[k]; }
  }

  lemma {:induction false} ReadBackWhenCopied(data: seq<byte>, src: seq<byte>, offset: nat, count: u32, was: seq<byte>,
                                              now: seq<byte>)
    requires offset <= |data| && data[offset..] <= src && Copied(src, AsInt(count), was, now)
    ensures ReadBack(data, offset, count, now)
  {
    if offset + count <= |data| && count < 0x8000_0000 && 0 !in data[offset..offset + count] {
      var rest := data[offset..];
      assert rest[..count] == data[offset..offset + count];
      assert src == rest + src[|rest|..];
      PrefixCString(src, rest[..count], count);
      forall k | 0 <= k < count ensures rest[k] != 0 { assert rest[..count][k] in data[offset..offset + count]; }
      assert now == src[..count] + [0] + was[count + 1..];
    }
  }

  lemma {:induction false} PrefixCString(src: seq<byte>, d: seq<byte>, count: nat)
    requires count <= |src| && d == src[..count]
    ensures |CString(d)| == CopyLen(src, count)
  {
    var a, b := |CString(d)|, |CString(src)|;
    if a < count { CStringIs(src, a); }
    assert b < count ==> d[b] == src[b];
  }

  lemma {:induction false} TakeName(buffer: seq<byte>, name: seq<byte>)
    requires Terminated(name) && |CString(name)| < |buffer| && buffer[|CString(name)|] == 0
    requires forall k :: 0 <= k < |CString(name)| ==> buffer[k] == name[k]
    ensures CString(buffer) == CString(name)
  {
    CStringIs(buffer, |CString(name)|);
  }

  /** Comparing with the length of the second string instead of the first. */
  lemma {:induction false} ExactMatchOf(s1: seq<byte>, s2: seq<byte>)
    requires Terminated(s1) && Terminated(s2)
    ensures Comparable(s1, s2, |CString(s2)|)
    ensures var n := |CString(s2)|;
      (n < |s1| && n < |s2| && s1[..n + 1] == s2[..n + 1]) <==> CString(s1) == CString(s2)
  {
    ExactMatch(s2, s1);
    var n := |CString(s2)|;
    forall i | 0 <= i <= n && i <= |s1| && i <= |s2| && s1[..i] == s2[..i] ensures i < |s1| && i < |s2| {
      assert s2[..i] == s1[..i];
    }
  }

  lemma {:induction false} WithNul(name: seq<byte>)
    requires forall j :: 0 <= j < |name| ==> name[j] != 0
    ensures Terminated(name + [0]) && CString(name + [0]) == name
  {
    var s := name + [0];
    assert s[|name|] == 0;
    CStringIs(s, |name|);
    assert s[..|name|] == name;
  }

  lemma {:induction false} ListedTerminates(children: seq<Node>, fs: seq<File>, k: nat)
    requires Listed(children, fs) && k < |children|
    ensures forall j :: 0 <= j < |Name(fs[k])| ==> Name(fs[k])[j] != 0
  {
    assert IsNode(children[k], Name(fs[k]), k, |fs[k].data|);
  }

  /** One round of init: the offset becomes an address, and the record a child of the root. */
  method InitRecord(mem: array<byte>, location: u32, ghost fs: seq<File>, i: nat) returns (child: Node)
    requires i < |fs| && Relocated(mem[..], location, fs, i)
    modifies mem
    ensures Relocated(mem[..], location, fs, i + 1) && IsNode(child, Name(fs[i]), i, |fs[i].data|)
  {
    ghost var m := mem[..];
    InBounds(m, location, fs, i);
    var h := RecordAddr(location, i);
    var offset := Load32(mem, h + 65);
    Store32(mem, h + 65, Add32(offset, location));
    RelocateStep(m, mem[..], location, fs, i);
    child := ReadRecord(mem, h, i, Name(fs[i]), OffsetOf(fs, i) + location, |fs[i].data|);
  }

  method ReadRecord(mem: array<byte>, h: u32, i: nat, ghost name: seq<byte>, ghost offset: int, ghost length: int)
    returns (child: Node)
    requires RecordAt(mem[..], h, name, offset, length) && 0 !in name && mem.Length == WORLD
    ensures IsNode(child, name, i, length)
  {
    RecordName(mem[..], h, name, offset, length);
    var len := Load32(mem, h + 69);
    child := MakeNode(mem[h + 1..h + NODE], i + 1, len);
  }

  lemma {:induction false} RecordBounds(m: seq<byte>, location: u32, fs: seq<File>, i: nat)
    requires Relocated(m, location, fs, |fs|) && i < |fs|
    ensures RecordAddr(location, i) + NODE <= WORLD && OffsetOf(fs, i) + |fs[i].data| + location < WORLD
    ensures Get32(m, RecordAddr(location, i) + 65) == location + OffsetOf(fs, i)
    ensures Get32(m, RecordAddr(location, i) + 69) == |fs[i].data|
    ensures var p := location + OffsetOf(fs, i); m[p..p + |fs[i].data|] == fs[i].data
  {
    OffsetBound(fs, i, |fs|);
    assert RecordAt(m, RecordAddr(location, i), Name(fs[i]), OffsetOf(fs, i) + location, |fs[i].data|);
  }

  lemma {:induction false} InBounds(m: seq<byte>, location: u32, fs: seq<File>, i: nat)
    requires Relocated(m, location, fs, i) && i < |fs|
    ensures RecordAddr(location, i) + NODE <= WORLD && OffsetOf(fs, i) + location < WORLD
    ensures Get32(m, RecordAddr(location, i) + 65) == OffsetOf(fs, i)
    ensures |Name(fs[i])| < MAX_FILE_NAME_LEN && 0 !in Name(fs[i])
  {
    OffsetBound(fs, i, |fs|);
    assert RecordAt(m, RecordAddr(location, i), Name(fs[i]), OffsetOf(fs, i), |fs[i].data|);
  }

  class RamDisk {
    const mem: array<byte>
    var location: u32
    var size_: nat  // fileHeaders_.size_
    var children: seq<Node>
    ghost var files: seq<File>

    ghost predicate Valid()
      reads this, mem
    {
      && Relocated(mem[..], location, files, |files|) && size_ == |files| == |children|
      && Listed(children, files)
    }

    constructor (mem: array<byte>)
      ensures this.mem == mem
    {
      this.mem := mem;
      location, size_, children, files := 0, 0, [], [];
    }

    /** Parses the image at location: the children have the files' names and lengths. */
    method Init(location: u32, ghost fs: seq<File>)
      requires mem.Length == WORLD && ImageAt(mem[..], location, fs)
      modifies this, mem
      ensures Valid() && files == fs && this.location == location
    {
      ImageRecords(mem[..], location, fs);
      Parse(location, fs);
    }

    /** init, once the image's records are known to be there. */
    method Parse(location: u32, ghost fs: seq<File>)
      requires Relocated(mem[..], location, fs, 0) && Get32(mem[..], location) == |fs|
      modifies this, mem
      ensures Valid() && files == fs && this.location == location
    {
      var count := Load32(mem, location);
      this.location, size_, children, files := location, count, [], fs;
      var i := 0;
      while i < size_
        invariant 0 <= i <= size_ == |fs| && |children| == i && files == fs && this.location == location
        invariant Relocated(mem[..], location, fs, i)
        invariant Listed(children, fs)
      {
        var child := InitRecord(mem, location, fs, i);
        ListedStep(children, child, fs);
        children := children + [child];
        i := i + 1;
      }
    }

    /** Where file inode - 1 starts in memory. */
    ghost function StartOf(inode: nat): (a: nat)
      requires 0 < inode <= |files|
      reads this
    {
      location + OffsetOf(files, inode - 1)
    }

    /** buffer needs room for one NUL after what is copied. */
    method Read(inode: nat, offset: u32, size: u32, buffer: array<byte>) returns (count: u32)
      requires Valid() && 0 < inode <= |files| && buffer != mem
      requires HasRoom(mem[..], StartOf(inode), |files[inode - 1].data|, offset, size, buffer.Length)
      modifies buffer
      ensures count == ReadCount(|files[inode - 1].data|, offset, size)
      ensures offset > |files[inode - 1].data| ==> count == 0 && buffer[..] == old(buffer[..])
      ensures offset + size <= |files[inode - 1].data| ==> count == size
      ensures offset <= |files[inode - 1].data| < offset + size < WORLD ==> count == |files[inode - 1].data| - offset
      ensures offset <= |files[inode - 1].data| && WORLD <= offset + size ==>
                count == if offset + size - WORLD <= |files[inode - 1].data| then size
                         else |files[inode - 1].data| - offset
      ensures ReadFrom(old(mem[..]), StartOf(inode), |files[inode - 1].data|, offset, count,
                       old(buffer[..]), buffer[..])
      ensures ReadBack(files[inode - 1].data, offset, count, buffer[..])
    {
      var fileOffset, length := ReadHeader(mem, location, files, inode - 1);
      assert fileOffset == StartOf(inode) && length == |files[inode - 1].data|;
      count := ReadFile(mem, fileOffset, length, offset, size, buffer, files[inode - 1].data);
    }

    /** The entry of the root (isRoot) at an index: "dev" first, then the files; any other directory starts at 1. */
    method ReadDir(isRoot: bool, index: nat) returns (d: Dirent)
      requires Valid() && (index == 0 ==> isRoot)
      ensures d == if isRoot && index == 0 then Dirent(CString(DEV), 0)
                   else if index > |files| then NoEntry else Dirent(Name(files[index - 1]), index)
    {
      var name := new byte[256](i => 0);
      if isRoot && index == 0 {
        DevTerminated();
        PutName(name, DEV);
        return Dirent(CString(name[..]), 0);
      }
      if index > |children| { return NoEntry; }
      assert IsNode(children[index - 1], Name(files[index - 1]), index - 1, |files[index - 1].data|);
      PutName(name, children[index - 1].name);
      d := Dirent(CString(name[..]), children[index - 1].inode);
    }

    /** The first entry whose name is exactly the given one. */
    method FindDir(isRoot: bool, name: seq<byte>) returns (f: Found)
      requires Valid() && Terminated(name)
      ensures f == Dev <==> isRoot && CString(name) == CString(DEV)
      ensures f == NotFound ==> NoneNamed(files, |files|, CString(name))
      ensures f.Child? ==> f.index < |files| && Name(files[f.index]) == CString(name)
                           && NoneNamed(files, f.index, CString(name))
    {
      if isRoot {
        DevTerminated();
        var isDev := MatchesOf(name, DEV);
        if isDev { return Dev; }
      }
      f := FindChild(children, name, files);
    }
  }

  /** Looking up the name that readdir gives finds that same entry exactly when it is not "dev" and no
      earlier entry has the same name. */
  method FindListed(disk: RamDisk, k: nat) returns (f: Found)
    requires disk.Valid() && k < |disk.files|
    ensures f == Child(k) <==> Name(disk.files[k]) != CString(DEV) && NoneNamed(disk.files, k, Name(disk.files[k]))
  {
    var d := disk.ReadDir(true, k + 1);
    ListedTerminates(disk.children, disk.files, k);
    WithNul(d.name);
    f := disk.FindDir(true, d.name + [0]);
  }
}
