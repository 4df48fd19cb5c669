/**
  The image of the initial ramdisk as the image tool writes it
  (mk_initrd_img/mk_initrd_img.cpp): a count, one 73-byte record a file, then
  the files' contents one after another.
 */
module InitrdImage {
  import opened Bytes

  const MAX_FILE_NAME_LEN: int := 64
  const MAX_FILES: int := 32
  const NODE: int := 73          // magic, name, offset, length, packed
  const FILE_MAGIC: byte := 0xAB
  const SLASH: byte := 0x2F

  datatype File = File(path: seq<byte>, data: seq<byte>)

  /** The records of the tool's table; name holds the 64 bytes of name_. */
  datatype FileNode = FileNode(magic: byte, name: seq<byte>, offset: u32, length: u32)

  // ---------- Names ----------

  /** find_last_of('/'), or -1. */
  function LastSlash(path: seq<byte>): (i: int)
    ensures -1 <= i < |path|
  {
    if path == [] then -1 else if path[|path| - 1] == SLASH then |path| - 1 else LastSlash(path[..|path| - 1])
  }

  function GetFileNameFromPath(path: seq<byte>): seq<byte> {
    path[LastSlash(path) + 1..]
  }

  /** The name is what follows the last slash: it has none itself, and a path without a slash is its own name. */
  lemma {:induction false} FileNameIsLastPart(path: seq<byte>)
    ensures SLASH !in GetFileNameFromPath(path)
    ensures GetFileNameFromPath(path) == path <==> SLASH !in path
    ensures SLASH in path ==> exists i ::
              0 <= i < |path| && path[i] == SLASH && path == path[..i] + [SLASH] + GetFileNameFromPath(path)
  {
    if path != [] && path[|path| - 1] != SLASH {
      var front := path[..|path| - 1];
      FileNameIsLastPart(front);
      assert GetFileNameFromPath(path) == GetFileNameFromPath(front) + [path[|path| - 1]];
      assert path == front + [path[|path| - 1]];
      if SLASH in front {
        var i :| 0 <= i < |front| && front[i] == SLASH && front == front[..i] + [SLASH] + GetFileNameFromPath(front);
        assert path[..i] == front[..i];
        assert path == path[..i] + [SLASH] + GetFileNameFromPath(path);
      }
    } else if path != [] {
      assert path == path[..|path| - 1] + [SLASH] + GetFileNameFromPath(path);
    }
  }

  function Name(f: File): seq<byte> {
    GetFileNameFromPath(f.path)
  }

  /** What the tool and the kernel need: at most 32 files, names of fewer than 64 bytes without a NUL. */
  predicate Accepted(fs: seq<File>) {
    && |fs| <= MAX_FILES
    && forall i :: 0 <= i < |fs| ==>
         |fs[i].path| <= MAX_FILE_NAME_LEN && |Name(fs[i])| < MAX_FILE_NAME_LEN && 0 !in Name(fs[i])
  }

  // ---------- Layout ----------

  function Zeros(n: nat): (z: seq<byte>)
    ensures |z| == n && forall k :: 0 <= k < n ==> z[k] == 0
  {
    seq(n, k => 0)
  }

  /** Bytes of content before file i. */
  function DataBefore(fs: seq<File>, i: nat): nat
    requires i <= |fs|
  {
    if i == 0 then 0 else DataBefore(fs, i - 1) + |fs[i - 1].data|
  }

  /** Where file i's content starts in the image. */
  function OffsetOf(fs: seq<File>, i: nat): nat
    requires i <= |fs|
  {
    4 + NODE * |fs| + DataBefore(fs, i)
  }

  function ImageSize(fs: seq<File>): nat {
    OffsetOf(fs, |fs|)
  }

  function NodeBytes(name: seq<byte>, offset: u32, length: u32): (b: seq<byte>)
    requires |name| <= MAX_FILE_NAME_LEN
    ensures |b| == NODE
  {
    [FILE_MAGIC] + (name + Zeros(MAX_FILE_NAME_LEN - |name|)) + Le32(offset) + Le32(length)
  }

  /** The record of file i. */
  ghost function NodeOf(fs: seq<File>, i: nat): (b: seq<byte>)
    requires Writable(fs) && i < |fs|
    ensures |b| == NODE
  {
    OffsetBound(fs, i, |fs|);
    NodeBytes(Name(fs[i]), OffsetOf(fs, i), |fs[i].data|)
  }

  ghost predicate Writable(fs: seq<File>) {
    Accepted(fs) && ImageSize(fs) < WORLD
  }

  lemma {:induction false} OffsetBound(fs: seq<File>, i: nat, j: nat)
    requires i <= j <= |fs|
    ensures OffsetOf(fs, i) <= OffsetOf(fs, j)
    ensures i < j ==> OffsetOf(fs, i) + |fs[i].data| <= OffsetOf(fs, j)
    decreases j - i
  {
    if i < j { OffsetBound(fs, i, j - 1); }
  }

  /** The first i records. */
  ghost function Nodes(fs: seq<File>, i: nat): seq<byte>
    requires Writable(fs) && i <= |fs|
  {
    if i == 0 then [] else Nodes(fs, i - 1) + NodeOf(fs, i - 1)
  }

  /** The contents of the first i files. */
  function Contents(fs: seq<File>, i: nat): seq<byte>
    requires i <= |fs|
  {
    if i == 0 then [] else Contents(fs, i - 1) + fs[i - 1].data
  }

  ghost function Image(fs: seq<File>): seq<byte>
    requires Writable(fs)
  {
    Le32(|fs|) + Nodes(fs, |fs|) + Contents(fs, |fs|)
  }

  lemma {:induction false} SliceOfFront(a: seq<byte>, b: seq<byte>, lo: nat, hi: nat)
    requires lo <= hi <= |a|
    ensures (a + b)[lo..hi] == a[lo..hi]
  {
  }

  lemma {:induction false} SliceOfBack(a: seq<byte>, b: seq<byte>)
    ensures (a + b)[|a|..|a| + |b|] == b
  {
  }

  lemma {:induction false} NodesAt(fs: seq<File>, i: nat, n: nat)
    requires Writable(fs) && i < n <= |fs|
    ensures |Nodes(fs, n)| == NODE * n
    ensures Nodes(fs, n)[NODE * i..NODE * (i + 1)] == NodeOf(fs, i)
    decreases n
  {
    if i < n - 1 { NodesAt(fs, i, n - 1); }
    NodesLength(fs, n - 1);
    AppendedAt(Nodes(fs, n - 1), NodeOf(fs, n - 1), i, n - 1);
  }

  /** One record more behind n of them. */
  lemma {:induction false} AppendedAt(front: seq<byte>, last: seq<byte>, i: nat, n: nat)
    requires |front| == NODE * n && |last| == NODE && i <= n
    ensures |front + last| == NODE * (n + 1)
    ensures (front + last)[NODE * i..NODE * (i + 1)] == if i < n then front[NODE * i..NODE * (i + 1)] else last
  {
  }

  lemma {:induction false} NodesLength(fs: seq<File>, n: nat)
    requires Writable(fs) && n <= |fs|
    ensures |Nodes(fs, n)| == NODE * n
  {
    if n > 0 { NodesLength(fs, n - 1); }
  }

  lemma {:induction false} ContentsAt(fs: seq<File>, i: nat, n: nat)
    requires i < n <= |fs|
    ensures |Contents(fs, n)| == DataBefore(fs, n) && DataBefore(fs, i) + |fs[i].data| <= DataBefore(fs, n)
    ensures Contents(fs, n)[DataBefore(fs, i)..DataBefore(fs, i) + |fs[i].data|] == fs[i].data
    decreases n
  {
    ContentsLength(fs, n - 1);
    var front, last := Contents(fs, n - 1), fs[n - 1].data;
    if i < n - 1 {
      ContentsAt(fs, i, n - 1);
      SliceOfFront(front, last, DataBefore(fs, i), DataBefore(fs, i) + |fs[i].data|);
    } else {
      SliceOfBack(front, last);
    }
  }

  lemma {:induction false} ContentsLength(fs: seq<File>, n: nat)
    requires n <= |fs|
    ensures |Contents(fs, n)| == DataBefore(fs, n)
  {
    if n > 0 { ContentsLength(fs, n - 1); }
  }

  lemma {:induction false} ImageStart(fs: seq<File>)
    requires Writable(fs)
    ensures 4 <= |Image(fs)| && Image(fs)[..4] == Le32(|fs|)
  {
    Slices(Le32(|fs|), Nodes(fs, |fs|), Contents(fs, |fs|), 0, 0, 0, 0);
  }

  /** The image's parts, by position: each record, which starts with the magic number, and each file's content. */
  lemma {:induction false} ImageParts(fs: seq<File>, i: nat)
    requires Writable(fs) && i < |fs|
    ensures |Image(fs)| == ImageSize(fs)
    ensures Image(fs)[4 + NODE * i..4 + NODE * (i + 1)] == NodeOf(fs, i) && NodeOf(fs, i)[0] == 0xAB
    ensures OffsetOf(fs, i) + |fs[i].data| <= ImageSize(fs)
    ensures Image(fs)[OffsetOf(fs, i)..OffsetOf(fs, i) + |fs[i].data|] == fs[i].data
  {
    var n := |fs|;
    NodesAt(fs, i, n);
    ContentsAt(fs, i, n);
    var a, b, c, x := Le32(n), Nodes(fs, n), Contents(fs, n), DataBefore(fs, i);
    Slices(a, b, c, NODE * i, NODE * (i + 1), x, x + |fs[i].data|);
    assert Image(fs) == a + b + c;
    assert OffsetOf(fs, i) == |a| + |b| + x && NODE * (i + 1) == NODE * i + NODE;
  }

  lemma {:induction false} Slices(a: seq<byte>, b: seq<byte>, c: seq<byte>, i: nat, j: nat, x: nat, y: nat)
    requires i <= j <= |b| && x <= y <= |c|
    ensures (a + b + c)[..|a|] == a
    ensures (a + b + c)[|a| + i..|a| + j] == b[i..j]
    ensures (a + b + c)[|a| + |b| + x..|a| + |b| + y] == c[x..y]
  {
  }

  // ---------- The tool ----------

  /** The tool's table after the first i files. */
  ghost predicate Filled(nodes: seq<FileNode>, fs: seq<File>, i: nat)
    requires Writable(fs) && i <= |fs| <= |nodes|
  {
    forall k :: 0 <= k < i ==> RecordBytes(nodes[k]) == NodeOf(fs, k)
  }

  function RecordBytes(n: FileNode): seq<byte> {
    [n.magic] + n.name + Le32(n.offset) + Le32(n.length)
  }

  method BuildImage(fs: seq<File>) returns (img: seq<byte>)
    requires Writable(fs)
    ensures img == Image(fs)
  {
    var fileNodesNum := |fs|;
    if fileNodesNum > MAX_FILES { fileNodesNum := MAX_FILES; }
    var fileNodes := FillTable(fs, 4 + fileNodesNum * NODE);
    img := WriteNodes(Le32(fileNodesNum), fileNodes, fs);
    img := WriteContents(img, fs);
  }

  /** The second loop. */
  method WriteNodes(head: seq<byte>, nodes: seq<FileNode>, fs: seq<File>) returns (img: seq<byte>)
    requires Writable(fs) && |nodes| == MAX_FILES && Filled(nodes, fs, |fs|)
    ensures img == head + Nodes(fs, |fs|)
  {
    img := head;
    var i := 0;
    while i < |fs|
      invariant 0 <= i <= |fs| && img == head + Nodes(fs, i)
    {
      img := WriteNode(img, nodes[i], NodeOf(fs, i));
      Regroup2(head, Nodes(fs, i), NodeOf(fs, i));
      i := i + 1;
    }
  }

  /** The third loop. */
  method WriteContents(head: seq<byte>, fs: seq<File>) returns (img: seq<byte>)
    ensures img == head + Contents(fs, |fs|)
  {
    img := head;
    var i := 0;
    while i < |fs|
      invariant 0 <= i <= |fs| && img == head + Contents(fs, i)
    {
      Regroup2(head, Contents(fs, i), fs[i].data);
      img := img + fs[i].data;
      i := i + 1;
    }
  }

  /** The first loop: names padded with NULs, offsets running on from the end of the records. */
  method FillTable(fs: seq<File>, start: nat) returns (nodes: seq<FileNode>)
    requires Writable(fs) && start == OffsetOf(fs, 0)
    ensures |nodes| == MAX_FILES && Filled(nodes, fs, |fs|)
  {
    var fileNodes := new FileNode[MAX_FILES](i => FileNode(0, [], 0, 0));
    var i, offset := 0, start;
    while i < |fs|
      invariant 0 <= i <= |fs| && offset == OffsetOf(fs, i)
      invariant Filled(fileNodes[..], fs, i)
    {
      OffsetBound(fs, i, |fs|);
      var name := GetFileNameFromPath(fs[i].path);
      var node := FileNode(FILE_MAGIC, name + Zeros(MAX_FILE_NAME_LEN - |name|), offset, |fs[i].data|);
      assert RecordBytes(node) == NodeOf(fs, i);
      ghost var was := fileNodes[..];
      fileNodes[i] := node;
      assert fileNodes[..] == was[i := node];
      offset := offset + |fs[i].data|;
      i := i + 1;
    }
    nodes := fileNodes[..];
  }

  /** Four writes, one a field. */
  method WriteNode(img: seq<byte>, node: FileNode, ghost record: seq<byte>) returns (r: seq<byte>)
    requires RecordBytes(node) == record
    ensures r == img + record
  {
    r := img + [node.magic];
    r := r + node.name;
    r := r + Le32(node.offset);
    r := r + Le32(node.length);
    Regroup(img, [node.magic], node.name, Le32(node.offset), Le32(node.length));
  }

  lemma {:induction false} Regroup(a: seq<byte>, b: seq<byte>, c: seq<byte>, d: seq<byte>, e: seq<byte>)
    ensures a + b + c + d + e == a + (b + c + d + e)
  {
  }

  lemma {:induction false} Regroup2(a: seq<byte>, b: seq<byte>, c: seq<byte>)
    ensures a + b + c == a + (b + c)
  {
  }
}
