/**
  What the kernel heap's memory means: a tiling of the heap range by chunks,
  each a block or a hole, and what `allocate` and `free` do to that tiling
  (source/kernel_heap.cpp).
 */
module HeapLayout {
  import opened Bytes

  const MAGIC: u32 := 0x123890AB
  const HEADER: int := 12    // magic, isHole, size
  const FOOTER: int := 8     // magic, pointer to the header
  const OVERHEAD: int := 20

  /** What a footer's header pointer holds; the first hole of a heap has no footer. */
  datatype Footer = NoFooter | Link(header: int)

  datatype Chunk = Chunk(addr: u32, size: u32, hole: bool, foot: Footer) {
    function End(): int { addr + size }
  }

  // ---------- Tilings ----------

  predicate Tiled(cs: seq<Chunk>, lo: int, hi: int) {
    if cs == [] then lo == hi else
    && cs[0].addr == lo && cs[|cs| - 1].End() == hi
    && (forall i :: 0 <= i < |cs| - 1 ==> cs[i].End() == cs[i + 1].addr)
    && (forall i :: 0 <= i < |cs| ==> cs[i].size >= OVERHEAD)
  }

  /** A right merge leaves a footer that points at a header inside the hole. */
  predicate FootOk(c: Chunk, last: bool) {
    if !c.hole then c.foot == Link(c.addr)
    else if c.foot.NoFooter? then last
    else c.foot.header == c.addr ||
         (c.addr + OVERHEAD <= c.foot.header && c.foot.header + OVERHEAD <= c.End())
  }

  predicate Coalesced(cs: seq<Chunk>) {
    forall i :: 0 <= i < |cs| - 1 ==> !(cs[i].hole && cs[i + 1].hole)
  }

  lemma {:induction false} HolesApart(cs: seq<Chunk>, i: nat)
    requires Coalesced(cs) && i < |cs| - 1
    ensures !(cs[i].hole && cs[i + 1].hole)
  {
  }

  predicate WellFormed(cs: seq<Chunk>, lo: int, hi: int) {
    && MAGIC < lo < hi <= WORLD
    && Tiled(cs, lo, hi)
    && Coalesced(cs)
    && forall i :: 0 <= i < |cs| ==> FootOk(cs[i], i == |cs| - 1)
  }

  function Holes(cs: seq<Chunk>): seq<int> {
    if cs == [] then [] else (if cs[0].hole then [cs[0].addr] else []) + Holes(cs[1..])
  }

  function TotalSize(cs: seq<Chunk>): int {
    if cs == [] then 0 else cs[0].size + TotalSize(cs[1..])
  }

  /** How many bytes the holes have together. */
  function HoleBytes(cs: seq<Chunk>): int {
    if cs == [] then 0 else (if cs[0].hole then cs[0].size else 0) + HoleBytes(cs[1..])
  }

  lemma {:induction false} HoleBytesAppend(xs: seq<Chunk>, ys: seq<Chunk>)
    ensures HoleBytes(xs + ys) == HoleBytes(xs) + HoleBytes(ys)
  {
    if xs == [] {
      assert xs + ys == ys;
    } else {
      assert (xs + ys)[0] == xs[0] && (xs + ys)[1..] == xs[1..] + ys;
      HoleBytesAppend(xs[1..], ys);
    }
  }

  lemma {:induction false} HoleBytesAround(xs: seq<Chunk>, mid: seq<Chunk>, ys: seq<Chunk>)
    ensures HoleBytes(xs + mid + ys) == HoleBytes(xs) + HoleBytes(mid) + HoleBytes(ys)
  {
    HoleBytesAppend(xs + mid, ys);
    HoleBytesAppend(xs, mid);
  }

  lemma {:induction false} HoleBytesOne(c: Chunk)
    ensures HoleBytes([c]) == if c.hole then c.size else 0
  {
    assert [c][1..] == [];
  }

  /** The chunks' places and kinds, without the footers' pointers. */
  function Shape(cs: seq<Chunk>): seq<(int, int, bool)> {
    seq(|cs|, i requires 0 <= i < |cs| => (cs[i].addr, cs[i].size, cs[i].hole))
  }

  /** Sizes always add up to the heap's length. */
  lemma {:induction false} TiledTotal(cs: seq<Chunk>, lo: int, hi: int)
    requires Tiled(cs, lo, hi)
    ensures TotalSize(cs) == hi - lo
  {
    if cs != [] { TiledTotal(cs[1..], cs[0].End(), hi); }
  }

  lemma {:induction false} TiledSplit(cs: seq<Chunk>, i: nat, lo: int, hi: int)
    requires Tiled(cs, lo, hi) && i < |cs|
    ensures Tiled(cs[..i], lo, cs[i].addr) && Tiled(cs[i + 1..], cs[i].End(), hi)
  {
  }

  lemma {:induction false} TiledJoin(xs: seq<Chunk>, ys: seq<Chunk>, lo: int, mid: int, hi: int)
    requires Tiled(xs, lo, mid) && Tiled(ys, mid, hi)
    ensures Tiled(xs + ys, lo, hi)
  {
    var cs := xs + ys;
    forall i | 0 <= i < |cs| - 1 ensures cs[i].End() == cs[i + 1].addr {
      if i < |xs| - 1 {} else if i == |xs| - 1 {} else {
        assert ys[i - |xs|].End() == ys[i - |xs| + 1].addr;
      }
    }
  }

  /** Distinct chunks do not overlap, and lie in address order. */
  lemma {:induction false} Ordered(cs: seq<Chunk>, lo: int, hi: int, i: nat, j: nat)
    requires Tiled(cs, lo, hi) && i < j < |cs|
    ensures cs[i].End() <= cs[j].addr
    decreases j - i
  {
    if i + 1 < j { Ordered(cs, lo, hi, i + 1, j); }
  }

  lemma {:induction false} Inside(cs: seq<Chunk>, lo: int, hi: int, i: nat)
    requires Tiled(cs, lo, hi) && i < |cs|
    ensures lo <= cs[i].addr && cs[i].End() <= hi
  {
    if 0 < i { Ordered(cs, lo, hi, 0, i); }
    if i < |cs| - 1 { Ordered(cs, lo, hi, i, |cs| - 1); }
  }

  lemma {:induction false} Span(cs: seq<Chunk>, lo: int, hi: int, i: nat, j: nat)
    requires Tiled(cs, lo, hi) && i <= j < |cs|
    ensures lo <= cs[i].addr && cs[i].addr + OVERHEAD <= cs[j].End() <= hi
  {
    Inside(cs, lo, hi, i);
    Inside(cs, lo, hi, j);
    if i < j { Ordered(cs, lo, hi, i, j); }
  }

  // ---------- The hole index ----------

  lemma {:induction false} HolesAppend(xs: seq<Chunk>, ys: seq<Chunk>)
    ensures Holes(xs + ys) == Holes(xs) + Holes(ys)
  {
    if xs == [] {
      assert xs + ys == ys;
    } else {
      var first := if xs[0].hole then [xs[0].addr as int] else [];
      assert (xs + ys)[0] == xs[0] && (xs + ys)[1..] == xs[1..] + ys;
      HolesAppend(xs[1..], ys);
      assert first + (Holes(xs[1..]) + Holes(ys)) == first + Holes(xs[1..]) + Holes(ys);
    }
  }

  lemma {:induction false} HolesAround(xs: seq<Chunk>, mid: seq<Chunk>, ys: seq<Chunk>)
    ensures Holes(xs + mid + ys) == Holes(xs) + Holes(mid) + Holes(ys)
  {
    HolesAppend(xs + mid, ys);
    HolesAppend(xs, mid);
  }

  /** The index lists the holes' addresses, each inside the tiled range, in ascending order. */
  lemma {:induction false} HolesInOrder(cs: seq<Chunk>, lo: int, hi: int)
    requires Tiled(cs, lo, hi)
    ensures forall k :: 0 <= k < |Holes(cs)| ==> lo <= Holes(cs)[k] < hi
    ensures forall j, k :: 0 <= j < k < |Holes(cs)| ==> Holes(cs)[j] < Holes(cs)[k]
  {
    if cs != [] {
      HolesInOrder(cs[1..], cs[0].End(), hi);
      Inside(cs, lo, hi, 0);
    }
  }

  /** Entry k of the index is a hole, with exactly k holes before it. */
  lemma {:induction false} HoleOfIndex(cs: seq<Chunk>, k: nat) returns (i: nat)
    requires k < |Holes(cs)|
    ensures i < |cs| && cs[i].hole && cs[i].addr == Holes(cs)[k]
    ensures Holes(cs[..i]) == Holes(cs)[..k] && Holes(cs[i + 1..]) == Holes(cs)[k + 1..]
  {
    if cs[0].hole && k == 0 {
      i := 0;
    } else {
      var d := if cs[0].hole then 1 else 0;
      var i' := HoleOfIndex(cs[1..], k - d);
      i := i' + 1;
      assert cs[..i][1..] == cs[1..][..i'];
    }
  }

  /** Every hole is listed. */
  lemma {:induction false} IndexOfHole(cs: seq<Chunk>, i: nat) returns (k: nat)
    requires i < |cs| && cs[i].hole
    ensures k < |Holes(cs)| && Holes(cs)[k] == cs[i].addr && k == |Holes(cs[..i])|
  {
    if i == 0 {
      k := 0;
    } else {
      var k' := IndexOfHole(cs[1..], i - 1);
      assert cs[..i][1..] == cs[1..][..i - 1];
      k := k' + if cs[0].hole then 1 else 0;
    }
  }

  lemma {:induction false} HolesSplit(cs: seq<Chunk>, i: nat)
    requires i < |cs|
    ensures Holes(cs) == Holes(cs[..i]) + (if cs[i].hole then [cs[i].addr as int] else []) + Holes(cs[i + 1..])
  {
    assert cs == cs[..i] + [cs[i]] + cs[i + 1..];
    HolesAround(cs[..i], [cs[i]], cs[i + 1..]);
    HolesOne(cs[i]);
  }

  lemma {:induction false} HolesOne(c: Chunk)
    ensures Holes([c]) == if c.hole then [c.addr as int] else []
  {
    assert [c][1..] == [];
  }

  lemma {:induction false} HoleCountGrows(cs: seq<Chunk>, i: nat, j: nat)
    requires i < j <= |cs| && cs[i].hole
    ensures |Holes(cs[..i])| < |Holes(cs[..j])|
  {
    assert cs[..j] == cs[..i] + cs[i..j];
    HolesAppend(cs[..i], cs[i..j]);
  }

  /** A hole's place in the index is the number of holes before it. */
  lemma {:induction false} HoleCountsAround(cs: seq<Chunk>, i: nat)
    requires i < |cs| && cs[i].hole
    ensures forall j :: 0 <= j < i && cs[j].hole ==> |Holes(cs[..j])| < |Holes(cs[..i])|
    ensures forall j :: i < j < |cs| ==> |Holes(cs[..i])| < |Holes(cs[..j])|
  {
    forall j | 0 <= j < i && cs[j].hole ensures |Holes(cs[..j])| < |Holes(cs[..i])| { HoleCountGrows(cs, j, i); }
    forall j | i < j < |cs| ensures |Holes(cs[..i])| < |Holes(cs[..j])| { HoleCountGrows(cs, i, j); }
  }

  lemma {:induction false} HoleCountsBelow(cs: seq<Chunk>)
    ensures forall j :: 0 <= j < |cs| && cs[j].hole ==> |Holes(cs[..j])| < |Holes(cs)|
  {
    forall j | 0 <= j < |cs| && cs[j].hole ensures |Holes(cs[..j])| < |Holes(cs)| { var k := IndexOfHole(cs, j); }
  }

  // ---------- Memory ----------

  predicate HeaderAt(m: seq<byte>, p: int, hole: bool, size: int) {
    && 0 <= p && p + HEADER <= |m|
    && Get32(m, p) == MAGIC && m[p + 4] == (if hole then 1 else 0) && Get32(m, p + 8) == size
  }

  predicate FooterAt(m: seq<byte>, p: int, header: int) {
    0 <= p && p + FOOTER <= |m| && Get32(m, p) == MAGIC && Get32(m, p + 4) == header
  }

  /** The chunk's header and footer are in memory, and what a hole's footer points at is marked a hole. */
  predicate InMemory(m: seq<byte>, c: Chunk) {
    && HeaderAt(m, c.addr, c.hole, c.size)
    && (c.foot.Link? ==> FooterAt(m, c.End() - FOOTER, c.foot.header))
    && (c.hole && c.foot.Link? ==> 0 <= c.foot.header && c.foot.header + HEADER <= |m| && m[c.foot.header + 4] == 1)
  }

  predicate AllInMemory(m: seq<byte>, cs: seq<Chunk>) {
    forall k :: 0 <= k < |cs| ==> InMemory(m, cs[k])
  }

  predicate HeapInv(m: seq<byte>, index: seq<int>, lo: int, hi: int, cs: seq<Chunk>) {
    && WellFormed(cs, lo, hi)
    && (forall i :: 0 <= i < |cs| ==> InMemory(m, cs[i]))
    && index == Holes(cs)
  }

  lemma {:induction false} InMemoryFrame(m: seq<byte>, m': seq<byte>, c: Chunk, last: bool)
    requires InMemory(m, c) && FootOk(c, last) && c.size >= OVERHEAD
    requires Agree(m, m', c.addr, c.End())
    ensures InMemory(m', c)
  {
  }

  /** Rewriting a stretch of chunks in place leaves every other chunk in memory as it was. */
  lemma {:induction false} ReplaceInMemory(cs: seq<Chunk>, i: nat, j: nat, mid: seq<Chunk>, lo: int, hi: int,
                                           m: seq<byte>, m': seq<byte>)
    requires WellFormed(cs, lo, hi) && i < j <= |cs|
    requires forall k :: 0 <= k < |cs| ==> InMemory(m, cs[k])
    requires SameOutside(m, m', cs[i].addr, cs[j - 1].End())
    requires forall k :: 0 <= k < |mid| ==> InMemory(m', mid[k])
    ensures forall k :: 0 <= k < |Replace(cs, i, j, mid)| ==> InMemory(m', Replace(cs, i, j, mid)[k])
  {
    var cs' := Replace(cs, i, j, mid);
    forall k | 0 <= k < |cs'| ensures InMemory(m', cs'[k]) {
      if i <= k < i + |mid| {
        assert cs'[k] == mid[k - i];
      } else {
        var q := if k < i then k else k - |mid| - i + j;
        assert cs'[k] == cs[q];
        if q < i { Ordered(cs, lo, hi, q, i); } else if j - 1 < q { Ordered(cs, lo, hi, j - 1, q); }
        InMemoryFrame(m, m', cs[q], q == |cs| - 1);
      }
    }
  }

  // ---------- allocate ----------

  /** How far above a hole's payload the next page boundary is (`offset` in findSmallestHole). */
  function Offset(addr: u32): u32 {
    var r := Add32(addr, HEADER) % PAGE;
    if r != 0 then PAGE - r else 0
  }

  /** The test of findSmallestHole; with pageAlign a difference that may be negative is compared as unsigned. */
  predicate Fits(addr: u32, size: u32, need: u32, pageAlign: bool) {
    if pageAlign then Sub32(size, Offset(addr)) >= need else size >= need
  }

  lemma {:induction false} PageRemainder(a: u32)
    ensures (a + PAGE - a % PAGE) % PAGE == 0
    ensures Add32(a, HEADER) % PAGE == (a + HEADER) % PAGE
    ensures (a + HEADER) % PAGE == 0 <==> a % PAGE == PAGE - HEADER
  {
    assert a == PAGE * (a / PAGE) + a % PAGE;
    assert a + PAGE - a % PAGE == PAGE * (a / PAGE + 1);
    if a % PAGE < PAGE - HEADER {
      assert (a + HEADER) % PAGE == a % PAGE + HEADER;
    } else {
      assert a + HEADER == PAGE * (a / PAGE + 1) + (a % PAGE + HEADER - PAGE);
    }
  }

  /** That offset is the distance to the next boundary. */
  lemma {:induction false} OffsetIs(a: u32)
    ensures 0 <= Offset(a) < PAGE && (a + HEADER + Offset(a)) % PAGE == 0
  {
    PageRemainder(a);
    var x := a + HEADER;
    assert x == PAGE * (x / PAGE) + x % PAGE;
    if x % PAGE != 0 { assert x + Offset(a) == PAGE * (x / PAGE + 1); }
  }

  /** A hole of h bytes at a passes the test if it has room for need bytes, behind the offset when these are to be
      aligned; an aligned request also passes when the hole ends below the boundary, unless it is so long that
      even the wrapped difference is too short. */
  lemma {:induction false} FitsIff(a: u32, h: u32, need: u32, pageAlign: bool)
    ensures !pageAlign ==> (Fits(a, h, need, pageAlign) <==> need <= h)
    ensures pageAlign ==> (Fits(a, h, need, pageAlign)
                           <==> Offset(a) + need <= h || (h < Offset(a) && Offset(a) + need <= h + WORLD))
  {
  }

  /** Where `allocate` puts the front hole (if front > 0), the block and the tail hole (if tailSize > 0). */
  datatype Plan = Plan(front: u32, loc: u32, payload: u32, size: u32, tail: u32, tailSize: u32)

  /** The arithmetic of `allocate` for a request of n bytes and a hole of h bytes at a. */
  function LayOut(a: u32, h: u32, n: u32, pageAlign: bool): Plan {
    var need := Add32(n, OVERHEAD);
    var absorb := Sub32(h, need) < OVERHEAD;
    var payload := if absorb then Add32(n, Sub32(h, need)) else n;
    var size := if absorb then h else need;
    var split := pageAlign && Add32(a, HEADER) % PAGE != 0;
    var front := if split then Sub32(PAGE - a % PAGE, HEADER) else 0;
    var loc := if split then Sub32(Add32(a, PAGE - a % PAGE), HEADER) else a;
    var rest := Sub32(h, front);
    Plan(front, loc, payload, size,
         Add32(Add32(Add32(loc, HEADER), payload), FOOTER), Sub32(rest, size))
  }

  /** The pieces cover the hole exactly and are large enough for a header and a footer. */
  predicate PlanCovers(p: Plan, a: u32, h: int) {
    && p.loc == a + p.front && (p.front == 0 || p.front >= OVERHEAD)
    && p.size == p.payload + OVERHEAD
    && (p.tailSize == 0 || (p.tailSize >= OVERHEAD && p.tail == p.loc + p.size))
    && p.front + p.size + p.tailSize == h
  }

  /** The pieces cover the hole and serve the request. */
  predicate PlanTiles(p: Plan, a: u32, h: u32, n: u32, pageAlign: bool) {
    PlanCovers(p, a, h) && p.payload >= n && (pageAlign ==> (p.loc + HEADER) % PAGE == 0)
  }

  /** What a caller can check of the hole: room, and for a front hole that it and what is left behind are 0 or at least
      20 bytes. */
  predicate Sound(a: u32, h: u32, n: u32, pageAlign: bool) {
    && n + OVERHEAD <= h
    && (pageAlign && (a + HEADER) % PAGE != 0 ==>
          var f := PAGE - HEADER - a % PAGE;
          f >= OVERHEAD && (h == f + n + OVERHEAD || h >= f + n + 2 * OVERHEAD))
  }

  lemma {:induction false} SplitTilesIff(a: u32, h: u32, n: u32)
    requires h >= OVERHEAD && a + h <= WORLD && Add32(a, HEADER) % PAGE != 0
    ensures PlanTiles(LayOut(a, h, n, true), a, h, n, true) <==> Sound(a, h, n, true)
  {
    PageRemainder(a);
    var p, f := LayOut(a, h, n, true), PAGE - HEADER - a % PAGE;
    if n + OVERHEAD >= WORLD {
      assert p.payload < n || p.size != p.payload + OVERHEAD;
    } else if f < 0 {
      assert p.front > h;
    } else {
      assert p.front == f && p.loc == a + f;
    }
  }

  /** For every hole and request: the computed layout is a tiling exactly when Sound holds. */
  lemma {:induction false} LayOutTilesIff(a: u32, h: u32, n: u32, pageAlign: bool)
    requires h >= OVERHEAD && a + h <= WORLD
    ensures PlanTiles(LayOut(a, h, n, pageAlign), a, h, n, pageAlign) <==> Sound(a, h, n, pageAlign)
  {
    if pageAlign && Add32(a, HEADER) % PAGE != 0 {
      SplitTilesIff(a, h, n);
    } else {
      assert Add32(n, OVERHEAD) == n + OVERHEAD || Add32(n, OVERHEAD) == n + OVERHEAD - WORLD;
    }
  }

  /** The block takes what the request needs, and the whole hole when what would be left is too short for another; it
      starts at the front, or where the first boundary puts its payload. */
  lemma {:induction false} LayOutTakes(a: u32, h: u32, n: u32, pageAlign: bool)
    requires h >= OVERHEAD && a + h <= WORLD && Sound(a, h, n, pageAlign)
    ensures var p := LayOut(a, h, n, pageAlign);
      && p.size == (if h < n + 2 * OVERHEAD then h else n + OVERHEAD) && n + OVERHEAD <= p.size < n + 2 * OVERHEAD
      && p.loc == a + if pageAlign then Offset(a) else 0
  {
    PageRemainder(a);
  }

  /** The front hole is as long as the offset that findSmallestHole computed. */
  lemma {:induction false} FrontIsOffset(a: u32, h: u32, n: u32)
    requires h >= OVERHEAD && a + h <= WORLD && Sound(a, h, n, true)
    ensures LayOut(a, h, n, true).front == Offset(a) && Fits(a, h, n + OVERHEAD, true)
  {
  }

  function Front(a: u32, p: Plan): Chunk { Chunk(a, p.front, true, Link(a)) }
  function Block(p: Plan): Chunk { Chunk(p.loc, p.size, false, Link(p.loc)) }
  function Tail(p: Plan): Chunk { Chunk(p.tail, p.tailSize, true, Link(p.tail)) }

  function Pieces(a: u32, p: Plan): seq<Chunk> {
    (if p.front > 0 then [Front(a, p)] else []) + [Block(p)] + (if p.tailSize > 0 then [Tail(p)] else [])
  }

  /** Chunk i is the lowest hole that passes the fit test. */
  predicate FirstFit(cs: seq<Chunk>, i: int, need: u32, pageAlign: bool) {
    && 0 <= i < |cs| && cs[i].hole && Fits(cs[i].addr, cs[i].size, need, pageAlign)
    && forall j :: 0 <= j < i && cs[j].hole ==> !Fits(cs[j].addr, cs[j].size, need, pageAlign)
  }

  predicate NoFit(cs: seq<Chunk>, need: u32, pageAlign: bool) {
    forall j :: 0 <= j < |cs| && cs[j].hole ==> !Fits(cs[j].addr, cs[j].size, need, pageAlign)
  }

  /** No hole passes when each is too small. */
  lemma {:induction false} NoFitIff(cs: seq<Chunk>, size: u32, pageAlign: bool)
    ensures !pageAlign ==> (NoFit(cs, size, pageAlign)
                            <==> forall j :: 0 <= j < |cs| && cs[j].hole ==> cs[j].size < size)
    ensures pageAlign ==> (NoFit(cs, size, pageAlign) <==> forall j :: 0 <= j < |cs| && cs[j].hole ==>
              var d := Offset(cs[j].addr);
              if d <= cs[j].size then cs[j].size < d + size else cs[j].size + WORLD < d + size)
  {
    forall j | 0 <= j < |cs| ensures var d := Offset(cs[j].addr);
      Fits(cs[j].addr, cs[j].size, size, pageAlign) <==>
        if !pageAlign then size <= cs[j].size
        else if d <= cs[j].size then d + size <= cs[j].size else d + size <= cs[j].size + WORLD
    {
      FitsIff(cs[j].addr, cs[j].size, size, pageAlign);
    }
  }

  /** The first that passes is large enough, and all below it are too small. */
  lemma {:induction false} FirstFitIs(cs: seq<Chunk>, i: int, size: u32, pageAlign: bool)
    requires FirstFit(cs, i, size, pageAlign)
    ensures !pageAlign ==> size <= cs[i].size && forall j :: 0 <= j < i && cs[j].hole ==> cs[j].size < size
    ensures pageAlign ==>
      && (var d := Offset(cs[i].addr);
          if d <= cs[i].size then d + size <= cs[i].size else d + size <= cs[i].size + WORLD)
      && forall j :: 0 <= j < i && cs[j].hole ==>
           var d := Offset(cs[j].addr);
           if d <= cs[j].size then cs[j].size < d + size else cs[j].size + WORLD < d + size
  {
    FitsIff(cs[i].addr, cs[i].size, size, pageAlign);
    NoFitIff(cs[..i], size, pageAlign);
  }

  function PlanAt(c: Chunk, n: u32, pageAlign: bool): Plan {
    LayOut(c.addr, c.size, n, pageAlign)
  }

  function Replace(cs: seq<Chunk>, lo: nat, hi: nat, mid: seq<Chunk>): seq<Chunk>
    requires lo <= hi <= |cs|
  {
    cs[..lo] + mid + cs[hi..]
  }

  /** The tiling after hole i was cut up as planned. */
  function Allocated(cs: seq<Chunk>, i: nat, p: Plan): seq<Chunk>
    requires i < |cs|
  {
    Replace(cs, i, i + 1, Pieces(cs[i].addr, p))
  }

  lemma {:induction false} PiecesTile(c: Chunk, p: Plan)
    requires c.size >= OVERHEAD && PlanCovers(p, c.addr, c.size)
    ensures Tiled(Pieces(c.addr, p), c.addr, c.End())
  {
  }

  /** Replacing a stretch of chunks by chunks that tile the same range keeps the tiling. */
  lemma {:induction false} ReplaceTiled(cs: seq<Chunk>, i: nat, j: nat, mid: seq<Chunk>, lo: int, hi: int)
    requires Tiled(cs, lo, hi) && i < j <= |cs|
    requires Tiled(mid, cs[i].addr, cs[j - 1].End())
    ensures Tiled(Replace(cs, i, j, mid), lo, hi)
  {
    TiledSplit(cs, i, lo, hi);
    TiledSplit(cs, j - 1, lo, hi);
    TiledJoin(cs[..i], mid, lo, cs[i].addr, cs[j - 1].End());
    TiledJoin(cs[..i] + mid, cs[j..], lo, cs[j - 1].End(), hi);
  }

  /** Replacing chunks i..j-1 by chunks over the same range keeps a heap well formed when no two holes meet. */
  lemma {:induction false} ReplaceWellFormed(cs: seq<Chunk>, lo: int, hi: int, i: nat, j: nat, mid: seq<Chunk>)
    requires WellFormed(cs, lo, hi) && i < j <= |cs| && mid != []
    requires Tiled(mid, cs[i].addr, cs[j - 1].End()) && Coalesced(mid)
    requires forall k :: 0 <= k < |mid| ==> FootOk(mid[k], k == |mid| - 1 && j == |cs|)
    requires 0 < i ==> !(cs[i - 1].hole && mid[0].hole)
    requires j < |cs| ==> !(mid[|mid| - 1].hole && cs[j].hole)
    ensures WellFormed(Replace(cs, i, j, mid), lo, hi)
  {
    ReplaceTiled(cs, i, j, mid, lo, hi);
    var cs' := Replace(cs, i, j, mid);
    var d := i + |mid| - j;
    forall k | 0 <= k < |cs'| ensures FootOk(cs'[k], k == |cs'| - 1) {
      if k < i { assert FootOk(cs[k], false); }
      else if k < i + |mid| { assert FootOk(mid[k - i], k == |cs'| - 1); }
      else { assert FootOk(cs[k - d], k - d == |cs| - 1); }
    }
    forall k | 0 <= k < |cs'| - 1 ensures !(cs'[k].hole && cs'[k + 1].hole) {
      if k + 1 < i { assert !(cs[k].hole && cs[k + 1].hole); }
      else if k + 1 == i {}
      else if k + 1 < i + |mid| { assert !(mid[k - i].hole && mid[k - i + 1].hole); }
      else if k + 1 == i + |mid| {}
      else { assert !(cs[k - d].hole && cs[k - d + 1].hole); }
    }
  }

  /** An allocation that cuts its hole up exactly keeps the tiling, its footers and the coalescing. */
  lemma {:induction false} AllocatedWellFormed(cs: seq<Chunk>, lo: int, hi: int, i: nat, p: Plan)
    requires WellFormed(cs, lo, hi) && i < |cs| && cs[i].hole && PlanCovers(p, cs[i].addr, cs[i].size)
    ensures WellFormed(Allocated(cs, i, p), lo, hi)
  {
    PiecesTile(cs[i], p);
    if 0 < i { HolesApart(cs, i - 1); }
    ReplaceWellFormed(cs, lo, hi, i, i + 1, Pieces(cs[i].addr, p));
  }

  /** The holes have lost the bytes of the block, and no others. */
  lemma {:induction false} AllocatedBytes(cs: seq<Chunk>, i: nat, p: Plan)
    requires i < |cs| && cs[i].hole && PlanCovers(p, cs[i].addr, cs[i].size)
    ensures HoleBytes(Allocated(cs, i, p)) == HoleBytes(cs) - p.size
  {
    HoleBytesAround(cs[..i], Pieces(cs[i].addr, p), cs[i + 1..]);
    HoleBytesAround(cs[..i], [cs[i]], cs[i + 1..]);
    HoleBytesOne(cs[i]);
    assert cs == cs[..i] + [cs[i]] + cs[i + 1..];
    PiecesBytes(cs[i].addr, p);
  }

  lemma {:induction false} PiecesBytes(a: u32, p: Plan)
    ensures HoleBytes(Pieces(a, p)) == p.front + p.tailSize
  {
    var front := if p.front > 0 then [Front(a, p)] else [];
    var tail := if p.tailSize > 0 then [Tail(p)] else [];
    HoleBytesAround(front, [Block(p)], tail);
    HoleBytesOne(Front(a, p));
    HoleBytesOne(Block(p));
    HoleBytesOne(Tail(p));
  }

  /** The index after an allocation: the hole's entry replaced by those of the front and tail holes. */
  lemma {:induction false} AllocatedHoles(cs: seq<Chunk>, i: nat, p: Plan)
    requires i < |cs|
    ensures Holes(Allocated(cs, i, p)) ==
      Holes(cs[..i]) + (if p.front > 0 then [cs[i].addr as int] else [])
      + (if p.tailSize > 0 then [p.tail as int] else []) + Holes(cs[i + 1..])
  {
    HolesAround(cs[..i], Pieces(cs[i].addr, p), cs[i + 1..]);
    PiecesHoles(cs[i].addr, p);
  }

  lemma {:induction false} PiecesHoles(a: u32, p: Plan)
    ensures Holes(Pieces(a, p))
            == (if p.front > 0 then [a as int] else []) + (if p.tailSize > 0 then [p.tail as int] else [])
  {
    var front := if p.front > 0 then [Front(a, p)] else [];
    var tail := if p.tailSize > 0 then [Tail(p)] else [];
    HolesAround(front, [Block(p)], tail);
  }

  // ---------- free ----------

  predicate IsBlock(cs: seq<Chunk>, i: int) {
    0 <= i < |cs| && !cs[i].hole
  }

  predicate LeftHole(cs: seq<Chunk>, i: int) {
    0 < i < |cs| && cs[i - 1].hole
  }

  predicate RightHole(cs: seq<Chunk>, i: int) {
    0 <= i < |cs| - 1 && cs[i + 1].hole
  }

  /** The hole before chunk i has a footer that no longer points at its own header. */
  predicate StaleLeft(cs: seq<Chunk>, i: int) {
    LeftHole(cs, i) && cs[i - 1].foot != Link(cs[i - 1].addr)
  }

  function MergeLo(cs: seq<Chunk>, i: nat): nat {
    if LeftHole(cs, i) then i - 1 else i
  }

  function MergeHi(cs: seq<Chunk>, i: nat): nat {
    if RightHole(cs, i) then i + 2 else i + 1
  }

  function Word(n: int): u32 {
    if 0 <= n < WORLD then n else 0
  }

  /** The hole that chunk i becomes, with its hole neighbours merged in.
      After a right merge the last footer of the hole is left as it was. */
  function Merged(cs: seq<Chunk>, i: nat): Chunk
    requires i < |cs|
  {
    var addr := cs[MergeLo(cs, i)].addr;
    var end := cs[MergeHi(cs, i) - 1].End();
    Chunk(addr, Word(end - addr), true, if RightHole(cs, i) then cs[i + 1].foot else Link(addr))
  }

  function Freed(cs: seq<Chunk>, i: nat): seq<Chunk>
    requires i < |cs|
  {
    Replace(cs, MergeLo(cs, i), MergeHi(cs, i), [Merged(cs, i)])
  }

  lemma {:induction false} OneChunk(c: Chunk, last: bool)
    requires OVERHEAD <= c.size && FootOk(c, last)
    ensures Tiled([c], c.addr, c.End()) && Coalesced([c])
  {
  }

  lemma {:induction false} MergedChunk(cs: seq<Chunk>, lo: int, hi: int, i: nat)
    requires WellFormed(cs, lo, hi) && IsBlock(cs, i)
    ensures Merged(cs, i).addr == cs[MergeLo(cs, i)].addr && Merged(cs, i).End() == cs[MergeHi(cs, i) - 1].End()
    ensures OVERHEAD <= Merged(cs, i).size && FootOk(Merged(cs, i), MergeHi(cs, i) == |cs|)
  {
    var l, r := MergeLo(cs, i), MergeHi(cs, i);
    if RightHole(cs, i) { assert FootOk(cs[i + 1], i + 1 == |cs| - 1); }
    Span(cs, lo, hi, l, r - 1);
    if l < r - 1 { Ordered(cs, lo, hi, l, r - 1); }
  }

  /** Merging a freed block with its neighbours keeps the tiling, its footers and the coalescing. */
  lemma {:induction false} FreedWellFormed(cs: seq<Chunk>, lo: int, hi: int, i: nat)
    requires WellFormed(cs, lo, hi) && IsBlock(cs, i)
    ensures WellFormed(Freed(cs, i), lo, hi)
  {
    var l, r, c := MergeLo(cs, i), MergeHi(cs, i), Merged(cs, i);
    if 0 < l { HolesApart(cs, l - 1); }
    if r < |cs| { HolesApart(cs, r - 1); }
    MergedChunk(cs, lo, hi, i);
    OneChunk(c, r == |cs|);
    ReplaceWellFormed(cs, lo, hi, l, r, [c]);
  }

  /** The holes have gained the bytes of the block. */
  lemma {:induction false} FreedBytes(cs: seq<Chunk>, lo: int, hi: int, i: nat)
    requires WellFormed(cs, lo, hi) && IsBlock(cs, i)
    ensures HoleBytes(Freed(cs, i)) == HoleBytes(cs) + cs[i].size
  {
    HoleBytesReplaced(cs, MergeLo(cs, i), MergeHi(cs, i), Merged(cs, i));
    StretchBytes(cs, lo, hi, i);
  }

  lemma {:induction false} HoleBytesReplaced(cs: seq<Chunk>, l: nat, r: nat, c: Chunk)
    requires l <= r <= |cs| && c.hole
    ensures HoleBytes(cs[..l] + [c] + cs[r..]) == HoleBytes(cs) - HoleBytes(cs[l..r]) + c.size
  {
    HoleBytesAround(cs[..l], [c], cs[r..]);
    assert cs[l..] == cs[l..r] + cs[r..];
    assert cs == cs[..l] + cs[l..r] + cs[r..];
    HoleBytesAround(cs[..l], cs[l..r], cs[r..]);
    HoleBytesOne(c);
  }

  /** What is merged is one stretch of the heap. */
  lemma {:induction false} StretchBytes(cs: seq<Chunk>, lo: int, hi: int, i: nat)
    requires WellFormed(cs, lo, hi) && IsBlock(cs, i)
    ensures Merged(cs, i).size == HoleBytes(cs[MergeLo(cs, i)..MergeHi(cs, i)]) + cs[i].size
  {
    var l, r := MergeLo(cs, i), MergeHi(cs, i);
    MergedChunk(cs, lo, hi, i);
    assert cs[l..r] == (if l < i then [cs[i - 1]] else []) + [cs[i]] + (if i + 1 < r then [cs[i + 1]] else []);
    HoleBytesAround(if l < i then [cs[i - 1]] else [], [cs[i]], if i + 1 < r then [cs[i + 1]] else []);
    HoleBytesOne(cs[i]);
    if l < i { HoleBytesOne(cs[i - 1]); }
    if i + 1 < r { HoleBytesOne(cs[i + 1]); }
  }

  /** The index after a free: the left hole keeps its entry, the right hole loses it. */
  lemma {:induction false} FreedHoles(cs: seq<Chunk>, lo: int, hi: int, i: nat)
    requires WellFormed(cs, lo, hi) && IsBlock(cs, i)
    ensures Holes(Freed(cs, i)) ==
            Holes(cs[..MergeLo(cs, i)]) + [cs[MergeLo(cs, i)].addr as int] + Holes(cs[MergeHi(cs, i)..])
  {
    var c := Merged(cs, i);
    HolesAround(cs[..MergeLo(cs, i)], [c], cs[MergeHi(cs, i)..]);
    HolesOne(c);
  }

  /** A chunk marked as a hole that the index does not list: no tiling explains such a heap. */
  lemma {:induction false} LeakedIsInvalid(m: seq<byte>, index: seq<int>, lo: int, hi: int, cs: seq<Chunk>, i: nat,
                                           cs': seq<Chunk>)
    requires WellFormed(cs, lo, hi) && i < |cs|
    requires forall k :: 0 <= k < i ==> HeaderAt(m, cs[k].addr, cs[k].hole, cs[k].size)
    requires HeaderAt(m, cs[i].addr, true, cs[i].size) && cs[i].addr as int !in index
    ensures !HeapInv(m, index, lo, hi, cs')
  {
    if HeapInv(m, index, lo, hi, cs') {
      SameChunks(m, index, lo, hi, cs, i, cs');
      assert InMemory(m, cs'[i]);
      var k := IndexOfHole(cs', i);
      assert false;
    }
  }

  /** The headers in memory fix where the chunks are. */
  lemma {:induction false} SameChunks(m: seq<byte>, index: seq<int>, lo: int, hi: int, cs: seq<Chunk>, i: nat,
                                      cs': seq<Chunk>)
    requires WellFormed(cs, lo, hi) && i < |cs|
    requires forall k :: 0 <= k < i ==> HeaderAt(m, cs[k].addr, cs[k].hole, cs[k].size)
    requires HeapInv(m, index, lo, hi, cs')
    ensures i < |cs'| && cs'[i].addr == cs[i].addr
  {
    if i > 0 {
      SameChunks(m, index, lo, hi, cs, i - 1, cs');
      assert InMemory(m, cs'[i - 1]);
      assert cs'[i - 1].End() == cs[i - 1].End() == cs[i].addr;
      Inside(cs, lo, hi, i);
    }
  }

  /** Some tiling explains the memory and the index. */
  ghost predicate Explained(m: seq<byte>, index: seq<int>, lo: int, hi: int) {
    exists cs :: HeapInv(m, index, lo, hi, cs)
  }
}
