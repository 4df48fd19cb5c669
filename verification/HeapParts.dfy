/**
  The pieces that a hole is made of. A freed chunk that a merge has absorbed keeps
  its header and its footer's magic number inside the hole, so `free` takes a
  pointer to it for one to a chunk (source/kernel_heap.cpp:155-190).
 */
module HeapParts {
  import opened Bytes
  import opened HeapLayout
  import opened HeapMerging
  import opened OrderedArrays

  /** A piece of a hole: where its header is, what size that says, and the header that the footer below names, with
      whether that one says hole. */
  datatype Part = Part(at: u32, size: u32, below: u32, joins: bool) {
    function End(): int { at + size }
  }

  predicate PartFits(c: Chunk, p: Part) {
    && c.hole && OVERHEAD <= p.size && c.addr + OVERHEAD <= p.at
    && (p.joins ==> p.below + OVERHEAD <= p.at && (p.below == c.addr || c.addr + OVERHEAD <= p.below))
    && (p.End() == c.End() || p.End() + OVERHEAD <= c.End())
  }

  /** The piece's header, its footer's magic number, the footer below it and the header that this names, and the header
      of the piece above, which says hole, if there is one in the hole. */
  predicate PartIn(m: seq<byte>, c: Chunk, p: Part) {
    && PartFits(c, p) && c.End() <= |m| && HeaderAt(m, p.at, true, p.size) && EndsIn(m, c, p.End())
    && BelowAt(m, p.at, p.below, p.joins)
  }

  predicate EndsIn(m: seq<byte>, c: Chunk, end: int) {
    && FOOTER <= end && end <= c.End() <= |m| && Get32(m, end - FOOTER) == MAGIC
    && (end < c.End() ==> end + HEADER <= c.End() && Get32(m, end) == MAGIC && m[end + 4] == 1)
  }

  /** The words of a piece in a range that has not changed. */
  lemma {:induction false} PieceKept(m: seq<byte>, m': seq<byte>, p: Part, lo: int, hi: int)
    requires Agree(m, m', lo, hi) && lo <= p.at - FOOTER && OVERHEAD <= p.size && p.End() - FOOTER <= hi
    requires HeaderAt(m, p.at, true, p.size) && FooterAt(m, p.at - FOOTER, p.below)
    ensures HeaderAt(m', p.at, true, p.size) && FooterAt(m', p.at - FOOTER, p.below)
  {
    assert Get32(m', p.at) == Get32(m, p.at) && Get32(m', p.at + 8) == Get32(m, p.at + 8);
    assert Get32(m', p.at - FOOTER) == Get32(m, p.at - FOOTER) && Get32(m', p.at - 4) == Get32(m, p.at - 4);
  }

  /** Those where it ends and another one starts; at the end of the chunk there is a footer again. */
  lemma {:induction false} EndKept(m: seq<byte>, m': seq<byte>, c: Chunk, c': Chunk, end: int, lo: int, hi: int)
    requires Agree(m, m', lo, hi) && EndsIn(m, c, end) && c'.End() == c.End() && 0 <= lo <= end - FOOTER
    requires if end < c.End() then end + HEADER <= hi <= |m| else Get32(m', end - FOOTER) == MAGIC
    ensures EndsIn(m', c', end)
  {
    if end < c.End() {
      assert Get32(m', end - FOOTER) == Get32(m, end - FOOTER) && Get32(m', end) == Get32(m, end);
    }
  }

  lemma {:induction false} PartFrame(m: seq<byte>, m': seq<byte>, c: Chunk, p: Part)
    requires PartIn(m, c, p) && Agree(m, m', c.addr, c.End())
    requires p.joins || m'[p.below + 4] == m[p.below + 4]
    ensures PartIn(m', c, p)
  {
    assert Get32(m', p.at) == Get32(m, p.at) && Get32(m', p.at + 8) == Get32(m, p.at + 8);
  }

  // ---------- A piece freed again ----------

  /** What the piece is to a free. */
  function PartSite(m: seq<byte>, c: Chunk, p: Part): Site {
    Site(p.at, p.size, p.below, p.joins, p.End() < c.End(),
         if 0 <= p.End() && p.End() + HEADER <= |m| then Get32(m, p.End() + 8) else 0)
  }

  lemma {:induction false} PartSiteAt(m: seq<byte>, cs: seq<Chunk>, lo: int, hi: int, i: nat, p: Part)
    requires WellFormed(cs, lo, hi) && i < |cs| && PartIn(m, cs[i], p) && |m| == WORLD
    requires i < |cs| - 1 ==> InMemory(m, cs[i + 1])
    ensures SiteAt(m, PartSite(m, cs[i], p), lo, hi)
  {
    Inside(cs, lo, hi, i);
    if i < |cs| - 1 { HolesApart(cs, i); }
  }

  /** The hole with the footer that freeing the piece at its end again leaves. */
  function Refooted(cs: seq<Chunk>, i: nat, p: Part): seq<Chunk>
    requires i < |cs|
  {
    cs[i := cs[i].(foot := Link(p.below))]
  }

  /** There is a heap with all the blocks of cs. */
  ghost predicate Kept(m: seq<byte>, index: seq<int>, lo: int, hi: int, cs: seq<Chunk>) {
    exists cs' :: HeapInv(m, index, lo, hi, cs') && forall c :: c in cs && !c.hole ==> c in cs'
  }

  /** What a free that returns has done with the last piece of hole i. If the header below the piece says hole it grows
      once more: where that is the hole's own it now reaches over the block above, and no heap has that block as well;
      otherwise nothing has happened but that the footer names that header. If it says block, the piece is listed
      inside the hole, and there is no heap at all. */
  ghost predicate PartEffect(m0: seq<byte>, cs: seq<Chunk>, i: int, p: Part, lo: int, hi: int,
                             m: seq<byte>, index: seq<int>, cs': seq<Chunk>)
  {
    && 0 <= i < |cs| && SameOutside(m0, m, cs[i].addr, cs[i].End())
    && index == (if p.joins then Holes(cs) else Insert(Holes(cs), p.at))
    && (p.joins && p.below == cs[i].addr ==> HeaderAt(m, cs[i].addr, true, Add32(cs[i].size, p.size)))
    && (p.joins && p.below != cs[i].addr ==>
          cs' == Refooted(cs, i, p) && HeapInv(m, index, lo, hi, cs') && PartIn(m, cs'[i], p))
    && (!p.joins ==> m == m0 && !Explained(m, index, lo, hi))
    && (hi - lo <= WORLD / 2 ==> (Kept(m, index, lo, hi, cs) <==> p.joins && p.below != cs[i].addr))
  }

  /** An address lies in one chunk at most. */
  lemma {:induction false} ChunkAround(cs: seq<Chunk>, lo: int, hi: int, c: Chunk, i: nat, a: int)
    requires Tiled(cs, lo, hi) && i < |cs| && c in cs && c.addr <= a < c.End() && cs[i].addr <= a < cs[i].End()
    ensures c == cs[i]
  {
    var k :| 0 <= k < |cs| && cs[k] == c;
    if k < i { Ordered(cs, lo, hi, k, i); }
    if i < k { Ordered(cs, lo, hi, i, k); }
  }

  /** A chunk that starts inside another is none of the same heap's. */
  lemma {:induction false} SwallowedIsNone(m: seq<byte>, index: seq<int>, lo: int, hi: int, cs: seq<Chunk>, i: nat,
                                           size: int, b: Chunk)
    requires HeapInv(m, index, lo, hi, cs) && i < |cs| && HeaderAt(m, cs[i].addr, true, size)
    requires cs[i].addr < b.addr < cs[i].addr + size && 0 < b.size
    ensures b !in cs
  {
    assert InMemory(m, cs[i]) && cs[i].size == size;
    if b in cs { ChunkAround(cs, lo, hi, b, i, b.addr); }
  }

  /** A hole whose header reaches beyond its end. */
  lemma {:induction false} GrownIsLost(m0: seq<byte>, m: seq<byte>, cs: seq<Chunk>, lo: int, hi: int, i: nat,
                                       index: seq<int>, size: int)
    requires WellFormed(cs, lo, hi) && i < |cs| - 1 && cs[i].hole && cs[i].size < size
    requires forall k :: 0 <= k < |cs| ==> InMemory(m0, cs[k])
    requires SameOutside(m0, m, cs[i].addr, cs[i].End()) && HeaderAt(m, cs[i].addr, true, size)
    ensures !Kept(m, index, lo, hi, cs)
  {
    HolesApart(cs, i);
    forall k | 0 <= k < i ensures HeaderAt(m, cs[k].addr, cs[k].hole, cs[k].size) {
      Ordered(cs, lo, hi, k, i);
      assert InMemory(m0, cs[k]);
      HeaderFrame(m0, m, cs[k]);
    }
    forall cs' | HeapInv(m, index, lo, hi, cs') && forall c :: c in cs && !c.hole ==> c in cs' ensures false {
      SameChunks(m, index, lo, hi, cs, i, cs');
      SwallowedIsNone(m, index, lo, hi, cs', i, size, cs[i + 1]);
    }
  }

  /** The words of the last piece's free are the size at the header below and the link in the hole's footer. Where
      the header below is the hole's, it grows. */
  lemma {:induction false} HoleGrown(m0: seq<byte>, m: seq<byte>, c: Chunk, p: Part)
    requires PartIn(m0, c, p) && p.joins && p.End() == c.End() && |m0| == WORLD && InMemory(m0, c)
    requires p.below == c.addr
    requires LeftMerged(m0, m, p.below, Word(p.End() - FOOTER), p.size)
    ensures SameOutside(m0, m, c.addr, c.End()) && HeaderAt(m, c.addr, true, Add32(c.size, p.size))
  {
    assert Get32(m, c.addr) == Get32(m0, c.addr);
  }

  /** Elsewhere the hole's header and the piece stay. */
  lemma {:induction false} HoleRefooted(m0: seq<byte>, m: seq<byte>, c: Chunk, p: Part)
    requires PartIn(m0, c, p) && p.joins && p.End() == c.End() && |m0| == WORLD && InMemory(m0, c)
    requires p.below != c.addr
    requires LeftMerged(m0, m, p.below, Word(p.End() - FOOTER), p.size)
    ensures SameOutside(m0, m, c.addr, c.End()) && InMemory(m, c.(foot := Link(p.below)))
  {
    var f := p.End() - FOOTER;
    assert Get32(m, c.addr) == Get32(m0, c.addr) && Get32(m, c.addr + 8) == Get32(m0, c.addr + 8);
    assert Get32(m, f) == Get32(m0, f);
  }

  lemma {:induction false} PartStays(m0: seq<byte>, m: seq<byte>, c: Chunk, p: Part)
    requires PartIn(m0, c, p) && p.joins && p.End() == c.End() && |m0| == WORLD
    requires LeftMerged(m0, m, p.below, Word(p.End() - FOOTER), p.size)
    ensures PartIn(m, c.(foot := Link(p.below)), p)
  {
    assert Get32(m, p.at) == Get32(m0, p.at) && Get32(m, p.at + 8) == Get32(m0, p.at + 8);
    assert Get32(m, p.at - FOOTER) == Get32(m0, p.at - FOOTER) && Get32(m, p.at - 4) == Get32(m0, p.at - 4);
    assert Get32(m, p.End() - FOOTER) == Get32(m0, p.End() - FOOTER);
  }

  lemma {:induction false} RefootedIs(cs: seq<Chunk>, i: nat, p: Part, c: Chunk)
    requires i < |cs| && c == cs[i].(foot := Link(p.below))
    ensures Refooted(cs, i, p) == Replace(cs, i, i + 1, [c]) && Holes(Refooted(cs, i, p)) == Holes(cs)
  {
    var cs' := Refooted(cs, i, p);
    assert cs' == cs[..i] + [c] + cs[i + 1..] && cs'[i] == c;
    assert cs'[..i] == cs[..i] && cs'[i + 1..] == cs[i + 1..];
    HolesSplit(cs, i);
    HolesSplit(cs', i);
  }

  lemma {:induction false} RefootedWellFormed(cs: seq<Chunk>, lo: int, hi: int, i: nat, p: Part)
    requires WellFormed(cs, lo, hi) && i < |cs| && PartFits(cs[i], p) && p.joins && p.End() == cs[i].End()
    ensures WellFormed(Refooted(cs, i, p), lo, hi) && Holes(Refooted(cs, i, p)) == Holes(cs)
  {
    var c := cs[i].(foot := Link(p.below));
    RefootedIs(cs, i, p, c);
    OneChunk(c, i == |cs| - 1);
    if 0 < i { HolesApart(cs, i - 1); }
    if i < |cs| - 1 { HolesApart(cs, i); }
    ReplaceWellFormed(cs, lo, hi, i, i + 1, [c]);
  }

  lemma {:induction false} RefootedInv(m0: seq<byte>, m: seq<byte>, cs: seq<Chunk>, lo: int, hi: int, i: nat, p: Part)
    requires HeapInv(m0, Holes(cs), lo, hi, cs) && i < |cs| && PartFits(cs[i], p) && p.End() == cs[i].End()
    requires p.joins && p.below != cs[i].addr && SameOutside(m0, m, cs[i].addr, cs[i].End())
    requires InMemory(m, cs[i].(foot := Link(p.below)))
    ensures HeapInv(m, Holes(cs), lo, hi, Refooted(cs, i, p))
  {
    RefootedWellFormed(cs, lo, hi, i, p);
    var c := cs[i].(foot := Link(p.below));
    assert Refooted(cs, i, p) == Replace(cs, i, i + 1, [c]);
    ReplaceInMemory(cs, i, i + 1, [c], lo, hi, m0, m);
  }

  lemma {:induction false} RefootedKeeps(cs: seq<Chunk>, i: nat, p: Part)
    requires i < |cs| && cs[i].hole
    ensures forall d :: d in cs && !d.hole ==> d in Refooted(cs, i, p)
  {
    var cs' := Refooted(cs, i, p);
    forall d | d in cs && !d.hole ensures d in cs' {
      var k :| 0 <= k < |cs| && cs[k] == d;
      assert cs'[k] == d;
    }
  }

  lemma {:induction false} InsertHas(s: seq<int>, x: int)
    ensures x in Insert(s, x)
  {
  }

  /** An index with an address inside a chunk. */
  lemma {:induction false} ListedInside(m: seq<byte>, cs: seq<Chunk>, lo: int, hi: int, i: nat, a: int)
    requires HeapInv(m, Holes(cs), lo, hi, cs) && i < |cs| && cs[i].addr < a < cs[i].End()
    ensures !Explained(m, Insert(Holes(cs), a), lo, hi)
  {
    var index := Insert(Holes(cs), a);
    InsertHas(Holes(cs), a);
    forall cs': seq<Chunk> | HeapInv(m, index, lo, hi, cs') ensures false {
      var k :| 0 <= k < |index| && index[k] == a;
      var j := HoleOfIndex(cs', k);
      forall q | 0 <= q < j ensures HeaderAt(m, cs'[q].addr, cs'[q].hole, cs'[q].size) { assert InMemory(m, cs'[q]); }
      SameChunks(m, Holes(cs), lo, hi, cs', j, cs);
      if j < i { Ordered(cs, lo, hi, j, i); }
      if i < j { Ordered(cs, lo, hi, i, j); }
    }
  }

  lemma {:induction false} HarmlesslyFreed(m0: seq<byte>, m: seq<byte>, cs: seq<Chunk>, lo: int, hi: int, i: nat,
                                           p: Part)
    requires HeapInv(m0, Holes(cs), lo, hi, cs) && i < |cs| - 1 && |m0| == WORLD
    requires PartIn(m0, cs[i], p) && p.joins && p.below != cs[i].addr && p.End() == cs[i].End()
    requires LeftMerged(m0, m, p.below, Word(p.End() - FOOTER), p.size)
    ensures SameOutside(m0, m, cs[i].addr, cs[i].End()) && Kept(m, Holes(cs), lo, hi, cs)
    ensures HeapInv(m, Holes(cs), lo, hi, Refooted(cs, i, p)) && PartIn(m, Refooted(cs, i, p)[i], p)
  {
    HoleRefooted(m0, m, cs[i], p);
    PartStays(m0, m, cs[i], p);
    RefootedInv(m0, m, cs, lo, hi, i, p);
    RefootedKeeps(cs, i, p);
  }

  lemma {:induction false} JoinedFreed(m0: seq<byte>, m: seq<byte>, cs: seq<Chunk>, lo: int, hi: int, i: nat, p: Part)
    requires HeapInv(m0, Holes(cs), lo, hi, cs) && i < |cs| - 1 && |m0| == WORLD
    requires PartIn(m0, cs[i], p) && p.joins && p.End() == cs[i].End()
    requires LeftMerged(m0, m, p.below, Word(p.End() - FOOTER), p.size)
    ensures PartEffect(m0, cs, i, p, lo, hi, m, Holes(cs), Refooted(cs, i, p))
  {
    var c := cs[i];
    Inside(cs, lo, hi, i);
    if p.below == c.addr {
      HoleGrown(m0, m, c, p);
      if hi - lo <= WORLD / 2 { GrownIsLost(m0, m, cs, lo, hi, i, Holes(cs), c.size + p.size); }
    } else {
      HarmlesslyFreed(m0, m, cs, lo, hi, i, p);
    }
  }

  lemma {:induction false} ListedFreed(m: seq<byte>, cs: seq<Chunk>, lo: int, hi: int, i: nat, p: Part)
    requires HeapInv(m, Holes(cs), lo, hi, cs) && i < |cs| - 1 && PartIn(m, cs[i], p) && !p.joins
    ensures PartEffect(m, cs, i, p, lo, hi, m, Insert(Holes(cs), p.at), Refooted(cs, i, p))
  {
    ListedInside(m, cs, lo, hi, i, p.at);
  }

  /** From memory before such a free to that after it. */
  lemma {:induction false} PartFreed(m0: seq<byte>, m: seq<byte>, cs: seq<Chunk>, lo: int, hi: int, i: nat, p: Part,
                                     index: seq<int>)
    requires HeapInv(m0, Holes(cs), lo, hi, cs) && i < |cs| - 1 && |m0| == WORLD
    requires PartIn(m0, cs[i], p) && p.End() == cs[i].End()
    requires if p.joins then LeftMerged(m0, m, p.below, Word(p.End() - FOOTER), p.size) else m == m0
    requires index == if p.joins then Holes(cs) else Insert(Holes(cs), p.at)
    ensures PartEffect(m0, cs, i, p, lo, hi, m, index, Refooted(cs, i, p))
  {
    if p.joins { JoinedFreed(m0, m, cs, lo, hi, i, p); } else { ListedFreed(m0, cs, lo, hi, i, p); }
  }

  /** The header above a piece that is not the last of its hole is no chunk's. */
  lemma {:induction false} InsideUnlisted(cs: seq<Chunk>, lo: int, hi: int, i: nat, a: int)
    requires Tiled(cs, lo, hi) && i < |cs| && cs[i].addr < a < cs[i].End()
    ensures a !in Holes(cs)
  {
    forall k | 0 <= k < |Holes(cs)| ensures Holes(cs)[k] != a {
      var j := HoleOfIndex(cs, k);
      if j < i { Ordered(cs, lo, hi, j, i); }
      if i < j { Ordered(cs, lo, hi, i, j); }
    }
  }

  // ---------- Following the pieces ----------

  /** A live block starts at a. */
  ghost predicate Standing(cs: seq<Chunk>, a: int) {
    exists b :: b in cs && !b.hole && b.addr == a
  }

  ghost predicate PartAt(m: seq<byte>, cs: seq<Chunk>, p: Part) {
    && (exists c :: c in cs && PartIn(m, c, p))
    && (p.joins || Standing(cs, p.below))
  }

  ghost predicate PartsIn(m: seq<byte>, cs: seq<Chunk>, ps: seq<Part>) {
    forall p :: p in ps ==> PartAt(m, cs, p)
  }

  lemma {:induction false} PartOf(m: seq<byte>, cs: seq<Chunk>, c: Chunk, p: Part)
    requires c in cs && PartIn(m, c, p) && p.joins
    ensures PartAt(m, cs, p)
  {
  }

  lemma {:induction false} PartKept(m: seq<byte>, m': seq<byte>, cs': seq<Chunk>, c: Chunk, p: Part)
    requires PartIn(m, c, p) && c in cs' && Agree(m, m', c.addr, c.End())
    requires p.joins || (Standing(cs', p.below) && m'[p.below + 4] == m[p.below + 4])
    ensures PartAt(m', cs', p)
  {
    PartFrame(m, m', c, p);
  }

  /** A block stays where only what is inside hole i changes. */
  lemma {:induction false} StandingKept(m: seq<byte>, m': seq<byte>, cs: seq<Chunk>, cs': seq<Chunk>, lo: int, hi: int,
                                        i: nat, a: u32)
    requires Tiled(cs, lo, hi) && i < |cs| && cs[i].hole && SameOutside(m, m', cs[i].addr, cs[i].End())
    requires forall k :: 0 <= k < |cs| && k != i ==> cs[k] in cs'
    requires Standing(cs, a) && a + HEADER <= |m|
    ensures Standing(cs', a) && m'[a + 4] == m[a + 4]
  {
    var b :| b in cs && !b.hole && b.addr == a;
    var k :| 0 <= k < |cs| && cs[k] == b;
    if k < i { Ordered(cs, lo, hi, k, i); } else { Ordered(cs, lo, hi, i, k); }
  }

  /** So does a piece of another hole. */
  lemma {:induction false} OutsidePart(m: seq<byte>, m': seq<byte>, cs: seq<Chunk>, cs': seq<Chunk>, lo: int, hi: int,
                                       i: nat, p: Part)
    requires Tiled(cs, lo, hi) && i < |cs| && cs[i].hole && SameOutside(m, m', cs[i].addr, cs[i].End())
    requires forall k :: 0 <= k < |cs| && k != i ==> cs[k] in cs'
    requires PartAt(m, cs, p) && !(cs[i].addr <= p.at < cs[i].End())
    ensures PartAt(m', cs', p)
  {
    var c :| c in cs && PartIn(m, c, p);
    var k :| 0 <= k < |cs| && cs[k] == c;
    if k < i { Ordered(cs, lo, hi, k, i); }
    if i < k { Ordered(cs, lo, hi, i, k); }
    if !p.joins { StandingKept(m, m', cs, cs', lo, hi, i, p.below); }
    PartKept(m, m', cs', c, p);
  }

  // ---------- Pieces of a hole that is cut up ----------

  /** What becomes of a piece in hole c when the plan takes effect: followed further is one that lies in the tail hole,
      above its header, where the header below it is the tail's, one inside it, or the new block's. */
  function CutPart(p: Part, c: Chunk, plan: Plan): seq<Part> {
    if !(c.addr <= p.at < c.End()) then [p]
    else if plan.tailSize == 0 || p.at < plan.tail + OVERHEAD then []
    else if !p.joins || p.below == plan.tail || plan.tail + OVERHEAD <= p.below then [p]
    else if p.below == plan.loc then [p.(joins := false)]
    else []
  }

  function Cut(ps: seq<Part>, c: Chunk, plan: Plan): seq<Part> {
    if ps == [] then [] else CutPart(ps[0], c, plan) + Cut(ps[1..], c, plan)
  }

  /** The block's header says block and the tail's says hole; between the tail's header and its footer nothing has
      changed. */
  predicate TailKept(m: seq<byte>, m': seq<byte>, c: Chunk, plan: Plan) {
    plan.tailSize > 0 ==>
      && plan.loc + HEADER <= |m'| && m'[plan.loc + 4] == 0 && plan.tail + HEADER <= |m'| && m'[plan.tail + 4] == 1
      && FOOTER <= c.End() <= |m'| && Get32(m', c.End() - FOOTER) == MAGIC
      && Agree(m, m', plan.tail + HEADER, c.End() - FOOTER)
  }

  lemma {:induction false} TailKeptIs(m: seq<byte>, m': seq<byte>, c: Chunk, plan: Plan)
    requires PlanCovers(plan, c.addr, c.size) && AllInMemory(m', Pieces(c.addr, plan))
    requires plan.tailSize > 0 ==> Agree(m, m', plan.tail + HEADER, c.End() - FOOTER)
    ensures TailKept(m, m', c, plan)
  {
    if plan.tailSize > 0 {
      var mid := Pieces(c.addr, plan);
      assert mid[|mid| - 1] == Tail(plan) && InMemory(m', mid[|mid| - 1]);
      assert mid[|mid| - 2] == Block(plan) && InMemory(m', mid[|mid| - 2]);
    }
  }

  lemma {:induction false} CutFits(m': seq<byte>, c: Chunk, plan: Plan, p: Part, p': Part)
    requires PartFits(c, p) && PlanCovers(plan, c.addr, c.size) && 0 < plan.tailSize && c.addr <= p.at < c.End() <= |m'|
    requires CutPart(p, c, plan) == [p'] && m'[plan.loc + 4] == 0 && m'[plan.tail + 4] == 1 && p.below + HEADER <= p.at
    requires p.joins ==> plan.tail + OVERHEAD <= p.below ==> m'[p.below + 4] == 1
    requires !p.joins ==> m'[p.below + 4] == 0
    ensures PartFits(Tail(plan), p') && p' == p.(joins := p'.joins) && plan.tail + OVERHEAD <= p.at
    ensures m'[p.below + 4] == (if p'.joins then 1 else 0) && (p'.joins || p' == p || p'.below == plan.loc)
  {
  }

  /** A piece in an unchanged range up to the footer. */
  lemma {:induction false} InsidePart(m: seq<byte>, m': seq<byte>, c: Chunk, c': Chunk, p: Part, p': Part, lo: int)
    requires PartIn(m, c, p) && PartFits(c', p') && p' == p.(joins := p'.joins) && c'.End() == c.End()
    requires 0 <= lo <= p.at - FOOTER && Agree(m, m', lo, c.End() - FOOTER) && Get32(m', c.End() - FOOTER) == MAGIC
    requires m'[p.below + 4] == if p'.joins then 1 else 0
    ensures PartIn(m', c', p')
  {
    PieceKept(m, m', p, lo, c.End() - FOOTER);
    EndKept(m, m', c, c', p.End(), lo, c.End() - FOOTER);
  }

  lemma {:induction false} CutPartIn(m: seq<byte>, m': seq<byte>, c: Chunk, plan: Plan, p: Part, p': Part)
    requires PartIn(m, c, p) && PlanCovers(plan, c.addr, c.size) && TailKept(m, m', c, plan)
    requires c.addr <= p.at < c.End() && CutPart(p, c, plan) == [p'] && 0 < plan.tailSize
    requires p.joins || m'[p.below + 4] == m[p.below + 4]
    ensures PartIn(m', Tail(plan), p') && (p'.joins || p' == p || p'.below == plan.loc)
  {
    CutFits(m', c, plan, p, p');
    InsidePart(m, m', c, Tail(plan), p, p', plan.tail + HEADER);
  }

  /** A piece of hole i itself. */
  lemma {:induction false} CutInside(m: seq<byte>, m': seq<byte>, cs: seq<Chunk>, cs': seq<Chunk>, lo: int, hi: int,
                                     i: nat, plan: Plan, p: Part, p': Part)
    requires Tiled(cs, lo, hi) && i < |cs| && cs[i].hole && PlanCovers(plan, cs[i].addr, cs[i].size)
    requires SameOutside(m, m', cs[i].addr, cs[i].End()) && TailKept(m, m', cs[i], plan)
    requires PartIn(m, cs[i], p) && (p.joins || Standing(cs, p.below)) && CutPart(p, cs[i], plan) == [p']
    requires forall k :: 0 <= k < |cs| && k != i ==> cs[k] in cs'
    requires Block(plan) in cs' && (plan.tailSize > 0 ==> Tail(plan) in cs')
    ensures PartAt(m', cs', p')
  {
    if !p.joins { StandingKept(m, m', cs, cs', lo, hi, i, p.below); }
    CutPartIn(m, m', cs[i], plan, p, p');
    assert !Block(plan).hole && Block(plan).addr == plan.loc;
  }

  lemma {:induction false} AllocatedHas(cs: seq<Chunk>, i: nat, plan: Plan)
    requires i < |cs|
    ensures forall k :: 0 <= k < |cs| && k != i ==> cs[k] in Allocated(cs, i, plan)
    ensures Block(plan) in Allocated(cs, i, plan) && (plan.tailSize > 0 ==> Tail(plan) in Allocated(cs, i, plan))
  {
    var cs', mid := Allocated(cs, i, plan), Pieces(cs[i].addr, plan);
    forall k | 0 <= k < |cs| && k != i ensures cs[k] in cs' {
      assert cs'[if k < i then k else k - 1 + |mid|] == cs[k];
    }
    forall q | 0 <= q < |mid| ensures mid[q] in cs' { assert cs'[i + q] == mid[q]; }
    assert mid[if plan.front > 0 then 1 else 0] == Block(plan);
    if plan.tailSize > 0 { assert mid[|mid| - 1] == Tail(plan); }
  }

  /** One piece after an allocation from hole i. */
  lemma {:induction false} CutPartAt(m: seq<byte>, m': seq<byte>, cs: seq<Chunk>, lo: int, hi: int, i: nat, plan: Plan,
                                     p: Part, p': Part)
    requires Tiled(cs, lo, hi) && i < |cs| && cs[i].hole && PlanCovers(plan, cs[i].addr, cs[i].size)
    requires SameOutside(m, m', cs[i].addr, cs[i].End()) && TailKept(m, m', cs[i], plan)
    requires PartAt(m, cs, p) && CutPart(p, cs[i], plan) == [p']
    ensures PartAt(m', Allocated(cs, i, plan), p')
  {
    AllocatedHas(cs, i, plan);
    if !(cs[i].addr <= p.at < cs[i].End()) {
      OutsidePart(m, m', cs, Allocated(cs, i, plan), lo, hi, i, p);
    } else {
      var c :| c in cs && PartIn(m, c, p);
      ChunkAround(cs, lo, hi, c, i, p.at);
      CutInside(m, m', cs, Allocated(cs, i, plan), lo, hi, i, plan, p, p');
    }
  }

  /** An allocation from hole i leaves the pieces of the other holes and those that it is said to leave of hole i. */
  lemma {:induction false} AllocatedParts(m: seq<byte>, m': seq<byte>, cs: seq<Chunk>, lo: int, hi: int, i: nat,
                                          plan: Plan, ps: seq<Part>)
    requires Tiled(cs, lo, hi) && i < |cs| && cs[i].hole && PlanCovers(plan, cs[i].addr, cs[i].size)
    requires SameOutside(m, m', cs[i].addr, cs[i].End()) && TailKept(m, m', cs[i], plan) && PartsIn(m, cs, ps)
    ensures PartsIn(m', Allocated(cs, i, plan), Cut(ps, cs[i], plan))
  {
    if ps != [] {
      AllocatedParts(m, m', cs, lo, hi, i, plan, ps[1..]);
      var first := CutPart(ps[0], cs[i], plan);
      forall p | p in first ensures PartAt(m', Allocated(cs, i, plan), p) {
        assert first == [p];
        CutPartAt(m, m', cs, lo, hi, i, plan, ps[0], p);
      }
    }
  }

  // ---------- Pieces of the holes that a free merges ----------

  /** The pieces that do not start in the range of c. */
  function Elsewhere(ps: seq<Part>, c: Chunk): seq<Part> {
    if ps == [] then []
    else (if c.addr <= ps[0].at < c.End() then [] else [ps[0]]) + Elsewhere(ps[1..], c)
  }

  lemma {:induction false} ElsewhereIs(ps: seq<Part>, c: Chunk, p: Part)
    ensures p in Elsewhere(ps, c) <==> p in ps && !(c.addr <= p.at < c.End())
  {
    if ps != [] { ElsewhereIs(ps[1..], c, p); }
  }

  /** A piece when block i is freed: where the header below it is that block's, it joins it from now on if it lies in
      the hole above, and is not followed any further if it lies elsewhere. */
  function RejoinPart(cs: seq<Chunk>, i: nat, p: Part): seq<Part>
    requires i < |cs|
  {
    if p.joins || p.below != cs[i].addr then [p]
    else if RightHole(cs, i) && cs[i + 1].addr <= p.at < cs[i + 1].End() then [p.(joins := true)]
    else []
  }

  function Rejoined(cs: seq<Chunk>, i: nat, ps: seq<Part>): seq<Part>
    requires i < |cs|
  {
    if ps == [] then [] else RejoinPart(cs, i, ps[0]) + Rejoined(cs, i, ps[1..])
  }

  /** The pieces that freeing block i makes: the block itself below a left hole, and the right hole. */
  function Absorbed(cs: seq<Chunk>, i: nat): seq<Part>
    requires i < |cs|
  {
    (if LeftHole(cs, i) then [Part(cs[i].addr, cs[i].size, cs[i - 1].addr, true)] else [])
    + (if RightHole(cs, i) && cs[i + 1].foot.Link?
       then [Part(cs[i + 1].addr, cs[i + 1].size, cs[MergeLo(cs, i)].addr, true)] else [])
  }

  /** A piece of the hole below a freed block is one of the merged hole. */
  lemma {:induction false} LeftPart(m0: seq<byte>, m: seq<byte>, l: Chunk, b: Chunk, c: Chunk, p: Part)
    requires PartIn(m0, l, p) && c.hole && c.addr == l.addr && l.End() == b.addr && b.End() <= c.End() <= |m|
    requires OVERHEAD <= b.size && HeaderAt(m, b.addr, true, b.size)
    requires Agree(m0, m, l.addr, l.addr + 8) && Agree(m0, m, l.addr + HEADER, l.End())
    requires p.joins || m[p.below + 4] == m0[p.below + 4]
    ensures PartIn(m, c, p)
  {
    assert Get32(m, p.at) == Get32(m0, p.at) && Get32(m, p.at + 8) == Get32(m0, p.at + 8);
    assert Get32(m, p.at - FOOTER) == Get32(m0, p.at - FOOTER) && Get32(m, p.at - 4) == Get32(m0, p.at - 4);
    assert Get32(m, p.End() - FOOTER) == Get32(m0, p.End() - FOOTER);
    if p.End() < l.End() { assert Get32(m, p.End()) == Get32(m0, p.End()); }
  }

  /** So is a piece of the hole above it. */
  lemma {:induction false} RightPart(m0: seq<byte>, m: seq<byte>, r: Chunk, c: Chunk, p: Part)
    requires PartIn(m0, r, p) && c.hole && c.addr + OVERHEAD <= r.addr && r.End() == c.End()
    requires Agree(m0, m, r.addr, r.End()) && (p.joins || m[p.below + 4] == m0[p.below + 4])
    ensures PartIn(m, c, p)
  {
    PartFrame(m0, m, r, p);
  }

  /** A freed block b above hole l in their common hole c. */
  lemma {:induction false} BlockOf(m0: seq<byte>, m: seq<byte>, l: Chunk, b: Chunk, c: Chunk)
    requires l.hole && l.foot == Link(l.addr) && OVERHEAD <= l.size && 0 < l.addr && InMemory(m0, l)
    requires l.End() == b.addr && OVERHEAD <= b.size && HeaderAt(m, b.addr, true, b.size)
    requires FooterAt(m, b.End() - FOOTER, l.addr) && Agree(m0, m, l.addr, l.addr + 8)
    requires Agree(m0, m, l.addr + HEADER, l.End())
    requires c.hole && c.addr == l.addr && c.End() <= |m|
    requires if b.End() == c.End() then true else b.End() + OVERHEAD <= c.End() && Get32(m, b.End()) == MAGIC
                                                  && m[b.End() + 4] == 1
    ensures PartIn(m, c, Part(b.addr, b.size, l.addr, true))
  {
    assert Get32(m, l.End() - FOOTER) == Get32(m0, l.End() - FOOTER) && Get32(m, l.End() - 4) == Get32(m0, l.End() - 4);
  }

  /** A hole r, with its footer, at the end of a hole c. */
  lemma {:induction false} HoleOf(m0: seq<byte>, m: seq<byte>, r: Chunk, c: Chunk)
    requires r.hole && r.foot.Link? && OVERHEAD <= r.size && InMemory(m0, r) && Agree(m0, m, r.addr, r.End())
    requires InMemory(m, c) && c.hole && c.addr + OVERHEAD <= r.addr && r.End() == c.End() <= |m|
    requires FooterAt(m, r.addr - FOOTER, c.addr)
    ensures PartIn(m, c, Part(r.addr, r.size, c.addr, true))
  {
    assert Get32(m, r.addr) == Get32(m0, r.addr) && Get32(m, r.addr + 8) == Get32(m0, r.addr + 8);
    assert Get32(m, r.End() - FOOTER) == Get32(m0, r.End() - FOOTER);
  }

  /** The header of a right hole is untouched. */
  lemma {:induction false} AboveStays(m0: seq<byte>, m: seq<byte>, r: Chunk)
    requires r.hole && InMemory(m0, r) && OVERHEAD <= r.size && Agree(m0, m, r.addr, r.End())
    ensures r.addr + HEADER <= |m| && Get32(m, r.addr) == MAGIC && m[r.addr + 4] == 1
  {
    assert Get32(m, r.addr) == Get32(m0, r.addr);
  }

  /** The block itself below a left hole. */
  lemma {:induction false} BlockPart(m0: seq<byte>, m: seq<byte>, cs: seq<Chunk>, lo: int, hi: int, i: nat)
    requires WellFormed(cs, lo, hi) && IsBlock(cs, i) && i < |cs| - 1 && LeftHole(cs, i) && !StaleLeft(cs, i)
    requires InMemory(m0, cs[i - 1]) && Settled(m0, m, cs, i) && InMemory(m, Merged(cs, i)) && |m0| == WORLD
    requires RightHole(cs, i) ==> InMemory(m0, cs[i + 1])
    ensures PartIn(m, Merged(cs, i), Part(cs[i].addr, cs[i].size, cs[i - 1].addr, true))
  {
    Neighbours(cs, lo, hi, i);
    MergedIs(cs, lo, hi, i);
    if RightHole(cs, i) { AboveStays(m0, m, cs[i + 1]); }
    BlockOf(m0, m, cs[i - 1], cs[i], Merged(cs, i));
  }

  /** The right hole. */
  lemma {:induction false} HolePart(m0: seq<byte>, m: seq<byte>, cs: seq<Chunk>, lo: int, hi: int, i: nat)
    requires WellFormed(cs, lo, hi) && IsBlock(cs, i) && i < |cs| - 1 && !StaleLeft(cs, i)
    requires RightHole(cs, i) && cs[i + 1].foot.Link? && InMemory(m0, cs[i + 1])
    requires Settled(m0, m, cs, i) && InMemory(m, Merged(cs, i)) && |m0| == WORLD
    ensures PartIn(m, Merged(cs, i), Part(cs[i + 1].addr, cs[i + 1].size, cs[MergeLo(cs, i)].addr, true))
  {
    Neighbours(cs, lo, hi, i);
    MergedIs(cs, lo, hi, i);
    HoleOf(m0, m, cs[i + 1], Merged(cs, i));
  }

  /** A piece of a hole that is merged. */
  lemma {:induction false} MergedPart(m0: seq<byte>, m: seq<byte>, cs: seq<Chunk>, lo: int, hi: int, i: nat, p: Part,
                                      k: nat)
    requires WellFormed(cs, lo, hi) && IsBlock(cs, i) && i < |cs| - 1 && !StaleLeft(cs, i)
    requires Settled(m0, m, cs, i) && InMemory(m, Merged(cs, i)) && |m0| == WORLD
    requires MergeLo(cs, i) <= k < MergeHi(cs, i) && PartIn(m0, cs[k], p)
    requires p.joins || m[p.below + 4] == m0[p.below + 4]
    ensures PartIn(m, Merged(cs, i), p)
  {
    Neighbours(cs, lo, hi, i);
    MergedIs(cs, lo, hi, i);
    if k == i - 1 {
      LeftPart(m0, m, cs[k], cs[i], Merged(cs, i), p);
    } else {
      RightPart(m0, m, cs[k], Merged(cs, i), p);
    }
  }

  /** Among cs' are the hole that block i becomes and all chunks that are not merged into it. */
  ghost predicate HasFreed(cs: seq<Chunk>, i: nat, cs': seq<Chunk>)
    requires i < |cs|
  {
    && Merged(cs, i) in cs'
    && forall k :: 0 <= k < |cs| && !(MergeLo(cs, i) <= k < MergeHi(cs, i)) ==> cs[k] in cs'
  }

  lemma {:induction false} FreedHas(cs: seq<Chunk>, i: nat)
    requires IsBlock(cs, i)
    ensures HasFreed(cs, i, Freed(cs, i))
  {
    var l, r, cs' := MergeLo(cs, i), MergeHi(cs, i), Freed(cs, i);
    forall k | 0 <= k < |cs| && !(l <= k < r) ensures cs[k] in cs' {
      assert cs'[if k < l then k else k - r + l + 1] == cs[k];
    }
    assert cs'[l] == Merged(cs, i);
  }

  /** A chunk that is not merged lies outside the merged range. */
  lemma {:induction false} OutsideMerged(cs: seq<Chunk>, lo: int, hi: int, i: nat, k: nat)
    requires Tiled(cs, lo, hi) && IsBlock(cs, i) && k < |cs| && !(MergeLo(cs, i) <= k < MergeHi(cs, i))
    ensures cs[k].End() <= cs[MergeLo(cs, i)].addr || cs[MergeHi(cs, i) - 1].End() <= cs[k].addr
    ensures OVERHEAD <= cs[k].size
  {
    if k < MergeLo(cs, i) { Ordered(cs, lo, hi, k, MergeLo(cs, i)); }
    else { Ordered(cs, lo, hi, MergeHi(cs, i) - 1, k); }
  }

  /** One piece of a heap in which block i is freed. */
  lemma {:induction false} FreedPart(m0: seq<byte>, m: seq<byte>, cs: seq<Chunk>, cs': seq<Chunk>, lo: int, hi: int,
                                     i: nat, p: Part, k: nat)
    requires WellFormed(cs, lo, hi) && IsBlock(cs, i) && i < |cs| - 1 && !StaleLeft(cs, i) && HasFreed(cs, i, cs')
    requires Settled(m0, m, cs, i) && InMemory(m, Merged(cs, i)) && |m0| == WORLD
    requires k < |cs| && PartIn(m0, cs[k], p)
    requires p.joins || (Standing(cs', p.below) && m[p.below + 4] == m0[p.below + 4])
    ensures PartAt(m, cs', p)
  {
    if MergeLo(cs, i) <= k < MergeHi(cs, i) {
      MergedPart(m0, m, cs, lo, hi, i, p, k);
    } else {
      OutsideMerged(cs, lo, hi, i, k);
      PartKept(m0, m, cs', cs[k], p);
    }
  }

  /** Any other block stays when block i is freed. */
  lemma {:induction false} OtherStands(m0: seq<byte>, m: seq<byte>, cs: seq<Chunk>, cs': seq<Chunk>, lo: int, hi: int,
                                       i: nat, a: u32)
    requires Tiled(cs, lo, hi) && IsBlock(cs, i) && HasFreed(cs, i, cs') && Standing(cs, a) && a != cs[i].addr
    requires SameOutside(m0, m, cs[MergeLo(cs, i)].addr, cs[MergeHi(cs, i) - 1].End()) && a + HEADER <= |m0|
    ensures Standing(cs', a) && m[a + 4] == m0[a + 4]
  {
    var b :| b in cs && !b.hole && b.addr == a;
    var k :| 0 <= k < |cs| && cs[k] == b;
    OutsideMerged(cs, lo, hi, i, k);
  }

  /** A piece of hole r at the end of hole c where the header below the piece now says hole. */
  lemma {:induction false} JoinsHole(m0: seq<byte>, m: seq<byte>, r: Chunk, c: Chunk, p: Part)
    requires PartIn(m0, r, p) && Agree(m0, m, r.addr, r.End()) && c.hole && c.addr + OVERHEAD <= r.addr
    requires r.End() == c.End() && p.below + OVERHEAD <= r.addr && (p.below == c.addr || c.addr + OVERHEAD <= p.below)
    requires m[p.below + 4] == 1
    ensures PartIn(m, c, p.(joins := true))
  {
    PieceKept(m0, m, p, r.addr, r.End());
    assert Get32(m, p.End() - FOOTER) == Get32(m0, p.End() - FOOTER);
    EndKept(m0, m, r, c, p.End(), r.addr, r.End());
  }

  /** A piece of the hole above the freed block whose footer below names that block joins it now. */
  lemma {:induction false} JoinsNow(m0: seq<byte>, m: seq<byte>, cs: seq<Chunk>, lo: int, hi: int, i: nat, p: Part)
    requires WellFormed(cs, lo, hi) && IsBlock(cs, i) && i < |cs| - 1 && !StaleLeft(cs, i) && RightHole(cs, i)
    requires Settled(m0, m, cs, i) && InMemory(m, Merged(cs, i)) && |m0| == WORLD
    requires PartIn(m0, cs[i + 1], p) && !p.joins && p.below == cs[i].addr
    ensures PartIn(m, Merged(cs, i), p.(joins := true))
  {
    Neighbours(cs, lo, hi, i);
    MergedIs(cs, lo, hi, i);
    JoinsHole(m0, m, cs[i + 1], Merged(cs, i), p);
  }

  /** A piece whose footer below does not name the freed block. */
  lemma {:induction false} UnturnedPart(m0: seq<byte>, m: seq<byte>, cs: seq<Chunk>, cs': seq<Chunk>, lo: int, hi: int,
                                        i: nat, p: Part)
    requires WellFormed(cs, lo, hi) && IsBlock(cs, i) && i < |cs| - 1 && !StaleLeft(cs, i) && HasFreed(cs, i, cs')
    requires Settled(m0, m, cs, i) && InMemory(m, Merged(cs, i)) && |m0| == WORLD
    requires PartAt(m0, cs, p) && (p.joins || p.below != cs[i].addr)
    ensures PartAt(m, cs', p)
  {
    var c :| c in cs && PartIn(m0, c, p);
    var k :| 0 <= k < |cs| && cs[k] == c;
    if !p.joins { OtherStands(m0, m, cs, cs', lo, hi, i, p.below); }
    FreedPart(m0, m, cs, cs', lo, hi, i, p, k);
  }

  /** One that does, in the hole above. */
  lemma {:induction false} TurnedPart(m0: seq<byte>, m: seq<byte>, cs: seq<Chunk>, cs': seq<Chunk>, lo: int, hi: int,
                                      i: nat, p: Part)
    requires WellFormed(cs, lo, hi) && IsBlock(cs, i) && i < |cs| - 1 && !StaleLeft(cs, i) && HasFreed(cs, i, cs')
    requires Settled(m0, m, cs, i) && InMemory(m, Merged(cs, i)) && |m0| == WORLD && RightHole(cs, i)
    requires PartAt(m0, cs, p) && !p.joins && p.below == cs[i].addr && cs[i + 1].addr <= p.at < cs[i + 1].End()
    ensures PartAt(m, cs', p.(joins := true))
  {
    var c :| c in cs && PartIn(m0, c, p);
    ChunkAround(cs, lo, hi, c, i + 1, p.at);
    JoinsNow(m0, m, cs, lo, hi, i, p);
    PartOf(m, cs', Merged(cs, i), p.(joins := true));
  }

  lemma {:induction false} RejoinedParts(m0: seq<byte>, m: seq<byte>, cs: seq<Chunk>, cs': seq<Chunk>, lo: int, hi: int,
                                         i: nat, ps: seq<Part>)
    requires WellFormed(cs, lo, hi) && IsBlock(cs, i) && i < |cs| - 1 && !StaleLeft(cs, i) && HasFreed(cs, i, cs')
    requires Settled(m0, m, cs, i) && InMemory(m, Merged(cs, i)) && |m0| == WORLD && PartsIn(m0, cs, ps)
    ensures PartsIn(m, cs', Rejoined(cs, i, ps))
  {
    if ps != [] {
      RejoinedParts(m0, m, cs, cs', lo, hi, i, ps[1..]);
      var first := RejoinPart(cs, i, ps[0]);
      forall p | p in first ensures PartAt(m, cs', p) {
        if ps[0].joins || ps[0].below != cs[i].addr {
          UnturnedPart(m0, m, cs, cs', lo, hi, i, ps[0]);
        } else {
          TurnedPart(m0, m, cs, cs', lo, hi, i, ps[0]);
        }
      }
    }
  }

  /** Freeing block i leaves the pieces as it is said to and adds those that it makes. */
  lemma {:induction false} FreedParts(m0: seq<byte>, m: seq<byte>, cs: seq<Chunk>, lo: int, hi: int, i: nat,
                                      ps: seq<Part>)
    requires WellFormed(cs, lo, hi) && IsBlock(cs, i) && i < |cs| - 1 && !StaleLeft(cs, i)
    requires forall k :: 0 <= k < |cs| ==> InMemory(m0, cs[k])
    requires Settled(m0, m, cs, i) && InMemory(m, Merged(cs, i)) && |m0| == WORLD && PartsIn(m0, cs, ps)
    ensures PartsIn(m, Freed(cs, i), Rejoined(cs, i, ps) + Absorbed(cs, i))
  {
    var cs' := Freed(cs, i);
    FreedHas(cs, i);
    RejoinedParts(m0, m, cs, cs', lo, hi, i, ps);
    forall p | p in Absorbed(cs, i) ensures PartAt(m, cs', p) {
      if LeftHole(cs, i) && p == Part(cs[i].addr, cs[i].size, cs[i - 1].addr, true) {
        BlockPart(m0, m, cs, lo, hi, i);
      } else {
        HolePart(m0, m, cs, lo, hi, i);
      }
    }
  }

  /** A piece freed again without harm is still one; of its hole no other is followed any further. */
  lemma {:induction false} RefootedParts(m0: seq<byte>, m: seq<byte>, cs: seq<Chunk>, lo: int, hi: int, i: nat,
                                         ps: seq<Part>, p: Part)
    requires Tiled(cs, lo, hi) && i < |cs| && PartsIn(m0, cs, ps) && SameOutside(m0, m, cs[i].addr, cs[i].End())
    requires PartIn(m, Refooted(cs, i, p)[i], p) && p.joins
    ensures PartsIn(m, Refooted(cs, i, p), Elsewhere(ps, cs[i]) + [p])
  {
    var cs' := Refooted(cs, i, p);
    forall k | 0 <= k < |cs| && k != i ensures cs[k] in cs' { assert cs'[k] == cs[k]; }
    forall q | q in Elsewhere(ps, cs[i]) ensures PartAt(m, cs', q) {
      ElsewhereIs(ps, cs[i], q);
      OutsidePart(m0, m, cs, cs', lo, hi, i, q);
    }
    assert cs'[i] in cs';
  }

  // ---------- The pointers that free takes ----------

  /** A pointer with both magic numbers in place leads to chunk i, or to a piece of it if it is a hole. */
  predicate Leads(m: seq<byte>, cs: seq<Chunk>, ptr: int, i: int, part: Option<Part>) {
    0 <= i < |cs| &&
    match part
    case None => ptr == cs[i].addr + HEADER
    case Some(p) => ptr == p.at + HEADER && PartIn(m, cs[i], p)
  }

  function Place(m: seq<byte>, cs: seq<Chunk>, i: nat, part: Option<Part>): Site
    requires i < |cs|
  {
    match part
    case None => ChunkSite(cs, i)
    case Some(p) => PartSite(m, cs[i], p)
  }

  /** What a free that returns has done. */
  ghost predicate Effect(m0: seq<byte>, cs: seq<Chunk>, i: int, part: Option<Part>, lo: int, hi: int,
                         m: seq<byte>, index: seq<int>, cs': seq<Chunk>)
  {
    match part
    case None => FreeEffect(m0, cs, i, lo, hi, m, index, cs')
    case Some(p) => PartEffect(m0, cs, i, p, lo, hi, m, index, cs')
  }

  /** Whether it leaves a heap with all the other blocks. */
  predicate Survives(cs: seq<Chunk>, i: int, part: Option<Part>) {
    0 <= i < |cs| &&
    match part
    case None => IsBlock(cs, i) && !StaleLeft(cs, i)
    case Some(p) => p.joins && p.below != cs[i].addr
  }

  function Leaves(cs: seq<Chunk>, i: nat, part: Option<Part>): seq<Chunk>
    requires i < |cs|
  {
    match part
    case None => Freed(cs, i)
    case Some(p) => Refooted(cs, i, p)
  }

  /** The hole bytes after such a free. */
  lemma {:induction false} LeavesBytes(m: seq<byte>, cs: seq<Chunk>, lo: int, hi: int, ptr: int, i: int,
                                       part: Option<Part>)
    requires WellFormed(cs, lo, hi) && Leads(m, cs, ptr, i, part) && Survives(cs, i, part)
    ensures HoleBytes(Leaves(cs, i, part)) == HoleBytes(cs) + if part == None then cs[i].size else 0
  {
    match part
    case None => FreedBytes(cs, lo, hi, i);
    case Some(p) => RefootedBytes(cs, i, p);
  }

  lemma {:induction false} RefootedBytes(cs: seq<Chunk>, i: nat, p: Part)
    requires i < |cs|
    ensures HoleBytes(Refooted(cs, i, p)) == HoleBytes(cs)
  {
    var cs', c := Refooted(cs, i, p), cs[i].(foot := Link(p.below));
    HoleBytesAround(cs[..i], [cs[i]], cs[i + 1..]);
    HoleBytesAround(cs[..i], [c], cs[i + 1..]);
    HoleBytesOne(cs[i]);
    HoleBytesOne(c);
    assert cs == cs[..i] + [cs[i]] + cs[i + 1..] && cs' == cs[..i] + [c] + cs[i + 1..];
  }

  /** The chunk above is listed exactly if it is a hole. */
  lemma {:induction false} NextListed(cs: seq<Chunk>, lo: int, hi: int, i: nat)
    requires Tiled(cs, lo, hi) && i < |cs| - 1
    ensures cs[i + 1].addr as int in Holes(cs) <==> cs[i + 1].hole
  {
    if cs[i + 1].hole { var k := IndexOfHole(cs, i + 1); } else { BlockUnlisted(cs, lo, hi, i + 1); }
  }

  /** A free of s can go on: memory m1, with its header marked as a hole, is as s says, and the header above it, which
      is there unless s is last, is listed exactly as said. */
  ghost predicate Ready(m0: seq<byte>, m1: seq<byte>, s: Site, lo: int, hi: int, index: seq<int>, listed: bool,
                        last: bool)
  {
    && SiteAt(m1, s, lo, hi) && s.addr + HEADER <= |m0| && s.size == Get32(m0, s.addr + 8)
    && (last <==> s.End() == hi) && (!last ==> (s.End() in index <==> listed))
  }

  /** The header at a says hole now. */
  predicate MarkedAt(m0: seq<byte>, m1: seq<byte>, a: int) {
    0 <= a && a + HEADER <= |m0| && m1 == m0[a + 4 := 1]
  }

  lemma {:induction false} ChunkReady(m0: seq<byte>, m1: seq<byte>, cs: seq<Chunk>, lo: int, hi: int, i: nat)
    requires HeapInv(m0, Holes(cs), lo, hi, cs) && |m0| == WORLD && i < |cs| && MarkedAt(m0, m1, cs[i].addr)
    ensures ChunkMarked(m0, m1, cs, i)
    ensures Ready(m0, m1, ChunkSite(cs, i), lo, hi, Holes(cs), RightHole(cs, i), i == |cs| - 1)
  {
    EndListed(cs, lo, hi, i);
    BlockMarked(m0, m1, cs, lo, hi, i);
    ChunkSiteAt(m0, m1, cs, lo, hi, i);
    SizeRead(m0, cs[i]);
  }

  lemma {:induction false} SizeRead(m: seq<byte>, c: Chunk)
    requires InMemory(m, c)
    ensures c.addr + HEADER <= |m| && c.size == Get32(m, c.addr + 8)
  {
  }

  lemma {:induction false} EndListed(cs: seq<Chunk>, lo: int, hi: int, i: nat)
    requires WellFormed(cs, lo, hi) && i < |cs|
    ensures cs[i].End() <= hi <= WORLD && (i == |cs| - 1 <==> cs[i].End() == hi)
    ensures i < |cs| - 1 ==> (cs[i].End() in Holes(cs) <==> RightHole(cs, i))
  {
    Inside(cs, lo, hi, i);
    if i < |cs| - 1 {
      Inside(cs, lo, hi, i + 1);
      NextListed(cs, lo, hi, i);
    }
  }

  lemma {:induction false} PartRead(m0: seq<byte>, m1: seq<byte>, c: Chunk, p: Part)
    requires PartIn(m0, c, p) && MarkedAt(m0, m1, p.at)
    ensures m1 == m0 && p.at + HEADER <= |m0| && p.size == Get32(m0, p.at + 8)
  {
  }

  lemma {:induction false} PartReady(m0: seq<byte>, m1: seq<byte>, cs: seq<Chunk>, lo: int, hi: int, i: nat, p: Part)
    requires HeapInv(m0, Holes(cs), lo, hi, cs) && |m0| == WORLD && i < |cs| && PartIn(m0, cs[i], p)
    requires MarkedAt(m0, m1, p.at)
    ensures m1 == m0
    ensures Ready(m0, m0, PartSite(m0, cs[i], p), lo, hi, Holes(cs), false, i == |cs| - 1 && p.End() == cs[i].End())
  {
    PartRead(m0, m1, cs[i], p);
    PartSiteAt(m0, cs, lo, hi, i, p);
    PartAbove(cs, lo, hi, i, p);
  }

  lemma {:induction false} PartAbove(cs: seq<Chunk>, lo: int, hi: int, i: nat, p: Part)
    requires WellFormed(cs, lo, hi) && i < |cs| && PartFits(cs[i], p)
    ensures if i == |cs| - 1 && p.End() == cs[i].End() then p.End() == hi
            else p.End() < hi && p.End() !in Holes(cs)
  {
    Inside(cs, lo, hi, i);
    if p.End() < cs[i].End() {
      InsideUnlisted(cs, lo, hi, i, p.End());
    } else if i < |cs| - 1 {
      Inside(cs, lo, hi, i + 1);
      HolesApart(cs, i);
      BlockUnlisted(cs, lo, hi, i + 1);
    }
  }

  /** Whether the header above what is freed is listed, and whether there is none. */
  predicate AboveListed(cs: seq<Chunk>, i: nat, part: Option<Part>) {
    part == None && RightHole(cs, i)
  }

  predicate IsLast(cs: seq<Chunk>, i: nat, part: Option<Part>)
    requires i < |cs|
  {
    i == |cs| - 1 && (part.Some? ==> part.value.End() == cs[i].End())
  }

  lemma {:induction false} PlaceReady(m0: seq<byte>, m1: seq<byte>, cs: seq<Chunk>, lo: int, hi: int, i: nat,
                                      part: Option<Part>, ptr: int)
    requires HeapInv(m0, Holes(cs), lo, hi, cs) && |m0| == WORLD && Leads(m0, cs, ptr, i, part)
    requires MarkedAt(m0, m1, ptr - HEADER)
    ensures Place(m0, cs, i, part).addr == ptr - HEADER
    ensures Ready(m0, m1, Place(m0, cs, i, part), lo, hi, Holes(cs), AboveListed(cs, i, part), IsLast(cs, i, part))
  {
    match part
    case None => ChunkReady(m0, m1, cs, lo, hi, i);
    case Some(p) => PartReady(m0, m1, cs, lo, hi, i, p);
  }

  lemma {:induction false} ChunkPlaceFreed(m0: seq<byte>, m1: seq<byte>, m2: seq<byte>, m3: seq<byte>, cs: seq<Chunk>,
                                           lo: int, hi: int, i: nat, rest: seq<int>, index: seq<int>)
    requires HeapInv(m0, Holes(cs), lo, hi, cs) && |m0| == WORLD && i < |cs| - 1 && MarkedAt(m0, m1, cs[i].addr)
    requires SiteMerged(m1, m2, m3, ChunkSite(cs, i)) && Unlisted(Holes(cs), cs[i].End(), RightHole(cs, i), rest)
    requires index == if LeftHole(cs, i) then rest else Insert(rest, cs[i].addr)
    ensures FreeEffect(m0, cs, i, lo, hi, m3, index, Freed(cs, i))
  {
    ChunkReady(m0, m1, cs, lo, hi, i);
    ChunkSteps(m1, m2, m3, cs, lo, hi, i);
    MergesMemory(m0, m1, m2, m3, cs, lo, hi, i, ChunkSite(cs, i).Header());
    FreedChunk(m0, m3, cs, lo, hi, i, rest, index);
  }

  /** The last piece of a hole already says hole, and no hole is above it. */
  lemma {:induction false} PartSteps(m0: seq<byte>, m1: seq<byte>, m2: seq<byte>, m3: seq<byte>, cs: seq<Chunk>,
                                     i: nat, p: Part)
    requires i < |cs| && PartIn(m0, cs[i], p) && p.End() == cs[i].End()
    requires MarkedAt(m0, m1, p.at) && SiteMerged(m1, m2, m3, PartSite(m0, cs[i], p))
    ensures if p.joins then LeftMerged(m0, m3, p.below, Word(p.End() - FOOTER), p.size) else m3 == m0
  {
    PartRead(m0, m1, cs[i], p);
  }

  lemma {:induction false} PartPlaceFreed(m0: seq<byte>, m1: seq<byte>, m2: seq<byte>, m3: seq<byte>, cs: seq<Chunk>,
                                          lo: int, hi: int, i: nat, p: Part, rest: seq<int>, index: seq<int>)
    requires HeapInv(m0, Holes(cs), lo, hi, cs) && |m0| == WORLD && i < |cs| - 1 && MarkedAt(m0, m1, p.at)
    requires PartIn(m0, cs[i], p) && p.End() == cs[i].End()
    requires SiteMerged(m1, m2, m3, PartSite(m0, cs[i], p)) && Unlisted(Holes(cs), p.End(), false, rest)
    requires index == if p.joins then rest else Insert(rest, p.at)
    ensures PartEffect(m0, cs, i, p, lo, hi, m3, index, Refooted(cs, i, p))
  {
    PartSteps(m0, m1, m2, m3, cs, i, p);
    PartFreed(m0, m3, cs, lo, hi, i, p, index);
  }

  /** From the writes of the merges and the changes of the index to the effect. */
  lemma {:induction false} PlaceFreed(m0: seq<byte>, m1: seq<byte>, m2: seq<byte>, m3: seq<byte>, cs: seq<Chunk>,
                                      lo: int, hi: int, i: nat, part: Option<Part>, ptr: int, s: Site,
                                      rest: seq<int>, index: seq<int>)
    requires HeapInv(m0, Holes(cs), lo, hi, cs) && |m0| == WORLD && Leads(m0, cs, ptr, i, part)
    requires i < |cs| - 1 && (part.Some? ==> part.value.End() == cs[i].End()) && MarkedAt(m0, m1, ptr - HEADER)
    requires s == Place(m0, cs, i, part) && SiteMerged(m1, m2, m3, s)
    requires Unlisted(Holes(cs), s.End(), s.right, rest) && index == if s.joins then rest else Insert(rest, s.addr)
    ensures Effect(m0, cs, i, part, lo, hi, m3, index, Leaves(cs, i, part))
  {
    match part
    case None => ChunkPlaceFreed(m0, m1, m2, m3, cs, lo, hi, i, rest, index);
    case Some(p) => PartPlaceFreed(m0, m1, m2, m3, cs, lo, hi, i, p, rest, index);
  }
}
