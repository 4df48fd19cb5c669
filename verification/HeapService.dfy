/**
  When `allocate` serves a request: afterwards there is a heap that has all the
  blocks there were and, at the address returned, a new one that is large enough
  (source/kernel_heap.cpp:62-145, 219-258).
 */
module HeapService {
  import opened Bytes
  import opened HeapLayout
  import opened HeapWrites

  /** Every block of cs0 is in cs, and none of them is chunk j. */
  ghost predicate Keeps(cs: seq<Chunk>, cs0: seq<Chunk>, j: int) {
    0 <= j < |cs| && forall c :: c in cs0 && !c.hole ==> c in cs && c.addr != cs[j].addr
  }

  /** cs keeps the blocks of cs0 and has one more, with its payload at ptr and no room wasted in it, whose bytes are all
      that the holes have lost. */
  ghost predicate Serves(cs: seq<Chunk>, cs0: seq<Chunk>, j: int, ptr: u32, n: u32, pageAlign: bool) {
    && IsBlock(cs, j) && Keeps(cs, cs0, j)
    && cs[j].addr + HEADER == ptr && n + OVERHEAD <= cs[j].size < n + 2 * OVERHEAD
    && (pageAlign ==> ptr % PAGE == 0) && HoleBytes(cs) == HoleBytes(cs0) - cs[j].size
  }

  /** Memory and index are those of such a heap. */
  ghost predicate Served(m: seq<byte>, index: seq<int>, lo: int, hi: int, cs0: seq<Chunk>, ptr: u32, n: u32,
                         pageAlign: bool)
  {
    exists cs, j :: HeapInv(m, index, lo, hi, cs) && Serves(cs, cs0, j, ptr, n, pageAlign)
  }

  /** Of two chunks the one at the lower address ends at or before the other. */
  lemma {:induction false} ApartByAddress(cs: seq<Chunk>, lo: int, hi: int, i: nat, j: nat)
    requires Tiled(cs, lo, hi) && i < |cs| && j < |cs| && cs[i].addr < cs[j].addr
    ensures cs[i].End() <= cs[j].addr
  {
    if i < j { Ordered(cs, lo, hi, i, j); }
    if j < i { Ordered(cs, lo, hi, j, i); }
  }

  /** x is where a chunk starts, or the end of the heap. */
  ghost predicate Boundary(cs: seq<Chunk>, hi: int, x: int) {
    x == hi || exists k :: 0 <= k < |cs| && cs[k].addr == x
  }

  /** A chunk that starts below a boundary ends there or before. */
  lemma {:induction false} EndsBy(cs: seq<Chunk>, lo: int, hi: int, j: nat, x: int)
    requires Tiled(cs, lo, hi) && j < |cs| && Boundary(cs, hi, x) && cs[j].addr < x
    ensures cs[j].End() <= x
  {
    Inside(cs, lo, hi, j);
    if x != hi {
      var k :| 0 <= k < |cs| && cs[k].addr == x;
      ApartByAddress(cs, lo, hi, j, k);
    }
  }

  lemma {:induction false} EndIsBoundary(cs: seq<Chunk>, lo: int, hi: int, j: nat)
    requires Tiled(cs, lo, hi) && j < |cs|
    ensures Boundary(cs, hi, cs[j].End())
  {
    if j < |cs| - 1 { assert cs[j + 1].addr == cs[j].End(); }
  }

  /** The blocks beside hole i of cs0, where they are kept, leave its two ends as boundaries. */
  lemma {:induction false} HoleBounds(cs0: seq<Chunk>, cs: seq<Chunk>, lo: int, hi: int, i: nat)
    requires WellFormed(cs0, lo, hi) && i < |cs0| && cs0[i].hole && Tiled(cs, lo, hi)
    requires forall c :: c in cs0 && !c.hole ==> c in cs
    ensures Boundary(cs, hi, cs0[i].addr) && Boundary(cs, hi, cs0[i].End())
  {
    if i > 0 {
      HolesApart(cs0, i - 1);
      assert cs0[i - 1] in cs;
      var k :| 0 <= k < |cs| && cs[k] == cs0[i - 1];
      EndIsBoundary(cs, lo, hi, k);
    } else {
      assert cs[0].addr == lo;
    }
    if i < |cs0| - 1 {
      HolesApart(cs0, i);
      assert cs0[i + 1] in cs;
      var k :| 0 <= k < |cs| && cs[k] == cs0[i + 1];
    }
  }

  /** A start or an end that every such heap has cannot lie inside another chunk: this alone rules out a block
      below the hole's start and a front hole of fewer than 20 bytes. */
  lemma {:induction false} FrontFits(cs0: seq<Chunk>, cs: seq<Chunk>, lo: int, hi: int, i: nat, j: nat)
    requires WellFormed(cs0, lo, hi) && i < |cs0| && cs0[i].hole && Tiled(cs, lo, hi) && j < |cs| && Keeps(cs, cs0, j)
    requires cs0[i].addr - HEADER < cs[j].addr && cs[j].addr != cs0[i].addr
    ensures cs0[i].addr + OVERHEAD <= cs[j].addr
  {
    var a := cs0[i].addr;
    Inside(cs, lo, hi, j);
    HoleBounds(cs0, cs, lo, hi, i);
    Inside(cs0, lo, hi, i);
    if cs[j].addr < a {
      EndsBy(cs, lo, hi, j, a);
      assert false;
    }
    var k :| 0 <= k < |cs| && cs[k].addr == a;
    ApartByAddress(cs, lo, hi, k, j);
  }

  /** How far the block's place is above the hole's start when a front hole is split off; it can be negative. */
  function Way(a: u32): int {
    PAGE - HEADER - a % PAGE
  }

  lemma {:induction false} SplitPlace(a: u32)
    requires HEADER <= a && a + HEADER < WORLD && (a + HEADER) % PAGE != 0
    ensures var f := Way(a);
      && Sub32(Add32(a, PAGE - a % PAGE), HEADER) == a + f && f != 0 && -HEADER < f && a + f + HEADER <= WORLD
      && (f > 0 ==> Sub32(PAGE - a % PAGE, HEADER) == f == Offset(a))
      && (f < 0 ==> Sub32(PAGE - a % PAGE, HEADER) > 0)
  {
    var r := a % PAGE;
    assert a == PAGE * (a / PAGE) + r;
    if r < PAGE - HEADER {
      assert (a + HEADER) % PAGE == r + HEADER;
    } else {
      assert a + HEADER == PAGE * (a / PAGE + 1) + (r + HEADER - PAGE);
      assert (a + HEADER) % PAGE == r + HEADER - PAGE;
    }
  }

  /** A request for n bytes at a hole of h bytes at a, of which the first f go to a front hole. */
  predicate SplitInto(p: Plan, a: u32, h: u32, n: u32, f: int) {
    && p.loc == a + f && f > 0 && p.front == f && p.tail == Add32(p.loc, p.size)
    && BlockFooter(p) == Sub32(Add32(p.loc, p.size), FOOTER) && p.tailSize == Sub32(Sub32(h, f), p.size)
    && (p.size == n + OVERHEAD || (p.size == h && n + OVERHEAD <= h < n + 2 * OVERHEAD))
    && (h >= n + 2 * OVERHEAD ==> p.size == n + OVERHEAD)
  }

  lemma {:induction false} SplitPlan(a: u32, h: u32, n: u32)
    requires HEADER <= a && a + h < WORLD && OVERHEAD <= h && n + OVERHEAD < WORLD && (a + HEADER) % PAGE != 0
    requires Way(a) > 0
    ensures SplitInto(LayOut(a, h, n, true), a, h, n, Way(a))
  {
    SplitPlace(a);
  }

  /** The writes behind the page boundary miss a header that lies more than the hole's size below it. */
  lemma {:induction false} BeyondMisses(c: Chunk, lo: int, hi: u32, n: u32, f: int, p: Plan, size: u32)
    requires SplitInto(p, c.addr, c.size, n, f) && OVERHEAD <= c.size < f < PAGE && MAGIC < lo <= c.addr
    requires c.End() <= hi
    requires n + OVERHEAD <= size && p.loc + size <= hi
    ensures Misses(FrontFooter(p), FOOTER, c.addr) && Misses(p.loc, HEADER, c.addr)
    ensures Misses(BlockFooter(p), FOOTER, c.addr)
    ensures Misses(p.tail, HEADER, c.addr) && Misses(TailFooter(p), FOOTER, c.addr)
    ensures p == p.(tailSize := Sub32(Sub32(c.size, p.front), p.size))
  {
  }

  lemma {:induction false} FrontSizeStays(c: Chunk, lo: int, hi: u32, n: u32, f: int, p: Plan, m0: seq<byte>, w: Writes,
                                          m: seq<byte>, size: u32)
    requires SplitInto(p, c.addr, c.size, n, f) && OVERHEAD <= c.size < f < PAGE && MAGIC < lo <= c.addr
    requires c.End() <= hi
    requires n + OVERHEAD <= size && p.loc + size <= hi && Carved(m0, w, m, c, p, hi)
    ensures HeaderAt(m, c.addr, true, f)
  {
    BeyondMisses(c, lo, hi, n, f, p, size);
    FrontHeaderStays(m0, w, m, c, p, hi);
  }

  /** The chunk that starts where c does ends where c does or before. */
  lemma {:induction false} HeaderInHole(m: seq<byte>, cs: seq<Chunk>, lo: int, hi: int, c: Chunk, f: int)
    requires Tiled(cs, lo, hi) && AllInMemory(m, cs) && HeaderAt(m, c.addr, true, f) && 0 < c.size && c.End() <= hi
    requires Boundary(cs, hi, c.addr) && Boundary(cs, hi, c.End())
    ensures f <= c.size
  {
    var k :| 0 <= k < |cs| && cs[k].addr == c.addr;
    assert InMemory(m, cs[k]);
    EndsBy(cs, lo, hi, k, c.End());
  }

  /** If the hole ended below the page boundary, the front hole's header would reach over that end. */
  lemma {:induction false} WayInHole(c: Chunk, lo: int, hi: u32, n: u32, f: int, p: Plan, m0: seq<byte>, w: Writes,
                                     m: seq<byte>, cs: seq<Chunk>, j: nat)
    requires Tiled(cs, lo, hi) && AllInMemory(m, cs) && j < |cs| && cs[j].addr == p.loc && n + OVERHEAD <= cs[j].size
    requires MAGIC < lo <= c.addr && OVERHEAD <= c.size && c.End() <= hi && OVERHEAD <= f < PAGE
    requires Boundary(cs, hi, c.addr) && Boundary(cs, hi, c.End())
    requires SplitInto(p, c.addr, c.size, n, f) && Carved(m0, w, m, c, p, hi)
    ensures f <= c.size
  {
    if c.size < f {
      Inside(cs, lo, hi, j);
      FrontSizeStays(c, lo, hi, n, f, p, m0, w, m, cs[j].size);
      HeaderInHole(m, cs, lo, hi, c, f);
    }
  }

  /** Between the end of a chunk and a boundary there is nothing or room for another. */
  lemma {:induction false} NextInHole(m: seq<byte>, cs: seq<Chunk>, lo: int, hi: int, j: nat, size: int, end: int)
    requires Tiled(cs, lo, hi) && AllInMemory(m, cs) && j < |cs| && HeaderAt(m, cs[j].addr, false, size)
    requires Boundary(cs, hi, end) && cs[j].addr + size <= end <= hi
    ensures cs[j].addr + size == end || cs[j].addr + size + OVERHEAD <= end
  {
    assert InMemory(m, cs[j]);
    if cs[j].End() < end {
      EndIsBoundary(cs, lo, hi, j);
      var k :| 0 <= k < |cs| && cs[k].addr == cs[j].End();
      EndsBy(cs, lo, hi, k, end);
    }
  }

  /** Between the block and the end of the hole there is no room for a chunk of fewer than 20 bytes. */
  lemma {:induction false} TailFits(c: Chunk, lo: int, hi: u32, n: u32, f: int, p: Plan, m0: seq<byte>, w: Writes,
                                    m: seq<byte>, cs: seq<Chunk>, j: nat)
    requires Tiled(cs, lo, hi) && AllInMemory(m, cs) && j < |cs| && cs[j].addr == p.loc
    requires MAGIC < lo <= c.addr && c.End() <= hi && OVERHEAD <= f && f + n + OVERHEAD <= c.size
    requires Boundary(cs, hi, c.End()) && SplitInto(p, c.addr, c.size, n, f) && Carved(m0, w, m, c, p, hi)
    ensures c.size == f + n + OVERHEAD || f + n + 2 * OVERHEAD <= c.size
  {
    if f + n + OVERHEAD < c.size {
      FrontIsDone(m0, w, c.addr, p);
      BlockHeaderStays(m0, w, m, c, p, hi);
      NextInHole(m, cs, lo, hi, j, p.size, c.End());
    }
  }

  /** What the arithmetic says of a split at a hole that passed the fit test. */
  predicate SplitFacts(p: Plan, a: u32, h: u32, n: u32, f: int) {
    && -HEADER < f < PAGE && f != 0 && p.loc == a + f && (f > 0 ==> SplitInto(p, a, h, n, f))
    && (0 < f <= h ==> f + n + OVERHEAD <= h)
  }

  predicate SplitFits(h: u32, n: u32, f: int) {
    OVERHEAD <= f && (h == f + n + OVERHEAD || f + n + 2 * OVERHEAD <= h)
  }

  /** A request whose block some heap has is not too large, and if it was split, there was room for every piece. */
  lemma {:induction false} ServedFits(cs0: seq<Chunk>, lo: int, hi: u32, i: nat, n: u32, pageAlign: bool, split: bool,
                                      f: int, p: Plan, m0: seq<byte>, w: Writes, m: seq<byte>, cs: seq<Chunk>, j: nat)
    requires WellFormed(cs0, lo, hi) && i < |cs0| && cs0[i].hole && Tiled(cs, lo, hi) && AllInMemory(m, cs)
    requires Serves(cs, cs0, j, Add32(p.loc, HEADER), n, pageAlign) && Carved(m0, w, m, cs0[i], p, hi)
    requires split && n + OVERHEAD < WORLD ==> SplitFacts(p, cs0[i].addr, cs0[i].size, n, f)
    ensures n + OVERHEAD < WORLD && (split ==> SplitFits(cs0[i].size, n, f))
  {
    Inside(cs, lo, hi, j);
    SamePlace(p.loc, cs[j].addr);
    if split { SplitCovers(cs0, lo, hi, i, n, f, p, m0, w, m, cs, j); }
  }

  lemma {:induction false} SplitCovers(cs0: seq<Chunk>, lo: int, hi: u32, i: nat, n: u32, f: int, p: Plan,
                                       m0: seq<byte>, w: Writes, m: seq<byte>, cs: seq<Chunk>, j: nat)
    requires WellFormed(cs0, lo, hi) && i < |cs0| && cs0[i].hole && Tiled(cs, lo, hi) && AllInMemory(m, cs)
    requires j < |cs| && Keeps(cs, cs0, j) && cs[j].addr == p.loc && n + OVERHEAD <= cs[j].size
    requires SplitFacts(p, cs0[i].addr, cs0[i].size, n, f) && Carved(m0, w, m, cs0[i], p, hi)
    ensures SplitFits(cs0[i].size, n, f)
  {
    Inside(cs0, lo, hi, i);
    FrontFits(cs0, cs, lo, hi, i, j);
    HoleBounds(cs0, cs, lo, hi, i);
    WayInHole(cs0[i], lo, hi, n, f, p, m0, w, m, cs, j);
    TailFits(cs0[i], lo, hi, n, f, p, m0, w, m, cs, j);
  }

  lemma {:induction false} SamePlace(x: u32, y: u32)
    requires Add32(x, HEADER) == y + HEADER
    ensures x == y
  {
  }

  /** With the page boundary inside the hole the fit test means what it should. */
  lemma {:induction false} FitsBehind(a: u32, h: u32, n: u32)
    requires HEADER <= a && a + HEADER < WORLD && (a + HEADER) % PAGE != 0 && 0 < Way(a) <= h && n + OVERHEAD < WORLD
    requires Fits(a, h, n + OVERHEAD, true)
    ensures Way(a) + n + OVERHEAD <= h
  {
    SplitPlace(a);
  }

  lemma {:induction false} UnsplitSound(a: u32, h: u32, n: u32, pageAlign: bool)
    requires a + HEADER < WORLD && n + OVERHEAD < WORLD && (pageAlign ==> (a + HEADER) % PAGE == 0)
    requires Fits(a, h, n + OVERHEAD, pageAlign)
    ensures Sound(a, h, n, pageAlign)
  {
  }

  lemma {:induction false} SplitArithmetic(a: u32, h: u32, n: u32)
    requires HEADER <= a && a + h < WORLD && OVERHEAD <= h && n + OVERHEAD < WORLD && (a + HEADER) % PAGE != 0
    requires Fits(a, h, n + OVERHEAD, true)
    ensures SplitFacts(LayOut(a, h, n, true), a, h, n, Way(a)) && (SplitFits(h, n, Way(a)) ==> Sound(a, h, n, true))
  {
    SplitPlace(a);
    if Way(a) > 0 { SplitPlan(a, h, n); }
    if 0 < Way(a) <= h { FitsBehind(a, h, n); }
  }

  predicate Splits(a: u32, pageAlign: bool) {
    pageAlign && (a + HEADER) % PAGE != 0
  }

  /** For a hole that passes the fit test: when a request is Sound. */
  lemma {:induction false} Arithmetic(a: u32, h: u32, n: u32, pageAlign: bool)
    requires HEADER <= a && a + h < WORLD && OVERHEAD <= h && Fits(a, h, Add32(n, OVERHEAD), pageAlign)
    ensures Splits(a, pageAlign) && n + OVERHEAD < WORLD ==> SplitFacts(LayOut(a, h, n, pageAlign), a, h, n, Way(a))
    ensures n + OVERHEAD < WORLD && (Splits(a, pageAlign) ==> SplitFits(h, n, Way(a))) ==> Sound(a, h, n, pageAlign)
  {
    if n + OVERHEAD < WORLD {
      if Splits(a, pageAlign) { SplitArithmetic(a, h, n); } else { UnsplitSound(a, h, n, pageAlign); }
    }
  }

  lemma {:induction false} SoundIsServed(cs0: seq<Chunk>, lo: int, hi: u32, i: nat, n: u32, pageAlign: bool,
                                         m: seq<byte>, index: seq<int>)
    requires WellFormed(cs0, lo, hi) && i < |cs0| && cs0[i].hole && Sound(cs0[i].addr, cs0[i].size, n, pageAlign)
    requires HeapInv(m, index, lo, hi, Allocated(cs0, i, PlanAt(cs0[i], n, pageAlign)))
    ensures Served(m, index, lo, hi, cs0, Add32(PlanAt(cs0[i], n, pageAlign).loc, HEADER), n, pageAlign)
  {
    var p := PlanAt(cs0[i], n, pageAlign);
    Inside(cs0, lo, hi, i);
    LayOutTilesIff(cs0[i].addr, cs0[i].size, n, pageAlign);
    var cs, j := Allocated(cs0, i, p), if p.front > 0 then i + 1 else i;
    CutKeeps(cs0, lo, hi, i, p, j);
    LayOutTakes(cs0[i].addr, cs0[i].size, n, pageAlign);
    AllocatedBytes(cs0, i, p);
    assert Serves(cs, cs0, j, Add32(p.loc, HEADER), n, pageAlign);
  }

  lemma {:induction false} CutKeeps(cs0: seq<Chunk>, lo: int, hi: int, i: nat, p: Plan, j: nat)
    requires Tiled(cs0, lo, hi) && i < |cs0| && cs0[i].hole && PlanCovers(p, cs0[i].addr, cs0[i].size)
    requires j == if p.front > 0 then i + 1 else i
    ensures j < |Allocated(cs0, i, p)| && Allocated(cs0, i, p)[j] == Block(p) && Keeps(Allocated(cs0, i, p), cs0, j)
  {
    var cs := Allocated(cs0, i, p);
    forall c | c in cs0 && !c.hole ensures c in cs && c.addr != p.loc {
      var k :| 0 <= k < |cs0| && cs0[k] == c;
      if k < i {
        Ordered(cs0, lo, hi, k, i);
        assert cs[k] == c;
      } else {
        Ordered(cs0, lo, hi, i, k);
        assert cs[k - 1 + |Pieces(cs0[i].addr, p)|] == c;
      }
    }
  }

  /** For every hole that passes the fit test, whatever the overlapping writes leave in memory. */
  lemma {:induction false} ServedIff(cs0: seq<Chunk>, lo: int, hi: u32, i: nat, n: u32, pageAlign: bool, m0: seq<byte>,
                                     w: Writes, m: seq<byte>, index: seq<int>)
    requires WellFormed(cs0, lo, hi) && i < |cs0| && cs0[i].hole
    requires Fits(cs0[i].addr, cs0[i].size, Add32(n, OVERHEAD), pageAlign)
    requires Carved(m0, w, m, cs0[i], PlanAt(cs0[i], n, pageAlign), hi)
    requires Sound(cs0[i].addr, cs0[i].size, n, pageAlign) ==>
      HeapInv(m, index, lo, hi, Allocated(cs0, i, PlanAt(cs0[i], n, pageAlign)))
    ensures Served(m, index, lo, hi, cs0, Add32(PlanAt(cs0[i], n, pageAlign).loc, HEADER), n, pageAlign)
       <==> Sound(cs0[i].addr, cs0[i].size, n, pageAlign)
  {
    var c, p := cs0[i], PlanAt(cs0[i], n, pageAlign);
    if Sound(c.addr, c.size, n, pageAlign) {
      SoundIsServed(cs0, lo, hi, i, n, pageAlign, m, index);
    } else if Served(m, index, lo, hi, cs0, Add32(p.loc, HEADER), n, pageAlign) {
      var cs, j :| HeapInv(m, index, lo, hi, cs) && Serves(cs, cs0, j, Add32(p.loc, HEADER), n, pageAlign);
      Inside(cs0, lo, hi, i);
      Arithmetic(c.addr, c.size, n, pageAlign);
      ServedFits(cs0, lo, hi, i, n, pageAlign, Splits(c.addr, pageAlign), Way(c.addr), p, m0, w, m, cs, j);
    }
  }
}
