/**
  What is freed is handed out again, and an aligned request takes no more than it
  needs (source/kernel_heap.cpp:62-145, 219-258).
 */
module HeapReuse {
  import opened Bytes
  import opened HeapLayout
  import opened HeapParts
  import opened HeapRuns
  import opened HeapCalls
  import opened KernelHeaps

  /** The first hole that fits is taken whole. */
  lemma {:induction false} TakeBack(cs: seq<Chunk>, i: nat, c: Chunk, n: u32)
    requires i < |cs| && cs[i] == c && c.hole && c.foot == Link(c.addr) && c.End() < WORLD && 0 < c.addr
    requires n + OVERHEAD <= c.size < n + 2 * OVERHEAD
    requires forall j :: 0 <= j < i && cs[j].hole ==> cs[j].size < n + OVERHEAD
    ensures FitIndex(cs, n + OVERHEAD, false) == i && Sound(c.addr, c.size, n, false)
    ensures var p := PlanAt(c, n, false);
      p.loc == c.addr && Allocated(cs, i, p) == cs[..i] + [c.(hole := false)] + cs[i + 1..]
  {
    FitsIff(c.addr, c.size, n + OVERHEAD, false);
    forall j | 0 <= j < i && cs[j].hole ensures !Fits(cs[j].addr, cs[j].size, n + OVERHEAD, false) {
      FitsIff(cs[j].addr, cs[j].size, n + OVERHEAD, false);
    }
    FirstFitUnique(cs, i, n + OVERHEAD, false);
    LayOutTilesIff(c.addr, c.size, n, false);
    LayOutTakes(c.addr, c.size, n, false);
    assert Pieces(c.addr, PlanAt(c, n, false)) == [c.(hole := false)];
  }

  /** The tiling after a block between two others is freed. */
  lemma {:induction false} FreedAlone(cs: seq<Chunk>, lo: int, hi: int, i: nat)
    requires WellFormed(cs, lo, hi) && IsBlock(cs, i) && i < |cs| - 1 && !LeftHole(cs, i) && !RightHole(cs, i)
    ensures cs[i].foot == Link(cs[i].addr) && 0 < cs[i].addr && cs[i].End() < WORLD
    ensures Freed(cs, i) == cs[..i] + [cs[i].(hole := true)] + cs[i + 1..]
  {
    Inside(cs, lo, hi, i);
    Inside(cs, lo, hi, i + 1);
    assert FootOk(cs[i], false) && cs[i + 1].addr == cs[i].End();
    assert Merged(cs, i) == cs[i].(hole := true);
  }

  lemma {:induction false} PutBack(cs: seq<Chunk>, i: nat, c: Chunk)
    requires i < |cs|
    ensures var cs' := cs[..i] + [c] + cs[i + 1..];
      && |cs'| == |cs| && cs'[i] == c && (forall j :: 0 <= j < i ==> cs'[j] == cs[j])
      && cs'[..i] + [cs[i]] + cs'[i + 1..] == cs
  {
  }

  /** A block between two live ones, freed: an unaligned request that fits it and no hole below gets it back, and the
      heap is what it was. */
  lemma {:induction false} AllocateUndoesFree(cs: seq<Chunk>, ps: seq<Part>, lo: int, hi: int, i: nat, n: u32)
    requires WellFormed(cs, lo, hi) && IsBlock(cs, i) && i < |cs| - 1 && !LeftHole(cs, i) && !RightHole(cs, i)
    requires n + OVERHEAD <= cs[i].size < n + 2 * OVERHEAD
    requires forall j :: 0 <= j < i && cs[j].hole ==> cs[j].size < n + OVERHEAD
    ensures var s := Step(cs, ps, Release(cs[i].addr + HEADER));
      && s.Ok? && PointerOf(s.chunks, n, false) == cs[i].addr + HEADER
      && Step(s.chunks, s.parts, Alloc(n, false)).Ok? && Step(s.chunks, s.parts, Alloc(n, false)).chunks == cs
  {
    var c := cs[i].(hole := true);
    var cs' := cs[..i] + [c] + cs[i + 1..];
    ChunkIndexIs(cs, lo, hi, i);
    FreedAlone(cs, lo, hi, i);
    PutBack(cs, i, c);
    TakeBack(cs', i, c, n);
    assert Step(cs, ps, Release(cs[i].addr + HEADER)) == Ok(cs', Rejoined(cs, i, ps) + Absorbed(cs, i));
  }

  /** Three blocks of any size; the middle one is freed and handed out again to the same request. */
  lemma {:induction false} ReuseRun(t0: Chunk, n: u32)
    requires WellFormed([t0], t0.addr, t0.End()) && t0.hole && 3 * (n + OVERHEAD) + OVERHEAD <= t0.size
    ensures var ptr := Rest(t0, n).addr + HEADER;
      && Run(Ok([t0], []), ThreeAllocs(n) + [Release(ptr)]).Ok?
      && PointerOf(Run(Ok([t0], []), ThreeAllocs(n) + [Release(ptr)]).chunks, n, false) == ptr
      && Run(Ok([t0], []), ThreeAllocs(n) + [Release(ptr), Alloc(n, false)]) == Run(Ok([t0], []), ThreeAllocs(n))
  {
    var ptr, cs := Rest(t0, n).addr + HEADER, ThreeLive(t0, n);
    var a, b, c, t := cs[0], cs[1], cs[2], cs[3];
    var s0, s1 := Ok(cs, []), Ok([a, b.(hole := true), c, t], []);
    ThreeBlocks(t0, n);
    assert Goes(s0, Release(ptr), s1) by { FreeOfFour(a, b, c, t, ptr); }
    assert Goes(s1, Alloc(n, false), s0) by { TakeSecond(a, b.(hole := true), c, t, n); }
    OneCall(s0, Release(ptr), s1);
    TwoCalls(s0, Release(ptr), s1, Alloc(n, false), s0);
    RunTwice(Ok([t0], []), ThreeAllocs(n), [Release(ptr)]);
    RunTwice(Ok([t0], []), ThreeAllocs(n), [Release(ptr), Alloc(n, false)]);
    TakeSecond(a, b.(hole := true), c, t, n);
  }

  lemma {:induction false} TakeSecond(a: Chunk, b: Chunk, c: Chunk, t: Chunk, n: u32)
    requires !a.hole && b.hole && b.foot == Link(b.addr) && b.End() < WORLD && 0 < b.addr && b.size == n + OVERHEAD
    ensures Goes(Ok([a, b, c, t], []), Alloc(n, false), Ok([a, b.(hole := false), c, t], []))
    ensures PointerOf([a, b, c, t], n, false) == b.addr + HEADER
  {
    var cs := [a, b, c, t];
    TakeBack(cs, 1, b, n);
    assert cs[..1] == [a] && cs[2..] == [c, t];
    assert Cut([], b, PlanAt(b, n, false)) == [];
  }

  /** Where a hole's payload is on a page boundary already, an aligned request does what an unaligned one does. */
  lemma {:induction false} AlignedAlike(c: Chunk, n: u32)
    requires (c.addr + HEADER) % PAGE == 0
    ensures PlanAt(c, n, true) == PlanAt(c, n, false)
    ensures forall need: u32 :: Fits(c.addr, c.size, need, true) <==> need <= c.size
  {
    PageRemainder(c.addr);
    OffsetIs(c.addr);
  }
}
