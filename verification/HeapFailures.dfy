/**
  Runs that lose the heap, each for every choice of its sizes: a stale footer, a
  hole freed twice, and the page-aligned requests that `findSmallestHole` grants
  and `allocate` cannot serve (source/kernel_heap.cpp:62-258).
 */
module HeapFailures {
  import opened Bytes
  import opened HeapLayout
  import opened HeapMerging
  import opened HeapParts
  import opened HeapService
  import opened HeapWrites
  import opened HeapRuns
  import opened HeapCalls
  import opened KernelHeaps

  // ---------- Three blocks ----------

  /** Six calls from a fresh heap with room for three blocks of any size, after which it is no heap: the
      middle block is freed, then the first, and then the third, whose left neighbour's footer still points
      at the middle one. */
  lemma {:induction false} StaleRun(t0: Chunk, n: u32)
    requires WellFormed([t0], t0.addr, t0.End()) && t0.hole && 3 * (n + OVERHEAD) + OVERHEAD <= t0.size
    ensures var t1 := Rest(t0, n); var t2 := Rest(t1, n);
      Run(Ok([t0], []), ThreeAllocs(n) + [Release(t1.addr + HEADER), Release(t0.addr + HEADER),
                                          Release(t2.addr + HEADER)]) == Spoiled
  {
    var t1 := Rest(t0, n);
    var t2 := Rest(t1, n);
    ThreeBlocks(t0, n);
    StaleFrees(t0, n);
    RunTwice(Ok([t0], []), ThreeAllocs(n),
             [Release(t1.addr + HEADER), Release(t0.addr + HEADER), Release(t2.addr + HEADER)]);
  }

  lemma {:induction false} StaleFrees(t0: Chunk, n: u32)
    requires t0.hole && 0 < t0.addr && t0.End() <= WORLD && 3 * (n + OVERHEAD) + OVERHEAD <= t0.size
    ensures var t1 := Rest(t0, n); var t2 := Rest(t1, n);
      Run(Ok(ThreeLive(t0, n), []),
          [Release(t1.addr + HEADER), Release(t0.addr + HEADER), Release(t2.addr + HEADER)]) == Spoiled
  {
    var t1 := Rest(t0, n);
    var t2 := Rest(t1, n);
    ThreeFrees(Live(t0.addr, n), Live(t1.addr, n), Live(t2.addr, n), Rest(t2, n),
               t1.addr + HEADER, t0.addr + HEADER, t2.addr + HEADER);
  }

  /** Of three blocks in a row the middle one is freed, then the first, then the third. */
  lemma {:induction false} ThreeFrees(a: Chunk, b: Chunk, c: Chunk, t: Chunk, pb: int, pa: int, pc: int)
    requires !a.hole && !b.hole && !c.hole && a.End() == b.addr && b.foot == Link(b.addr)
    requires a.addr + a.size + b.size < WORLD
    requires a.addr != c.addr && 0 < a.size && pb == b.addr + HEADER && pa == a.addr + HEADER && pc == c.addr + HEADER
    ensures Run(Ok([a, b, c, t], []), [Release(pb), Release(pa), Release(pc)]) == Spoiled
  {
    var b' := b.(hole := true);
    var ab, ps := Chunk(a.addr, a.size + b'.size, true, b'.foot), Absorbed([a, b', c, t], 0);
    assert Goes(Ok([a, b, c, t], []), Release(pb), Ok([a, b', c, t], [])) by { FreeOfFour(a, b, c, t, pb); }
    assert Goes(Ok([a, b', c, t], []), Release(pa), Ok([ab, c, t], ps)) by { FreeBelowHole(a, b', c, t, pa); }
    assert Goes(Ok([ab, c, t], ps), Release(pc), Spoiled) by { FreeAboveStale(ab, c, t, ps, pc); }
    ThreeCalls(Ok([a, b, c, t], []), Release(pb), Ok([a, b', c, t], []), Release(pa), Ok([ab, c, t], ps), Release(pc),
               Spoiled);
  }

  lemma {:induction false} FreeBelowHole(a: Chunk, b: Chunk, c: Chunk, t: Chunk, ptr: int)
    requires ptr == a.addr + HEADER && !a.hole && b.hole && a.End() == b.addr && a.addr + a.size + b.size < WORLD
    ensures Goes(Ok([a, b, c, t], []), Release(ptr),
                 Ok([Chunk(a.addr, a.size + b.size, true, b.foot), c, t], Absorbed([a, b, c, t], 0)))
  {
    var cs := [a, b, c, t];
    assert ChunkIndex(cs, ptr) == 0;
    assert Merged(cs, 0) == Chunk(a.addr, a.size + b.size, true, b.foot);
    assert cs[..0] == [] && cs[2..] == [c, t];
  }

  lemma {:induction false} FreeAboveStale(a: Chunk, c: Chunk, t: Chunk, ps: seq<Part>, ptr: int)
    requires ptr == c.addr + HEADER && a.addr != c.addr && a.hole && a.foot != Link(a.addr) && !c.hole
    ensures Goes(Ok([a, c, t], ps), Release(ptr), Spoiled)
  {
    assert [a, c, t][1..] == [c, t] && ChunkIndex([c, t], ptr) == 0;
  }

  /** A hole freed a second time. */
  lemma {:induction false} FreedTwiceRun(t0: Chunk, n: u32)
    requires WellFormed([t0], t0.addr, t0.End()) && t0.hole && 3 * (n + OVERHEAD) + OVERHEAD <= t0.size
    ensures var ptr := Rest(t0, n).addr + HEADER;
      Run(Ok([t0], []), ThreeAllocs(n) + [Release(ptr), Release(ptr)]) == Spoiled
  {
    var t1 := Rest(t0, n);
    var t2 := Rest(t1, n);
    var a, b, c, t, pb := Live(t0.addr, n), Live(t1.addr, n), Live(t2.addr, n), Rest(t2, n), t1.addr + HEADER;
    ThreeBlocks(t0, n);
    FreeOfFour(a, b, c, t, pb);
    FreeHoleOfFour(a, b.(hole := true), c, t, pb);
    TwoCalls(Ok([a, b, c, t], []), Release(pb), Ok([a, b.(hole := true), c, t], []), Release(pb), Spoiled);
    RunTwice(Ok([t0], []), ThreeAllocs(n), [Release(pb), Release(pb)]);
  }

  lemma {:induction false} FreeHoleOfFour(a: Chunk, b: Chunk, c: Chunk, t: Chunk, ptr: int)
    requires ptr == b.addr + HEADER && a.addr != b.addr && b.hole
    ensures Goes(Ok([a, b, c, t], []), Release(ptr), Spoiled)
  {
    assert [a, b, c, t][1..] == [b, c, t] && ChunkIndex([b, c, t], ptr) == 0;
  }

  // ---------- A block freed twice after it was absorbed ----------

  /** The hole that two blocks make, and the second of them as a piece of it. */
  function TwoJoined(t0: Chunk, n: u32): State {
    var a, t1 := Live(t0.addr, n), Rest(t0, n);
    var b, t2 := Live(t1.addr, n), Rest(t1, n);
    Ok([Chunk(a.addr, Word(a.size + b.size), true, Link(a.addr)), Live(t2.addr, n), Rest(t2, n)],
       [Part(b.addr, b.size, a.addr, true)])
  }

  lemma {:induction false} TwoFrees(t0: Chunk, n: u32)
    requires t0.hole && 0 < t0.addr && t0.End() <= WORLD && 3 * (n + OVERHEAD) + OVERHEAD <= t0.size
    ensures Run(Ok([t0], []), ThreeAllocs(n) + [Release(t0.addr + HEADER), Release(Rest(t0, n).addr + HEADER)])
            == TwoJoined(t0, n)
  {
    ThreeBlocks(t0, n);
    JoiningFrees(t0, n);
    RunTwice(Ok([t0], []), ThreeAllocs(n), [Release(t0.addr + HEADER), Release(Rest(t0, n).addr + HEADER)]);
  }

  lemma {:induction false} JoiningFrees(t0: Chunk, n: u32)
    requires t0.hole && 0 < t0.addr && t0.End() <= WORLD && 3 * (n + OVERHEAD) + OVERHEAD <= t0.size
    ensures Run(Ok(ThreeLive(t0, n), []), [Release(t0.addr + HEADER), Release(Rest(t0, n).addr + HEADER)])
            == TwoJoined(t0, n)
  {
    var cs, pa, pb := ThreeLive(t0, n), t0.addr + HEADER, Rest(t0, n).addr + HEADER;
    var a, b, c, t := cs[0], cs[1], cs[2], cs[3];
    FreeFirst(a, b, c, t, pa);
    FreeSecond(a.(hole := true), b, c, t, pb);
    TwoCalls(Ok(cs, []), Release(pa), Ok([a.(hole := true), b, c, t], []), Release(pb), TwoJoined(t0, n));
  }

  lemma {:induction false} FreeFirst(a: Chunk, b: Chunk, c: Chunk, t: Chunk, ptr: int)
    requires ptr == a.addr + HEADER && !a.hole && !b.hole && a.foot == Link(a.addr)
    ensures Goes(Ok([a, b, c, t], []), Release(ptr), Ok([a.(hole := true), b, c, t], []))
  {
    var cs := [a, b, c, t];
    assert ChunkIndex(cs, ptr) == 0 && Merged(cs, 0) == a.(hole := true);
    assert cs[..0] == [] && cs[1..] == [b, c, t];
  }

  lemma {:induction false} FreeSecond(a: Chunk, b: Chunk, c: Chunk, t: Chunk, ptr: int)
    requires ptr == b.addr + HEADER && a.hole && !b.hole && !c.hole && a.End() == b.addr && a.addr != b.addr
    requires a.foot == Link(a.addr)
    ensures Goes(Ok([a, b, c, t], []), Release(ptr),
                 Ok([Chunk(a.addr, Word(a.size + b.size), true, Link(a.addr)), c, t],
                    [Part(b.addr, b.size, a.addr, true)]))
  {
    var cs := [a, b, c, t];
    assert cs[1..] == [b, c, t] && ChunkIndex([b, c, t], ptr) == 0;
    assert Merged(cs, 1) == Chunk(a.addr, Word(a.size + b.size), true, Link(a.addr));
    assert cs[..0] == [] && cs[2..] == [c, t];
  }

  /** The second block freed once more: its pointer leads to a piece of the hole, whose header is the one below. */
  lemma {:induction false} FreeJoined(t0: Chunk, n: u32)
    requires t0.hole && 0 < t0.addr && t0.End() <= WORLD && 3 * (n + OVERHEAD) + OVERHEAD <= t0.size
    ensures var s, ptr := TwoJoined(t0, n), Rest(t0, n).addr + HEADER;
      && ChunkIndex(s.chunks, ptr) == -1 && PartIndex(s.parts, ptr) == 0 && Around(s.chunks, ptr - HEADER) == 0
      && Goes(s, Release(ptr), Spoiled)
  {
    var s := TwoJoined(t0, n);
    assert s.chunks[1..] == [s.chunks[1], s.chunks[2]] && s.chunks[1..][1..] == [s.chunks[2]];
    assert s.chunks[1..][1..][1..] == [];
  }

  /** Three blocks of any size, of which the first is freed, then the second, then the second again. */
  lemma {:induction false} JoinedTwiceRun(t0: Chunk, n: u32)
    requires WellFormed([t0], t0.addr, t0.End()) && t0.hole && 3 * (n + OVERHEAD) + OVERHEAD <= t0.size
    ensures var ptr := Rest(t0, n).addr + HEADER;
      Run(Ok([t0], []), ThreeAllocs(n) + [Release(t0.addr + HEADER), Release(ptr)] + [Release(ptr)]) == Spoiled
  {
    var s, ptr := TwoJoined(t0, n), Rest(t0, n).addr + HEADER;
    var calls := ThreeAllocs(n) + [Release(t0.addr + HEADER), Release(ptr)];
    TwoFrees(t0, n);
    FreeJoined(t0, n);
    RunTwice(Ok([t0], []), calls, [Release(ptr)]);
    OneCall(s, Release(ptr), Spoiled);
  }

  /** The same after a smaller block was cut from the front of the joined hole. */
  function CutJoined(t0: Chunk, n: u32, k: u32): State {
    var s, h := TwoJoined(t0, n), TwoJoined(t0, n).chunks[0];
    Ok([Live(h.addr, k), Rest(h, k), s.chunks[1], s.chunks[2]], [s.parts[0].(joins := false)])
  }

  /** A block from the front of hole h, which piece q joined. */
  lemma {:induction false} CutFirst(h: Chunk, c: Chunk, t: Chunk, q: Part, k: u32)
    requires h.hole && 0 < h.addr && h.End() <= WORLD && k + 2 * OVERHEAD <= h.size
    requires h.addr + k + 2 * OVERHEAD <= q.at && q.at < h.End() && q.joins && q.below == h.addr
    ensures Goes(Ok([h, c, t], [q]), Alloc(k, false), Ok([Live(h.addr, k), Rest(h, k), c, t], [q.(joins := false)]))
  {
    var cs, p := [h, c, t], PlanAt(h, k, false);
    FirstFitUnique(cs, 0, k + OVERHEAD, false);
    assert p == Plan(0, h.addr, k, k + OVERHEAD, h.addr + k + OVERHEAD, h.size - k - OVERHEAD);
    assert Pieces(h.addr, p) == [Block(p), Tail(p)];
    assert cs[..0] == [] && cs[1..] == [c, t] && [q][1..] == [] && Cut([], h, p) == [];
    assert Cut([q], h, p) == CutPart(q, h, p) == [q.(joins := false)];
  }

  /** A piece at the end of a hole, above a footer that names a block. */
  lemma {:induction false} FreeListed(x: Chunk, y: Chunk, c: Chunk, t: Chunk, q: Part, ptr: int)
    requires PartFits(y, q) && !q.joins && q.End() == y.End() && ptr == q.at + HEADER
    requires x.addr < x.End() <= y.addr && y.End() == c.addr < t.addr
    ensures Goes(Ok([x, y, c, t], [q]), Release(ptr), Spoiled)
  {
    var cs := [x, y, c, t];
    assert cs[1..] == [y, c, t] && [y, c, t][1..] == [c, t] && [c, t][1..] == [t] && [t][1..] == [];
    assert ChunkIndex([t], ptr) == -1 && ChunkIndex([c, t], ptr) == -1 && ChunkIndex(cs, ptr) == -1;
    assert Around([y, c, t], q.at) == 0 && Around(cs, q.at) == 1;
  }

  /** Three blocks of any size, of which the first and the second are freed, then a block that leaves the second
      untouched is cut from the front of their hole, and then the second is freed again: it is listed inside a hole. */
  lemma {:induction false} JoinedCutRun(t0: Chunk, n: u32, k: u32)
    requires WellFormed([t0], t0.addr, t0.End()) && t0.hole && 3 * (n + OVERHEAD) + OVERHEAD <= t0.size
    requires k + OVERHEAD <= n
    ensures var ptr := Rest(t0, n).addr + HEADER;
      Run(Ok([t0], []), ThreeAllocs(n) + [Release(t0.addr + HEADER), Release(ptr)]
                        + [Alloc(k, false), Release(ptr)]) == Spoiled
  {
    var ptr := Rest(t0, n).addr + HEADER;
    var s, s' := TwoJoined(t0, n), CutJoined(t0, n, k);
    TwoFrees(t0, n);
    CutFirst(s.chunks[0], s.chunks[1], s.chunks[2], s.parts[0], k);
    FreeListed(s'.chunks[0], s'.chunks[1], s'.chunks[2], s'.chunks[3], s'.parts[0], ptr);
    TwoCalls(s, Alloc(k, false), s', Release(ptr), Spoiled);
    RunTwice(Ok([t0], []), ThreeAllocs(n) + [Release(t0.addr + HEADER), Release(ptr)], [Alloc(k, false), Release(ptr)]);
  }

  /** In a heap that starts with a hole, the header above it says block. */
  lemma {:induction false} BlockAbove(m: seq<byte>, index: seq<int>, lo: int, hi: int, size: int, cs: seq<Chunk>)
    requires HeapInv(m, index, lo, hi, cs) && HeaderAt(m, lo, true, size) && lo + size < hi
    ensures 0 <= lo + size && lo + size + HEADER <= |m| && m[lo + size + 4] == 0
  {
    assert InMemory(m, cs[0]) && cs[0].size == size && cs[0].hole && cs[0].End() == lo + size;
    assert InMemory(m, cs[1]) && cs[1].addr == lo + size;
  }

  lemma {:induction false} HolesMeet(m: seq<byte>, index: seq<int>, lo: int, hi: int, size: int)
    requires HeaderAt(m, lo, true, size) && lo + size < hi
    requires 0 <= lo + size && lo + size + HEADER <= |m| && m[lo + size + 4] == 1
    ensures !Explained(m, index, lo, hi)
  {
    forall cs | HeapInv(m, index, lo, hi, cs) ensures false { BlockAbove(m, index, lo, hi, size, cs); }
  }

  /** The first hole of a heap grown over the block above it, up to the next hole. */
  lemma {:induction false} GrownMeets(m0: seq<byte>, m: seq<byte>, index: seq<int>, cs: seq<Chunk>, p: Part, lo: int,
                                      hi: int, cs': seq<Chunk>, size: int)
    requires PartEffect(m0, cs, 0, p, lo, hi, m, index, cs') && |cs| == 3 && p.joins && p.below == cs[0].addr == lo
    requires cs[2].hole && InMemory(m0, cs[2]) && OVERHEAD <= cs[2].size && cs[0].End() <= cs[2].addr < hi
    requires size == Add32(cs[0].size, p.size)
    requires lo + size == cs[2].addr
    ensures HeaderAt(m, lo, true, size) && !Explained(m, index, lo, hi)
  {
    var t := cs[2];
    assert SameOutside(m0, m, cs[0].addr, cs[0].End()) && Agree(m0, m, t.addr, t.addr + HEADER);
    HeaderFrame(m0, m, t);
    assert m[lo + size + 4] == 1;
    HolesMeet(m, index, lo, hi, size);
  }

  /** What freeing the second of two joined blocks once more has written. */
  lemma {:induction false} JoinedSwallows(m0: seq<byte>, m: seq<byte>, index: seq<int>, t0: Chunk, n: u32,
                                          lo: int, hi: int, cs': seq<Chunk>)
    requires t0.hole && 0 < t0.addr && t0.End() <= WORLD && 3 * (n + OVERHEAD) + OVERHEAD <= t0.size
    requires lo == t0.addr && hi == t0.End()
    requires InMemory(m0, TwoJoined(t0, n).chunks[2])
    requires PartEffect(m0, TwoJoined(t0, n).chunks, 0, TwoJoined(t0, n).parts[0], lo, hi, m, index, cs')
    ensures HeaderAt(m, t0.addr, true, 3 * (n + OVERHEAD)) && !Explained(m, index, lo, hi)
  {
    var s := TwoJoined(t0, n);
    GrownMeets(m0, m, index, s.chunks, s.parts[0], lo, hi, cs', 3 * (n + OVERHEAD));
  }

  /** The last call of that run on the memory. */
  method FreeJoinedAgain(h: KernelHeap, t0: Chunk, n: u32)
    requires h.Valid() && h.index_.size_ < h.index_.maxSize_ && h.startAddress_ == t0.addr && h.endAddress_ == t0.End()
    requires t0.hole && 0 < t0.addr && t0.End() <= WORLD && 3 * (n + OVERHEAD) + OVERHEAD <= t0.size
    requires h.chunks == TwoJoined(t0, n).chunks && PartsIn(h.mem[..], h.chunks, TwoJoined(t0, n).parts)
    modifies h, h.mem, h.index_, h.index_.array_
    ensures h.index_.Valid() && HeaderAt(h.mem[..], t0.addr, true, 3 * (n + OVERHEAD))
    ensures !Explained(h.mem[..], h.index_.Items(), h.startAddress_, h.endAddress_)
  {
    ghost var m0, s := h.mem[..], TwoJoined(t0, n);
    FreeJoined(t0, n);
    assert InMemory(m0, s.chunks[2]);
    ghost var i, part := PerformFree(h, s.parts, Rest(t0, n).addr + HEADER);
    JoinedSwallows(m0, h.mem[..], h.index_.Items(), t0, n, h.startAddress_, h.endAddress_, h.chunks);
  }

  lemma {:induction false} ThreeHoles(t0: Chunk, n: u32)
    ensures |Holes(TwoJoined(t0, n).chunks)| == 2
  {
    var cs := TwoJoined(t0, n).chunks;
    HolesAround([cs[0]], [cs[1]], [cs[2]]);
    HolesOne(cs[0]);
    HolesOne(cs[1]);
    HolesOne(cs[2]);
    assert cs == [cs[0]] + [cs[1]] + [cs[2]];
  }

  lemma {:induction false} StartsAbove(lo: int, hi: int, t: Chunk)
    requires WellFormed([t], lo, hi)
    ensures lo == t.addr && hi == t.End()
  {
  }

  /** That run on the memory: the header of the hole spans all three blocks, the live third one too, up to the hole
      behind it, and no heap explains that. */
  method SwallowLive(h: KernelHeap, t0: Chunk, n: u32)
    requires h.Valid() && h.chunks == [t0] && h.index_.size_ + 6 <= h.index_.maxSize_
    requires t0.hole && 3 * (n + OVERHEAD) + OVERHEAD <= t0.size
    modifies h, h.mem, h.index_, h.index_.array_
    ensures h.index_.Valid() && HeaderAt(h.mem[..], t0.addr, true, 3 * (n + OVERHEAD))
    ensures var c := Live(Rest(Rest(t0, n), n).addr, n);
      c in TwoJoined(t0, n).chunks && t0.addr < c.addr && c.End() == t0.addr + 3 * (n + OVERHEAD)
    ensures !Explained(h.mem[..], h.index_.Items(), h.startAddress_, h.endAddress_)
  {
    StartsAbove(h.startAddress_, h.endAddress_, t0);
    TwoFrees(t0, n);
    var s := TwoJoined(t0, n);
    var done := PerformAll(h, [t0], [], ThreeAllocs(n) + [Release(t0.addr + HEADER),
                                                          Release(Rest(t0, n).addr + HEADER)]);
    ThreeHoles(t0, n);
    FreeJoinedAgain(h, t0, n);
    assert s.chunks[1] in s.chunks;
  }

  // ---------- Page-aligned requests ----------

  /** A page-aligned request of n bytes that passes the fit test at hole c and has no room there for its pieces. */
  predicate GrantedUnsound(c: Chunk, n: u32) {
    Fits(c.addr, c.size, Add32(n, OVERHEAD), true) && !Sound(c.addr, c.size, n, true)
  }

  lemma {:induction false} GrantedStep(cs: seq<Chunk>, i: nat, n: u32)
    requires i < |cs| && cs[i].hole && GrantedUnsound(cs[i], n) && forall j :: 0 <= j < i ==> !cs[j].hole
    ensures Goes(Ok(cs, []), Alloc(n, true), Spoiled)
  {
    FirstFitUnique(cs, i, Add32(n, OVERHEAD), true);
  }

  /** A fresh heap on a page boundary: between 1 and 19 bytes would be left behind the block. */
  lemma {:induction false} ShortTailRun(t0: Chunk, n: u32)
    requires WellFormed([t0], t0.addr, t0.End()) && t0.hole && t0.addr % PAGE == 0 && t0.End() < WORLD
    requires PAGE - HEADER + n + OVERHEAD < t0.size < PAGE - HEADER + n + 2 * OVERHEAD
    ensures Run(Ok([t0], []), [Alloc(n, true)]) == Spoiled
  {
    GrantedStep([t0], 0, n);
    OneCall(Ok([t0], []), Alloc(n, true), Spoiled);
  }

  lemma {:induction false} AlignedPlus(a: int, k: nat)
    requires a % PAGE == 0 && k < PAGE
    ensures (a + k) % PAGE == k
  {
    assert a + k == PAGE * (a / PAGE) + k;
  }

  /** The next payload would start fewer than 20 bytes below a page boundary, or up to 11 bytes above one:
      the front hole cannot hold a header and a footer. */
  lemma {:induction false} ShortFrontRun(t0: Chunk, n: u32, x: u32)
    requires WellFormed([t0], t0.addr, t0.End()) && t0.hole && t0.addr % PAGE == 0 && t0.End() < WORLD
    requires PAGE - HEADER - OVERHEAD < n + OVERHEAD < PAGE && n + OVERHEAD != PAGE - HEADER
    requires n + OVERHEAD + PAGE + x + OVERHEAD <= t0.size
    ensures Run(Ok([t0], []), [Alloc(n, false), Alloc(x, true)]) == Spoiled
  {
    var a, t := Live(t0.addr, n), Rest(t0, n);
    AllocFromLast([], t0, [t0], [a, t], n);
    AlignedPlus(t0.addr, n + OVERHEAD);
    GrantedStep([a, t], 1, x);
    TwoCalls(Ok([t0], []), Alloc(n, false), Ok([a, t], []), Alloc(x, true), Spoiled);
  }

  /** The heap after two allocations and the release of the first. */
  function FreedBelow(t0: Chunk, n1: u32, n2: u32): seq<Chunk> {
    [Live(t0.addr, n1).(hole := true), Live(Rest(t0, n1).addr, n2), Rest(Rest(t0, n1), n2)]
  }

  lemma {:induction false} FreeOfThree(a: Chunk, b: Chunk, t: Chunk, ptr: int)
    requires ptr == a.addr + HEADER && !a.hole && !b.hole && a.foot == Link(a.addr)
    ensures Goes(Ok([a, b, t], []), Release(ptr), Ok([a.(hole := true), b, t], []))
  {
    var cs := [a, b, t];
    assert ChunkIndex(cs, ptr) == 0;
    assert Merged(cs, 0) == a.(hole := true);
    assert cs[..0] == [] && cs[1..] == [b, t];
  }

  lemma {:induction false} BeyondHole(c: Chunk, cs: seq<Chunk>, x: u32)
    requires c.hole && 0 < |cs| && cs[0] == c && c.addr % PAGE == 0 && HEADER <= c.addr && c.addr + PAGE < WORLD
    requires OVERHEAD <= c.size <= PAGE - 2 * HEADER && x + PAGE <= WORLD
    ensures FirstFit(cs, 0, Add32(x, OVERHEAD), true) && PointerOf(cs, x, true) == c.addr + PAGE
    ensures Goes(Ok(cs, []), Alloc(x, true), Spoiled) && !Sound(c.addr, c.size, x, true)
    ensures SplitInto(PlanAt(c, x, true), c.addr, c.size, x, PAGE - HEADER)
  {
    SplitPlan(c.addr, c.size, x);
    SplitPlace(c.addr);
    FirstFitUnique(cs, 0, Add32(x, OVERHEAD), true);
    GrantedStep(cs, 0, x);
  }

  /** A freed block too small to reach the next page boundary, below a live one that the boundary lies in. */
  lemma {:induction false} BeyondHoleRun(t0: Chunk, n1: u32, n2: u32, x: u32)
    requires WellFormed([t0], t0.addr, t0.End()) && t0.hole && t0.addr % PAGE == 0 && t0.End() < WORLD
    requires n1 + OVERHEAD + HEADER <= PAGE - HEADER && PAGE <= n1 + OVERHEAD + HEADER + n2 && x + PAGE <= WORLD
    requires n1 + n2 + 3 * OVERHEAD <= t0.size
    ensures var calls := [Alloc(n1, false), Alloc(n2, false), Release(t0.addr + HEADER)];
      && Run(Ok([t0], []), calls) == Ok(FreedBelow(t0, n1, n2), [])
      && Goes(Ok(FreedBelow(t0, n1, n2), []), Alloc(x, true), Spoiled)
      && PointerOf(FreedBelow(t0, n1, n2), x, true) == t0.addr + PAGE
  {
    var a, t1 := Live(t0.addr, n1), Rest(t0, n1);
    var b, t2 := Live(t1.addr, n2), Rest(t1, n2);
    AllocFromLast([], t0, [t0], [a, t1], n1);
    AllocFromLast([a], t1, [a, t1], [a, b, t2], n2);
    FreeOfThree(a, b, t2, t0.addr + HEADER);
    ThreeCalls(Ok([t0], []), Alloc(n1, false), Ok([a, t1], []), Alloc(n2, false), Ok([a, b, t2], []),
               Release(t0.addr + HEADER), Ok(FreedBelow(t0, n1, n2), []));
    BeyondHole(a.(hole := true), [a.(hole := true), b, t2], x);
  }

  lemma {:induction false} FirstHole(cs: seq<Chunk>, i: int, need: u32)
    requires FirstFit(cs, 0, need, true)
    requires if i == -1 then NoFit(cs, need, true) else FirstFit(cs, i, need, true)
    ensures i == 0
  {
  }

  /** The header that the request writes behind the page boundary is there afterwards. */
  lemma {:induction false} HeaderBeyond(c: Chunk, n: u32, f: int, p: Plan, m0: seq<byte>, w: Writes, m: seq<byte>,
                                        end: u32)
    requires SplitInto(p, c.addr, c.size, n, f) && OVERHEAD <= c.size < f < PAGE && n + PAGE <= WORLD
    requires MAGIC < c.addr && p.loc + HEADER <= WORLD && Carved(m0, w, m, c, p, end)
    ensures HeaderAt(m, p.loc, false, p.size)
  {
    FrontIsDone(m0, w, c.addr, p);
    BlockHeaderStays(m0, w, m, c, p, end);
  }

  /** The same of the first hole of a heap. */
  lemma {:induction false} FirstBeyond(cs: seq<Chunk>, lo: int, hi: u32, x: u32, i: int, m0: seq<byte>, w: Writes,
                                       m: seq<byte>)
    requires WellFormed(cs, lo, hi) && cs[0].hole && cs[0].addr % PAGE == 0 && cs[0].size <= PAGE - 2 * HEADER
    requires cs[0].addr + PAGE < hi && x + PAGE <= WORLD
    requires if i == -1 then NoFit(cs, Add32(x, OVERHEAD), true) else FirstFit(cs, i, Add32(x, OVERHEAD), true)
    requires i != -1 ==> 0 <= i < |cs| && Carved(m0, w, m, cs[i], PlanAt(cs[i], x, true), hi)
    ensures i == 0 && !Sound(cs[0].addr, cs[0].size, x, true)
    ensures PlanAt(cs[0], x, true).loc == cs[0].addr + PAGE - HEADER
    ensures Get32(m, cs[0].addr + PAGE - HEADER) == MAGIC
  {
    var c := cs[0];
    BeyondHole(c, cs, x);
    FirstHole(cs, i, Add32(x, OVERHEAD));
    HeaderBeyond(c, x, PAGE - HEADER, PlanAt(c, x, true), m0, w, m, hi);
  }

  /** A page-aligned request whose first fitting hole ends below the page boundary: the magic number of the new
      header is written behind that boundary, and the request is not served. */
  method AllocateBeyond(h: KernelHeap, x: u32, ghost c: Chunk) returns (ptr: u32)
    requires h.Valid() && h.index_.size_ < h.index_.maxSize_ && h.chunks[0] == c && c.hole && c.addr % PAGE == 0
    requires c.size <= PAGE - 2 * HEADER && c.addr + PAGE < h.endAddress_ && x + PAGE <= WORLD
    modifies h, h.mem, h.index_, h.index_.array_
    ensures h.index_.Valid() && ptr == c.addr + PAGE && Get32(h.mem[..], ptr - HEADER) == MAGIC
    ensures !Served(h.mem[..], h.index_.Items(), h.startAddress_, h.endAddress_, old(h.chunks), ptr, x, true)
  {
    ghost var cs, m0 := h.chunks, h.mem[..];
    ghost var i, w;
    ptr, i, w := h.Allocate(x, true);
    FirstBeyond(cs, h.startAddress_, h.endAddress_, x, i, m0, w, h.mem[..]);
  }

  lemma {:induction false} TwoHoles(t0: Chunk, n1: u32, n2: u32)
    ensures |Holes(FreedBelow(t0, n1, n2))| == 2
  {
    var cs := FreedBelow(t0, n1, n2);
    HolesAround([cs[0]], [cs[1]], [cs[2]]);
    HolesOne(cs[0]);
    HolesOne(cs[1]);
    HolesOne(cs[2]);
    assert cs == [cs[0]] + [cs[1]] + [cs[2]];
  }

  /** Such a run on the memory: inside the payload of the block that is still live there is now a header. */
  method OverwritePayload(h: KernelHeap, t0: Chunk, n1: u32, n2: u32, x: u32) returns (ptr: u32)
    requires h.Valid() && h.chunks == [t0] && h.index_.size_ + 4 <= h.index_.maxSize_
    requires t0.hole && t0.addr % PAGE == 0
    requires n1 + OVERHEAD + HEADER <= PAGE - HEADER && PAGE <= n1 + OVERHEAD + HEADER + n2 && x + PAGE <= WORLD
    requires n1 + n2 + 3 * OVERHEAD <= t0.size
    modifies h, h.mem, h.index_, h.index_.array_
    ensures h.index_.Valid() && ptr == t0.addr + PAGE && Get32(h.mem[..], ptr - HEADER) == MAGIC
    ensures var b := Live(Rest(t0, n1).addr, n2);
      b in FreedBelow(t0, n1, n2) && b.addr + HEADER <= ptr - HEADER && ptr <= b.End() - FOOTER
    ensures !Served(h.mem[..], h.index_.Items(), h.startAddress_, h.endAddress_, FreedBelow(t0, n1, n2), ptr, x, true)
  {
    StartsAbove(h.startAddress_, h.endAddress_, t0);
    BeyondHoleRun(t0, n1, n2, x);
    var done := PerformAll(h, [t0], [], [Alloc(n1, false), Alloc(n2, false), Release(t0.addr + HEADER)]);
    TwoHoles(t0, n1, n2);
    ptr := AllocateBeyond(h, x, Live(t0.addr, n1).(hole := true));
  }
}
