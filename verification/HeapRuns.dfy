/**
  Whole runs of the heap: sequences of `allocate` and `free` calls
  (source/kernel_heap.cpp), followed on the tiling they maintain.
 */
module HeapRuns {
  import opened Bytes
  import opened HeapLayout
  import opened HeapService
  import opened HeapWrites
  import opened HeapMerging
  import opened HeapParts
  import opened KernelHeaps

  datatype Call = Alloc(size: u32, pageAlign: bool) | Release(ptr: int)

  /** Ok: the chunks, and pieces of the holes among them that a pointer may still lead to. Refused: the pointer is to no
      chunk and none of these pieces. Stopped: the call does not return, because the last chunk was freed or a piece
      with another above it. Spoiled: the call returns and leaves no heap with the blocks that there should be. */
  datatype State = Ok(chunks: seq<Chunk>, parts: seq<Part>) | Refused | Stopped | Spoiled

  function FitIndex(cs: seq<Chunk>, need: u32, pageAlign: bool): int {
    if cs == [] then -1
    else if cs[0].hole && Fits(cs[0].addr, cs[0].size, need, pageAlign) then 0
    else var k := FitIndex(cs[1..], need, pageAlign); if k == -1 then -1 else k + 1
  }

  function ChunkIndex(cs: seq<Chunk>, ptr: int): (i: int)
    ensures i == -1 || (0 <= i < |cs| && ptr == cs[i].addr + HEADER)
  {
    if cs == [] then -1
    else if ptr == cs[0].addr + HEADER then 0
    else var k := ChunkIndex(cs[1..], ptr); if k == -1 then -1 else k + 1
  }

  function PartIndex(ps: seq<Part>, ptr: int): (i: int)
    ensures i == -1 || (0 <= i < |ps| && ptr == ps[i].at + HEADER)
  {
    if ps == [] then -1
    else if ptr == ps[0].at + HEADER then 0
    else var k := PartIndex(ps[1..], ptr); if k == -1 then -1 else k + 1
  }

  /** The chunk that address a lies in. */
  function Around(cs: seq<Chunk>, a: int): (i: int)
    ensures i == -1 || (0 <= i < |cs| && cs[i].addr <= a < cs[i].End())
  {
    if cs == [] then -1
    else if cs[0].addr <= a < cs[0].End() then 0
    else var k := Around(cs[1..], a); if k == -1 then -1 else k + 1
  }

  /** A piece of a hole freed again. */
  function StepPart(cs: seq<Chunk>, ps: seq<Part>, p: Part): State {
    var i := Around(cs, p.at);
    if i == -1 || !PartFits(cs[i], p) then Refused
    else if p.End() < cs[i].End() || i == |cs| - 1 then Stopped
    else if !p.joins || p.below == cs[i].addr then Spoiled
    else Ok(Refooted(cs, i, p), Elsewhere(ps, cs[i]) + [p])
  }

  function Step(cs: seq<Chunk>, ps: seq<Part>, call: Call): State {
    match call
    case Alloc(n, pageAlign) =>
      var i := FitIndex(cs, Add32(n, OVERHEAD), pageAlign);
      if i == -1 || i >= |cs| || i < 0 then Ok(cs, ps)
      else if Sound(cs[i].addr, cs[i].size, n, pageAlign)
      then Ok(Allocated(cs, i, PlanAt(cs[i], n, pageAlign)), Cut(ps, cs[i], PlanAt(cs[i], n, pageAlign)))
      else Spoiled
    case Release(ptr) =>
      var i, j := ChunkIndex(cs, ptr), PartIndex(ps, ptr);
      if i == -1 then if j == -1 then Refused else StepPart(cs, ps, ps[j])
      else if i == |cs| - 1 then Stopped
      else if cs[i].hole || StaleLeft(cs, i) then Spoiled
      else Ok(Freed(cs, i), Rejoined(cs, i, ps) + Absorbed(cs, i))
  }

  function Run(s: State, calls: seq<Call>): State
    decreases |calls|
  {
    if calls == [] || !s.Ok? then s else Run(Step(s.chunks, s.parts, calls[0]), calls[1..])
  }

  /** FitIndex names the hole that the class picks. */
  lemma {:induction false} FitIndexIsFirstFit(cs: seq<Chunk>, need: u32, pageAlign: bool)
    ensures var k := FitIndex(cs, need, pageAlign);
      if k == -1 then NoFit(cs, need, pageAlign) else FirstFit(cs, k, need, pageAlign)
  {
    if cs != [] {
      FitIndexIsFirstFit(cs[1..], need, pageAlign);
      forall j | 0 < j < |cs| ensures cs[j] == cs[1..][j - 1] {}
    }
  }

  lemma {:induction false} FirstFitUnique(cs: seq<Chunk>, i: int, need: u32, pageAlign: bool)
    requires FirstFit(cs, i, need, pageAlign)
    ensures FitIndex(cs, need, pageAlign) == i
  {
    FitIndexIsFirstFit(cs, need, pageAlign);
  }

  /** In a tiling, a pointer names at most one chunk. */
  lemma {:induction false} ChunkIndexIs(cs: seq<Chunk>, lo: int, hi: int, i: nat)
    requires Tiled(cs, lo, hi) && i < |cs|
    ensures ChunkIndex(cs, cs[i].addr + HEADER) == i
  {
    var k := ChunkIndex(cs, cs[i].addr + HEADER);
    ChunkFound(cs, i);
    if k < i { Ordered(cs, lo, hi, k, i); }
    if i < k { Ordered(cs, lo, hi, i, k); }
  }

  lemma {:induction false} ChunkFound(cs: seq<Chunk>, i: nat)
    requires i < |cs|
    ensures ChunkIndex(cs, cs[i].addr + HEADER) != -1
  {
    if i > 0 { ChunkFound(cs[1..], i - 1); }
  }

  lemma {:induction false} StepWellFormed(cs: seq<Chunk>, ps: seq<Part>, lo: int, hi: int, call: Call)
    requires WellFormed(cs, lo, hi) && Step(cs, ps, call).Ok?
    ensures WellFormed(Step(cs, ps, call).chunks, lo, hi)
  {
    match call
    case Alloc(n, pageAlign) =>
      FitIndexIsFirstFit(cs, Add32(n, OVERHEAD), pageAlign);
      var i := FitIndex(cs, Add32(n, OVERHEAD), pageAlign);
      if i != -1 {
        Inside(cs, lo, hi, i);
        LayOutTilesIff(cs[i].addr, cs[i].size, n, pageAlign);
        AllocatedWellFormed(cs, lo, hi, i, PlanAt(cs[i], n, pageAlign));
      }
    case Release(ptr) =>
      var i, j := ChunkIndex(cs, ptr), PartIndex(ps, ptr);
      if i != -1 {
        FreedWellFormed(cs, lo, hi, i);
      } else {
        RefootedWellFormed(cs, lo, hi, Around(cs, ps[j].at), ps[j]);
      }
  }

  /** Over every run, for as long as its calls return and leave a heap, the range stays tiled, holes stay
      merged, and the sizes add up to the heap's length. */
  lemma {:induction false} RunKeepsHeap(cs: seq<Chunk>, ps: seq<Part>, lo: int, hi: int, calls: seq<Call>)
    requires WellFormed(cs, lo, hi)
    ensures var s := Run(Ok(cs, ps), calls);
      s.Ok? ==> WellFormed(s.chunks, lo, hi) && TotalSize(s.chunks) == TotalSize(cs) == hi - lo
    decreases |calls|
  {
    TiledTotal(cs, lo, hi);
    if calls != [] && Step(cs, ps, calls[0]).Ok? {
      StepWellFormed(cs, ps, lo, hi, calls[0]);
      var s := Step(cs, ps, calls[0]);
      RunKeepsHeap(s.chunks, s.parts, lo, hi, calls[1..]);
    }
  }

  lemma {:induction false} StepKeepsBlock(cs: seq<Chunk>, ps: seq<Part>, call: Call, c: Chunk)
    requires c in cs && !c.hole && call != Release(c.addr + HEADER) && Step(cs, ps, call).Ok?
    ensures c in Step(cs, ps, call).chunks
  {
    match call
    case Alloc(n, pageAlign) =>
      FitIndexIsFirstFit(cs, Add32(n, OVERHEAD), pageAlign);
      var i := FitIndex(cs, Add32(n, OVERHEAD), pageAlign);
      if i != -1 { AllocatedKeeps(cs, i, PlanAt(cs[i], n, pageAlign), c); }
    case Release(ptr) =>
      var i, j := ChunkIndex(cs, ptr), PartIndex(ps, ptr);
      if i != -1 {
        FreedKeeps(cs, i, c);
      } else {
        var k :| 0 <= k < |cs| && cs[k] == c;
        assert Refooted(cs, Around(cs, ps[j].at), ps[j])[k] == c;
      }
  }

  lemma {:induction false} AllocatedKeeps(cs: seq<Chunk>, i: nat, p: Plan, c: Chunk)
    requires i < |cs| && cs[i].hole && c in cs && !c.hole
    ensures c in Allocated(cs, i, p)
  {
    var j :| 0 <= j < |cs| && cs[j] == c;
    Outside(cs, i, i + 1, Pieces(cs[i].addr, p), j);
  }

  lemma {:induction false} FreedKeeps(cs: seq<Chunk>, i: nat, c: Chunk)
    requires IsBlock(cs, i) && c in cs && !c.hole && c.addr != cs[i].addr
    ensures c in Freed(cs, i)
  {
    var j :| 0 <= j < |cs| && cs[j] == c;
    Outside(cs, MergeLo(cs, i), MergeHi(cs, i), [Merged(cs, i)], j);
  }

  lemma {:induction false} Outside(cs: seq<Chunk>, lo: nat, hi: nat, mid: seq<Chunk>, j: nat)
    requires lo <= hi <= |cs| && j < |cs| && !(lo <= j < hi)
    ensures cs[j] in Replace(cs, lo, hi, mid)
  {
    if j < lo { assert Replace(cs, lo, hi, mid)[j] == cs[j]; }
    else { assert Replace(cs, lo, hi, mid)[j - hi + lo + |mid|] == cs[j]; }
  }

  /** A block that the run does not free is still there at the end, at the same place and size. */
  lemma {:induction false} RunKeepsBlock(cs: seq<Chunk>, ps: seq<Part>, calls: seq<Call>, c: Chunk)
    requires c in cs && !c.hole && Release(c.addr + HEADER) !in calls && Run(Ok(cs, ps), calls).Ok?
    ensures c in Run(Ok(cs, ps), calls).chunks
    decreases |calls|
  {
    if calls != [] {
      StepKeepsBlock(cs, ps, calls[0], c);
      var s := Step(cs, ps, calls[0]);
      RunKeepsBlock(s.chunks, s.parts, calls[1..], c);
    }
  }

  lemma {:induction false} StepHoles(cs: seq<Chunk>, ps: seq<Part>, lo: int, hi: int, call: Call)
    requires WellFormed(cs, lo, hi) && Step(cs, ps, call).Ok?
    ensures |Holes(Step(cs, ps, call).chunks)| <= |Holes(cs)| + 1
  {
    match call
    case Alloc(n, pageAlign) =>
      var i := FitIndex(cs, Add32(n, OVERHEAD), pageAlign);
      FitIndexIsFirstFit(cs, Add32(n, OVERHEAD), pageAlign);
      if i != -1 {
        AllocatedHoles(cs, i, PlanAt(cs[i], n, pageAlign));
        HolesSplit(cs, i);
      }
    case Release(ptr) =>
      var i, j := ChunkIndex(cs, ptr), PartIndex(ps, ptr);
      if i != -1 {
        FreedHoles(cs, lo, hi, i);
        HolesThrough(cs, MergeLo(cs, i), MergeHi(cs, i));
      } else {
        RefootedWellFormed(cs, lo, hi, Around(cs, ps[j].at), ps[j]);
      }
  }

  lemma {:induction false} HolesThrough(cs: seq<Chunk>, i: nat, j: nat)
    requires i <= j <= |cs|
    ensures |Holes(cs[..i])| + |Holes(cs[j..])| <= |Holes(cs)|
  {
    assert cs == cs[..i] + cs[i..j] + cs[j..];
    HolesAround(cs[..i], cs[i..j], cs[j..]);
  }

  /** No byte of a block that none of the calls frees has changed. */
  predicate Untouched(m: seq<byte>, m': seq<byte>, cs: seq<Chunk>, calls: seq<Call>) {
    forall c :: c in cs && !c.hole && Release(c.addr + HEADER) !in calls ==> Agree(m, m', c.addr, c.End())
  }

  /** The pointer that an allocation returns. */
  function PointerOf(cs: seq<Chunk>, n: u32, pageAlign: bool): u32 {
    var i := FitIndex(cs, Add32(n, OVERHEAD), pageAlign);
    if 0 <= i < |cs| then Add32(PlanAt(cs[i], n, pageAlign).loc, HEADER) else 0
  }

  /** Memory and index after a call that loses the heap cs: an allocation has left none with all the old blocks
      and the new one, a free none at all, and in a heap of at most 2 GB the free of a piece none with all the
      old blocks. */
  ghost predicate Lost(m: seq<byte>, index: seq<int>, lo: int, hi: int, cs: seq<Chunk>, call: Call) {
    match call
    case Alloc(n, pageAlign) => !Served(m, index, lo, hi, cs, PointerOf(cs, n, pageAlign), n, pageAlign)
    case Release(ptr) =>
      if ChunkIndex(cs, ptr) != -1 then !Explained(m, index, lo, hi)
      else hi - lo <= WORLD / 2 ==> !Kept(m, index, lo, hi, cs)
  }

  /** The method's allocation is the run's; where the run is spoiled, the request is not served. */
  method PerformAlloc(h: KernelHeap, ghost ps: seq<Part>, n: u32, pageAlign: bool) returns (ptr: u32)
    requires h.Valid() && h.index_.size_ < h.index_.maxSize_ && PartsIn(h.mem[..], h.chunks, ps)
    modifies h, h.mem, h.index_, h.index_.array_
    ensures h.index_.Valid() && ptr == PointerOf(old(h.chunks), n, pageAlign)
    ensures var s := Step(old(h.chunks), ps, Alloc(n, pageAlign));
      s.Ok? ==> h.Valid() && h.chunks == s.chunks && PartsIn(h.mem[..], s.chunks, s.parts)
                && Untouched(old(h.mem[..]), h.mem[..], old(h.chunks), [Alloc(n, pageAlign)])
    ensures var s := Step(old(h.chunks), ps, Alloc(n, pageAlign));
      !NoFit(old(h.chunks), Add32(n, OVERHEAD), pageAlign) ==>
        (s.Ok? <==> Served(h.mem[..], h.index_.Items(), h.startAddress_, h.endAddress_, old(h.chunks),
                           ptr, n, pageAlign))
    ensures Step(old(h.chunks), ps, Alloc(n, pageAlign)).Ok? || Step(old(h.chunks), ps, Alloc(n, pageAlign)) == Spoiled
  {
    ghost var cs, m, need := h.chunks, h.mem[..], Add32(n, OVERHEAD);
    ghost var i, w;
    ptr, i, w := h.Allocate(n, pageAlign);
    assert FitIndex(cs, need, pageAlign) == i by {
      FitIndexIsFirstFit(cs, need, pageAlign);
      if i != -1 { FirstFitUnique(cs, i, need, pageAlign); }
    }
    if i != -1 && Sound(cs[i].addr, cs[i].size, n, pageAlign) {
      HoleOnly(m, h.mem[..], cs, h.startAddress_, h.endAddress_, i, [Alloc(n, pageAlign)]);
      CutParts(m, w, h.mem[..], cs, h.startAddress_, h.endAddress_, i, n, pageAlign, ps);
    }
  }

  lemma {:induction false} CutParts(m: seq<byte>, w: Writes, m': seq<byte>, cs: seq<Chunk>, lo: int, hi: u32, i: nat,
                                    n: u32, pageAlign: bool, ps: seq<Part>)
    requires WellFormed(cs, lo, hi) && i < |cs| && cs[i].hole && PartsIn(m, cs, ps) && |m| == WORLD
    requires Sound(cs[i].addr, cs[i].size, n, pageAlign) && Carved(m, w, m', cs[i], PlanAt(cs[i], n, pageAlign), hi)
    ensures PartsIn(m', Allocated(cs, i, PlanAt(cs[i], n, pageAlign)), Cut(ps, cs[i], PlanAt(cs[i], n, pageAlign)))
  {
    var c, p := cs[i], PlanAt(cs[i], n, pageAlign);
    Inside(cs, lo, hi, i);
    LayOutTilesIff(c.addr, c.size, n, pageAlign);
    CarvedPieces(m, w, m', c, p, hi);
    if p.tailSize > 0 { CarvedTail(m, w, m', c, p, hi); }
    TailKeptIs(m, m', c, p);
    AllocatedParts(m, m', cs, lo, hi, i, p, ps);
  }

  // ---------- free in a run ----------

  /** Where a pointer of the run leads. */
  lemma {:induction false} Destination(m: seq<byte>, cs: seq<Chunk>, lo: int, hi: int, ps: seq<Part>, ptr: int)
    returns (i: int, part: Option<Part>)
    requires HeapInv(m, Holes(cs), lo, hi, cs) && PartsIn(m, cs, ps)
    requires ChunkIndex(cs, ptr) != -1 || PartIndex(ps, ptr) != -1
    ensures Leads(m, cs, ptr, i, part)
    ensures if ChunkIndex(cs, ptr) != -1 then i == ChunkIndex(cs, ptr) && part == None
            else part == Some(ps[PartIndex(ps, ptr)]) && i == Around(cs, part.value.at)
  {
    i, part := ChunkIndex(cs, ptr), None;
    if i == -1 {
      var p := ps[PartIndex(ps, ptr)];
      part := Some(p);
      assert PartAt(m, cs, p);
      var c :| c in cs && PartIn(m, c, p);
      var k :| 0 <= k < |cs| && cs[k] == c;
      AroundIs(cs, lo, hi, p.at, k);
      i := k;
    }
  }

  lemma {:induction false} AroundIs(cs: seq<Chunk>, lo: int, hi: int, a: int, k: nat)
    requires Tiled(cs, lo, hi) && k < |cs| && cs[k].addr <= a < cs[k].End()
    ensures Around(cs, a) == k
  {
    AroundFound(cs, a, k);
    var i := Around(cs, a);
    if i < k { Ordered(cs, lo, hi, i, k); }
    if k < i { Ordered(cs, lo, hi, k, i); }
  }

  lemma {:induction false} AroundFound(cs: seq<Chunk>, a: int, k: nat)
    requires k < |cs| && cs[k].addr <= a < cs[k].End()
    ensures Around(cs, a) != -1
  {
    if k > 0 { AroundFound(cs[1..], a, k - 1); }
  }

  /** A pointer leads to one place only: memory says what is there. */
  lemma {:induction false} LeadsOnce(m: seq<byte>, cs: seq<Chunk>, lo: int, hi: int, ptr: int, i: int,
                                     part: Option<Part>, i': int, part': Option<Part>)
    requires Tiled(cs, lo, hi) && Leads(m, cs, ptr, i, part) && Leads(m, cs, ptr, i', part')
    ensures i == i' && part == part'
  {
    AroundIs(cs, lo, hi, ptr - HEADER, i);
    AroundIs(cs, lo, hi, ptr - HEADER, i');
    if part.Some? && part'.Some? { PartOnce(m, cs[i], part.value, part'.value); }
  }

  lemma {:induction false} PartOnce(m: seq<byte>, c: Chunk, p: Part, p': Part)
    requires PartIn(m, c, p) && PartIn(m, c, p') && p.at == p'.at
    ensures p == p'
  {
  }

  /** Both magic numbers of a piece are in place. */
  lemma {:induction false} LeadsGuarded(m: seq<byte>, cs: seq<Chunk>, lo: int, hi: int, ptr: int, i: int,
                                        part: Option<Part>)
    requires HeapInv(m, Holes(cs), lo, hi, cs) && |m| == WORLD && Leads(m, cs, ptr, i, part)
    ensures 0 < ptr < WORLD && (i < |cs| - 1 || part.Some? ==> Guarded(m, Sub32(ptr, HEADER)))
  {
    Inside(cs, lo, hi, i);
    if part == None && i < |cs| - 1 { ChunkGuarded(m, cs, lo, hi, i); }
  }

  /** The pieces that there are after a free of chunk i or of a piece of it. */
  function PartsLeft(cs: seq<Chunk>, ps: seq<Part>, i: nat, part: Option<Part>): seq<Part>
    requires i < |cs|
  {
    match part
    case None => Rejoined(cs, i, ps) + Absorbed(cs, i)
    case Some(p) => Elsewhere(ps, cs[i]) + [p]
  }

  /** The run's step, from where its pointer leads. */
  function StepAt(cs: seq<Chunk>, ps: seq<Part>, i: nat, part: Option<Part>): State
    requires i < |cs|
  {
    if OutcomeAt(cs, i, part) != Done then Stopped
    else if Survives(cs, i, part) then Ok(Leaves(cs, i, part), PartsLeft(cs, ps, i, part))
    else Spoiled
  }

  lemma {:induction false} StepIs(m: seq<byte>, cs: seq<Chunk>, ps: seq<Part>, ptr: int, i: nat, part: Option<Part>)
    requires Leads(m, cs, ptr, i, part)
    requires if ChunkIndex(cs, ptr) != -1 then i == ChunkIndex(cs, ptr) && part == None
             else PartIndex(ps, ptr) != -1 && part == Some(ps[PartIndex(ps, ptr)]) && i == Around(cs, part.value.at)
    ensures Step(cs, ps, Release(ptr)) == StepAt(cs, ps, i, part)
  {
  }

  /** What a free that returns has done is what the run says. */
  lemma {:induction false} EffectIsStep(m0: seq<byte>, cs: seq<Chunk>, ps: seq<Part>, i: nat, part: Option<Part>,
                                        lo: int, hi: int, m: seq<byte>, index: seq<int>, ptr: int)
    requires HeapInv(m0, Holes(cs), lo, hi, cs) && |m0| == WORLD && PartsIn(m0, cs, ps)
    requires Leads(m0, cs, ptr, i, part) && OutcomeAt(cs, i, part) == Done && Survives(cs, i, part)
    requires Effect(m0, cs, i, part, lo, hi, m, index, Leaves(cs, i, part))
    ensures PartsIn(m, Leaves(cs, i, part), PartsLeft(cs, ps, i, part)) && Untouched(m0, m, cs, [Release(ptr)])
  {
    match part
    case None =>
      OthersOnly(m0, m, cs, i, ptr);
      FreedInMemory(cs, i, m);
      FreedParts(m0, m, cs, lo, hi, i, ps);
    case Some(p) =>
      HoleOnly(m0, m, cs, lo, hi, i, [Release(ptr)]);
      RefootedParts(m0, m, cs, lo, hi, i, ps, p);
  }

  lemma {:induction false} FreedInMemory(cs: seq<Chunk>, i: nat, m: seq<byte>)
    requires IsBlock(cs, i) && forall k :: 0 <= k < |Freed(cs, i)| ==> InMemory(m, Freed(cs, i)[k])
    ensures InMemory(m, Merged(cs, i))
  {
    assert Freed(cs, i)[MergeLo(cs, i)] == Merged(cs, i);
  }

  /** A free that leaves no heap has lost it. */
  lemma {:induction false} EffectIsLost(m0: seq<byte>, cs: seq<Chunk>, i: nat, part: Option<Part>,
                                        lo: int, hi: int, m: seq<byte>, index: seq<int>, cs': seq<Chunk>, ptr: int)
    requires Effect(m0, cs, i, part, lo, hi, m, index, cs') && i < |cs| && !Survives(cs, i, part)
    requires ChunkIndex(cs, ptr) != -1 <==> part == None
    ensures Lost(m, index, lo, hi, cs, Release(ptr))
  {
  }

  /** The method's free of a chunk or a piece is the run's; where the run is spoiled, so is memory. */
  method PerformFree(h: KernelHeap, ghost ps: seq<Part>, ptr: int) returns (ghost i: int, ghost part: Option<Part>)
    requires h.Valid() && h.index_.size_ < h.index_.maxSize_ && PartsIn(h.mem[..], h.chunks, ps)
    requires ChunkIndex(h.chunks, ptr) != -1 || PartIndex(ps, ptr) != -1
    modifies h, h.mem, h.index_, h.index_.array_
    ensures h.index_.Valid() && Leads(old(h.mem[..]), old(h.chunks), ptr, i, part)
    ensures if ChunkIndex(old(h.chunks), ptr) != -1 then i == ChunkIndex(old(h.chunks), ptr) && part == None
            else part == Some(ps[PartIndex(ps, ptr)]) && i == Around(old(h.chunks), part.value.at)
    ensures Step(old(h.chunks), ps, Release(ptr)) == StepAt(old(h.chunks), ps, i, part)
    ensures OutcomeAt(old(h.chunks), i, part) == Done ==>
              Effect(old(h.mem[..]), old(h.chunks), i, part, h.startAddress_, h.endAddress_,
                     h.mem[..], h.index_.Items(), h.chunks)
    ensures var s := Step(old(h.chunks), ps, Release(ptr));
      s.Ok? ==> h.Valid() && h.chunks == s.chunks && PartsIn(h.mem[..], s.chunks, s.parts)
                && Untouched(old(h.mem[..]), h.mem[..], old(h.chunks), [Release(ptr)])
    ensures Step(old(h.chunks), ps, Release(ptr)) == Spoiled ==>
              Lost(h.mem[..], h.index_.Items(), h.startAddress_, h.endAddress_, old(h.chunks), Release(ptr))
  {
    ghost var cs, m, lo, hi := h.chunks, h.mem[..], h.startAddress_, h.endAddress_;
    i, part := Destination(m, cs, lo, hi, ps, ptr);
    StepIs(m, cs, ps, ptr, i, part);
    FreeLeading(h, ptr, i, part, cs);
    if OutcomeAt(cs, i, part) == Done {
      if Survives(cs, i, part) {
        EffectIsStep(m, cs, ps, i, part, lo, hi, h.mem[..], h.index_.Items(), ptr);
      } else {
        EffectIsLost(m, cs, i, part, lo, hi, h.mem[..], h.index_.Items(), h.chunks, ptr);
      }
    }
  }

  /** A free of a pointer that leads to a known place. */
  method FreeLeading(h: KernelHeap, ptr: int, ghost i0: int, ghost part0: Option<Part>, ghost cs: seq<Chunk>)
    requires h.Valid() && h.index_.size_ < h.index_.maxSize_ && cs == h.chunks && Leads(h.mem[..], cs, ptr, i0, part0)
    modifies h, h.mem, h.index_, h.index_.array_
    ensures h.index_.Valid()
    ensures OutcomeAt(cs, i0, part0) == Done ==>
              && Effect(old(h.mem[..]), cs, i0, part0, h.startAddress_, h.endAddress_,
                        h.mem[..], h.index_.Items(), h.chunks)
              && h.chunks == Leaves(cs, i0, part0) && (Survives(cs, i0, part0) ==> h.Valid())
  {
    ghost var m, lo, hi := h.mem[..], h.startAddress_, h.endAddress_;
    LeadsGuarded(m, cs, lo, hi, ptr, i0, part0);
    assert Tiled(cs, lo, hi);
    var out;
    ghost var i, part;
    out, i, part := h.Free(ptr);
    if OutcomeAt(cs, i0, part0) == Done {
      LeadsOnce(m, cs, lo, hi, ptr, i, part, i0, part0);
      assert Effect(m, cs, i, part, lo, hi, h.mem[..], h.index_.Items(), h.chunks);
    }
  }

  lemma {:induction false} OthersOnly(m: seq<byte>, m': seq<byte>, cs: seq<Chunk>, i: nat, ptr: int)
    requires i < |cs| && ptr == cs[i].addr + HEADER
    requires forall j :: IsBlock(cs, j) && j != i ==> Agree(m, m', cs[j].addr, cs[j].End())
    ensures Untouched(m, m', cs, [Release(ptr)])
  {
    forall c | c in cs && !c.hole && Release(c.addr + HEADER) !in [Release(ptr)] ensures Agree(m, m', c.addr, c.End()) {
      var j :| 0 <= j < |cs| && cs[j] == c;
      assert Release(ptr) in [Release(ptr)];
      assert IsBlock(cs, j) && j != i;
    }
  }

  lemma {:induction false} HoleOnly(m: seq<byte>, m': seq<byte>, cs: seq<Chunk>, lo: int, hi: int, i: nat,
                                    calls: seq<Call>)
    requires Tiled(cs, lo, hi) && i < |cs| && cs[i].hole && SameOutside(m, m', cs[i].addr, cs[i].End())
    ensures Untouched(m, m', cs, calls)
  {
    forall c | c in cs && !c.hole ensures Agree(m, m', c.addr, c.End()) {
      var k :| 0 <= k < |cs| && cs[k] == c;
      if k < i { Ordered(cs, lo, hi, k, i); } else { Ordered(cs, lo, hi, i, k); }
    }
  }

  // ---------- Runs on the memory ----------

  /** The first done calls of a run return and leave a heap; the next one does what ends the run. */
  ghost predicate RunsTo(from: State, calls: seq<Call>, done: nat) {
    && done <= |calls| && Run(from, calls[..done]).Ok?
    && (done == |calls| <==> Run(from, calls).Ok?)
    && (done < |calls| ==>
          var s := Run(from, calls[..done]);
          Step(s.chunks, s.parts, calls[done]) == Run(from, calls))
  }

  /** A run that is spoiled has lost the heap with call number done. */
  ghost predicate LostAt(m: seq<byte>, index: seq<int>, lo: int, hi: int, from: State, calls: seq<Call>, done: nat) {
    done < |calls| && Run(from, calls[..done]).Ok? && Run(from, calls) == Spoiled ==>
      Lost(m, index, lo, hi, Run(from, calls[..done]).chunks, calls[done])
  }

  lemma {:induction false} RunsOn(from: State, calls: seq<Call>, next: State, done: nat)
    requires from.Ok? && calls != [] && Step(from.chunks, from.parts, calls[0]) == next && next.Ok?
    requires RunsTo(next, calls[1..], done)
    ensures RunsTo(from, calls, done + 1) && Run(from, calls[..done + 1]) == Run(next, calls[1..][..done])
  {
    var first := calls[..done + 1];
    assert first[0] == calls[0] && first[1..] == calls[1..][..done];
  }

  lemma {:induction false} EndsHere(m: seq<byte>, index: seq<int>, lo: int, hi: int, from: State, calls: seq<Call>)
    requires from.Ok?
    requires calls != [] ==>
      var s := Step(from.chunks, from.parts, calls[0]);
      !s.Ok? && (s == Spoiled ==> Lost(m, index, lo, hi, from.chunks, calls[0]))
    ensures RunsTo(from, calls, 0) && LostAt(m, index, lo, hi, from, calls, 0)
  {
    assert calls[..0] == [];
  }

  lemma {:induction false} LostOn(m: seq<byte>, index: seq<int>, lo: int, hi: int, from: State, calls: seq<Call>,
                                  next: State, done: nat)
    requires from.Ok? && calls != [] && Step(from.chunks, from.parts, calls[0]) == next && next.Ok?
    requires RunsTo(next, calls[1..], done) && LostAt(m, index, lo, hi, next, calls[1..], done)
    ensures LostAt(m, index, lo, hi, from, calls, done + 1) && Run(from, calls) == Run(next, calls[1..])
  {
    RunsOn(from, calls, next, done);
  }

  /** Any run of calls on the heap in memory, whose tiling and pieces the caller knows. The calls before number done
      return and leave the heap that the run has after them, and no byte of a block has changed that the run does
      not free. If the run goes on, the next call loses the heap, does not return, or has a pointer to nothing
      known. */
  method PerformAll(h: KernelHeap, cs: seq<Chunk>, ps: seq<Part>, calls: seq<Call>) returns (done: nat)
    requires h.Valid() && h.chunks == cs && PartsIn(h.mem[..], cs, ps)
    requires h.index_.size_ + |calls| <= h.index_.maxSize_
    modifies h, h.mem, h.index_, h.index_.array_
    ensures h.index_.Valid() && RunsTo(Ok(cs, ps), calls, done)
    ensures done == |calls| ==> h.Valid() && Untouched(old(h.mem[..]), h.mem[..], cs, calls)
    ensures done == |calls| ==>
      var s := Run(Ok(cs, ps), calls);
      s.chunks == h.chunks && PartsIn(h.mem[..], s.chunks, s.parts)
    ensures LostAt(h.mem[..], h.index_.Items(), h.startAddress_, h.endAddress_, Ok(cs, ps), calls, done)
    decreases |calls|
  {
    if calls == [] {
      EndsHere(h.mem[..], h.index_.Items(), h.startAddress_, h.endAddress_, Ok(cs, ps), calls);
      return 0;
    }
    ghost var m := h.mem[..];
    var s := PerformOne(h, cs, ps, calls[0]);
    if !s.Ok? {
      EndsHere(h.mem[..], h.index_.Items(), h.startAddress_, h.endAddress_, Ok(cs, ps), calls);
      return 0;
    }
    StepHoles(cs, ps, h.startAddress_, h.endAddress_, calls[0]);
    ghost var m1 := h.mem[..];
    var more := PerformAll(h, s.chunks, s.parts, calls[1..]);
    done := more + 1;
    RunsOn(Ok(cs, ps), calls, s, more);
    LostOn(h.mem[..], h.index_.Items(), h.startAddress_, h.endAddress_, Ok(cs, ps), calls, s, more);
    if done == |calls| { UntouchedBoth(m, m1, h.mem[..], cs, ps, s, calls); }
  }

  /** One call; a pointer to nothing known is not passed on. */
  method PerformOne(h: KernelHeap, cs: seq<Chunk>, ps: seq<Part>, call: Call) returns (s: State)
    requires h.Valid() && h.chunks == cs && PartsIn(h.mem[..], cs, ps) && h.index_.size_ < h.index_.maxSize_
    modifies h, h.mem, h.index_, h.index_.array_
    ensures h.index_.Valid() && s == Step(cs, ps, call)
    ensures s.Ok? ==> h.Valid() && s.chunks == h.chunks && PartsIn(h.mem[..], s.chunks, s.parts)
    ensures s.Ok? ==> Untouched(old(h.mem[..]), h.mem[..], cs, [call])
    ensures s == Spoiled ==> Lost(h.mem[..], h.index_.Items(), h.startAddress_, h.endAddress_, cs, call)
  {
    s := Step(cs, ps, call);
    match call {
      case Alloc(n, pageAlign) =>
        var ptr := PerformAlloc(h, ps, n, pageAlign);
        FitIndexIsFirstFit(cs, Add32(n, OVERHEAD), pageAlign);
      case Release(ptr) =>
        if ChunkIndex(cs, ptr) != -1 || PartIndex(ps, ptr) != -1 { ghost var i, part := PerformFree(h, ps, ptr); }
    }
  }

  /** Any run from a fresh heap, on the memory that the constructor sets up. */
  method RunFresh(mem: array<byte>, startAddress: u32, endAddress: u32, calls: seq<Call>)
    returns (h: KernelHeap, done: nat)
    requires mem.Length == WORLD && startAddress % PAGE == 0 && endAddress % PAGE == 0
    requires MAGIC < startAddress && startAddress + 4 * INDEX_SIZE < endAddress && |calls| < INDEX_SIZE
    modifies mem
    ensures h.mem == mem && h.index_.Valid() && RunsTo(Fresh(startAddress, endAddress), calls, done)
    ensures done == |calls| ==> h.Valid() && Run(Fresh(startAddress, endAddress), calls).chunks == h.chunks
    ensures done == |calls| ==> TotalSize(h.chunks) == endAddress - startAddress - 4 * INDEX_SIZE
    ensures LostAt(mem[..], h.index_.Items(), h.startAddress_, h.endAddress_,
                   Fresh(startAddress, endAddress), calls, done)
  {
    h := new KernelHeap(mem, startAddress, endAddress);
    var cs := Fresh(startAddress, endAddress).chunks;
    assert h.index_.size_ == 1 by { assert |Holes(cs)| == 1; }
    RunKeepsHeap(cs, [], h.startAddress_, h.endAddress_, calls);
    done := PerformAll(h, cs, [], calls);
  }

  /** The state that a heap starts in. */
  function Fresh(startAddress: u32, endAddress: u32): State {
    Ok([Chunk(Word(startAddress + 4 * INDEX_SIZE), Word(endAddress - startAddress - 4 * INDEX_SIZE), true, NoFooter)],
       [])
  }

  lemma {:induction false} UntouchedBoth(m: seq<byte>, m1: seq<byte>, m2: seq<byte>, cs: seq<Chunk>, ps: seq<Part>,
                                         s: State, calls: seq<Call>)
    requires calls != [] && Step(cs, ps, calls[0]) == s && s.Ok?
    requires Untouched(m, m1, cs, [calls[0]]) && Untouched(m1, m2, s.chunks, calls[1..])
    ensures Untouched(m, m2, cs, calls)
  {
    forall c | c in cs && !c.hole && Release(c.addr + HEADER) !in calls ensures Agree(m, m2, c.addr, c.End()) {
      assert calls[0] in calls;
      StepKeepsBlock(cs, ps, calls[0], c);
      assert Agree(m, m1, c.addr, c.End()) && Agree(m1, m2, c.addr, c.End());
    }
  }

  /** Payloads of two blocks never share an address, and lie inside the heap. */
  lemma {:induction false} PayloadsDisjoint(cs: seq<Chunk>, lo: int, hi: int, i: nat, j: nat, a: int)
    requires Tiled(cs, lo, hi) && IsBlock(cs, i) && IsBlock(cs, j) && i != j
    requires cs[i].addr + HEADER <= a < cs[i].End() - FOOTER
    ensures lo <= a < hi && !(cs[j].addr <= a < cs[j].End())
  {
    Inside(cs, lo, hi, i);
    if i < j { Ordered(cs, lo, hi, i, j); } else { Ordered(cs, lo, hi, j, i); }
  }

  // ---------- free(allocate(n)) ----------

  /** Where the block of an allocation from hole i ends up. */
  function BlockPlace(i: nat, p: Plan): nat {
    if p.front > 0 then i + 1 else i
  }

  /** Freeing what was just allocated never meets a stale neighbour; it faults exactly when the
      allocation took the whole end of the heap, and otherwise puts every chunk back where it was. */
  lemma {:induction false} FreeUndoesAllocate(cs: seq<Chunk>, lo: int, hi: int, i: nat, p: Plan)
    requires WellFormed(cs, lo, hi) && i < |cs| && cs[i].hole && PlanCovers(p, cs[i].addr, cs[i].size)
    ensures var cs', j := Allocated(cs, i, p), BlockPlace(i, p);
      && IsBlock(cs', j) && cs'[j].addr == p.loc && !StaleLeft(cs', j)
      && (j == |cs'| - 1 <==> i == |cs| - 1 && p.tailSize == 0)
      && Shape(Freed(cs', j)) == Shape(cs)
  {
    var cs', j, mid := Allocated(cs, i, p), BlockPlace(i, p), Pieces(cs[i].addr, p);
    if 0 < i { HolesApart(cs, i - 1); }
    if i < |cs| - 1 { HolesApart(cs, i); }
    PlacesInReplace(cs, i, mid);
    assert LeftHole(cs', j) <==> p.front > 0;
    assert RightHole(cs', j) <==> p.tailSize > 0;
    assert MergeLo(cs', j) == i && MergeHi(cs', j) == i + |mid|;
    assert Freed(cs', j) == Replace(cs, i, i + 1, [Merged(cs', j)]);
    SameShape(cs, i, Merged(cs', j));
  }

  lemma {:induction false} SameShape(cs: seq<Chunk>, i: nat, c: Chunk)
    requires i < |cs| && c.addr == cs[i].addr && c.size == cs[i].size && c.hole == cs[i].hole
    ensures Shape(Replace(cs, i, i + 1, [c])) == Shape(cs)
  {
  }

  lemma {:induction false} PlacesInReplace(cs: seq<Chunk>, i: nat, mid: seq<Chunk>)
    requires i < |cs|
    ensures var cs' := Replace(cs, i, i + 1, mid);
      && |cs'| == |cs| - 1 + |mid| && cs'[..i] == cs[..i] && cs'[i + |mid|..] == cs[i + 1..]
      && (forall k :: 0 <= k < |mid| ==> cs'[i + k] == mid[k])
      && (0 < i ==> cs'[i - 1] == cs[i - 1])
      && (i < |cs| - 1 ==> cs'[i + |mid|] == cs[i + 1])
  {
  }

  /** Equal shapes have equal indexes. */
  lemma {:induction false} ShapeFixesIndex(xs: seq<Chunk>, ys: seq<Chunk>)
    requires Shape(xs) == Shape(ys)
    ensures Holes(xs) == Holes(ys)
  {
    assert |Shape(xs)| == |xs| && |Shape(ys)| == |ys|;
    if xs != [] {
      assert Shape(xs)[0] == Shape(ys)[0];
      forall k | 0 <= k < |xs| - 1 ensures Shape(xs[1..])[k] == Shape(ys[1..])[k] {
        assert Shape(xs)[k + 1] == Shape(ys)[k + 1];
      }
      ShapeFixesIndex(xs[1..], ys[1..]);
    }
  }

  // ---------- Stale footers ----------

  predicate Tight(cs: seq<Chunk>) {
    forall i :: 0 <= i < |cs| && cs[i].hole ==> cs[i].foot == Link(cs[i].addr) || cs[i].foot == NoFooter
  }

  /** A free leaves every footer exact unless it merged a right hole that has one. */
  lemma {:induction false} FreedTightIff(cs: seq<Chunk>, lo: int, hi: int, i: nat)
    requires WellFormed(cs, lo, hi) && IsBlock(cs, i) && Tight(cs)
    ensures Tight(Freed(cs, i)) <==> !(RightHole(cs, i) && cs[i + 1].foot.Link?)
  {
    var l, r := MergeLo(cs, i), MergeHi(cs, i);
    var cs', c := Freed(cs, i), Merged(cs, i);
    Span(cs, lo, hi, l, i);
    assert cs'[l] == c;
    if RightHole(cs, i) {
      Ordered(cs, lo, hi, l, i + 1);
    } else {
      forall k | 0 <= k < |cs'| && cs'[k].hole ensures cs'[k].foot == Link(cs'[k].addr) || cs'[k].foot == NoFooter {
        if k < l { assert cs'[k] == cs[k]; } else if k > l { assert cs'[k] == cs[k - l - 1 + r]; }
      }
    }
    if RightHole(cs, i) && cs[i + 1].foot == NoFooter {
      forall k | 0 <= k < |cs'| && cs'[k].hole ensures cs'[k].foot == Link(cs'[k].addr) || cs'[k].foot == NoFooter {
        if k < l { assert cs'[k] == cs[k]; }
      }
    }
  }
}
