/**
  The pages that paging gets from the kernel heap (source/memory_management.cpp:28-40). Of
  any allocations in a row, none of which is freed, the memory is separate and inside the heap;
  that of the aligned ones serves for paging. Page tables are aligned requests of 4096 bytes and
  directories of 8196; a fork asks for these and then for an unaligned list node
  (source/utils/linked_list.cpp:46-48).
 */
module HeapSupplies {
  import opened Bytes
  import opened Frames
  import opened AddressSpaces
  import opened HeapLayout
  import opened KernelHeaps
  import opened HeapRuns
  import Paging
  import opened Boot

  predicate Allocs(calls: seq<Call>) {
    forall j :: 0 <= j < |calls| ==> calls[j].Alloc?
  }

  /** A hole passes the fit test and has room for the pieces. */
  predicate Granted(cs: seq<Chunk>, call: Call) {
    call.Alloc? && FitIndex(cs, Add32(call.size, OVERHEAD), call.pageAlign) != -1 && Step(cs, [], call).Ok?
  }

  /** The pointers that such requests get, up to the first that is not granted. */
  function Pointers(cs: seq<Chunk>, calls: seq<Call>): seq<u32>
    decreases |calls|
  {
    if calls == [] || !Granted(cs, calls[0]) then []
    else [PointerOf(cs, calls[0].size, calls[0].pageAlign)] + Pointers(Step(cs, [], calls[0]).chunks, calls[1..])
  }

  /** n bytes at ptr, with the header below and the footer above, share no address with the chunk. */
  predicate Avoids(ptr: int, n: int, c: Chunk) {
    ptr + n + FOOTER <= c.addr || c.End() <= ptr - HEADER
  }

  /** Memory between lo and hi, header and footer included, as long as requested, aligned if so requested, and not
      shared. */
  predicate Separate(lo: int, hi: int, calls: seq<Call>, ptrs: seq<u32>) {
    && Allocs(calls) && |ptrs| <= |calls|
    && (forall j :: 0 <= j < |ptrs| ==>
          && (calls[j].pageAlign ==> ptrs[j] % PAGE == 0)
          && lo + HEADER <= ptrs[j] && ptrs[j] + calls[j].size + FOOTER <= hi)
    && (forall i, j :: 0 <= i < j < |ptrs| ==>
          ptrs[i] + calls[i].size + OVERHEAD <= ptrs[j] || ptrs[j] + calls[j].size + OVERHEAD <= ptrs[i])
  }

  /** The pointers of the aligned requests. */
  function Aligned(calls: seq<Call>, ptrs: seq<u32>): seq<u32>
    requires Allocs(calls) && |ptrs| <= |calls|
  {
    if ptrs == [] then []
    else (if calls[0].pageAlign then [ptrs[0]] else []) + Aligned(calls[1..], ptrs[1..])
  }

  /** The block of a plan that covers its hole. */
  lemma {:induction false} BlockOfPlan(cs: seq<Chunk>, lo: int, hi: int, i: nat, p: Plan, n: u32)
    requires WellFormed(cs, lo, hi) && i < |cs| && cs[i].hole && PlanCovers(p, cs[i].addr, cs[i].size) && n <= p.payload
    ensures Block(p) in Allocated(cs, i, p) && lo <= p.loc && p.loc + p.size <= hi && p.loc + HEADER < WORLD
    ensures forall c :: c in cs && !c.hole ==> Avoids(p.loc + HEADER, n, c)
  {
    Inside(cs, lo, hi, i);
    PlacesInReplace(cs, i, Pieces(cs[i].addr, p));
    assert Allocated(cs, i, p)[BlockPlace(i, p)] == Block(p);
    forall c | c in cs && !c.hole ensures Avoids(p.loc + HEADER, n, c) {
      var k :| 0 <= k < |cs| && cs[k] == c;
      if k < i { Ordered(cs, lo, hi, k, i); } else { Ordered(cs, lo, hi, i, k); }
    }
  }

  /** The block that one request gets. */
  lemma {:induction false} GrantedBlock(cs: seq<Chunk>, lo: int, hi: int, call: Call) returns (b: Chunk)
    requires WellFormed(cs, lo, hi) && Granted(cs, call)
    ensures var ptr, n := PointerOf(cs, call.size, call.pageAlign), call.size;
      && b in Step(cs, [], call).chunks && !b.hole && b.addr + HEADER == ptr && n + OVERHEAD <= b.size
      && (call.pageAlign ==> ptr % PAGE == 0) && lo <= b.addr && b.End() <= hi
      && forall c :: c in cs && !c.hole ==> Avoids(ptr, n, c)
  {
    var n, pageAlign := call.size, call.pageAlign;
    var i := FitIndex(cs, Add32(n, OVERHEAD), pageAlign);
    FitIndexIsFirstFit(cs, Add32(n, OVERHEAD), pageAlign);
    Inside(cs, lo, hi, i);
    LayOutTilesIff(cs[i].addr, cs[i].size, n, pageAlign);
    var p := PlanAt(cs[i], n, pageAlign);
    BlockOfPlan(cs, lo, hi, i, p, n);
    b := Block(p);
  }

  /** One request before the others. */
  lemma {:induction false} SeparateFirst(lo: int, hi: int, calls: seq<Call>, ptrs: seq<u32>, b: Chunk)
    requires Allocs(calls) && calls != [] && ptrs != [] && Separate(lo, hi, calls[1..], ptrs[1..])
    requires b.addr + HEADER == ptrs[0] && calls[0].size + OVERHEAD <= b.size && lo <= b.addr && b.End() <= hi
    requires calls[0].pageAlign ==> ptrs[0] % PAGE == 0
    requires forall j :: 0 < j < |ptrs| ==> Avoids(ptrs[j], calls[j].size, b)
    ensures Separate(lo, hi, calls, ptrs)
  {
    var xs, ps := calls[1..], ptrs[1..];
    forall j | 0 < j < |ptrs| ensures ptrs[j] == ps[j - 1] && calls[j] == xs[j - 1] {}
    forall i, j | 0 <= i < j < |ptrs|
      ensures ptrs[i] + calls[i].size + OVERHEAD <= ptrs[j] || ptrs[j] + calls[j].size + OVERHEAD <= ptrs[i]
    {
      if i == 0 {
        assert Avoids(ptrs[j], calls[j].size, b);
      } else {
        assert ps[i - 1] + xs[i - 1].size + OVERHEAD <= ps[j - 1] || ps[j - 1] + xs[j - 1].size + OVERHEAD <= ps[i - 1];
      }
    }
  }

  /** The memory granted lies apart from every block there was and from each other. */
  lemma {:induction false} PointersSeparate(cs: seq<Chunk>, lo: int, hi: int, calls: seq<Call>)
    requires WellFormed(cs, lo, hi) && Allocs(calls)
    ensures Separate(lo, hi, calls, Pointers(cs, calls))
    ensures forall c, j :: c in cs && !c.hole && 0 <= j < |Pointers(cs, calls)| ==>
              Avoids(Pointers(cs, calls)[j], calls[j].size, c)
    decreases |calls|
  {
    if calls != [] && Granted(cs, calls[0]) {
      var call, ptrs := calls[0], Pointers(cs, calls);
      var cs', rest := Step(cs, [], call).chunks, calls[1..];
      var ps := Pointers(cs', rest);
      assert ptrs[1..] == ps;
      var b := GrantedBlock(cs, lo, hi, call);
      StepWellFormed(cs, [], lo, hi, call);
      PointersSeparate(cs', lo, hi, rest);
      forall j | 0 < j < |ptrs| ensures Avoids(ptrs[j], calls[j].size, b) {
        assert Avoids(ps[j - 1], rest[j - 1].size, b);
      }
      SeparateFirst(lo, hi, calls, ptrs, b);
      forall c, j | c in cs && !c.hole && 0 <= j < |ptrs| ensures Avoids(ptrs[j], calls[j].size, c) {
        if j > 0 {
          StepKeepsBlock(cs, [], call, c);
          assert Avoids(ps[j - 1], rest[j - 1].size, c);
        }
      }
    }
  }

  /** One such request on the memory. */
  method SupplyOne(h: KernelHeap, cs: seq<Chunk>, call: Call) returns (ptr: u32)
    requires h.Valid() && h.chunks == cs && h.index_.size_ < h.index_.maxSize_ && Granted(cs, call)
    modifies h, h.mem, h.index_, h.index_.array_
    ensures h.Valid() && h.chunks == Step(cs, [], call).chunks && h.index_.size_ <= old(h.index_.size_) + 1
    ensures ptr == PointerOf(cs, call.size, call.pageAlign)
  {
    StepHoles(cs, [], h.startAddress_, h.endAddress_, call);
    ptr := PerformAlloc(h, [], call.size, call.pageAlign);
  }

  /** Any such requests on the memory, as far as they are granted. */
  method Supply(h: KernelHeap, cs: seq<Chunk>, calls: seq<Call>) returns (ptrs: seq<u32>)
    requires h.Valid() && h.chunks == cs && h.index_.size_ + |calls| <= h.index_.maxSize_ && Allocs(calls)
    modifies h, h.mem, h.index_, h.index_.array_
    ensures h.Valid() && ptrs == Pointers(cs, calls)
    ensures Separate(h.startAddress_, h.endAddress_, calls, ptrs)
    decreases |calls|
  {
    PointersSeparate(cs, h.startAddress_, h.endAddress_, calls);
    if calls == [] || !Granted(cs, calls[0]) { return []; }
    var ptr := SupplyOne(h, cs, calls[0]);
    var rest := Supply(h, Step(cs, [], calls[0]).chunks, calls[1..]);
    ptrs := [ptr] + rest;
  }

  // ---------- The aligned requests as a supply for paging ----------

  lemma {:induction false} AlignedAt(calls: seq<Call>, ptrs: seq<u32>, j: nat) returns (k: nat)
    requires Allocs(calls) && |ptrs| <= |calls| && j < |Aligned(calls, ptrs)|
    ensures k < |ptrs| && calls[k].pageAlign && ptrs[k] == Aligned(calls, ptrs)[j]
  {
    var first := if calls[0].pageAlign then 1 else 0;
    k := 0;
    if first <= j {
      var q := AlignedAt(calls[1..], ptrs[1..], j - first);
      k := q + 1;
    }
  }

  lemma {:induction false} SeparateRest(lo: int, hi: int, calls: seq<Call>, ptrs: seq<u32>)
    requires ptrs != [] && Separate(lo, hi, calls, ptrs)
    ensures Separate(lo, hi, calls[1..], ptrs[1..])
  {
  }

  /** No pointer is handed out twice. */
  lemma {:induction false} AlignedDistinct(lo: int, hi: int, calls: seq<Call>, ptrs: seq<u32>, i: nat, j: nat)
    requires Separate(lo, hi, calls, ptrs) && i < j < |Aligned(calls, ptrs)|
    ensures Aligned(calls, ptrs)[i] != Aligned(calls, ptrs)[j]
    decreases |ptrs|
  {
    var first := if calls[0].pageAlign then 1 else 0;
    SeparateRest(lo, hi, calls, ptrs);
    if first <= i {
      AlignedDistinct(lo, hi, calls[1..], ptrs[1..], i - first, j - first);
    } else {
      var k := AlignedAt(calls[1..], ptrs[1..], j - first);
      assert ptrs[k + 1] == Aligned(calls, ptrs)[j];
    }
  }

  /** Below the heap's first FRAMES - k pages. */
  predicate Within(k: nat, calls: seq<Call>, ptrs: seq<u32>) {
    Allocs(calls) && |ptrs| <= |calls| &&
    forall j :: 0 <= j < |ptrs| ==>
      0 < calls[j].size && ptrs[j] + calls[j].size <= HEAP_START + (FRAMES - k) * PAGE
  }

  lemma {:induction false} AlignedSupply(k: nat, lo: int, hi: int, calls: seq<Call>, ptrs: seq<u32>)
    requires 0 < k < FRAMES && HEAP_START <= lo && Separate(lo, hi, calls, ptrs) && Within(k, calls, ptrs)
    ensures HeapSupply(k, Aligned(calls, ptrs))
  {
    var supply := Aligned(calls, ptrs);
    forall j | 0 <= j < |supply|
      ensures supply[j] % PAGE == 0 && HEAP_START <= supply[j] && supply[j] / PAGE - HEAP_PAGE + k < FRAMES
    {
      var q := AlignedAt(calls, ptrs, j);
      MappedBelow(k, ptrs[q]);
    }
    forall i, j | 0 <= i < j < |supply| ensures supply[i] != supply[j] { AlignedDistinct(lo, hi, calls, ptrs, i, j); }
  }

  /** Memory of a heap that starts at HEAP_START or above, and ends where boot ran out of frames or below: every byte of
      it is mapped, and that of the aligned requests serves for paging. */
  lemma {:induction false} SuppliedByHeap(s: Space, owner: map<nat, (u32, nat)>, home: map<u32, (u32, nat)>,
                                          words: seq<Word>, placement: int, k: nat, lo: int, hi: int, calls: seq<Call>,
                                          ptrs: seq<u32>)
    requires BootInv(s, owner, home, words, placement) && Identity(s, k) && placement <= k * PAGE <= HEAP_START
    requires 0 < k < FRAMES && HeapFrames(s, k, HEAP_PAGES) && |words| == FRAMES && Used(words, 0)
    requires HEAP_START <= lo && Separate(lo, hi, calls, ptrs) && Within(k, calls, ptrs)
    ensures Good(s, owner, home, words, Aligned(calls, ptrs))
    ensures forall j, a: u32 :: 0 <= j < |ptrs| && ptrs[j] <= a < ptrs[j] + calls[j].size ==>
              Entry(s, s.root, a) == Some(Page(true, true, true, false, false, 0, k + a / PAGE - HEAP_PAGE))
  {
    AlignedSupply(k, lo, hi, calls, ptrs);
    BootGood(s, owner, home, words, placement, k, Aligned(calls, ptrs));
    forall j, a: u32 | 0 <= j < |ptrs| && ptrs[j] <= a < ptrs[j] + calls[j].size
      ensures Entry(s, s.root, a) == Some(Page(true, true, true, false, false, 0, k + a / PAGE - HEAP_PAGE))
    {
      MappedBelow(k, a);
      assert HeapFrame(PageEntry(s, s.root, a / PAGE), k + a / PAGE - HEAP_PAGE);
    }
  }

  lemma {:induction false} MappedBelow(k: nat, a: int)
    requires 0 < k < FRAMES && HEAP_START <= a < HEAP_START + (FRAMES - k) * PAGE
    ensures HEAP_PAGE <= a / PAGE && a / PAGE - HEAP_PAGE + k < FRAMES
  {
  }
}
