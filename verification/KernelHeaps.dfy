/**
  The kernel heap as the program runs it: headers and footers written into
  memory, the index updated in place (source/kernel_heap.cpp).
 */
module KernelHeaps {
  import opened Bytes
  import opened HeapLayout
  import opened HeapMerging
  import opened HeapParts
  import opened HeapWrites
  import opened HeapService
  import opened OrderedArrays

  const INDEX_SIZE: int := 0x20000

  /** Halted: the endless loop for a pointer without magic numbers. Stuck: the endless loop when a hole above is not in
      the index. PageFault: the word after the heap's end was read. */
  datatype FreeOutcome = Ignored | Done | PageFault | Halted | Stuck

  /** What becomes of a free of chunk i or of a piece of it. */
  function OutcomeAt(cs: seq<Chunk>, i: int, part: Option<Part>): FreeOutcome {
    if 0 <= i < |cs| && part.Some? && part.value.End() < cs[i].End() then Stuck
    else if i == |cs| - 1 then PageFault
    else Done
  }

  /** Where the header below ptr says that its footer is. */
  function FooterOf(m: seq<byte>, ptr: u32): u32
    requires |m| == WORLD && HEADER <= ptr
  {
    Sub32(Add32(ptr - HEADER, Get32(m, ptr - HEADER + 8)), FOOTER)
  }

  lemma {:induction false} GuardedIff(m: seq<byte>, ptr: u32)
    requires |m| == WORLD && HEADER <= ptr
    ensures FooterOf(m, ptr) + 4 <= WORLD ==>
              (Guarded(m, Sub32(ptr, HEADER))
               <==> Get32(m, ptr - HEADER) == MAGIC && Get32(m, FooterOf(m, ptr)) == MAGIC)
  {
  }

  lemma {:induction false} SiteFooter(m: seq<byte>, s: Site, lo: int, hi: int)
    requires SiteAt(m, s, lo, hi)
    ensures Sub32(Add32(s.addr, s.size), FOOTER) == s.End() - FOOTER
  {
  }

  lemma {:induction false} OutcomeIs(m0: seq<byte>, m1: seq<byte>, cs: seq<Chunk>, lo: int, hi: int, i: nat,
                                     part: Option<Part>, s: Site)
    requires i < |cs| && s == Place(m0, cs, i, part) && (part.Some? ==> PartFits(cs[i], part.value))
    requires Ready(m0, m1, s, lo, hi, Holes(cs), AboveListed(cs, i, part), IsLast(cs, i, part))
    ensures OutcomeAt(cs, i, part) == if s.End() == hi then PageFault
                                      else if s.right && !AboveListed(cs, i, part) then Stuck else Done
    ensures OutcomeAt(cs, i, part) == Done ==> i < |cs| - 1 && (part.Some? ==> part.value.End() == cs[i].End())
    ensures AboveListed(cs, i, part) ==> s.right
  {
  }

  /** What a free reads at a pointer to chunk i, or to a piece of it; m1 is memory with the flag in the header. */
  predicate Aimed(m0: seq<byte>, m1: seq<byte>, cs: seq<Chunk>, i: int, part: Option<Part>, ptr: u32,
                  header: u32, size: u32, footer: u32, s: Site)
  {
    && Leads(m0, cs, ptr, i, part) && HEADER <= ptr && header == ptr - HEADER && MarkedAt(m0, m1, header)
    && size == Get32(m0, header + 8) && footer == Sub32(Add32(header, size), FOOTER) && s == Place(m0, cs, i, part)
  }

  /** That is where the header of the chunk, or of the piece, says. */
  lemma {:induction false} Prepared(m0: seq<byte>, m1: seq<byte>, cs: seq<Chunk>, lo: int, hi: int, i: int,
                                    part: Option<Part>, ptr: u32, header: u32, size: u32, footer: u32, s: Site,
                                    index: seq<int>)
    requires HeapInv(m0, index, lo, hi, cs) && |m0| == WORLD
    requires Aimed(m0, m1, cs, i, part, ptr, header, size, footer, s)
    ensures MAGIC < lo && index == Holes(cs) && Sorted(index) && SiteAt(m1, s, lo, hi) && MarkedAt(m0, m1, header)
    ensures header == s.addr && size == s.size && footer == s.End() - FOOTER
    ensures s.End() < hi ==> (s.End() in index <==> AboveListed(cs, i, part))
    ensures AboveListed(cs, i, part) ==> s.right
    ensures OutcomeAt(cs, i, part) == if s.End() == hi then PageFault
                                      else if s.right && !AboveListed(cs, i, part) then Stuck else Done
    ensures OutcomeAt(cs, i, part) == Done ==> i < |cs| - 1 && (part.Some? ==> part.value.End() == cs[i].End())
  {
    PlaceReady(m0, m1, cs, lo, hi, i, part, ptr);
    HolesInOrder(cs, lo, hi);
    SiteFooter(m1, s, lo, hi);
    OutcomeIs(m0, m1, cs, lo, hi, i, part, s);
  }

  /** A header that a pointer leads to is above the heap's start. */
  lemma {:induction false} PointerAbove(m: seq<byte>, cs: seq<Chunk>, lo: int, hi: int, i: int, part: Option<Part>,
                                        ptr: int)
    requires HeapInv(m, Holes(cs), lo, hi, cs) && Leads(m, cs, ptr, i, part)
    ensures lo <= ptr - HEADER && ptr <= |m| && 0 < lo
  {
    Inside(cs, lo, hi, i);
    assert InMemory(m, cs[i]);
  }

  /** Which requests are granted, at which hole, and what a granted one takes. */
  lemma {:induction false} Granting(cs: seq<Chunk>, lo: int, hi: int, i: int, n: u32, pageAlign: bool)
    requires WellFormed(cs, lo, hi)
    requires if i == -1 then NoFit(cs, Add32(n, OVERHEAD), pageAlign)
             else FirstFit(cs, i, Add32(n, OVERHEAD), pageAlign)
    ensures !pageAlign && n + OVERHEAD < WORLD ==>
              && (i == -1 <==> forall j :: 0 <= j < |cs| && cs[j].hole ==> cs[j].size < n + OVERHEAD)
              && (i != -1 ==> cs[i].hole && n + OVERHEAD <= cs[i].size && Sound(cs[i].addr, cs[i].size, n, false)
                              && forall j :: 0 <= j < i && cs[j].hole ==> cs[j].size < n + OVERHEAD)
    ensures pageAlign && n + OVERHEAD < WORLD ==>
              (i == -1 <==> forall j :: 0 <= j < |cs| && cs[j].hole ==>
                 var d, h := Offset(cs[j].addr), cs[j].size;
                 if d <= h then h < d + n + OVERHEAD else h + WORLD < d + n + OVERHEAD)
    ensures i != -1 && Sound(cs[i].addr, cs[i].size, n, pageAlign) ==>
      var a, h, p := cs[i].addr, cs[i].size, PlanAt(cs[i], n, pageAlign);
      && Add32(p.loc, HEADER) == a + HEADER + (if pageAlign then Offset(a) else 0)
      && HoleBytes(Allocated(cs, i, p)) == HoleBytes(cs) - (if h < n + 2 * OVERHEAD then h else n + OVERHEAD)
  {
    NoFitIff(cs, Add32(n, OVERHEAD), pageAlign);
    if i != -1 {
      FirstFitIs(cs, i, Add32(n, OVERHEAD), pageAlign);
      Inside(cs, lo, hi, i);
      if Sound(cs[i].addr, cs[i].size, n, pageAlign) {
        LayOutTilesIff(cs[i].addr, cs[i].size, n, pageAlign);
        LayOutTakes(cs[i].addr, cs[i].size, n, pageAlign);
        AllocatedBytes(cs, i, PlanAt(cs[i], n, pageAlign));
      }
    }
  }

  function IndexAfter(items: seq<int>, k: nat, p: Plan): seq<int>
    requires k < |items|
  {
    var rest := if p.front > 0 then items else Remove(items, k);
    if p.tailSize > 0 then Insert(rest, p.tail) else rest
  }

  /** A hole taken by a plan that covers it leaves the heap with the planned pieces. */
  lemma {:induction false} TakenHeap(cs: seq<Chunk>, lo: int, hi: u32, i: nat, p: Plan, done: Plan, k: nat,
                                     m0: seq<byte>, w: Writes, m: seq<byte>)
    requires HeapInv(m0, Holes(cs), lo, hi, cs) && i < |cs| && cs[i].hole && k == |Holes(cs[..i])| < |Holes(cs)|
    requires Carved(m0, w, m, cs[i], p, hi) && done == ReadBack(p, cs[i].size, w.m2, cs[i].addr) && |m0| == WORLD
    ensures PlanCovers(p, cs[i].addr, cs[i].size) ==>
      && (done.tailSize > 0 ==> done.tail != MAGIC)
      && HeapInv(m, IndexAfter(Holes(cs), k, done), lo, hi, Allocated(cs, i, p))
      && SameOutside(m0, m, cs[i].addr, cs[i].End())
  {
    if PlanCovers(p, cs[i].addr, cs[i].size) {
      Inside(cs, lo, hi, i);
      CarvedPieces(m0, w, m, cs[i], p, hi);
      PlanTail(cs, lo, hi, i, p);
      AllocatedIndex(cs, lo, hi, i, p, k);
      AllocatedInv(cs, lo, hi, i, p, m0, m);
    }
  }

  lemma {:induction false} PlanTail(cs: seq<Chunk>, lo: int, hi: int, i: nat, p: Plan)
    requires WellFormed(cs, lo, hi) && i < |cs| && PlanCovers(p, cs[i].addr, cs[i].size)
    ensures p.tailSize > 0 ==> p.tail > MAGIC
  {
    Inside(cs, lo, hi, i);
  }

  /** The index after the allocation, computed from the index before it. */
  lemma {:induction false} AllocatedIndex(cs: seq<Chunk>, lo: int, hi: int, i: nat, p: Plan, k: nat)
    requires WellFormed(cs, lo, hi) && i < |cs| && cs[i].hole && PlanCovers(p, cs[i].addr, cs[i].size)
    requires k == |Holes(cs[..i])| < |Holes(cs)|
    ensures Holes(Allocated(cs, i, p)) == IndexAfter(Holes(cs), k, p)
  {
    AllocatedHoles(cs, i, p);
    HolesSplit(cs, i);
    TiledSplit(cs, i, lo, hi);
    HolesInOrder(cs[..i], lo, cs[i].addr);
    HolesInOrder(cs[i + 1..], cs[i].End(), hi);
    ReplaceEntry(Holes(cs[..i]), cs[i].addr, Holes(cs[i + 1..]), p.front > 0, p.tailSize > 0, p.tail);
  }

  lemma {:induction false} ReplaceEntry(before: seq<int>, a: int, after: seq<int>, front: bool, addTail: bool,
                                        tail: int)
    requires Above(before, a) && Below(a, after) && (addTail ==> a < tail && Below(tail, after))
    ensures var items := before + [a] + after;
      var rest := if front then items else Remove(items, |before|);
      (if addTail then Insert(rest, tail) else rest)
      == before + (if front then [a] else []) + (if addTail then [tail] else []) + after
  {
    var items := before + [a] + after;
    if front {
      assert items == (before + [a]) + after;
      if addTail { InsertBetween(before + [a], tail, after); }
    } else {
      assert Remove(items, |before|) == before + after;
      if addTail { InsertBetween(before, tail, after); }
    }
  }

  lemma {:induction false} AllocatedInv(cs: seq<Chunk>, lo: int, hi: int, i: nat, p: Plan, m0: seq<byte>, m: seq<byte>)
    requires HeapInv(m0, Holes(cs), lo, hi, cs)
    requires i < |cs| && cs[i].hole && PlanCovers(p, cs[i].addr, cs[i].size)
    requires SameOutside(m0, m, cs[i].addr, cs[i].End())
    requires AllInMemory(m, Pieces(cs[i].addr, p))
    ensures HeapInv(m, Holes(Allocated(cs, i, p)), lo, hi, Allocated(cs, i, p))
  {
    AllocatedWellFormed(cs, lo, hi, i, p);
    ReplaceInMemory(cs, i, i + 1, Pieces(cs[i].addr, p), lo, hi, m0, m);
  }

  method HoleFits(mem: array<byte>, header: u32, size: u32, pageAlign: bool, ghost holeSize: u32) returns (fits: bool)
    requires mem.Length == WORLD && HeaderAt(mem[..], header, true, holeSize)
    ensures fits == Fits(header, holeSize, size, pageAlign)
    ensures !pageAlign ==> (fits <==> size <= holeSize)
  {
    var length := Load32(mem, header + 8);
    if mem[header + 4] != 0 {
      if pageAlign {
        var offset := 0;
        if Add32(header, HEADER) % PAGE != 0 { offset := PAGE - Add32(header, HEADER) % PAGE; }
        fits := !(Sub32(length, offset) < size);
      } else {
        fits := length >= size;
      }
    } else {
      fits := false;
    }
  }

  lemma {:induction false} FirstSlot(slots: seq<int>, x: int)
    requires 0 < |slots| && slots[..1] == [x] && x != MAGIC && (forall k :: 0 <= k < |slots| - 1 ==> slots[1..][k] == 0)
    ensures forall k :: 0 <= k < |slots| ==> slots[k] != MAGIC
  {
    assert slots[0] == slots[..1][0];
    forall k | 1 <= k < |slots| ensures slots[k] != MAGIC { assert slots[k] == slots[1..][k - 1]; }
  }

  lemma {:induction false} InitialInv(m: seq<byte>, lo: u32, hi: u32)
    requires MAGIC < lo && lo + OVERHEAD <= hi && HeaderAt(m, lo, true, hi - lo)
    ensures HeapInv(m, [lo as int], lo, hi, [Chunk(lo, hi - lo, true, NoFooter)])
  {
    var cs := [Chunk(lo, hi - lo, true, NoFooter)];
    assert Holes(cs[1..]) == [];
  }

  method WriteFirstHole(mem: array<byte>, lo: u32, hi: u32)
    requires mem.Length == WORLD && MAGIC < lo && lo + OVERHEAD <= hi
    modifies mem
    ensures HeapInv(mem[..], [lo as int], lo, hi, [Chunk(lo, hi - lo, true, NoFooter)])
    ensures SameOutside(old(mem[..]), mem[..], lo, lo + HEADER)
  {
    WriteHeader(mem, lo, true, hi - lo);
    InitialInv(mem[..], lo, hi);
  }

  method ListFirstHole(index: OrderedArray, lo: u32)
    requires index.Valid() && index.Items() == [] && index.size_ == 0 < index.maxSize_ && MAGIC < lo
    requires forall k :: 0 <= k < index.array_.Length ==> index.array_[k] == 0
    modifies index, index.array_
    ensures index.Valid() && index.Items() == [lo as int]
    ensures forall k :: 0 <= k < index.array_.Length ==> index.array_[k] != MAGIC
  {
    index.Add(lo);
    FirstSlot(index.array_[..], lo);
  }

  method ReadGuards(mem: array<byte>, header: u32) returns (ok: bool, size: u32, footer: u32)
    requires mem.Length == WORLD
    ensures ok == Guarded(mem[..], header)
    ensures ok ==> size == Get32(mem[..], header + 8) && footer == Sub32(Add32(header, size), FOOTER)
  {
    size := Load32(mem, Add32(header, 8));
    footer := Sub32(Add32(header, size), FOOTER);
    var magic := Load32(mem, header);
    var footerMagic := Load32(mem, footer);
    ok := header + HEADER <= WORLD && footer + 4 <= WORLD && magic == MAGIC && footerMagic == MAGIC;
  }

  method GrowHeader(mem: array<byte>, header: u32, size: u32)
    requires header + HEADER <= mem.Length <= WORLD
    modifies mem
    ensures Get32(mem[..], header + 8) == Add32(old(Get32(mem[..], header + 8)), size)
    ensures SameOutside(old(mem[..]), mem[..], header + 8, header + HEADER)
  {
    var was := Load32(mem, header + 8);
    Store32(mem, header + 8, Add32(was, size));
  }

  method JoinLeft(mem: array<byte>, header: u32, footer: u32, size: u32)
    requires mem.Length == WORLD && header + HEADER <= footer && footer + FOOTER <= WORLD
    modifies mem
    ensures LeftMerged(old(mem[..]), mem[..], header, footer, size)
  {
    Store32(mem, footer + 4, header);
    GrowHeader(mem, header, size);
  }

  class KernelHeap {
    const mem: array<byte>
    const index_: OrderedArray
    const startAddress_: u32
    const endAddress_: u32
    ghost var chunks: seq<Chunk>

    /** The words just below the heap are the index's last slots; none of them looks like a footer. */
    ghost predicate NoMagicInIndex()
      reads index_.array_
    {
      forall k :: 0 <= k < index_.array_.Length ==> index_.array_[k] != MAGIC
    }

    ghost predicate Valid()
      reads this, mem, index_, index_.array_
    {
      && mem.Length == WORLD && mem as object != index_.array_ as object
      && index_.Valid() && index_.maxSize_ >= 2 && NoMagicInIndex()
      && HeapInv(mem[..], index_.Items(), startAddress_, endAddress_, chunks)
    }

    /** The index takes the first 4 * INDEX_SIZE bytes; the rest is one hole, without a footer.
        Unaligned bounds stop the source in an endless loop. */
    constructor (mem: array<byte>, startAddress: u32, endAddress: u32)
      requires mem.Length == WORLD
      requires startAddress % PAGE == 0 && endAddress % PAGE == 0
      requires MAGIC < startAddress && startAddress + 4 * INDEX_SIZE < endAddress
      modifies mem
      ensures Valid() && this.mem == mem && fresh(index_) && fresh(index_.array_)
      ensures startAddress_ == startAddress + 4 * INDEX_SIZE && endAddress_ == endAddress
      ensures chunks == [Chunk(startAddress_, endAddress_ - startAddress_, true, NoFooter)]
      ensures index_.maxSize_ == INDEX_SIZE
      ensures SameOutside(old(mem[..]), mem[..], startAddress_, startAddress_ + HEADER)
    {
      this.mem := mem;
      index_ := new OrderedArray(INDEX_SIZE);
      // The test that follows in the source is `start & (0xFFFFF000 != 0)`; it is never true here.
      var start := startAddress + 4 * INDEX_SIZE;
      startAddress_ := start;
      endAddress_ := endAddress;
      chunks := [Chunk(start, endAddress - start, true, NoFooter)];
      new;
      WriteFirstHole(mem, startAddress_, endAddress_);
      ListFirstHole(index_, startAddress_);
    }

    method Entry(k: nat, ghost x: u32) returns (header: u32)
      requires index_.Valid() && k < index_.size_ && index_.Items()[k] == x
      ensures header == x
    {
      header := index_.array_[k];
    }

    /** The loop over the index, lowest address first. */
    method ScanHoles(size: u32, pageAlign: bool) returns (r: int, ghost i: int)
      requires Valid()
      ensures -1 <= r < index_.size_
      ensures r == -1 ==> NoFit(chunks, size, pageAlign)
      ensures r >= 0 ==> FirstFit(chunks, i, size, pageAlign) && index_.Items()[r] == chunks[i].addr
      ensures r >= 0 ==> Holes(chunks[..i]) == index_.Items()[..r] && Holes(chunks[i + 1..]) == index_.Items()[r + 1..]
    {
      r, i := 0, 0;
      while r < index_.size_
        invariant 0 <= r <= index_.size_
        invariant forall j :: 0 <= j < |chunks| && chunks[j].hole && |Holes(chunks[..j])| < r ==>
                    !Fits(chunks[j].addr, chunks[j].size, size, pageAlign)
      {
        i := HoleOfIndex(chunks, r);
        HoleCountsAround(chunks, i);
        assert InMemory(mem[..], chunks[i]);
        var header := Entry(r, chunks[i].addr);
        var fits := HoleFits(mem, header, size, pageAlign, chunks[i].size);
        if fits { return; }
        r := r + 1;
      }
      HoleCountsBelow(chunks);
      r := -1;
    }

    /** The lowest hole that is large enough; of aligned requests a difference below zero counts as unsigned. */
    method FindSmallestHole(size: u32, pageAlign: bool) returns (r: int, ghost i: int)
      requires Valid()
      ensures -1 <= r < index_.size_
      ensures r == -1 ==> NoFit(chunks, size, pageAlign)
      ensures r >= 0 ==> FirstFit(chunks, i, size, pageAlign) && index_.Items()[r] == chunks[i].addr
      ensures r >= 0 ==> Holes(chunks[..i]) == index_.Items()[..r] && Holes(chunks[i + 1..]) == index_.Items()[r + 1..]
      ensures !pageAlign ==> (r == -1 <==> forall j :: 0 <= j < |chunks| && chunks[j].hole ==> chunks[j].size < size)
      ensures !pageAlign && r >= 0 ==>
                && chunks[i].hole && size <= chunks[i].size
                && forall j :: 0 <= j < i && chunks[j].hole ==> chunks[j].size < size
      ensures pageAlign ==> (r == -1 <==> forall j :: 0 <= j < |chunks| && chunks[j].hole ==>
                var d := Offset(chunks[j].addr);
                if d <= chunks[j].size then chunks[j].size < d + size else chunks[j].size + WORLD < d + size)
      ensures pageAlign && r >= 0 ==>
                && chunks[i].hole
                && (var d := Offset(chunks[i].addr);
                    if d <= chunks[i].size then d + size <= chunks[i].size else d + size <= chunks[i].size + WORLD)
                && forall j :: 0 <= j < i && chunks[j].hole ==>
                     var d := Offset(chunks[j].addr);
                     if d <= chunks[j].size then chunks[j].size < d + size else chunks[j].size + WORLD < d + size
    {
      ghost var cs := chunks;
      r, i := ScanHoles(size, pageAlign);
      NoFitIff(cs, size, pageAlign);
      if r >= 0 { FirstFitIs(cs, i, size, pageAlign); }
    }

    method AddToIndex(item: int)
      requires index_.Valid() && index_.size_ < index_.maxSize_
      modifies index_, index_.array_
      ensures index_.Valid() && index_.Items() == Insert(old(index_.Items()), item)
      ensures index_.size_ == old(index_.size_) + 1
      ensures old(NoMagicInIndex()) && item != MAGIC ==> NoMagicInIndex()
    {
      ghost var was, s := index_.array_[..], index_.Items();
      index_.Add(item);
      forall k | 0 <= k < index_.array_.Length ensures index_.array_[k] == item || index_.array_[k] in was {
        if k < index_.size_ {
          assert index_.array_[k] == Insert(s, item)[k];
        } else {
          assert index_.array_[k] == index_.array_[index_.size_..][k - index_.size_];
          assert index_.array_[k] == was[|s| + 1..][k - index_.size_];
        }
      }
    }

    method EraseFromIndex(k: nat)
      requires index_.Valid() && k < index_.size_
      modifies index_, index_.array_
      ensures index_.Valid() && index_.Items() == Remove(old(index_.Items()), k)
      ensures index_.size_ == old(index_.size_) - 1
      ensures old(NoMagicInIndex()) ==> NoMagicInIndex()
    {
      ghost var was, s := index_.array_[..], index_.Items();
      index_.Erase(k);
      forall j | 0 <= j < index_.array_.Length ensures index_.array_[j] in was {
        if j < index_.size_ {
          assert index_.array_[j] == Remove(s, k)[j];
        } else {
          assert index_.array_[j] == index_.array_[index_.size_..][j - index_.size_];
          assert index_.array_[j] == was[|s| - 1..][j - index_.size_];
        }
      }
    }

    /** The hole's entry goes unless a front hole keeps it; a tail hole gets one. */
    method IndexPieces(k: nat, plan: Plan)
      requires index_.Valid() && k < index_.size_ < index_.maxSize_
      modifies index_, index_.array_
      ensures index_.Valid() && index_.Items() == IndexAfter(old(index_.Items()), k, plan)
      ensures old(NoMagicInIndex()) && (plan.tailSize > 0 ==> plan.tail != MAGIC) ==> NoMagicInIndex()
    {
      if plan.front == 0 { EraseFromIndex(k); }
      if plan.tailSize > 0 { AddToIndex(plan.tail); }
    }

    /** Turns hole c, entry k of the index, into the planned pieces. */
    method TakeHole(k: nat, holeAddr: u32, holeSize: u32, plan: Plan, ghost c: Chunk) returns (ghost w: Writes)
      requires mem.Length == WORLD && mem as object != index_.array_ as object && index_.Valid() && NoMagicInIndex()
      requires k < index_.size_ < index_.maxSize_
      requires holeAddr == c.addr && holeSize == c.size && c.addr + HEADER <= WORLD
      modifies mem, index_, index_.array_
      ensures index_.Valid() && Carved(old(mem[..]), w, mem[..], c, plan, endAddress_)
      ensures index_.Items() == IndexAfter(old(index_.Items()), k, ReadBack(plan, holeSize, w.m2, holeAddr))
      ensures (ReadBack(plan, holeSize, w.m2, holeAddr).tailSize > 0 ==> plan.tail != MAGIC) ==> NoMagicInIndex()
    {
      var done;
      done, w := Carve(mem, holeAddr, holeSize, plan, endAddress_, c);
      IndexPieces(k, done);
    }

    /** The tiling that explains memory and index from now on, if it does. */
    ghost method Settle(explained: bool, cs: seq<Chunk>)
      requires mem.Length == WORLD && mem as object != index_.array_ as object && index_.Valid() && index_.maxSize_ >= 2
      requires explained ==> NoMagicInIndex() && HeapInv(mem[..], index_.Items(), startAddress_, endAddress_, cs)
      modifies this`chunks
      ensures chunks == cs && (explained ==> Valid())
    {
      chunks := cs;
    }

    /** Puts the plan for hole i, entry k of the index, into effect. */
    method FillHole(k: nat, holeAddr: u32, holeSize: u32, plan: Plan, ghost i: int) returns (ghost w: Writes)
      requires Valid() && k < index_.size_ < index_.maxSize_
      requires 0 <= i < |chunks| && chunks[i].hole && k == |Holes(chunks[..i])|
      requires holeAddr == chunks[i].addr && holeSize == chunks[i].size
      modifies this, mem, index_, index_.array_
      ensures index_.Valid() && Carved(old(mem[..]), w, mem[..], old(chunks)[i], plan, endAddress_)
      ensures PlanCovers(plan, holeAddr, holeSize) ==> Valid() && chunks == Allocated(old(chunks), i, plan)
      ensures PlanCovers(plan, holeAddr, holeSize) ==> SameOutside(old(mem[..]), mem[..], holeAddr, holeAddr + holeSize)
    {
      ghost var cs, m0 := chunks, mem[..];
      Inside(cs, startAddress_, endAddress_, i);
      w := TakeHole(k, holeAddr, holeSize, plan, cs[i]);
      ghost var done := ReadBack(plan, holeSize, w.m2, holeAddr);
      TakenHeap(cs, startAddress_, endAddress_, i, plan, done, k, m0, w, mem[..]);
      Settle(PlanCovers(plan, holeAddr, holeSize), Allocated(cs, i, plan));
    }

    /** Reads hole i and lays the request out. */
    method PlanHole(k: nat, size: u32, pageAlign: bool, ghost i: int) returns (holeAddr: u32, holeSize: u32, plan: Plan)
      requires Valid() && k < index_.size_ && 0 <= i < |chunks| && chunks[i].hole && chunks[i].addr == index_.Items()[k]
      ensures holeAddr == chunks[i].addr && holeSize == chunks[i].size && plan == PlanAt(chunks[i], size, pageAlign)
      ensures Sound(holeAddr, holeSize, size, pageAlign) ==>
                PlanCovers(plan, holeAddr, holeSize) && Add32(plan.loc, HEADER) != 0
    {
      assert InMemory(mem[..], chunks[i]);
      Inside(chunks, startAddress_, endAddress_, i);
      holeAddr := Entry(k, chunks[i].addr);
      holeSize := Load32(mem, holeAddr + 8);
      plan := LayOut(holeAddr, holeSize, size, pageAlign);
      LayOutTilesIff(holeAddr, holeSize, size, pageAlign);
    }

    /** Lays the request out in hole i, entry k of the index, and writes it. */
    method CutHole(k: nat, size: u32, pageAlign: bool, ghost i: int) returns (ptr: u32, ghost w: Writes)
      requires Valid() && k < index_.size_ < index_.maxSize_
      requires 0 <= i < |chunks| && chunks[i].hole
      requires chunks[i].addr == index_.Items()[k] && k == |Holes(chunks[..i])|
      modifies this, mem, index_, index_.array_
      ensures index_.Valid() && ptr == Add32(PlanAt(old(chunks)[i], size, pageAlign).loc, HEADER)
      ensures Carved(old(mem[..]), w, mem[..], old(chunks)[i], PlanAt(old(chunks)[i], size, pageAlign), endAddress_)
      ensures Sound(old(chunks)[i].addr, old(chunks)[i].size, size, pageAlign) ==>
                && Valid() && chunks == Allocated(old(chunks), i, PlanAt(old(chunks)[i], size, pageAlign)) && ptr != 0
                && SameOutside(old(mem[..]), mem[..], old(chunks)[i].addr, old(chunks)[i].End())
    {
      var holeAddr, holeSize, plan := PlanHole(k, size, pageAlign, i);
      w := FillHole(k, holeAddr, holeSize, plan, i);
      ptr := Add32(plan.loc, HEADER);
    }

    /** Page-aligned or not, the request takes the lowest hole that passes the fit test. */
    method Allocate(size: u32, pageAlign: bool) returns (ptr: u32, ghost i: int, ghost w: Writes)
      requires Valid() && index_.size_ < index_.maxSize_
      modifies this, mem, index_, index_.array_
      ensures index_.Valid()
      ensures i == -1 ==> ptr == 0 && NoFit(old(chunks), Add32(size, OVERHEAD), pageAlign)
      ensures i == -1 ==> Valid() && chunks == old(chunks) && mem[..] == old(mem[..])
      ensures i != -1 ==> FirstFit(old(chunks), i, Add32(size, OVERHEAD), pageAlign)
      ensures i != -1 ==> ptr == Add32(PlanAt(old(chunks)[i], size, pageAlign).loc, HEADER)
      ensures i != -1 ==>
                Carved(old(mem[..]), w, mem[..], old(chunks)[i], PlanAt(old(chunks)[i], size, pageAlign), endAddress_)
      ensures i != -1 && Sound(old(chunks)[i].addr, old(chunks)[i].size, size, pageAlign) ==>
                && Valid() && chunks == Allocated(old(chunks), i, PlanAt(old(chunks)[i], size, pageAlign)) && ptr != 0
                && SameOutside(old(mem[..]), mem[..], old(chunks)[i].addr, old(chunks)[i].End())
      ensures i != -1 ==>
                (Served(mem[..], index_.Items(), startAddress_, endAddress_, old(chunks), ptr, size, pageAlign)
                 <==> Sound(old(chunks)[i].addr, old(chunks)[i].size, size, pageAlign))
      ensures !pageAlign && size + OVERHEAD < WORLD ==>
                && (ptr == 0 <==> i == -1)
                && (ptr == 0 <==> forall j :: 0 <= j < |old(chunks)| && old(chunks)[j].hole ==>
                                    old(chunks)[j].size < size + OVERHEAD)
                && (i != -1 ==> old(chunks)[i].hole && size + OVERHEAD <= old(chunks)[i].size
                                && forall j :: 0 <= j < i && old(chunks)[j].hole ==>
                                     old(chunks)[j].size < size + OVERHEAD)
      ensures pageAlign && size + OVERHEAD < WORLD ==>
                (i == -1 <==> forall j :: 0 <= j < |old(chunks)| && old(chunks)[j].hole ==>
                   var d, h := Offset(old(chunks)[j].addr), old(chunks)[j].size;
                   if d <= h then h < d + size + OVERHEAD else h + WORLD < d + size + OVERHEAD)
      ensures i != -1 && Sound(old(chunks)[i].addr, old(chunks)[i].size, size, pageAlign) ==>
        var a, h := old(chunks)[i].addr, old(chunks)[i].size;
        && ptr == a + HEADER + (if pageAlign then Offset(a) else 0)
        && HoleBytes(chunks) == HoleBytes(old(chunks)) - (if h < size + 2 * OVERHEAD then h else size + OVERHEAD)
    {
      var k, q := FindSmallestHole(Add32(size, OVERHEAD), pageAlign);
      w := Writes(mem[..], mem[..], mem[..], mem[..], mem[..]);
      Granting(chunks, startAddress_, endAddress_, if k == -1 then -1 else q, size, pageAlign);
      if k == -1 { return 0, -1, w; }
      i := q;
      assert k == |Holes(chunks[..i])|;
      ghost var cs, m0 := chunks, mem[..];
      ptr, w := CutHole(k, size, pageAlign, i);
      ServedIff(cs, startAddress_, endAddress_, i, size, pageAlign, m0, w, mem[..], index_.Items());
    }

    /** The index position of x, or size_ when it is not listed. */
    method Search(x: int) returns (k: nat)
      requires index_.Valid()
      ensures k <= index_.size_ && x !in index_.Items()[..k]
      ensures k < index_.size_ ==> index_.Items()[k] == x
    {
      k := 0;
      while k < index_.size_ && index_.array_[k] != x
        invariant k <= index_.size_ && x !in index_.Items()[..k]
      {
        k := k + 1;
      }
    }

    /** Removes the entry x; false when it is not listed. */
    method Unlist(x: int) returns (found: bool)
      requires index_.Valid()
      modifies index_, index_.array_
      ensures index_.Valid() && found == (x in old(index_.Items()))
      ensures found ==> exists k :: 0 <= k < |old(index_.Items())| && old(index_.Items())[k] == x
                                    && index_.Items() == Remove(old(index_.Items()), k)
      ensures !found ==> index_.Items() == old(index_.Items())
      ensures index_.size_ == old(index_.size_) - if found then 1 else 0
      ensures old(NoMagicInIndex()) ==> NoMagicInIndex()
    {
      var k := Search(x);
      found := k < index_.size_;
      if found { EraseFromIndex(k); }
    }

    /** The header above goes from the index if it was a hole's; what was freed gets an entry unless it joined a
        hole. */
    method UpdateIndex(header: u32, addHole: bool, testHeader: u32, right: bool)
      returns (out: FreeOutcome, ghost rest: seq<int>)
      requires index_.Valid() && index_.size_ < index_.maxSize_ && NoMagicInIndex() && Sorted(index_.Items())
      requires header != MAGIC && (testHeader as int in index_.Items() ==> right)
      modifies index_, index_.array_
      ensures index_.Valid() && NoMagicInIndex()
      ensures out == if right && testHeader as int !in old(index_.Items()) then Stuck else Done
      ensures out == Done ==> Unlisted(old(index_.Items()), testHeader, right, rest)
      ensures out == Done ==> index_.Items() == if addHole then Insert(rest, header) else rest
    {
      ghost var items := index_.Items();
      if right {
        var found := Unlist(testHeader);
        if !found { return Stuck, []; }
        ghost var k :| 0 <= k < |items| && items[k] == testHeader && index_.Items() == Remove(items, k);
        RemoveSorted(items, k);
      }
      rest := index_.Items();
      var again := Unlist(testHeader);
      if addHole { AddToIndex(header); }
      out := Done;
    }

    /** The footer just below the header; below the first chunk lie the index's last two slots. */
    method FooterBelow(header: u32, ghost below: int) returns (magic: int, link: int)
      requires mem.Length == WORLD && index_.Valid() && index_.maxSize_ >= 2
      requires header != startAddress_ ==> FooterAt(mem[..], header - FOOTER, below)
      ensures if header == startAddress_ then NoMagicInIndex() ==> magic != MAGIC else magic == MAGIC && link == below
    {
      if header == startAddress_ {
        magic, link := index_.array_[index_.maxSize_ - 2], index_.array_[index_.maxSize_ - 1];
      } else {
        magic := Load32(mem, header - FOOTER);
        link := Load32(mem, header - 4);
      }
    }

    /** When the footer below names a header marked as a hole, that header grows and the footer of what is freed
        names it. */
    method MergeLeft(header: u32, size: u32, footer: u32, ghost s: Site) returns (merged: u32, addHole: bool)
      requires mem.Length == WORLD && index_.Valid() && index_.maxSize_ >= 2 && NoMagicInIndex()
      requires SiteAt(mem[..], s, startAddress_, endAddress_)
      requires header == s.addr && size == s.size && footer == s.End() - FOOTER
      modifies mem
      ensures addHole == !s.joins && merged == s.Header() && merged + HEADER <= s.End()
      ensures if s.joins then LeftMerged(old(mem[..]), mem[..], s.below, footer, size) else mem[..] == old(mem[..])
      ensures s.End() < endAddress_ ==> HeaderAt(mem[..], s.End(), s.right, s.above)
    {
      merged, addHole := header, true;
      var testMagic, link := FooterBelow(header, s.below);
      if testMagic == MAGIC && mem[link + 4] != 0 {
        merged, addHole := link, false;
        JoinLeft(mem, merged, footer, size);
      }
    }

    /** When the header above is a hole's, the merged header grows by its size. */
    method MergeRight(merged: u32, testHeader: u32, ghost s: Site) returns (right: bool)
      requires mem.Length == WORLD && HeaderAt(mem[..], testHeader, s.right, s.above) && merged + HEADER <= testHeader
      modifies mem
      ensures right == s.right
      ensures if s.right then HeaderGrown(old(mem[..]), mem[..], merged, s.above) else mem[..] == old(mem[..])
    {
      var magic := Load32(mem, testHeader);
      right := magic == MAGIC && mem[testHeader + 4] != 0;
      if right {
        var size := Load32(mem, testHeader + 8);
        GrowHeader(mem, merged, size);
      }
    }

    /** The two merges in memory; a fault when there is no header above. */
    method MergeBoth(header: u32, size: u32, footer: u32, ghost s: Site)
      returns (fault: bool, addHole: bool, right: bool, ghost m2: seq<byte>)
      requires mem.Length == WORLD && index_.Valid() && index_.maxSize_ >= 2 && NoMagicInIndex()
      requires SiteAt(mem[..], s, startAddress_, endAddress_)
      requires header == s.addr && size == s.size && footer == s.End() - FOOTER
      modifies mem
      ensures fault == (s.End() == endAddress_) && addHole == !s.joins
      ensures !fault ==> right == s.right && SiteMerged(old(mem[..]), m2, mem[..], s)
    {
      var merged;
      merged, addHole := MergeLeft(header, size, footer, s);
      m2 := mem[..];
      right, fault := false, false;
      var testHeader := Add32(footer, FOOTER);
      if testHeader >= endAddress_ { return true, addHole, false, m2; }
      right := MergeRight(merged, testHeader, s);
    }

    /** Marks a header as a hole's, merges it with the holes beside it and brings the index up to date. */
    method Coalesce(header: u32, size: u32, footer: u32, ghost s: Site, ghost listed: bool, ghost m1: seq<byte>)
      returns (out: FreeOutcome, ghost m2: seq<byte>, ghost rest: seq<int>)
      requires mem.Length == WORLD && index_.Valid() && index_.size_ < index_.maxSize_ && index_.maxSize_ >= 2
      requires mem as object != index_.array_ as object && NoMagicInIndex() && Sorted(index_.Items())
      requires MarkedAt(mem[..], m1, header) && SiteAt(m1, s, startAddress_, endAddress_) && MAGIC < startAddress_
      requires header == s.addr && size == s.size && footer == s.End() - FOOTER
      requires s.End() < endAddress_ ==> (s.End() in index_.Items() <==> listed) && (listed ==> s.right)
      modifies mem, index_, index_.array_
      ensures index_.Valid() && NoMagicInIndex()
      ensures out == if s.End() == endAddress_ then PageFault else if s.right && !listed then Stuck else Done
      ensures out == Done ==> SiteMerged(m1, m2, mem[..], s)
      ensures out == Done ==> Unlisted(old(index_.Items()), s.End(), s.right, rest)
      ensures out == Done ==> index_.Items() == if s.joins then rest else Insert(rest, header)
    {
      mem[header + 4] := 1;
      assert mem[..] == m1;
      var fault, addHole, right;
      fault, addHole, right, m2 := MergeBoth(header, size, footer, s);
      rest := [];
      if fault { return PageFault, m2, rest; }
      ghost var m3 := mem[..];
      out, rest := UpdateIndex(header, addHole, footer + FOOTER, right);
      assert mem[..] == m3;
    }

    /** A free as a sequence of memories: m1 with the flag in the header, m2 after the merge below. */
    method FreePlace(header: u32, size: u32, footer: u32, ghost i: int, ghost part: Option<Part>, ghost ptr: u32,
                     ghost s: Site, ghost m0: seq<byte>, ghost m1: seq<byte>, ghost cs: seq<Chunk>)
      returns (out: FreeOutcome, ghost m2: seq<byte>, ghost rest: seq<int>)
      requires mem.Length == WORLD && index_.Valid() && index_.size_ < index_.maxSize_ && index_.maxSize_ >= 2
      requires mem as object != index_.array_ as object && NoMagicInIndex()
      requires mem[..] == m0 && HeapInv(m0, index_.Items(), startAddress_, endAddress_, cs)
      requires Aimed(m0, m1, cs, i, part, ptr, header, size, footer, s)
      modifies mem, index_, index_.array_
      ensures index_.Valid() && NoMagicInIndex() && out == OutcomeAt(cs, i, part)
      ensures out == Done ==> i < |cs| - 1 && (part.Some? ==> part.value.End() == cs[i].End())
      ensures out == Done ==> SiteMerged(m1, m2, mem[..], s)
      ensures out == Done ==> Unlisted(Holes(cs), s.End(), s.right, rest)
      ensures out == Done ==> index_.Items() == if s.joins then rest else Insert(rest, s.addr)
    {
      Prepared(m0, m1, cs, startAddress_, endAddress_, i, part, ptr, header, size, footer, s,
               index_.Items());
      out, m2, rest := Coalesce(header, size, footer, s, AboveListed(cs, i, part), m1);
    }

    /** What a free has done when it returns, to the heap that was there. */
    method FreeAt(header: u32, size: u32, footer: u32, ghost i: int, ghost part: Option<Part>, ghost ptr: u32,
                  ghost cs: seq<Chunk>)
      returns (out: FreeOutcome)
      requires Valid() && index_.size_ < index_.maxSize_ && cs == chunks && Leads(mem[..], cs, ptr, i, part)
      requires header == Sub32(ptr, HEADER) && header + HEADER <= WORLD && size == Get32(mem[..], header + 8)
      requires footer == Sub32(Add32(header, size), FOOTER)
      modifies mem, index_, index_.array_
      ensures index_.Valid() && NoMagicInIndex() && out == OutcomeAt(cs, i, part)
      ensures out == Done ==> Effect(old(mem[..]), cs, i, part, startAddress_, endAddress_, mem[..],
                                     index_.Items(), Leaves(cs, i, part))
    {
      ghost var m0, s := mem[..], Place(mem[..], cs, i, part);
      PointerAbove(m0, cs, startAddress_, endAddress_, i, part, ptr);
      ghost var m1 := m0[header + 4 := 1];
      ghost var m2, rest;
      out, m2, rest := FreePlace(header, size, footer, i, part, ptr, s, m0, m1, cs);
      if out == Done {
        PlaceFreed(m0, m1, m2, mem[..], cs, startAddress_, endAddress_, i, part, ptr, s, rest, index_.Items());
      }
    }

    /** A free with the header, its size and the footer found; both magic numbers are in place. */
    method FreeFound(header: u32, size: u32, footer: u32, ghost i: int, ghost part: Option<Part>, ghost ptr: u32,
                     ghost cs: seq<Chunk>)
      returns (out: FreeOutcome)
      requires Valid() && index_.size_ < index_.maxSize_ && cs == chunks && Leads(mem[..], cs, ptr, i, part)
      requires header == Sub32(ptr, HEADER) && header + HEADER <= WORLD && size == Get32(mem[..], header + 8)
      requires footer == Sub32(Add32(header, size), FOOTER)
      modifies this, mem, index_, index_.array_
      ensures index_.Valid() && out == OutcomeAt(cs, i, part)
      ensures out == Done ==>
                && chunks == Leaves(cs, i, part)
                && Effect(old(mem[..]), cs, i, part, startAddress_, endAddress_, mem[..], index_.Items(), chunks)
      ensures out == Done && Survives(cs, i, part) ==> Valid()
      ensures out == Done && Survives(cs, i, part) ==>
                HoleBytes(chunks) == HoleBytes(cs) + if part == None then cs[i].size else 0
    {
      if Survives(cs, i, part) { LeavesBytes(mem[..], cs, startAddress_, endAddress_, ptr, i, part); }
      out := FreeAt(header, size, footer, i, part, ptr, cs);
      if out == Done { Settle(Survives(cs, i, part), Leaves(cs, i, part)); }
    }

    /** Frees what has its header below ptr: chunk i, or a piece of it. A pointer without both magic numbers stops the
        source in an endless loop; freeing a hole or a piece of one again is not noticed, except that a piece with
        another above it in the hole is looked for in the index in vain. */
    method Free(ptr: u32) returns (out: FreeOutcome, ghost i: int, ghost part: Option<Part>)
      requires Valid() && index_.size_ < index_.maxSize_
      requires ptr != 0 && Guarded(mem[..], Sub32(ptr, HEADER)) ==> exists j, p :: Leads(mem[..], chunks, ptr, j, p)
      modifies this, mem, index_, index_.array_
      ensures index_.Valid()
      ensures out == Ignored <==> ptr == 0
      ensures out == Halted <==> ptr != 0 && !Guarded(old(mem[..]), Sub32(ptr, HEADER))
      ensures out == Ignored || out == Halted ==> Valid() && chunks == old(chunks) && mem[..] == old(mem[..])
      ensures out != Ignored && out != Halted ==>
                Leads(old(mem[..]), old(chunks), ptr, i, part) && out == OutcomeAt(old(chunks), i, part)
      ensures out == Stuck <==> out != Ignored && out != Halted && part.Some? && part.value.End() < old(chunks)[i].End()
      ensures out == PageFault <==> out != Ignored && out != Halted && out != Stuck && i == |old(chunks)| - 1
      ensures HEADER <= ptr && FooterOf(old(mem[..]), ptr) + 4 <= WORLD ==>
                (out == Halted <==> Get32(old(mem[..]), ptr - HEADER) != MAGIC
                                    || Get32(old(mem[..]), FooterOf(old(mem[..]), ptr)) != MAGIC)
      ensures out == Done ==>
                Effect(old(mem[..]), old(chunks), i, part, startAddress_, endAddress_, mem[..], index_.Items(), chunks)
      ensures out == Done ==> chunks == Leaves(old(chunks), i, part)
      ensures out == Done && Survives(old(chunks), i, part) ==> Valid()
      ensures out == Done && Survives(old(chunks), i, part) ==>
                HoleBytes(chunks) == HoleBytes(old(chunks)) + if part == None then old(chunks)[i].size else 0
    {
      if HEADER <= ptr { GuardedIff(mem[..], ptr); }
      if ptr == 0 { return Ignored, -1, None; }
      var header := Sub32(ptr, HEADER);
      var ok, size, footer := ReadGuards(mem, header);
      if !ok { return Halted, -1, None; }
      i, part :| Leads(mem[..], chunks, ptr, i, part);
      out := FreeFound(header, size, footer, i, part, ptr, chunks);
    }
  }
}
