/**
  What a free writes into memory and what it makes of the heap: the merges with
  the chunks on both sides and the index afterwards (source/kernel_heap.cpp:147-214).
 */
module HeapMerging {
  import opened Bytes
  import opened HeapLayout
  import opened OrderedArrays

  /** Both magic numbers are where a header at this address says they are. */
  predicate Guarded(m: seq<byte>, header: u32) {
    && header + HEADER <= |m| && Get32(m, header) == MAGIC
    && var footer := Sub32(Add32(header, Get32(m, header + 8)), FOOTER);
       footer + 4 <= |m| && Get32(m, footer) == MAGIC
  }

  /** Every chunk has a footer, except perhaps the last. */
  lemma {:induction false} ChunkGuarded(m: seq<byte>, cs: seq<Chunk>, lo: int, hi: int, i: nat)
    requires WellFormed(cs, lo, hi) && i < |cs| - 1 && InMemory(m, cs[i]) && |m| == WORLD
    ensures Guarded(m, cs[i].addr)
  {
    Span(cs, lo, hi, i, i);
    assert FootOk(cs[i], i == |cs| - 1);
  }

  /** The two words that a left merge writes: the block's footer pointer and the size at the header it names. */
  predicate LeftMerged(m0: seq<byte>, m: seq<byte>, header: u32, footer: u32, size: u32) {
    && |m0| == |m| == WORLD && footer + FOOTER <= WORLD && header + HEADER <= WORLD
    && Get32(m, footer + 4) == header
    && Get32(m, header + 8) == Add32(Get32(m0, header + 8), size)
    && forall k :: 0 <= k < WORLD && !(footer + 4 <= k < footer + 8) && !(header + 8 <= k < header + 12) ==>
         m[k] == m0[k]
  }

  /** What the left merge does to memory, and the header that stands for the result. */
  predicate LeftStep(m1: seq<byte>, m2: seq<byte>, cs: seq<Chunk>, i: nat, merged: u32)
    requires i < |cs|
  {
    if LeftHole(cs, i)
    then FOOTER <= cs[i].End() && cs[i - 1].foot == Link(merged)
         && LeftMerged(m1, m2, merged, Word(cs[i].End() - FOOTER), cs[i].size)
    else merged == cs[i].addr && m2 == m1
  }

  /** What the right merge does to memory. */
  predicate RightStep(m2: seq<byte>, m3: seq<byte>, above: Chunk, merged: u32) {
    if above.hole
    then merged + HEADER <= WORLD == |m2| == |m3| && Get32(m3, merged + 8) == Add32(Get32(m2, merged + 8), above.size)
         && SameOutside(m2, m3, merged + 8, merged + HEADER)
    else m3 == m2
  }

  // ---------- The effect of a free ----------

  /** Freeing block i has written the merged hole's size, the flag in its own header and the link in its own footer,
      which names the merged hole, and nothing else. */
  predicate Settled(m0: seq<byte>, m: seq<byte>, cs: seq<Chunk>, i: nat)
    requires i < |cs|
  {
    && SameOutside(m0, m, cs[MergeLo(cs, i)].addr, cs[MergeHi(cs, i) - 1].End())
    && FooterAt(m, cs[i].End() - FOOTER, cs[MergeLo(cs, i)].addr)
    && (LeftHole(cs, i) ==>
          && HeaderAt(m, cs[i].addr, true, cs[i].size)
          && Agree(m0, m, cs[i - 1].addr, cs[i - 1].addr + 8) && Agree(m0, m, cs[i - 1].addr + HEADER, cs[i - 1].End()))
    && (RightHole(cs, i) ==> Agree(m0, m, cs[i + 1].addr, cs[i + 1].End()))
  }

  /** What a free that returns has done with chunk i: a block becomes a hole, and the result is a heap exactly
      when it was a block and the hole before it had its own footer. */
  ghost predicate FreeEffect(m0: seq<byte>, cs: seq<Chunk>, i: int, lo: int, hi: int,
                             m: seq<byte>, index: seq<int>, cs': seq<Chunk>)
  {
    && 0 <= i < |cs|
    && (IsBlock(cs, i) && !StaleLeft(cs, i) ==>
          cs' == Freed(cs, i) && HeapInv(m, index, lo, hi, cs') && Settled(m0, m, cs, i))
    && (Explained(m, index, lo, hi) <==> IsBlock(cs, i) && !StaleLeft(cs, i))
    && (forall j :: IsBlock(cs, j) && j != i ==> Agree(m0, m, cs[j].addr, cs[j].End()))
  }

  // ---------- What a free meets ----------

  /** A piece to be freed: its place and length, the header that the footer below it names (none for the heap's first
      chunk) and whether that one is marked as a hole, and the same of the header above it, with its size. */
  datatype Site = Site(addr: u32, size: u32, below: u32, joins: bool, right: bool, above: u32) {
    function End(): int { addr + size }

    /** The header that grows. */
    function Header(): u32 { if joins then below else addr }
  }

  predicate SiteAt(m: seq<byte>, s: Site, lo: int, hi: int) {
    && |m| == WORLD && lo <= s.addr && OVERHEAD <= s.size && s.End() <= hi <= WORLD
    && (if s.addr == lo then !s.joins else BelowAt(m, s.addr, s.below, s.joins))
    && (s.End() < hi ==> HeaderAt(m, s.End(), s.right, s.above))
  }

  /** The footer below address a names a header, marked as a hole or not. */
  predicate BelowAt(m: seq<byte>, a: int, below: u32, hole: bool) {
    FooterAt(m, a - FOOTER, below) && below + HEADER <= a && m[below + 4] == (if hole then 1 else 0)
  }

  /** Memory before the merges, between them and after them. */
  predicate SiteMerged(m1: seq<byte>, m2: seq<byte>, m3: seq<byte>, s: Site) {
    && (if s.joins then LeftMerged(m1, m2, s.below, Word(s.End() - FOOTER), s.size) else m2 == m1)
    && (if s.right then HeaderGrown(m2, m3, s.Header(), s.above) else m3 == m2)
  }

  /** The size at a header has grown. */
  predicate HeaderGrown(m2: seq<byte>, m3: seq<byte>, header: u32, size: u32) {
    && header + HEADER <= WORLD == |m2| == |m3| && Get32(m3, header + 8) == Add32(Get32(m2, header + 8), size)
    && SameOutside(m2, m3, header + 8, header + HEADER)
  }

  /** What chunk i of a heap is to a free. */
  function ChunkSite(cs: seq<Chunk>, i: nat): Site
    requires i < |cs|
  {
    Site(cs[i].addr, cs[i].size, if 0 < i && cs[i - 1].foot.Link? then Word(cs[i - 1].foot.header) else 0,
         LeftHole(cs, i), RightHole(cs, i), if i < |cs| - 1 then cs[i + 1].size else 0)
  }

  /** The footer of a chunk that has one names a header in the chunk, marked as a hole exactly if the chunk is one. */
  lemma {:induction false} FooterNames(m: seq<byte>, c: Chunk)
    requires InMemory(m, c) && FootOk(c, false) && OVERHEAD <= c.size && c.End() <= WORLD == |m|
    ensures c.foot.Link? && BelowAt(m, c.End(), Word(c.foot.header), c.hole)
  {
  }

  lemma {:induction false} ChunkSiteAt(m0: seq<byte>, m1: seq<byte>, cs: seq<Chunk>, lo: int, hi: int, i: nat)
    requires WellFormed(cs, lo, hi) && i < |cs| && ChunkMarked(m0, m1, cs, i)
    ensures SiteAt(m1, ChunkSite(cs, i), lo, hi)
  {
    Inside(cs, lo, hi, i);
    assert |m1| == WORLD && OVERHEAD <= cs[i].size;
    if 0 < i {
      Ordered(cs, lo, hi, 0, i);
      Span(cs, lo, hi, i - 1, i - 1);
      assert FootOk(cs[i - 1], false) && InMemory(m1, cs[i - 1]) && cs[i - 1].End() == cs[i].addr;
      FooterNames(m1, cs[i - 1]);
    }
    if i < |cs| - 1 {
      assert InMemory(m1, cs[i + 1]) && cs[i].End() == cs[i + 1].addr;
    } else {
      assert cs[i].End() == hi;
    }
  }

  lemma {:induction false} ChunkSteps(m1: seq<byte>, m2: seq<byte>, m3: seq<byte>, cs: seq<Chunk>, lo: int, hi: int,
                                      i: nat)
    requires WellFormed(cs, lo, hi) && i < |cs| - 1 && SiteMerged(m1, m2, m3, ChunkSite(cs, i))
    ensures var merged := ChunkSite(cs, i).Header();
      LeftStep(m1, m2, cs, i, merged) && RightStep(m2, m3, cs[i + 1], merged) && merged + HEADER <= WORLD
  {
    Span(cs, lo, hi, i, i);
    if 0 < i {
      Span(cs, lo, hi, i - 1, i - 1);
      assert FootOk(cs[i - 1], false);
    }
  }

  lemma {:induction false} MergingIs(m1: seq<byte>, m2: seq<byte>, m3: seq<byte>, cs: seq<Chunk>, lo: int, hi: int,
                                     i: nat, merged: u32)
    requires WellFormed(cs, lo, hi) && IsBlock(cs, i) && i < |cs| - 1 && |m1| == WORLD
    requires InMemory(m1, Marked(cs[i])) && InMemory(m1, cs[i + 1]) && (0 < i ==> InMemory(m1, cs[i - 1]))
    requires FOOTER <= cs[i].End() <= WORLD && merged + HEADER <= WORLD
    requires LeftStep(m1, m2, cs, i, merged) && RightStep(m2, m3, cs[i + 1], merged)
    ensures Merging(m1, m2, m3, LeftOf(cs, i), cs[i], cs[i + 1], LeftHole(cs, i))
  {
    Neighbours(cs, lo, hi, i);
  }

  /** The hole made of a left hole and the freed block. */
  function LeftJoined(left: Chunk, c: Chunk): Chunk {
    Chunk(left.addr, Word(left.size + c.size), true, Link(left.addr))
  }

  lemma {:induction false} LeftTight(m1: seq<byte>, m2: seq<byte>, left: Chunk, c: Chunk)
    requires left.hole && left.foot == Link(left.addr) && InMemory(m1, left)
    requires c.foot == Link(c.addr) && InMemory(m1, Marked(c))
    requires left.size >= OVERHEAD && c.size >= OVERHEAD && c.addr == left.End() && c.End() <= WORLD && 0 < left.addr
    requires LeftMerged(m1, m2, left.addr, c.End() - FOOTER, c.size)
    ensures InMemory(m2, LeftJoined(left, c)) && SameOutside(m1, m2, left.addr, c.End())
  {
  }

  lemma {:induction false} LeftStale(m1: seq<byte>, m2: seq<byte>, left: Chunk, c: Chunk)
    requires left.hole && left.foot.Link? && FootOk(left, false) && left.foot.header != left.addr
    requires 0 <= left.foot.header
    requires InMemory(m1, left) && HeaderAt(m1, c.addr, true, c.size)
    requires left.size >= OVERHEAD && c.size >= OVERHEAD && c.addr == left.End() && c.End() <= WORLD
    requires LeftMerged(m1, m2, left.foot.header, c.End() - FOOTER, c.size)
    ensures HeaderAt(m2, left.addr, true, left.size) && HeaderAt(m2, c.addr, true, c.size)
    ensures SameOutside(m1, m2, left.addr, c.End())
  {
  }

  lemma {:induction false} RightJoin(m2: seq<byte>, m3: seq<byte>, h: Chunk, right: Chunk)
    requires h.hole && right.hole && InMemory(m2, h) && InMemory(m2, right)
    requires h.size >= OVERHEAD && right.size >= OVERHEAD && right.addr == h.End() && right.End() <= WORLD == |m2|
    requires 0 < h.addr
    requires right.foot.Link? ==> right.addr <= right.foot.header
    requires |m3| == |m2| && Get32(m3, h.addr + 8) == Add32(h.size, right.size)
    requires SameOutside(m2, m3, h.addr + 8, h.addr + HEADER)
    ensures InMemory(m3, Chunk(h.addr, Word(h.size + right.size), true, right.foot))
  {
    assert Get32(m3, h.addr) == Get32(m2, h.addr);
    if right.foot.Link? {
      assert FooterAt(m3, right.End() - FOOTER, right.foot.header);
    }
  }

  /** A block as it stands once its header says hole. */
  function Marked(c: Chunk): Chunk {
    c.(hole := true)
  }

  /** Chunk i now says hole, and the others are as they were. */
  predicate ChunkMarked(m0: seq<byte>, m1: seq<byte>, cs: seq<Chunk>, i: nat)
    requires i < |cs|
  {
    && |m0| == WORLD && InMemory(m1, Marked(cs[i])) && SameOutside(m0, m1, cs[i].addr, cs[i].addr + HEADER)
    && (cs[i].hole ==> m1 == m0)
    && forall k :: 0 <= k < |cs| && k != i ==> InMemory(m1, cs[k])
  }

  lemma {:induction false} BlockMarked(m0: seq<byte>, m1: seq<byte>, cs: seq<Chunk>, lo: int, hi: int, i: nat)
    requires WellFormed(cs, lo, hi) && |m0| == |m1| == WORLD && i < |cs| && cs[i].End() <= WORLD
    requires forall k :: 0 <= k < |cs| ==> InMemory(m0, cs[k])
    requires m1 == m0[cs[i].addr + 4 := 1]
    ensures ChunkMarked(m0, m1, cs, i)
  {
    assert FootOk(cs[i], i == |cs| - 1) && cs[i].size >= OVERHEAD;
    if cs[i].hole { assert m1 == m0; } else { HeaderMarked(m0, m1, cs[i]); }
    forall k | 0 <= k < |cs| && k != i ensures InMemory(m1, cs[k]) {
      OtherKept(m0, m1, cs, lo, hi, i, k);
    }
  }

  lemma {:induction false} HeaderMarked(m0: seq<byte>, m1: seq<byte>, c: Chunk)
    requires |m0| == WORLD && c.size >= OVERHEAD && c.End() <= WORLD && c.foot == Link(c.addr)
    requires InMemory(m0, c) && m1 == m0[c.addr + 4 := 1]
    ensures InMemory(m1, Marked(c)) && SameOutside(m0, m1, c.addr, c.addr + HEADER)
  {
  }

  lemma {:induction false} OtherKept(m0: seq<byte>, m1: seq<byte>, cs: seq<Chunk>, lo: int, hi: int, i: nat, k: nat)
    requires WellFormed(cs, lo, hi) && i < |cs| && k < |cs| && k != i
    requires InMemory(m0, cs[k]) && SameOutside(m0, m1, cs[i].addr, cs[i].addr + HEADER)
    ensures InMemory(m1, cs[k])
  {
    if k < i { Ordered(cs, lo, hi, k, i); } else { Ordered(cs, lo, hi, i, k); }
    InMemoryFrame(m0, m1, cs[k], k == |cs| - 1);
  }

  /** Chunk c between two others, and the memory after each of the two merges. */
  predicate Merging(m1: seq<byte>, m2: seq<byte>, m3: seq<byte>, left: Chunk, c: Chunk, right: Chunk, joinLeft: bool) {
    && |m1| == |m2| == |m3| == WORLD
    && c.foot == Link(c.addr) && c.size >= OVERHEAD && 0 < c.addr && InMemory(m1, Marked(c))
    && right.addr == c.End() && right.size >= OVERHEAD && right.End() <= WORLD && InMemory(m1, right)
    && FootOk(right, true)
    && (if joinLeft
        then && left.hole && left.foot.Link? && FootOk(left, false) && left.size >= OVERHEAD
             && left.End() == c.addr && 0 < left.addr && InMemory(m1, left)
             && LeftMerged(m1, m2, Word(left.foot.header), Word(c.End() - FOOTER), c.size)
        else m2 == m1)
    && (if right.hole
        then var h := if joinLeft then left.foot.header else c.addr;
             && 0 <= h && h + HEADER <= WORLD
             && Get32(m3, h + 8) == Add32(Get32(m2, h + 8), right.size)
             && SameOutside(m2, m3, h + 8, h + HEADER)
        else m3 == m2)
  }

  function Joined(left: Chunk, c: Chunk, joinLeft: bool): Chunk {
    if joinLeft then LeftJoined(left, c) else Marked(c)
  }

  lemma {:induction false} AfterLeft(m1: seq<byte>, m2: seq<byte>, m3: seq<byte>, left: Chunk, c: Chunk, right: Chunk,
                                     joinLeft: bool)
    requires Merging(m1, m2, m3, left, c, right, joinLeft) && (joinLeft ==> left.foot == Link(left.addr))
    ensures var h := Joined(left, c, joinLeft);
      InMemory(m2, h) && h.End() == c.End() && SameOutside(m1, m2, h.addr, h.End()) && InMemory(m2, right)
  {
    if joinLeft { LeftTight(m1, m2, left, c); }
    InMemoryFrame(m1, m2, right, true);
  }

  /** What a right merge makes of hole h. */
  function RightJoined(h: Chunk, right: Chunk): Chunk {
    if right.hole then Chunk(h.addr, Word(right.End() - h.addr), true, right.foot) else h
  }

  lemma {:induction false} RightStepDone(m1: seq<byte>, m2: seq<byte>, m3: seq<byte>, h: Chunk, right: Chunk)
    requires |m2| == WORLD && h.hole && InMemory(m2, h) && InMemory(m2, right) && FootOk(right, true)
    requires right.size >= OVERHEAD && right.addr == h.End() && right.End() <= WORLD && h.size >= OVERHEAD && 0 < h.addr
    requires SameOutside(m1, m2, h.addr, h.End())
    requires if right.hole
      then |m3| == WORLD && Get32(m3, h.addr + 8) == Add32(Get32(m2, h.addr + 8), right.size)
           && SameOutside(m2, m3, h.addr + 8, h.addr + HEADER)
      else m3 == m2
    ensures InMemory(m3, RightJoined(h, right))
    ensures SameOutside(m1, m3, h.addr, if right.hole then right.End() else h.End())
  {
    if right.hole { RightJoin(m2, m3, h, right); }
  }

  lemma {:induction false} JoinedFacts(m1: seq<byte>, m2: seq<byte>, m3: seq<byte>, left: Chunk, c: Chunk, right: Chunk,
                                       joinLeft: bool)
    requires Merging(m1, m2, m3, left, c, right, joinLeft) && (joinLeft ==> left.foot == Link(left.addr))
    ensures var h := Joined(left, c, joinLeft);
      && h.hole && h.size >= OVERHEAD && 0 < h.addr && right.addr == h.End() == c.End() && right.End() <= WORLD
      && FootOk(right, true) && right.size >= OVERHEAD && |m2| == |m3| == WORLD
      && (right.hole ==> Get32(m3, h.addr + 8) == Add32(Get32(m2, h.addr + 8), right.size)
                         && SameOutside(m2, m3, h.addr + 8, h.addr + HEADER))
      && (!right.hole ==> m3 == m2)
  {
  }

  /** The hole that both merges make. */
  function BothJoined(left: Chunk, c: Chunk, right: Chunk, joinLeft: bool): Chunk {
    RightJoined(Joined(left, c, joinLeft), right)
  }

  /** Away from a stale neighbour, the writes leave the merged hole in memory. */
  lemma {:induction false} AfterRight(m1: seq<byte>, m2: seq<byte>, m3: seq<byte>, left: Chunk, c: Chunk, right: Chunk,
                                      joinLeft: bool)
    requires Merging(m1, m2, m3, left, c, right, joinLeft) && (joinLeft ==> left.foot == Link(left.addr))
    ensures InMemory(m3, BothJoined(left, c, right, joinLeft))
    ensures SameOutside(m1, m3, Joined(left, c, joinLeft).addr, if right.hole then right.End() else c.End())
  {
    var h := Joined(left, c, joinLeft);
    AfterLeft(m1, m2, m3, left, c, right, joinLeft);
    JoinedFacts(m1, m2, m3, left, c, right, joinLeft);
    RightStepDone(m1, m2, m3, h, right);
  }

  /** Next to a stale neighbour, both headers stay where they were and the freed block's now says hole. */
  lemma {:induction false} AfterStale(m1: seq<byte>, m2: seq<byte>, m3: seq<byte>, left: Chunk, c: Chunk, right: Chunk)
    requires Merging(m1, m2, m3, left, c, right, true) && left.foot != Link(left.addr)
    ensures HeaderAt(m3, left.addr, true, left.size) && HeaderAt(m3, c.addr, true, c.size)
    ensures SameOutside(m1, m3, left.addr, c.End())
  {
    LeftStale(m1, m2, left, c);
  }

  /** The items without the entry x, if it is to go. */
  ghost predicate Unlisted(items: seq<int>, x: int, gone: bool, rest: seq<int>) {
    if gone then exists k :: 0 <= k < |items| && items[k] == x && rest == Remove(items, k) else rest == items
  }

  /** The index without the right hole's entry, if there is a right hole. */
  ghost predicate RightUnlisted(cs: seq<Chunk>, i: nat, index: seq<int>)
    requires i < |cs| - 1
  {
    Unlisted(Holes(cs), cs[i + 1].addr, cs[i + 1].hole, index)
  }

  /** Where the holes around block i stand in the index. */
  lemma {:induction false} HolesNextTo(cs: seq<Chunk>, i: nat)
    requires IsBlock(cs, i) && i < |cs| - 1
    ensures Holes(cs) == Holes(cs[..i]) + (if cs[i + 1].hole then [cs[i + 1].addr as int] else []) + Holes(cs[i + 2..])
    ensures Holes(cs[i + 1..]) == (if cs[i + 1].hole then [cs[i + 1].addr as int] else []) + Holes(cs[i + 2..])
  {
    HolesSplit(cs, i);
    HolesSplit(cs[i + 1..], 0);
    assert cs[i + 1..][1..] == cs[i + 2..] && cs[i + 1..][..0] == [];
  }

  lemma {:induction false} LeftHoleLast(cs: seq<Chunk>, i: nat)
    requires LeftHole(cs, i)
    ensures Holes(cs[..i]) == Holes(cs[..i - 1]) + [cs[i - 1].addr as int]
  {
    HolesSplit(cs[..i], i - 1);
    assert cs[..i][..i - 1] == cs[..i - 1] && cs[..i][i..] == [];
  }

  lemma {:induction false} HolesOnSides(cs: seq<Chunk>, lo: int, hi: int, i: nat)
    requires Tiled(cs, lo, hi) && i < |cs| - 1
    ensures Above(Holes(cs[..i]), cs[i].addr) && cs[i].addr < cs[i + 1].addr
    ensures Below(cs[i + 1].addr, Holes(cs[i + 2..]))
  {
    TiledSplit(cs, i, lo, hi);
    TiledSplit(cs, i + 1, lo, hi);
    HolesInOrder(cs[..i], lo, cs[i].addr);
    HolesInOrder(cs[i + 2..], cs[i + 1].End(), hi);
  }

  lemma {:induction false} RemoveMiddle(before: seq<int>, x: int, after: seq<int>, index: seq<int>, k: nat)
    requires Above(before, x) && Below(x, after)
    requires k < |before + [x] + after| && (before + [x] + after)[k] == x && index == Remove(before + [x] + after, k)
    ensures index == before + after
  {
    var s := before + [x] + after;
    forall j | 0 <= j < |s| && j != |before| ensures s[j] != x {
      if j < |before| { assert s[j] == before[j]; } else { assert s[j] == after[j - |before| - 1]; }
    }
  }

  lemma {:induction false} NotAround(before: seq<int>, x: int, after: seq<int>)
    requires Above(before, x) && Below(x, after)
    ensures x !in before + after
  {
  }

  lemma {:induction false} RestOf(before: seq<int>, x: int, after: seq<int>, listed: bool, items: seq<int>,
                                  index: seq<int>)
    requires Above(before, x) && Below(x, after) && items == before + (if listed then [x] else []) + after
    requires Unlisted(items, x, listed, index)
    ensures index == before + after
  {
    if listed {
      var k :| 0 <= k < |items| && items[k] == x && index == Remove(items, k);
      RemoveMiddle(before, x, after, index, k);
    }
  }

  lemma {:induction false} RestIs(cs: seq<Chunk>, lo: int, hi: int, i: nat, index: seq<int>)
    requires Tiled(cs, lo, hi) && IsBlock(cs, i) && i < |cs| - 1 && RightUnlisted(cs, i, index)
    ensures index == Holes(cs[..i]) + Holes(cs[i + 2..])
    ensures cs[i].addr as int !in index && cs[i + 1].addr as int !in index
  {
    var before, a, x, after := Holes(cs[..i]), cs[i].addr as int, cs[i + 1].addr as int, Holes(cs[i + 2..]);
    HolesNextTo(cs, i);
    HolesOnSides(cs, lo, hi, i);
    NotAround(before, a, after);
    NotAround(before, x, after);
    RestOf(before, x, after, cs[i + 1].hole, Holes(cs), index);
  }

  /** The index after a free, computed from the index before it. */
  lemma {:induction false} FreedIndex(cs: seq<Chunk>, lo: int, hi: int, i: nat, index: seq<int>)
    requires WellFormed(cs, lo, hi) && IsBlock(cs, i) && i < |cs| - 1 && RightUnlisted(cs, i, index)
    ensures (if LeftHole(cs, i) then index else Insert(index, cs[i].addr)) == Holes(Freed(cs, i))
    ensures cs[i].addr as int !in index && cs[i + 1].addr as int !in index
  {
    RestIs(cs, lo, hi, i, index);
    HolesNextTo(cs, i);
    FreedHoles(cs, lo, hi, i);
    var before, after := Holes(cs[..i]), Holes(cs[i + 2..]);
    assert Holes(cs[MergeHi(cs, i)..]) == after;
    if LeftHole(cs, i) {
      LeftHoleLast(cs, i);
      assert Holes(Freed(cs, i)) == before + after;
    } else {
      HolesOnSides(cs, lo, hi, i);
      InsertBetween(before, cs[i].addr, after);
      assert Holes(Freed(cs, i)) == before + [cs[i].addr as int] + after;
    }
  }

  function LeftOf(cs: seq<Chunk>, i: nat): Chunk
    requires i < |cs|
  {
    if 0 < i then cs[i - 1] else cs[i]
  }

  /** What the tiling says about a block and the chunks on both sides of it. */
  lemma {:induction false} Neighbours(cs: seq<Chunk>, lo: int, hi: int, i: nat)
    requires WellFormed(cs, lo, hi) && IsBlock(cs, i) && i < |cs| - 1
    ensures var left, c, right := LeftOf(cs, i), cs[i], cs[i + 1];
      && c.foot == Link(c.addr) && c.size >= OVERHEAD && 0 < c.addr
      && right.addr == c.End() && right.size >= OVERHEAD && right.End() <= WORLD && FootOk(right, true)
      && (LeftHole(cs, i) ==> left.foot.Link? && FootOk(left, false) && left.size >= OVERHEAD
                              && left.End() == c.addr && 0 < left.addr)
  {
    Span(cs, lo, hi, i, i + 1);
    Span(cs, lo, hi, i + 1, i + 1);
    assert FootOk(cs[i], false) && FootOk(cs[i + 1], i + 1 == |cs| - 1);
    if 0 < i {
      Span(cs, lo, hi, i - 1, i);
      assert FootOk(cs[i - 1], false);
    }
  }

  lemma {:induction false} ChunkAbove(cs: seq<Chunk>, lo: int, hi: int, i: nat)
    requires WellFormed(cs, lo, hi) && i < |cs| - 1
    ensures cs[i + 1].addr == cs[i].End() && cs[i].size >= OVERHEAD && cs[i + 1].addr < WORLD
    ensures cs[i].hole ==> !LeftHole(cs, i) && !cs[i + 1].hole
  {
    Inside(cs, lo, hi, i + 1);
    HolesApart(cs, i);
    if 0 < i { HolesApart(cs, i - 1); }
  }

  lemma {:induction false} BlockUnlisted(cs: seq<Chunk>, lo: int, hi: int, i: nat)
    requires Tiled(cs, lo, hi) && IsBlock(cs, i)
    ensures cs[i].addr as int !in Holes(cs)
  {
    forall k | 0 <= k < |Holes(cs)| ensures Holes(cs)[k] != cs[i].addr {
      var j := HoleOfIndex(cs, k);
      if j < i { Ordered(cs, lo, hi, j, i); } else { Ordered(cs, lo, hi, i, j); }
    }
  }

  /** A hole freed again is listed twice, and no heap has such an index. */
  lemma {:induction false} FreedAgain(m0: seq<byte>, m: seq<byte>, cs: seq<Chunk>, lo: int, hi: int, i: nat,
                                      index: seq<int>)
    requires WellFormed(cs, lo, hi) && i < |cs| && cs[i].hole && m == m0
    requires index == Insert(Holes(cs), cs[i].addr)
    ensures FreeEffect(m0, cs, i, lo, hi, m, index, Freed(cs, i))
  {
    var s, x := Holes(cs), cs[i].addr as int;
    var r := Rank(s, x);
    var k := IndexOfHole(cs, i);
    HolesInOrder(cs, lo, hi);
    assert s[r] == x && index[r] == x && index[r + 1] == s[r];
    if Explained(m, index, lo, hi) {
      var cs' :| HeapInv(m, index, lo, hi, cs');
      HolesInOrder(cs', lo, hi);
    }
  }

  /** What both merges have made of memory around chunk i. */
  predicate MemoryMerged(m0: seq<byte>, m3: seq<byte>, cs: seq<Chunk>, i: nat)
    requires i < |cs| - 1
  {
    if cs[i].hole then m3 == m0
    else if StaleLeft(cs, i) then
      && SameOutside(m0, m3, cs[i - 1].addr, cs[i].End())
      && HeaderAt(m3, cs[i - 1].addr, true, cs[i - 1].size) && HeaderAt(m3, cs[i].addr, true, cs[i].size)
    else InMemory(m3, Merged(cs, i)) && Settled(m0, m3, cs, i)
  }

  /** A left merge and a right merge write the size at the left hole's header and what names it, no more. */
  lemma {:induction false} SettledLeft(m0: seq<byte>, m1: seq<byte>, m2: seq<byte>, m3: seq<byte>,
                                       left: Chunk, c: Chunk, right: Chunk)
    requires SameOutside(m0, m1, c.addr, c.addr + HEADER) && Merging(m1, m2, m3, left, c, right, true)
    requires left.foot == Link(left.addr)
    ensures HeaderAt(m3, c.addr, true, c.size) && FooterAt(m3, c.End() - FOOTER, left.addr)
    ensures Agree(m0, m3, left.addr, left.addr + 8) && Agree(m0, m3, left.addr + HEADER, left.End())
    ensures Agree(m0, m3, right.addr, right.End())
  {
    LeftOnly(m1, m2, m3, left, c, right);
    LeftWords(m1, m3, left, c);
  }

  /** Of the memory between the marking and the end, only two words differ. */
  predicate OnlyWords(m1: seq<byte>, m3: seq<byte>, left: Chunk, c: Chunk) {
    && |m1| == |m3| == WORLD && 0 < left.addr && OVERHEAD <= left.size && OVERHEAD <= c.size
    && left.End() == c.addr && c.End() <= WORLD && Get32(m3, c.End() - 4) == left.addr
    && forall k :: 0 <= k < WORLD && !(left.addr + 8 <= k < left.addr + HEADER) && !(c.End() - 4 <= k < c.End()) ==>
         m3[k] == m1[k]
  }

  lemma {:induction false} LeftOnly(m1: seq<byte>, m2: seq<byte>, m3: seq<byte>, left: Chunk, c: Chunk, right: Chunk)
    requires Merging(m1, m2, m3, left, c, right, true) && left.foot == Link(left.addr)
    ensures OnlyWords(m1, m3, left, c)
    ensures HeaderAt(m1, c.addr, true, c.size) && Get32(m1, c.End() - FOOTER) == MAGIC
    ensures right.addr == c.End() && right.End() <= WORLD
  {
    assert Get32(m3, c.End() - 4) == Get32(m2, c.End() - 4);
  }

  lemma {:induction false} LeftWords(m1: seq<byte>, m3: seq<byte>, left: Chunk, c: Chunk)
    requires OnlyWords(m1, m3, left, c) && HeaderAt(m1, c.addr, true, c.size)
    requires Get32(m1, c.End() - FOOTER) == MAGIC
    ensures HeaderAt(m3, c.addr, true, c.size) && FooterAt(m3, c.End() - FOOTER, left.addr)
  {
    assert Get32(m3, c.addr) == Get32(m1, c.addr) && Get32(m3, c.addr + 8) == Get32(m1, c.addr + 8);
    assert Get32(m3, c.End() - FOOTER) == Get32(m1, c.End() - FOOTER);
  }

  /** Without a left hole it is the block's own header that grows. */
  lemma {:induction false} SettledAlone(m0: seq<byte>, m1: seq<byte>, m2: seq<byte>, m3: seq<byte>,
                                        left: Chunk, c: Chunk, right: Chunk)
    requires SameOutside(m0, m1, c.addr, c.addr + HEADER) && Merging(m1, m2, m3, left, c, right, false)
    ensures FooterAt(m3, c.End() - FOOTER, c.addr) && Agree(m0, m3, right.addr, right.End())
  {
    assert Get32(m3, c.End() - FOOTER) == Get32(m1, c.End() - FOOTER);
    assert Get32(m3, c.End() - 4) == Get32(m1, c.End() - 4);
  }

  lemma {:induction false} SettledChunk(m0: seq<byte>, m1: seq<byte>, m2: seq<byte>, m3: seq<byte>,
                                        cs: seq<Chunk>, lo: int, hi: int, i: nat)
    requires WellFormed(cs, lo, hi) && IsBlock(cs, i) && i < |cs| - 1 && !StaleLeft(cs, i)
    requires SameOutside(m0, m1, cs[i].addr, cs[i].addr + HEADER)
    requires Merging(m1, m2, m3, LeftOf(cs, i), cs[i], cs[i + 1], LeftHole(cs, i))
    requires SameOutside(m0, m3, cs[MergeLo(cs, i)].addr, cs[MergeHi(cs, i) - 1].End())
    ensures Settled(m0, m3, cs, i)
  {
    if LeftHole(cs, i) {
      SettledLeft(m0, m1, m2, m3, LeftOf(cs, i), cs[i], cs[i + 1]);
    } else {
      SettledAlone(m0, m1, m2, m3, LeftOf(cs, i), cs[i], cs[i + 1]);
    }
  }

  lemma {:induction false} MergesMemory(m0: seq<byte>, m1: seq<byte>, m2: seq<byte>, m3: seq<byte>,
                                        cs: seq<Chunk>, lo: int, hi: int, i: nat, merged: u32)
    requires WellFormed(cs, lo, hi) && i < |cs| - 1 && ChunkMarked(m0, m1, cs, i) && merged + HEADER <= WORLD
    requires LeftStep(m1, m2, cs, i, merged) && RightStep(m2, m3, cs[i + 1], merged)
    ensures MemoryMerged(m0, m3, cs, i)
  {
    ChunkAbove(cs, lo, hi, i);
    if !cs[i].hole {
      Neighbours(cs, lo, hi, i);
      MergingIs(m1, m2, m3, cs, lo, hi, i, merged);
      if StaleLeft(cs, i) {
        AfterStale(m1, m2, m3, cs[i - 1], cs[i], cs[i + 1]);
        OutsideBoth(m0, m1, m3, cs[i].addr, cs[i].addr + HEADER, cs[i - 1].addr, cs[i].End());
      } else {
        MergedInMemory(m0, m1, m2, m3, cs, lo, hi, i);
        SettledChunk(m0, m1, m2, m3, cs, lo, hi, i);
      }
    }
  }

  /** Memory and index together: a heap again unless a hole was freed or the left neighbour's footer was stale. */
  lemma {:induction false} FreedChunk(m0: seq<byte>, m3: seq<byte>, cs: seq<Chunk>, lo: int, hi: int, i: nat,
                                      rest: seq<int>, index: seq<int>)
    requires WellFormed(cs, lo, hi) && i < |cs| - 1 && MemoryMerged(m0, m3, cs, i)
    requires forall k :: 0 <= k < |cs| ==> InMemory(m0, cs[k])
    requires RightUnlisted(cs, i, rest) && index == if LeftHole(cs, i) then rest else Insert(rest, cs[i].addr)
    ensures FreeEffect(m0, cs, i, lo, hi, m3, index, Freed(cs, i))
  {
    if cs[i].hole {
      ChunkAbove(cs, lo, hi, i);
      FreedAgain(m0, m3, cs, lo, hi, i, index);
    } else {
      FreedIndex(cs, lo, hi, i, rest);
      if StaleLeft(cs, i) {
        StaleIsLost(m0, m3, cs, lo, hi, i, index);
      } else {
        FreedInv(m0, m3, cs, lo, hi, i);
        assert HeapInv(m3, index, lo, hi, Freed(cs, i));
      }
      OthersKept(m0, m3, cs, lo, hi, i);
    }
  }

  lemma {:induction false} FreedInv(m0: seq<byte>, m: seq<byte>, cs: seq<Chunk>, lo: int, hi: int, i: nat)
    requires WellFormed(cs, lo, hi) && IsBlock(cs, i) && InMemory(m, Merged(cs, i))
    requires forall k :: 0 <= k < |cs| ==> InMemory(m0, cs[k])
    requires SameOutside(m0, m, cs[MergeLo(cs, i)].addr, cs[MergeHi(cs, i) - 1].End())
    ensures HeapInv(m, Holes(Freed(cs, i)), lo, hi, Freed(cs, i))
  {
    ReplaceInMemory(cs, MergeLo(cs, i), MergeHi(cs, i), [Merged(cs, i)], lo, hi, m0, m);
    FreedWellFormed(cs, lo, hi, i);
  }

  lemma {:induction false} MergedIs(cs: seq<Chunk>, lo: int, hi: int, i: nat)
    requires WellFormed(cs, lo, hi) && IsBlock(cs, i) && i < |cs| - 1 && !StaleLeft(cs, i)
    ensures Merged(cs, i) == BothJoined(LeftOf(cs, i), cs[i], cs[i + 1], LeftHole(cs, i))
    ensures Joined(LeftOf(cs, i), cs[i], LeftHole(cs, i)).addr == cs[MergeLo(cs, i)].addr <= cs[i].addr
    ensures cs[MergeHi(cs, i) - 1].End() == (if cs[i + 1].hole then cs[i + 1].End() else cs[i].End()) >= cs[i].End()
  {
    Neighbours(cs, lo, hi, i);
    if 0 < i { Span(cs, lo, hi, i - 1, i); }
  }

  /** Away from a stale neighbour, the merged hole is in memory and nothing outside it has changed. */
  lemma {:induction false} MergedInMemory(m0: seq<byte>, m1: seq<byte>, m2: seq<byte>, m3: seq<byte>, cs: seq<Chunk>,
                                          lo: int, hi: int, i: nat)
    requires WellFormed(cs, lo, hi) && IsBlock(cs, i) && i < |cs| - 1 && !StaleLeft(cs, i)
    requires SameOutside(m0, m1, cs[i].addr, cs[i].End())
    requires Merging(m1, m2, m3, LeftOf(cs, i), cs[i], cs[i + 1], LeftHole(cs, i))
    ensures InMemory(m3, Merged(cs, i))
    ensures SameOutside(m0, m3, cs[MergeLo(cs, i)].addr, cs[MergeHi(cs, i) - 1].End())
  {
    MergedIs(cs, lo, hi, i);
    AfterRight(m1, m2, m3, LeftOf(cs, i), cs[i], cs[i + 1], LeftHole(cs, i));
    OutsideBoth(m0, m1, m3, cs[i].addr, cs[i].End(), cs[MergeLo(cs, i)].addr, cs[MergeHi(cs, i) - 1].End());
  }

  lemma {:induction false} OutsideBoth(m0: seq<byte>, m1: seq<byte>, m3: seq<byte>, a: int, b: int, lo: int, hi: int)
    requires SameOutside(m0, m1, a, b) && SameOutside(m1, m3, lo, hi) && lo <= a && b <= hi
    ensures SameOutside(m0, m3, lo, hi)
  {
  }

  /** A left merge writes nothing above the freed block. */
  lemma {:induction false} AboveKept(m1: seq<byte>, m2: seq<byte>, cs: seq<Chunk>, lo: int, hi: int, i: nat,
                                     merged: u32)
    requires WellFormed(cs, lo, hi) && i < |cs| - 1 && |m1| == WORLD && InMemory(m1, cs[i + 1])
    requires LeftStep(m1, m2, cs, i, merged) && merged + HEADER <= cs[i].End() - FOOTER
    ensures InMemory(m2, cs[i + 1])
  {
    Span(cs, lo, hi, i, i + 1);
    InMemoryFrame(m1, m2, cs[i + 1], i + 1 == |cs| - 1);
  }

  lemma {:induction false} HeaderFrame(m: seq<byte>, m': seq<byte>, c: Chunk)
    requires HeaderAt(m, c.addr, c.hole, c.size) && c.size >= OVERHEAD && Agree(m, m', c.addr, c.End())
    ensures HeaderAt(m', c.addr, c.hole, c.size)
  {
  }

  lemma {:induction false} StaleIsLost(m0: seq<byte>, m: seq<byte>, cs: seq<Chunk>, lo: int, hi: int, i: nat,
                                       index: seq<int>)
    requires WellFormed(cs, lo, hi) && IsBlock(cs, i) && LeftHole(cs, i) && cs[i].addr as int !in index
    requires forall k :: 0 <= k < |cs| ==> InMemory(m0, cs[k])
    requires SameOutside(m0, m, cs[i - 1].addr, cs[i].End())
    requires HeaderAt(m, cs[i - 1].addr, true, cs[i - 1].size) && HeaderAt(m, cs[i].addr, true, cs[i].size)
    ensures !Explained(m, index, lo, hi)
  {
    forall k | 0 <= k < i ensures HeaderAt(m, cs[k].addr, cs[k].hole, cs[k].size) {
      if k < i - 1 {
        Ordered(cs, lo, hi, k, i - 1);
        assert InMemory(m0, cs[k]);
        HeaderFrame(m0, m, cs[k]);
      }
    }
    forall cs' ensures !HeapInv(m, index, lo, hi, cs') {
      LeakedIsInvalid(m, index, lo, hi, cs, i, cs');
    }
  }

  /** A free writes only inside the freed block and the holes beside it. */
  lemma {:induction false} OthersKept(m0: seq<byte>, m: seq<byte>, cs: seq<Chunk>, lo: int, hi: int, i: nat)
    requires WellFormed(cs, lo, hi) && IsBlock(cs, i)
    requires SameOutside(m0, m, cs[MergeLo(cs, i)].addr, cs[MergeHi(cs, i) - 1].End())
    ensures forall j :: IsBlock(cs, j) && j != i ==> Agree(m0, m, cs[j].addr, cs[j].End())
  {
    forall j | IsBlock(cs, j) && j != i ensures Agree(m0, m, cs[j].addr, cs[j].End()) {
      if j < i { Ordered(cs, lo, hi, j, MergeLo(cs, i)); } else { Ordered(cs, lo, hi, MergeHi(cs, i) - 1, j); }
    }
  }
}
