/**
  The writes that make chunks in memory: headers, footers, and the up to six of
  them by which `allocate` cuts a hole up, also where they overlap
  (source/kernel_heap.cpp:97-142).
 */
module HeapWrites {
  import opened Bytes
  import opened HeapLayout

  /** Only len bytes from p on were written; what would lie beyond the last address is at the bottom of memory. */
  predicate Wrote(m: seq<byte>, m': seq<byte>, p: int, len: int) {
    |m| == |m'| == WORLD
    && forall k :: 0 <= k < WORLD && !(p <= k < p + len) && !(k < p + len - WORLD) ==> m'[k] == m[k]
  }

  predicate HeaderStep(m: seq<byte>, m': seq<byte>, p: u32, hole: bool, size: u32) {
    Wrote(m, m', p, HEADER) && (p + HEADER <= WORLD ==> HeaderAt(m', p, hole, size))
  }

  predicate FooterStep(m: seq<byte>, m': seq<byte>, p: u32, header: u32) {
    Wrote(m, m', p, FOOTER) && (p + FOOTER <= WORLD ==> FooterAt(m', p, header))
  }

  method WriteHeader(mem: array<byte>, p: u32, hole: bool, size: u32)
    requires mem.Length == WORLD
    modifies mem
    ensures HeaderStep(old(mem[..]), mem[..], p, hole, size)
  {
    Store32(mem, p, MAGIC);
    mem[Add32(p, 4)] := if hole then 1 else 0;
    Store32(mem, Add32(p, 8), size);
  }

  method WriteFooter(mem: array<byte>, p: u32, header: u32)
    requires mem.Length == WORLD
    modifies mem
    ensures FooterStep(old(mem[..]), mem[..], p, header)
  {
    Store32(mem, p, MAGIC);
    Store32(mem, Add32(p, 4), header);
  }

  // ---------- The writes of allocate ----------

  /** Memory after the front hole's header and footer, the block's header and footer, and the tail hole's header. */
  datatype Writes = Writes(m1: seq<byte>, m2: seq<byte>, m3: seq<byte>, m4: seq<byte>, m5: seq<byte>)

  function FrontFooter(p: Plan): u32 {
    Sub32(p.loc, FOOTER)
  }

  function BlockFooter(p: Plan): u32 {
    Add32(Add32(p.loc, HEADER), p.payload)
  }

  function TailFooter(p: Plan): u32 {
    Sub32(Add32(p.tail, p.tailSize), FOOTER)
  }

  predicate FrontWritten(m0: seq<byte>, w: Writes, a: u32, p: Plan) {
    if p.front > 0 then HeaderStep(m0, w.m1, a, true, p.front) && FooterStep(w.m1, w.m2, FrontFooter(p), a)
    else w.m2 == m0
  }

  predicate BlockWritten(w: Writes, p: Plan) {
    HeaderStep(w.m2, w.m3, p.loc, false, p.size) && FooterStep(w.m3, w.m4, BlockFooter(p), p.loc)
  }

  /** The footer is written only if it lies below the end of the heap. */
  predicate TailWritten(w: Writes, m: seq<byte>, p: Plan, end: u32) {
    if p.tailSize > 0 then
      && HeaderStep(w.m4, w.m5, p.tail, true, p.tailSize)
      && if TailFooter(p) < end then FooterStep(w.m5, m, TailFooter(p), p.tail) else m == w.m5
    else m == w.m4
  }

  /** The plan once the front hole's size has been read back from its header, which its footer may have overwritten. */
  function ReadBack(p: Plan, h: u32, m2: seq<byte>, a: u32): Plan {
    if p.front > 0 && a + HEADER <= |m2| then p.(tailSize := Sub32(Sub32(h, Get32(m2, a + 8)), p.size)) else p
  }

  /** Memory after all writes for a plan made for hole c. */
  predicate Carved(m0: seq<byte>, w: Writes, m: seq<byte>, c: Chunk, p: Plan, end: u32) {
    && FrontWritten(m0, w, c.addr, p) && BlockWritten(w, p)
    && TailWritten(w, m, ReadBack(p, c.size, w.m2, c.addr), end)
  }

  /** Writes the optional front hole, the block and the optional tail hole at the addresses planned for the hole at
      a. */
  method Carve(mem: array<byte>, a: u32, h: u32, p: Plan, end: u32, ghost c: Chunk)
    returns (done: Plan, ghost w: Writes)
    requires mem.Length == WORLD && a + HEADER <= WORLD && c.addr == a && c.size == h
    modifies mem
    ensures done == ReadBack(p, c.size, w.m2, c.addr) && Carved(old(mem[..]), w, mem[..], c, p, end)
  {
    done := p;
    ghost var m1, m2, m3, m4, m5 := mem[..], mem[..], mem[..], mem[..], mem[..];
    if p.front > 0 {
      WriteHeader(mem, a, true, p.front);
      m1 := mem[..];
      WriteFooter(mem, Sub32(p.loc, FOOTER), a);
      var front := Load32(mem, a + 8);
      done := p.(tailSize := Sub32(Sub32(h, front), p.size));
    }
    m2 := mem[..];
    WriteHeader(mem, p.loc, false, p.size);
    m3 := mem[..];
    WriteFooter(mem, Add32(Add32(p.loc, HEADER), p.payload), p.loc);
    m4 := mem[..];
    if done.tailSize > 0 {
      WriteHeader(mem, done.tail, true, done.tailSize);
      m5 := mem[..];
      var footer := Sub32(Add32(done.tail, done.tailSize), FOOTER);
      if footer < end { WriteFooter(mem, footer, done.tail); }
    }
    w := Writes(m1, m2, m3, m4, m5);
  }

  // ---------- Exact plans ----------

  lemma {:induction false} StepsMakeChunk(m: seq<byte>, m': seq<byte>, m'': seq<byte>, p: u32, hole: bool, size: u32,
                                          q: u32)
    requires HeaderStep(m, m', p, hole, size) && FooterStep(m', m'', q, p)
    requires OVERHEAD <= size && p + size <= WORLD && q == p + size - FOOTER
    ensures InMemory(m'', Chunk(p, size, hole, Link(p))) && SameOutside(m, m'', p, p + size)
  {
    assert HeaderAt(m', p, hole, size);
    assert FooterAt(m'', q, p);
  }

  predicate FrontDone(m0: seq<byte>, m1: seq<byte>, a: u32, p: Plan) {
    if p.front > 0 then InMemory(m1, Front(a, p)) && SameOutside(m0, m1, a, p.loc) else m1 == m0
  }

  predicate TailDone(m2: seq<byte>, m3: seq<byte>, p: Plan, end: int) {
    if p.tailSize > 0 then InMemory(m3, Tail(p)) && SameOutside(m2, m3, p.tail, end) else m3 == m2
  }

  /** A plan that covers the hole: all its pieces are in memory, and nothing outside the hole has changed. */
  lemma {:induction false} CarvedPieces(m0: seq<byte>, w: Writes, m: seq<byte>, c: Chunk, p: Plan, end: u32)
    requires Carved(m0, w, m, c, p, end) && PlanCovers(p, c.addr, c.size) && c.End() <= end && |m0| == WORLD
    ensures ReadBack(p, c.size, w.m2, c.addr) == p
    ensures AllInMemory(m, Pieces(c.addr, p)) && SameOutside(m0, m, c.addr, c.End())
  {
    FrontReadBack(m0, w, c.addr, c.size, p);
    BlockIsDone(w, p);
    TailIsDone(w, m, p, end, c.End());
    PiecesInMemory(c.addr, c.End(), p, m0, w.m2, w.m4, m);
  }

  /** Between the tail hole's header and its footer nothing has changed. */
  lemma {:induction false} CarvedTail(m0: seq<byte>, w: Writes, m: seq<byte>, c: Chunk, p: Plan, end: u32)
    requires Carved(m0, w, m, c, p, end) && PlanCovers(p, c.addr, c.size) && c.End() <= end && |m0| == WORLD
    requires p.tailSize > 0
    ensures Agree(m0, m, p.tail + HEADER, c.End() - FOOTER)
  {
    FrontReadBack(m0, w, c.addr, c.size, p);
    BlockIsDone(w, p);
    assert Agree(m0, w.m4, p.tail + HEADER, c.End() - FOOTER);
  }

  /** The front hole's size is read back as it was written. */
  lemma {:induction false} FrontReadBack(m0: seq<byte>, w: Writes, a: u32, h: u32, p: Plan)
    requires FrontWritten(m0, w, a, p) && PlanCovers(p, a, h)
    ensures ReadBack(p, h, w.m2, a) == p && FrontDone(m0, w.m2, a, p)
  {
    FrontIsDone(m0, w, a, p);
  }

  lemma {:induction false} BlockIsDone(w: Writes, p: Plan)
    requires BlockWritten(w, p) && p.size == p.payload + OVERHEAD && p.loc + p.size <= WORLD
    ensures InMemory(w.m4, Block(p)) && SameOutside(w.m2, w.m4, p.loc, p.loc + p.size)
  {
    StepsMakeChunk(w.m2, w.m3, w.m4, p.loc, false, p.size, BlockFooter(p));
  }

  lemma {:induction false} FrontIsDone(m0: seq<byte>, w: Writes, a: u32, p: Plan)
    requires FrontWritten(m0, w, a, p) && p.loc == a + p.front && (p.front == 0 || p.front >= OVERHEAD)
    ensures FrontDone(m0, w.m2, a, p) && (p.front > 0 ==> a + HEADER <= |w.m2| && Get32(w.m2, a + 8) == p.front)
  {
    if p.front > 0 { StepsMakeChunk(m0, w.m1, w.m2, a, true, p.front, FrontFooter(p)); }
  }

  lemma {:induction false} TailIsDone(w: Writes, m: seq<byte>, p: Plan, end: u32, holeEnd: int)
    requires TailWritten(w, m, p, end) && holeEnd <= end
    requires p.tailSize > 0 ==> p.tailSize >= OVERHEAD && p.tail + p.tailSize == holeEnd
    ensures TailDone(w.m4, m, p, holeEnd)
  {
    if p.tailSize > 0 { StepsMakeChunk(w.m4, w.m5, m, p.tail, true, p.tailSize, TailFooter(p)); }
  }

  /** The pieces, written one after another, are all in memory at the end. */
  lemma {:induction false} PiecesInMemory(a: u32, end: int, p: Plan,
                                          m0: seq<byte>, m1: seq<byte>, m2: seq<byte>, m3: seq<byte>)
    requires PlanCovers(p, a, end - a)
    requires FrontDone(m0, m1, a, p) && TailDone(m2, m3, p, end)
    requires InMemory(m2, Block(p)) && SameOutside(m1, m2, p.loc, p.loc + p.size)
    ensures AllInMemory(m3, Pieces(a, p))
    ensures SameOutside(m0, m3, a, end)
  {
    if p.front > 0 {
      InMemoryFrame(m1, m2, Front(a, p), false);
      InMemoryFrame(m2, m3, Front(a, p), false);
    }
    InMemoryFrame(m2, m3, Block(p), false);
    var mid := Pieces(a, p);
    forall k | 0 <= k < |mid| ensures InMemory(m3, mid[k]) {
      assert mid[k] == (if k == 0 && p.front > 0 then Front(a, p)
                        else if k == (if p.front > 0 then 1 else 0) then Block(p) else Tail(p));
    }
  }

  // ---------- Overlapping writes ----------

  /** A write of len bytes from p on does not touch the header at q. */
  predicate Misses(p: int, len: int, q: int) {
    (p + len <= q || q + HEADER <= p) && p + len - WORLD <= q
  }

  lemma {:induction false} HeaderStays(m: seq<byte>, m': seq<byte>, p: int, len: int, q: int, hole: bool, size: int)
    requires Wrote(m, m', p, len) && Misses(p, len, q) && HeaderAt(m, q, hole, size)
    ensures HeaderAt(m', q, hole, size)
  {
  }

  /** Where the writes of the tail hole miss a header, it stays. */
  lemma {:induction false} StaysUnderTail(w: Writes, m: seq<byte>, p: Plan, end: u32, q: int, hole: bool, size: int)
    requires TailWritten(w, m, p, end) && HeaderAt(w.m4, q, hole, size)
    requires p.tailSize > 0 ==> Misses(p.tail, HEADER, q) && Misses(TailFooter(p), FOOTER, q)
    ensures HeaderAt(m, q, hole, size)
  {
    if p.tailSize > 0 {
      HeaderStays(w.m4, w.m5, p.tail, HEADER, q, hole, size);
      if TailFooter(p) < end { HeaderStays(w.m5, m, TailFooter(p), FOOTER, q, hole, size); }
    }
  }

  /** The block's header is what its plan says unless the block's footer or the tail hole lies on it. */
  lemma {:induction false} BlockHeaderStays(m0: seq<byte>, w: Writes, m: seq<byte>, c: Chunk, p: Plan, end: u32)
    requires Carved(m0, w, m, c, p, end) && p.loc + HEADER <= WORLD && Misses(BlockFooter(p), FOOTER, p.loc)
    requires var t := ReadBack(p, c.size, w.m2, c.addr);
      t.tailSize > 0 ==> Misses(t.tail, HEADER, p.loc) && Misses(TailFooter(t), FOOTER, p.loc)
    ensures HeaderAt(m, p.loc, false, p.size)
  {
    HeaderStays(w.m3, w.m4, BlockFooter(p), FOOTER, p.loc, false, p.size);
    StaysUnderTail(w, m, ReadBack(p, c.size, w.m2, c.addr), end, p.loc, false, p.size);
  }

  /** The front hole's header is what its plan says unless a later write lies on it. */
  lemma {:induction false} FrontHeaderStays(m0: seq<byte>, w: Writes, m: seq<byte>, c: Chunk, p: Plan, end: u32)
    requires Carved(m0, w, m, c, p, end) && 0 < p.front && c.addr + HEADER <= WORLD
    requires Misses(FrontFooter(p), FOOTER, c.addr) && Misses(p.loc, HEADER, c.addr)
    requires Misses(BlockFooter(p), FOOTER, c.addr)
    requires var t := p.(tailSize := Sub32(Sub32(c.size, p.front), p.size));
      t.tailSize > 0 ==> Misses(t.tail, HEADER, c.addr) && Misses(TailFooter(t), FOOTER, c.addr)
    ensures HeaderAt(m, c.addr, true, p.front)
  {
    HeaderStays(w.m1, w.m2, FrontFooter(p), FOOTER, c.addr, true, p.front);
    HeaderStays(w.m2, w.m3, p.loc, HEADER, c.addr, true, p.front);
    HeaderStays(w.m3, w.m4, BlockFooter(p), FOOTER, c.addr, true, p.front);
    StaysUnderTail(w, m, ReadBack(p, c.size, w.m2, c.addr), end, c.addr, true, p.front);
  }
}
