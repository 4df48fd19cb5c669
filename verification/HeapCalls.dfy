/**
  A few calls in a row, and the blocks that they cut from a fresh heap
  (source/kernel_heap.cpp:62-214).
 */
module HeapCalls {
  import opened Bytes
  import opened HeapLayout
  import opened HeapParts
  import opened HeapRuns
  import opened KernelHeaps

  // ---------- Calls in a row ----------

  /** The call takes one state to the other. */
  predicate Goes(from: State, call: Call, to: State) {
    from.Ok? && Step(from.chunks, from.parts, call) == to
  }

  lemma {:induction false} OneCall(s0: State, x: Call, s1: State)
    requires Goes(s0, x, s1)
    ensures Run(s0, [x]) == s1
  {
    assert [x][1..] == [];
  }

  lemma {:induction false} TwoCalls(s0: State, x: Call, s1: State, y: Call, s2: State)
    requires Goes(s0, x, s1) && Goes(s1, y, s2)
    ensures Run(s0, [x, y]) == s2
  {
    assert [x, y][1..] == [y];
    OneCall(s1, y, s2);
  }

  lemma {:induction false} ThreeCalls(s0: State, x: Call, s1: State, y: Call, s2: State, z: Call, s3: State)
    requires Goes(s0, x, s1) && Goes(s1, y, s2) && Goes(s2, z, s3)
    ensures Run(s0, [x, y, z]) == s3
  {
    assert [x, y, z][1..] == [y, z];
    TwoCalls(s1, y, s2, z, s3);
  }

  lemma {:induction false} RunTwice(s: State, first: seq<Call>, second: seq<Call>)
    ensures Run(s, first + second) == Run(Run(s, first), second)
    decreases |first|
  {
    if first == [] {
      assert first + second == second;
    } else if s.Ok? {
      assert (first + second)[1..] == first[1..] + second;
      RunTwice(Step(s.chunks, s.parts, first[0]), first[1..], second);
    }
  }

  // ---------- Blocks cut from a fresh heap ----------

  /** A block for a request of n bytes. */
  function Live(addr: u32, n: u32): Chunk { Chunk(addr, Word(n + OVERHEAD), false, Link(addr)) }

  /** What is left of hole t behind such a block. */
  function Rest(t: Chunk, n: u32): Chunk {
    Chunk(Word(t.addr + n + OVERHEAD), Word(t.size - n - OVERHEAD), true, Link(t.addr + n + OVERHEAD))
  }

  function ThreeAllocs(n: u32): seq<Call> {
    [Alloc(n, false), Alloc(n, false), Alloc(n, false)]
  }

  /** Three blocks from the front of hole t0, and what is left of it. */
  function ThreeLive(t0: Chunk, n: u32): seq<Chunk> {
    var t1 := Rest(t0, n);
    var t2 := Rest(t1, n);
    [Live(t0.addr, n), Live(t1.addr, n), Live(t2.addr, n), Rest(t2, n)]
  }

  lemma {:induction false} AllocFromLast(blocks: seq<Chunk>, t: Chunk, cs: seq<Chunk>, next: seq<Chunk>, n: u32)
    requires forall j :: 0 <= j < |blocks| ==> !blocks[j].hole
    requires t.hole && t.size >= n + 2 * OVERHEAD && t.End() <= WORLD && 0 < t.addr && cs == blocks + [t]
    requires next == blocks + [Live(t.addr, n), Rest(t, n)]
    ensures Goes(Ok(cs, []), Alloc(n, false), Ok(next, []))
  {
    var p, k := PlanAt(t, n, false), n + OVERHEAD;
    FirstFitUnique(cs, |blocks|, k, false);
    assert p == Plan(0, t.addr, n, k, t.addr + k, t.size - k);
    assert Pieces(t.addr, p) == [Block(p), Tail(p)];
    assert cs[..|blocks|] == blocks && cs[|blocks| + 1..] == [];
  }

  lemma {:induction false} ThreeBlocks(t0: Chunk, n: u32)
    requires t0.hole && 0 < t0.addr && t0.End() <= WORLD && 3 * (n + OVERHEAD) + OVERHEAD <= t0.size
    ensures Run(Ok([t0], []), ThreeAllocs(n)) == Ok(ThreeLive(t0, n), [])
  {
    var t1 := Rest(t0, n);
    var t2 := Rest(t1, n);
    var a, b, c, t3 := Live(t0.addr, n), Live(t1.addr, n), Live(t2.addr, n), Rest(t2, n);
    AllocFromLast([], t0, [t0], [a, t1], n);
    AllocFromLast([a], t1, [a, t1], [a, b, t2], n);
    AllocFromLast([a, b], t2, [a, b, t2], [a, b, c, t3], n);
    ThreeCalls(Ok([t0], []), Alloc(n, false), Ok([a, t1], []), Alloc(n, false), Ok([a, b, t2], []), Alloc(n, false),
               Ok([a, b, c, t3], []));
  }

  lemma {:induction false} FreeOfFour(a: Chunk, b: Chunk, c: Chunk, t: Chunk, ptr: int)
    requires ptr == b.addr + HEADER && !a.hole && !b.hole && !c.hole && a.addr != b.addr && b.foot == Link(b.addr)
    ensures Goes(Ok([a, b, c, t], []), Release(ptr), Ok([a, b.(hole := true), c, t], []))
  {
    var cs := [a, b, c, t];
    assert cs[1..] == [b, c, t] && ChunkIndex([b, c, t], ptr) == 0;
    assert Merged(cs, 1) == b.(hole := true);
    assert cs[..1] == [a] && cs[2..] == [c, t];
  }
}
