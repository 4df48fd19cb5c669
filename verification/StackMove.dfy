/**
  Moving the kernel stack (source/process.cpp:216-256) with the byte-wise memcpy
  it uses (source/memory_management.cpp:52-61). Paging is not involved here: mem
  is what the mapped addresses hold.
 */
module StackMove {
  import opened Bytes

  /** The count bytes at dest are those that were at src, and nothing else has changed. */
  predicate Copied(m0: seq<byte>, m: seq<byte>, dest: int, src: int, count: int) {
    && 0 <= dest && 0 <= src && src + count <= |m0| && dest + count <= |m| && SameOutside(m0, m, dest, dest + count)
    && forall a :: dest <= a < dest + count ==> m[a] == m0[a - dest + src]
  }

  /** A forward copy; right for separate regions and for moving down. */
  method Memcpy(mem: array<byte>, dest: u32, src: u32, count: u32)
    requires dest + count <= mem.Length && src + count <= mem.Length
    requires dest <= src || src + count <= dest
    modifies mem
    ensures Copied(old(mem[..]), mem[..], dest, src, count)
  {
    var i := 0;
    while i < count
      invariant 0 <= i <= count
      invariant forall a :: dest <= a < dest + i ==> mem[a] == old(mem[a - dest + src])
      invariant forall k :: 0 <= k < mem.Length && !(dest <= k < dest + i) ==> mem[k] == old(mem[k])
    {
      mem[dest + i] := mem[src + i];
      i := i + 1;
    }
  }

  /** What the move does to a word: a value strictly inside the old stack moves with it. */
  function Shift(w: u32, oldEsp: u32, initialEsp: u32, offset: u32): u32 {
    if oldEsp < w < initialEsp then Add32(w, offset) else w
  }

  /** The old stack is the words from oldEsp up to initialEsp; it lies apart from the new one and fits it. */
  predicate Fits(newStart: u32, newSize: u32, initialEsp: u32, oldEsp: u32) {
    && newSize <= newStart && newStart + 4 <= WORLD && newSize % 4 == 0
    && oldEsp <= initialEsp && (initialEsp - oldEsp) % 4 == 0 && initialEsp - oldEsp <= newSize
    && (initialEsp <= newStart - newSize || newStart + 4 <= oldEsp)
  }

  /** A word of the old stack. */
  predicate OnStack(p: int, initialEsp: u32, oldEsp: u32) {
    oldEsp <= p && p + 4 <= initialEsp && (initialEsp - p) % 4 == 0
  }

  /** The new memory: each word of the old stack is in its new place, shifted once, except that the word at
      the very bottom of a completely filled new stack is left as it was; nothing else outside the new stack changed. */
  ghost predicate Moved(m0: seq<byte>, m: seq<byte>, newStart: u32, newSize: u32, initialEsp: u32, oldEsp: u32)
    requires Fits(newStart, newSize, initialEsp, oldEsp)
  {
    && |m| == |m0| == WORLD
    && (forall p {:trigger OnStack(p, initialEsp, oldEsp)} :: OnStack(p, initialEsp, oldEsp) ==>
          Get32(m, p + newStart - initialEsp) ==
          if initialEsp - p < newSize then Shift(Get32(m0, p), oldEsp, initialEsp, Sub32(newStart, initialEsp))
          else Get32(m0, p))
    && SameOutside(m0, m, newStart - newSize, newStart + 4)
  }

  /** The upper j words of the new stack are shifted, and nothing else has changed since the copy. */
  predicate Adjusted(m1: seq<byte>, m: seq<byte>, newStart: u32, oldEsp: u32, initialEsp: u32, offset: u32, j: nat) {
    && |m| == |m1| == WORLD && 0 <= newStart - 4 * j && newStart + 4 <= WORLD
    && (forall k :: 0 <= k < j ==>
          Get32(m, newStart - 4 * k) == Shift(Get32(m1, newStart - 4 * k), oldEsp, initialEsp, offset))
    && SameOutside(m1, m, newStart - 4 * j + 4, newStart + 4)
  }

  lemma {:induction false} AdjustedStep(m1: seq<byte>, m: seq<byte>, m': seq<byte>, newStart: u32, oldEsp: u32,
                                        initialEsp: u32, offset: u32, j: nat)
    requires Adjusted(m1, m, newStart, oldEsp, initialEsp, offset, j) && 4 <= newStart - 4 * j
    requires |m'| == WORLD && SameOutside(m, m', newStart - 4 * j, newStart - 4 * j + 4)
    requires Get32(m', newStart - 4 * j) == Shift(Get32(m, newStart - 4 * j), oldEsp, initialEsp, offset)
    ensures Adjusted(m1, m', newStart, oldEsp, initialEsp, offset, j + 1)
  {
    assert Get32(m, newStart - 4 * j) == Get32(m1, newStart - 4 * j);
    forall k | 0 <= k < j + 1
      ensures Get32(m', newStart - 4 * k) == Shift(Get32(m1, newStart - 4 * k), oldEsp, initialEsp, offset)
    {
      if k < j { assert Get32(m', newStart - 4 * k) == Get32(m, newStart - 4 * k); }
    }
  }

  lemma {:induction false} PointersMove(newStart: u32, initialEsp: u32, oldEsp: u32, oldEbp: u32)
    requires oldEsp <= initialEsp && initialEsp - oldEsp <= newStart
    ensures Add32(newStart, Sub32(oldEsp, initialEsp)) == newStart - (initialEsp - oldEsp)
    ensures Add32(newStart, Sub32(oldEbp, initialEsp)) == Add32(oldEbp, Sub32(newStart, initialEsp))
  {
  }

  /** The loop over the words of the new stack, from the top down. */
  method AdjustWords(mem: array<byte>, newStart: u32, newSize: u32, initialEsp: u32, oldEsp: u32, offset: u32)
    requires mem.Length == WORLD && newSize <= newStart && newStart + 4 <= WORLD && newSize % 4 == 0
    modifies mem
    ensures Adjusted(old(mem[..]), mem[..], newStart, oldEsp, initialEsp, offset, newSize / 4)
  {
    ghost var m1 := mem[..];
    var i := newStart;
    ghost var j := 0;
    while i > newStart - newSize
      invariant 0 <= j <= newSize / 4 && i == newStart - 4 * j
      invariant Adjusted(m1, mem[..], newStart, oldEsp, initialEsp, offset, j)
    {
      ghost var m := mem[..];
      var tmp := Load32(mem, i);
      if oldEsp < tmp && tmp < initialEsp {
        tmp := Add32(tmp, offset);
        Store32(mem, i, tmp);
      }
      AdjustedStep(m1, m, mem[..], newStart, oldEsp, initialEsp, offset, j);
      i := i - 4;
      j := j + 1;
    }
  }

  method ChangeStack(mem: array<byte>, newStart: u32, newSize: u32, initialEsp: u32, oldEsp: u32, oldEbp: u32)
    returns (newEsp: u32, newEbp: u32)
    requires mem.Length == WORLD && Fits(newStart, newSize, initialEsp, oldEsp)
    modifies mem
    ensures newEsp == newStart - (initialEsp - oldEsp) && newEbp == Add32(oldEbp, Sub32(newStart, initialEsp))
    ensures Moved(old(mem[..]), mem[..], newStart, newSize, initialEsp, oldEsp)
  {
    var offset := Sub32(newStart, initialEsp);
    newEsp := Add32(newStart, Sub32(oldEsp, initialEsp));
    newEbp := Add32(newStart, Sub32(oldEbp, initialEsp));
    PointersMove(newStart, initialEsp, oldEsp, oldEbp);
    ghost var m0 := mem[..];
    Memcpy(mem, newEsp, oldEsp, initialEsp - oldEsp);
    ghost var m1 := mem[..];
    AdjustWords(mem, newStart, newSize, initialEsp, oldEsp, offset);
    MovedIs(m0, m1, mem[..], newStart, newSize, initialEsp, oldEsp);
  }

  lemma {:induction false} MovedIs(m0: seq<byte>, m1: seq<byte>, m: seq<byte>, newStart: u32, newSize: u32,
                                   initialEsp: u32, oldEsp: u32)
    requires Fits(newStart, newSize, initialEsp, oldEsp) && |m| == |m1| == |m0| == WORLD
    requires Copied(m0, m1, newStart - (initialEsp - oldEsp), oldEsp, initialEsp - oldEsp)
    requires Adjusted(m1, m, newStart, oldEsp, initialEsp, Sub32(newStart, initialEsp), newSize / 4)
    ensures Moved(m0, m, newStart, newSize, initialEsp, oldEsp)
  {
    forall p | OnStack(p, initialEsp, oldEsp)
      ensures Get32(m, p + newStart - initialEsp) ==
          if initialEsp - p < newSize then Shift(Get32(m0, p), oldEsp, initialEsp, Sub32(newStart, initialEsp))
          else Get32(m0, p)
    {
      var q, k := p + newStart - initialEsp, (initialEsp - p) / 4;
      assert q == newStart - 4 * k;
      assert Get32(m1, q) == Get32(m0, p);
      if initialEsp - p < newSize { assert k < newSize / 4; }
    }
  }

  // ---------- The chain of saved frame pointers ----------

  /** The k-th frame pointer from ebp on. */
  function Chain(m: seq<byte>, ebp: u32, k: nat): u32
    decreases k
  {
    if k == 0 || ebp + 4 > |m| then ebp else Chain(m, Get32(m, ebp), k - 1)
  }

  /** The first k frame pointers from ebp on lie on the old stack, above its lowest word. */
  predicate LiveChain(m: seq<byte>, ebp: u32, k: nat, initialEsp: u32, oldEsp: u32)
    decreases k
  {
    k == 0 || (ebp + 4 <= |m| && oldEsp < ebp && OnStack(ebp, initialEsp, oldEsp)
               && LiveChain(m, Get32(m, ebp), k - 1, initialEsp, oldEsp))
  }

  /** Walking the frame pointers on the new stack gives the old chain moved by the offset. */
  lemma {:induction false} ChainMoved(m0: seq<byte>, m: seq<byte>, newStart: u32, newSize: u32, initialEsp: u32,
                                      oldEsp: u32, ebp: u32, k: nat)
    requires Fits(newStart, newSize, initialEsp, oldEsp) && Moved(m0, m, newStart, newSize, initialEsp, oldEsp)
    requires LiveChain(m0, ebp, k + 1, initialEsp, oldEsp)
    ensures Chain(m, ebp + newStart - initialEsp, k) == Chain(m0, ebp, k) + newStart - initialEsp
    ensures oldEsp < Chain(m0, ebp, k) < initialEsp
    decreases k
  {
    assert OnStack(ebp, initialEsp, oldEsp);
    if k > 0 {
      var next := Get32(m0, ebp);
      assert OnStack(next, initialEsp, oldEsp);
      ChainMoved(m0, m, newStart, newSize, initialEsp, oldEsp, next, k - 1);
    }
  }

  /** The word at esp moves unshifted exactly when the old stack fills the new one and the word points into it. */
  lemma {:induction false} LowestWordIff(m0: seq<byte>, m: seq<byte>, newStart: u32, newSize: u32, initialEsp: u32,
                                         oldEsp: u32)
    requires Fits(newStart, newSize, initialEsp, oldEsp) && Moved(m0, m, newStart, newSize, initialEsp, oldEsp)
    requires oldEsp < initialEsp
    ensures Get32(m, newStart - (initialEsp - oldEsp))
            == Shift(Get32(m0, oldEsp), oldEsp, initialEsp, Sub32(newStart, initialEsp))
       <==> !(initialEsp - oldEsp == newSize && oldEsp < Get32(m0, oldEsp) < initialEsp)
  {
    assert OnStack(oldEsp, initialEsp, oldEsp);
  }
}
