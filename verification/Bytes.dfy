/**
  The machine's memory: bytes, 32-bit unsigned arithmetic and little-endian words.
  A memory is an array of bytes indexed by address.
 */
module Bytes {

  const WORLD: int := 0x1_0000_0000  // number of byte addresses
  const PAGE: int := 0x1000

  type byte = b: int | 0 <= b < 256
  type u32 = w: int | 0 <= w < 0x1_0000_0000

  datatype Option<T> = None | Some(value: T)

  /** Unsigned 32-bit subtraction, wrapping below zero. */
  function Sub32(x: u32, y: u32): u32 {
    if y <= x then x - y else x - y + WORLD
  }

  /** Unsigned 32-bit addition, wrapping at 2^32. */
  function Add32(x: u32, y: u32): u32 {
    if x + y < WORLD then x + y else x + y - WORLD
  }

  function Get32(m: seq<byte>, p: nat): u32
    requires p + 4 <= |m|
  {
    (m[p] as int) + 0x100 * (m[p + 1] as int) + 0x1_0000 * (m[p + 2] as int) + 0x100_0000 * (m[p + 3] as int)
  }

  /** The two memories agree at every address outside [lo, hi). */
  predicate SameOutside(m: seq<byte>, m': seq<byte>, lo: int, hi: int) {
    |m| == |m'| && forall k :: 0 <= k < |m| && !(lo <= k < hi) ==> m'[k] == m[k]
  }

  /** The two memories agree at every address in [lo, hi). */
  predicate Agree(m: seq<byte>, m': seq<byte>, lo: int, hi: int) {
    |m| == |m'| && forall k :: 0 <= k < |m| && lo <= k < hi ==> m'[k] == m[k]
  }

  /** The little-endian bytes of a word determine it. */
  function Le32(v: u32): (bs: seq<byte>)
    ensures |bs| == 4 && Get32(bs, 0) == v
  {
    var q1 := v / 0x100;
    var q2 := q1 / 0x100;
    var q3 := q2 / 0x100;
    [v - 0x100 * q1, q1 - 0x100 * q2, q2 - 0x100 * q3, q3]
  }

  method Load32(mem: array<byte>, p: u32) returns (v: u32)
    ensures p + 4 <= mem.Length ==> v == Get32(mem[..], p)
  {
    if p + 4 <= mem.Length {
      v := (mem[p] as int) + 0x100 * (mem[p + 1] as int)
           + 0x1_0000 * (mem[p + 2] as int) + 0x100_0000 * (mem[p + 3] as int);
    } else {
      v := 0;
    }
  }

  /** A store that would run past the last address has no effect. */
  method Store32(mem: array<byte>, p: u32, v: u32)
    modifies mem
    ensures p + 4 <= mem.Length ==> Get32(mem[..], p) == v
    ensures p + 4 > mem.Length ==> mem[..] == old(mem[..])
    ensures SameOutside(old(mem[..]), mem[..], p, p + 4)
  {
    if p + 4 <= mem.Length {
      var bs := Le32(v);
      mem[p], mem[p + 1], mem[p + 2], mem[p + 3] := bs[0], bs[1], bs[2], bs[3];
    }
  }
}
