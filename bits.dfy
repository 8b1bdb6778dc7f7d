/**
 * Go's fixed-width integer types as subset types of `int`, the conversions
 * between them (which keep the low bits, two's complement) and the bitwise
 * OR that `Ip2Long` accumulates with.
 */
module Bits {

  type byte = x: int | 0 <= x < 0x100
  type uint32 = x: int | 0 <= x < 0x1_0000_0000
  type uint64 = x: int | 0 <= x < 0x1_0000_0000_0000_0000
  type int32 = x: int | -0x8000_0000 <= x < 0x8000_0000
  type int64 = x: int | -0x8000_0000_0000_0000 <= x < 0x8000_0000_0000_0000

  const MinInt64: int := -0x8000_0000_0000_0000
  const MaxInt64: int := 0x7FFF_FFFF_FFFF_FFFF

  /** `uint32(i)`: the low 32 bits of a two's-complement integer. */
  function Uint32Of(i: int): uint32
  {
    i % 0x1_0000_0000
  }

  /** `uint64(i)`: the low 64 bits of a two's-complement integer. */
  function Uint64Of(i: int): uint64
  {
    i % 0x1_0000_0000_0000_0000
  }

  /** `int32(u)`: reinterprets 32 bits as a signed value. */
  function Int32Of(u: uint32): (r: int32)
    ensures Uint32Of(r) == u
    ensures u < 0x8000_0000 <==> r >= 0
  {
    if u < 0x8000_0000 then u else u - 0x1_0000_0000
  }

  /** `int64(u)`: reinterprets 64 bits as a signed value. */
  function Int64Of(u: uint64): (r: int64)
    ensures Uint64Of(r) == u
    ensures u < 0x8000_0000_0000_0000 <==> r >= 0
  {
    if u < 0x8000_0000_0000_0000 then u else u - 0x1_0000_0000_0000_0000
  }

  /**
   * Go's arithmetic on 64-bit `int`: the exact result wrapped into int64,
   * two's complement. Results that fit are kept as they are.
   */
  function Wrap64(x: int): (r: int64)
    ensures MinInt64 <= x <= MaxInt64 ==> r == x
    ensures MaxInt64 < x <= MaxInt64 + 0x1_0000_0000_0000_0000 ==> r == x - 0x1_0000_0000_0000_0000
    ensures MinInt64 - 0x1_0000_0000_0000_0000 <= x < MinInt64 ==> r == x + 0x1_0000_0000_0000_0000
  {
    Int64Of(Uint64Of(x))
  }

  /** Wrap64 changes its argument by a multiple of 2^64. */
  lemma Wrap64Congruent(x: int)
    ensures (x - Wrap64(x)) % 0x1_0000_0000_0000_0000 == 0
  {
  }

  /** Converting a signed value to unsigned and back is the identity. */
  lemma Int64OfUint64Of(i: int64)
    ensures Int64Of(Uint64Of(i)) == i
  {
  }

  /** The same for 32 bits. */
  lemma Int32OfUint32Of(i: int32)
    ensures Int32Of(Uint32Of(i)) == i
  {
  }

  function Pow2(k: nat): (p: nat)
    ensures p >= 1
  {
    if k == 0 then 1 else 2 * Pow2(k - 1)
  }

  /** Bitwise OR of two non-negative integers, one bit at a time. */
  function BitOr(x: nat, y: nat): nat
    decreases x + y
  {
    if x == 0 then y
    else if y == 0 then x
    else 2 * BitOr(x / 2, y / 2) + (if x % 2 == 1 || y % 2 == 1 then 1 else 0)
  }

  /** OR never sets a bit above the highest bit of its operands. */
  lemma {:induction false} BitOrBound(x: nat, y: nat, k: nat)
    requires x < Pow2(k) && y < Pow2(k)
    ensures BitOr(x, y) < Pow2(k)
    decreases k
  {
    if x != 0 && y != 0 {
      BitOrBound(x / 2, y / 2, k - 1);
    }
  }

  /** OR of operands whose bits do not overlap is their sum. */
  lemma {:induction false} BitOrDisjoint(m: nat, y: nat, k: nat)
    requires y < Pow2(k)
    ensures BitOr(m * Pow2(k), y) == m * Pow2(k) + y
    decreases k
  {
    if k > 0 && m != 0 && y != 0 {
      var q := m * Pow2(k - 1);
      assert m * Pow2(k) == 2 * q;
      BitOrDisjoint(m, y / 2, k - 1);
    }
  }

  /** `x | y` on uint32. */
  function Or32(x: uint32, y: uint32): uint32
  {
    Pow2Values();
    BitOrBound(x, y, 32);
    BitOr(x, y)
  }

  /** `x << k` on uint32: bits shifted past bit 31 are lost. */
  function Shl32(x: uint32, k: nat): uint32
  {
    (x * Pow2(k)) % 0x1_0000_0000
  }

  lemma Pow2Values()
    ensures Pow2(8) == 0x100 && Pow2(16) == 0x1_0000 && Pow2(24) == 0x100_0000
    ensures Pow2(32) == 0x1_0000_0000
  {
    assert Pow2(4) == 16;
    assert Pow2(8) == 0x100;
    assert Pow2(16) == 0x1_0000 by {
      assert Pow2(12) == 0x1000;
    }
    assert Pow2(24) == 0x100_0000 by {
      assert Pow2(20) == 0x10_0000;
    }
    assert Pow2(32) == 0x1_0000_0000 by {
      assert Pow2(28) == 0x1000_0000;
    }
  }
}
