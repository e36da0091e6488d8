/** Unsigned machine words as natural numbers: the bit operators of the C source,
    defined on binary digits, and what masking and bit smearing compute. */
module Bits {

  const U32: nat := 0x1_0000_0000
  const U64: nat := 0x1_0000_0000_0000_0000

  function Pow2(k: nat): (p: nat)
    ensures p >= 1
  {
    if k == 0 then 1 else 2 * Pow2(k - 1)
  }

  ghost predicate IsPow2(n: nat) {
    exists k: nat :: n == Pow2(k)
  }

  /** The C operator `&`. */
  function And(a: nat, b: nat): nat {
    if a == 0 || b == 0 then 0
    else 2 * And(a / 2, b / 2) + (if a % 2 == 1 && b % 2 == 1 then 1 else 0)
  }

  /** The C operator `|`. */
  function Or(a: nat, b: nat): nat
    decreases a + b
  {
    if a == 0 && b == 0 then 0
    else 2 * Or(a / 2, b / 2) + (if a % 2 == 1 || b % 2 == 1 then 1 else 0)
  }

  /** The C operator `>>` on an unsigned value. */
  function Shr(v: nat, s: nat): nat {
    if s == 0 then v else Shr(v / 2, s - 1)
  }

  predicate Bit(v: nat, i: nat) {
    if i == 0 then v % 2 == 1 else Bit(v / 2, i - 1)
  }

  type uint32 = x: int | 0 <= x < 0x1_0000_0000
  type int32 = x: int | -0x8000_0000 <= x < 0x8000_0000
  type uint64 = x: int | 0 <= x < 0x1_0000_0000_0000_0000
  type int64 = x: int | -0x8000_0000_0000_0000 <= x < 0x8000_0000_0000_0000

  /** Conversion of any integer to unsigned int, modulo 2^32. */
  function ToU32(x: int): uint32 {
    x % U32
  }

  /** The bits of an int, and back (two's complement). */
  function IntBits(x: int32): uint32 {
    if x >= 0 then x else x + U32
  }

  function ToS32(x: uint32): int32 {
    if x < 0x8000_0000 then x else x - U32
  }

  /** The bits of a long, and back. */
  function LongBits(x: int64): uint64 {
    if x >= 0 then x else x + U64
  }

  function ToS64(x: uint64): int64 {
    if x < 0x8000_0000_0000_0000 then x else x - U64
  }

  // ---------------------------------------------------------------- arithmetic

  lemma DivModUnique(x: int, d: int, q: int, r: int)
    requires 0 <= r < d && x == q * d + r
    ensures x / d == q && x % d == r
  {
    var q', r' := x / d, x % d;
    assert (q - q') * d == r' - r;
    NonzeroMultiple(q - q', d);
  }

  lemma NonzeroMultiple(a: int, d: int)
    requires d > 0
    ensures a >= 1 ==> a * d >= d
    ensures a <= -1 ==> a * d <= -d
  {
  }

  /** Division and remainder by 2d, one binary digit at a time. */
  lemma DivModDouble(x: nat, d: nat)
    requires d > 0
    ensures x % (2 * d) == 2 * (x / 2 % d) + x % 2
    ensures x / (2 * d) == x / 2 / d
  {
    var q, r := x / 2 / d, x / 2 % d;
    assert x == q * (2 * d) + (2 * r + x % 2);
    DivModUnique(x, 2 * d, q, 2 * r + x % 2);
  }

  /** A multiple of the modulus can be dropped first. */
  lemma ModOfMod(x: int, d: int, m: int)
    requires d > 0 && m > 0
    ensures (x % (d * m)) % d == x % d
  {
    var q, r := x / (d * m), x % (d * m);
    var k := r / d;
    assert x == q * (d * m) + r;
    assert q * (d * m) == (q * m) * d;
    assert r == k * d + r % d;
    assert x == (q * m + k) * d + r % d by {
      assert (q * m + k) * d == (q * m) * d + k * d;
    }
    DivModUnique(x, d, q * m + k, r % d);
  }

  lemma SmallWord(x: nat)
    requires x < U32
    ensures ToU32(x) == x
  {
    DivModUnique(x, U32, 0, x);
  }

  /** Wrapping to 32 bits does not disturb the remainder by a divisor of 2^32. */
  lemma WordMod(x: int, d: nat, m: nat)
    requires d > 0 && m > 0 && d * m == U32
    ensures ToU32(x) % d == x % d
  {
    ModOfMod(x, d, m);
    assert x % (d * m) == x % U32;
  }

  /** Consecutive elements of size z do not overlap. */
  lemma {:induction false} Stacked(i: nat, j: nat, z: nat)
    ensures i < j ==> i * z + z <= j * z
    decreases j
  {
    if i >= j {
    } else {
      assert j * z == (j - 1) * z + z;
      Stacked(i, j - 1, z);
    }
  }

  lemma Pow2Add(a: nat, b: nat)
    ensures Pow2(a + b) == Pow2(a) * Pow2(b)
  {
    if a == 0 {
    } else {
      Pow2Add(a - 1, b);
    }
  }

  lemma Pow2Mono(a: nat, b: nat)
    requires a <= b
    ensures Pow2(a) <= Pow2(b)
    decreases b
  {
    if a == b {
    } else {
      Pow2Mono(a, b - 1);
    }
  }

  lemma Pow2Of32()
    ensures Pow2(32) == U32 && Pow2(31) == 0x8000_0000
  {
    assert Pow2(8) == 256;
    Pow2Add(8, 8);
    Pow2Add(16, 16);
  }

  lemma Pow2Of64()
    ensures Pow2(64) == U64
  {
    Pow2Of32();
    Pow2Add(32, 32);
  }

  // ------------------------------------------------------------------- masking

  /** Masking with 2^k - 1 is remainder modulo 2^k. */
  lemma {:induction false} MaskIsMod(x: nat, k: nat)
    ensures And(x, Pow2(k) - 1) == x % Pow2(k)
    decreases k
  {
    if k == 0 {
      DivModUnique(x, 1, x, 0);
    } else {
      MaskIsMod(x / 2, k - 1);
      MaskDouble(x, Pow2(k - 1));
    }
  }

  /** One more mask digit. */
  lemma MaskDouble(x: nat, d: nat)
    requires d > 0 && And(x / 2, d - 1) == x / 2 % d
    ensures And(x, 2 * d - 1) == x % (2 * d)
  {
    hide And;
    AndOdd(x, d - 1);
    DivModDouble(x, d);
  }

  lemma AndOdd(x: nat, y: nat)
    ensures And(x, 2 * y + 1) == 2 * And(x / 2, y) + x % 2
  {
    assert (2 * y + 1) / 2 == y && (2 * y + 1) % 2 == 1;
  }

  /** Masking with the complement of 2^k - 1, in a word of w bits, rounds down to a multiple of 2^k. */
  lemma {:induction false} MaskHighRoundsDown(x: nat, k: nat, w: nat)
    requires k <= w && x < Pow2(w)
    ensures Pow2(k) <= Pow2(w)
    ensures And(x, Pow2(w) - Pow2(k)) == x - x % Pow2(k)
    decreases k
  {
    hide And;
    Pow2Mono(k, w);
    if k == 0 {
      MaskIsMod(x, w);
      DivModUnique(x, Pow2(w), 0, x);
      DivModUnique(x, 1, x, 0);
    } else {
      var d, e := Pow2(k - 1), Pow2(w - 1);
      assert Pow2(k) == 2 * d && Pow2(w) == 2 * e;
      hide Pow2;
      MaskHighRoundsDown(x / 2, k - 1, w - 1);
      AndDoubled(x, e - d);
      DivModDouble(x, d);
    }
  }

  lemma AndDoubled(x: nat, y: nat)
    ensures And(x, 2 * y) == 2 * And(x / 2, y)
  {
  }

  lemma {:induction false} ShrIsDiv(v: nat, s: nat)
    ensures Shr(v, s) == v / Pow2(s)
    decreases s
  {
    if s == 0 {
      DivModUnique(v, 1, v, 0);
    } else {
      ShrIsDiv(v / 2, s - 1);
      DivModDouble(v, Pow2(s - 1));
    }
  }

  // -------------------------------------------------- rounding up by bit smearing

  /** The number of binary digits of v. */
  function BitLen(v: nat): nat {
    if v == 0 then 0 else 1 + BitLen(v / 2)
  }

  lemma BitLenBounds(v: nat)
    ensures v < Pow2(BitLen(v))
    ensures v > 0 ==> Pow2(BitLen(v) - 1) <= v
  {
    if v == 0 {
    } else {
      BitLenBounds(v / 2);
    }
  }

  lemma OrBit(a: nat, b: nat, i: nat)
    ensures Bit(Or(a, b), i) == (Bit(a, i) || Bit(b, i))
    decreases i
  {
    if a == 0 && b == 0 {
      NoHighBits(0, i);
    } else {
      assert Or(a, b) / 2 == Or(a / 2, b / 2);
      if i > 0 { OrBit(a / 2, b / 2, i - 1); }
    }
  }

  lemma ShrBit(v: nat, s: nat, i: nat)
    ensures Bit(Shr(v, s), i) == Bit(v, i + s)
    decreases s
  {
    if s == 0 {
    } else {
      ShrBit(v / 2, s - 1, i);
    }
  }

  lemma NoHighBits(v: nat, i: nat)
    requires BitLen(v) <= i
    ensures !Bit(v, i)
    decreases i
  {
    if i == 0 {
    } else {
      NoHighBits(v / 2, i - 1);
    }
  }

  lemma TopBitSet(v: nat)
    requires v > 0
    ensures Bit(v, BitLen(v) - 1)
  {
    if v == 1 {
    } else {
      TopBitSet(v / 2);
    }
  }

  /** The j digits below position len are all one and nothing is set from len upward. */
  ghost predicate Smeared(v: nat, len: nat, j: nat) {
    forall i: nat :: (i >= len ==> !Bit(v, i)) && (len - j <= i < len ==> Bit(v, i))
  }

  lemma SmearStep(v: nat, len: nat, j: nat)
    requires Smeared(v, len, j)
    ensures Smeared(Or(v, Shr(v, j)), len, 2 * j)
  {
    forall i: nat
      ensures i >= len ==> !Bit(Or(v, Shr(v, j)), i)
      ensures len - 2 * j <= i < len ==> Bit(Or(v, Shr(v, j)), i)
    {
      OrBit(v, Shr(v, j), i);
      ShrBit(v, j, i);
      assert i >= len ==> !Bit(v, i + j);
    }
  }

  lemma {:induction false} AllOnes(v: nat, len: nat)
    requires Smeared(v, len, len)
    ensures v == Pow2(len) - 1
    decreases len, v
  {
    assert Bit(v, 0) == (len > 0);
    forall i: nat
      ensures i >= len - 1 ==> !Bit(v / 2, i)
      ensures i < len - 1 ==> Bit(v / 2, i)
    {
      assert Bit(v, i + 1) == Bit(v / 2, i);
    }
    if len > 0 {
      AllOnes(v / 2, len - 1);
    } else if v > 0 {
      AllOnes(v / 2, 0);
    }
  }

  /** The least power of two that is at least v, for 1 <= v <= 2^31; 0 for every other 32-bit v. */
  function RoundedUp(v: nat): nat {
    if v == 0 || v > 0x8000_0000 then 0 else Pow2(BitLen(v - 1))
  }

  lemma RoundedUpIsLeast(v: nat)
    requires 1 <= v <= 0x8000_0000
    ensures exists e: nat :: e <= 31 && RoundedUp(v) == Pow2(e)
    ensures v <= RoundedUp(v) <= 0x8000_0000
    ensures forall p: nat :: IsPow2(p) && v <= p ==> RoundedUp(v) <= p
  {
    var e := BitLen(v - 1);
    BitLenBounds(v - 1);
    Pow2Of32();
    if e > 31 { Pow2Mono(31, e - 1); }
    Pow2Mono(e, 31);
    forall p: nat | IsPow2(p) && v <= p ensures Pow2(e) <= p {
      var k: nat :| p == Pow2(k);
      if k < e { Pow2Mono(k, e - 1); } else { Pow2Mono(e, k); }
    }
  }

  /** One smearing line of the source: `v |= v >> s`. */
  function Smear(v: nat, s: nat): nat {
    Or(v, Shr(v, s))
  }

  /** Five smearing lines set every digit below the leading one of a 32-bit word. */
  lemma SmearFills(v: nat)
    requires v < U32
    ensures BitLen(v) <= 32
    ensures Smear(Smear(Smear(Smear(Smear(v, 1), 2), 4), 8), 16) == Pow2(BitLen(v)) - 1
  {
    var len := BitLen(v);
    BitLenBounds(v);
    Pow2Of32();
    if len > 32 { Pow2Mono(32, len - 1); }
    SmearedAtFirst(v);
    SmearStep(v, len, 1);
    var v1 := Smear(v, 1);
    SmearStep(v1, len, 2);
    var v2 := Smear(v1, 2);
    SmearStep(v2, len, 4);
    var v3 := Smear(v2, 4);
    SmearStep(v3, len, 8);
    var v4 := Smear(v3, 8);
    SmearStep(v4, len, 16);
    AllOnes(Smear(v4, 16), len);
  }

  /** What the increment makes of the smeared word: the leading power, wrapped to 32 bits. */
  lemma IncrementSmeared(v0: nat, x: nat)
    requires v0 < U32 && x == ToU32(v0 - 1)
    ensures Pow2(BitLen(x)) % U32 == RoundedUp(v0)
  {
    hide Pow2, BitLen, IsPow2;
    if 1 <= v0 <= 0x8000_0000 {
      assert x == v0 - 1;
      RoundedUpIsLeast(v0);
      DivModUnique(Pow2(BitLen(x)), U32, 0, Pow2(BitLen(x)));
    } else {
      assert x == if v0 == 0 then U32 - 1 else v0 - 1;
      LongWord(x);
      Pow2Of32();
      DivModUnique(U32, U32, 1, 0);
    }
  }

  lemma LongWord(x: nat)
    requires 0x8000_0000 <= x < U32
    ensures BitLen(x) == 32
  {
    BitLenBounds(x);
    Pow2Of32();
    if BitLen(x) < 32 { Pow2Mono(BitLen(x), 31); }
    if BitLen(x) > 32 { Pow2Mono(32, BitLen(x) - 1); }
  }

  /** round_up_next_power_of_2_uint, with the 32-bit wrap of `v--` and `v++`. */
  method RoundUpNextPowerOf2(v0: nat) returns (v: nat)
    requires v0 < U32
    ensures v == RoundedUp(v0)
  {
    v := ToU32(v0 - 1);
    SmearFills(v);
    IncrementSmeared(v0, v);
    v := Or(v, Shr(v, 1));
    v := Or(v, Shr(v, 2));
    v := Or(v, Shr(v, 4));
    v := Or(v, Shr(v, 8));
    v := Or(v, Shr(v, 16));
    v := ToU32(v + 1);
  }

  lemma SmearedAtFirst(v: nat)
    ensures Smeared(v, BitLen(v), 1)
  {
    forall i: nat
      ensures i >= BitLen(v) ==> !Bit(v, i)
      ensures BitLen(v) - 1 <= i < BitLen(v) ==> Bit(v, i)
    {
      if i >= BitLen(v) { NoHighBits(v, i); }
      if v > 0 { TopBitSet(v); }
    }
  }
}
