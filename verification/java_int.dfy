/**
 * Java `int` arithmetic on 32-bit words. A Java `int` is kept as its bit
 * pattern, a `bv32`; `Signed` reads it as the two's-complement number Java
 * sees. Addition, subtraction, multiplication and the bitwise operators are
 * the `bv32` ones (they wrap exactly as Java's do); comparison, division and
 * the arithmetic right shift go through the signed reading.
 */
module JavaInt {
  import opened BitOperations

  const Modulus: int := 0x1_0000_0000
  const MinInt: bv32 := 0x8000_0000

  /** The two's-complement value of a word. */
  function Signed(x: bv32): int {
    if x < 0x8000_0000 then x as int else x as int - Modulus
  }

  /** The word holding `i` reduced modulo 2^32, as a Java narrowing cast does. */
  function ToWord(i: int): bv32 {
    (i % Modulus) as bv32
  }

  /** Java's widening of a `short` to an `int`: the sign is copied upwards. */
  function SignExtend(v: int): bv32 {
    ToWord(v)
  }

  function Abs(i: int): nat {
    if i < 0 then -i else i
  }

  /**
   * Java's `/` on integers: the quotient rounded toward zero. The
   * remainder it leaves is smaller than the divisor in magnitude and has
   * the sign of the dividend.
   */
  function TruncDiv(a: int, b: int): (q: int)
    requires b != 0
    ensures Abs(a - b * q) < Abs(b)
    ensures a - b * q == 0 || (a - b * q < 0 <==> a < 0)
  {
    var m := Abs(a) / Abs(b);
    DivBounds(Abs(a), Abs(b));
    TruncDivCases(a, b, m);
    var q := if (a < 0) == (b < 0) then m else -(m as int);
    q
  }

  lemma TruncDivCases(a: int, b: int, m: nat)
    requires b != 0
    requires Abs(b) * m <= Abs(a) < Abs(b) * m + Abs(b)
    ensures (a < 0) == (b < 0) ==> Abs(a - b * m) < Abs(b) && (a - b * m == 0 || (a - b * m < 0 <==> a < 0))
    ensures (a < 0) != (b < 0) ==>
      var q := -(m as int);
      Abs(a - b * q) < Abs(b) && (a - b * q == 0 || (a - b * q < 0 <==> a < 0))
  {
    assert b * -(m as int) == -(b * m);
    if b < 0 {
      assert Abs(b) * m == -(b * m);
    } else {
      assert Abs(b) * m == b * m;
    }
  }

  /** The quotient of Java's `int` division `a / b`, narrowed to a word. */
  function Div(a: bv32, b: bv32): bv32
    requires b != 0
  {
    ToWord(TruncDiv(Signed(a), Signed(b)))
  }

  /** Java's `>>`: a right shift that copies the sign bit into the vacated bits. */
  function ShiftRightArithmetic(x: bv32, n: bv5): bv32 {
    if x < 0x8000_0000 then x >> n else !(!x >> n)
  }

  /**
   * Shifting right arithmetically by one keeps the sign bit and moves every
   * other bit down one place; the bit shifted out is bit 0.
   */
  lemma HalveKeepsSign(x: bv32)
    ensures ShiftRightArithmetic(x, 1) >> 31 == x >> 31
    ensures ShiftRightArithmetic(x, 1) << 1 == x & 0xFFFF_FFFE
  {
    if x < 0x8000_0000 {
      LogicalHalf(x);
    } else {
      NegatedHalf(x);
    }
  }

  lemma LogicalHalf(x: bv32)
    requires x < 0x8000_0000
    ensures (x >> 1) >> 31 == x >> 31 && (x >> 1) << 1 == x & 0xFFFF_FFFE
  {
  }

  lemma NegatedHalf(x: bv32)
    requires x >= 0x8000_0000
    ensures !(!x >> 1) >> 31 == x >> 31 && !(!x >> 1) << 1 == x & 0xFFFF_FFFE
  {
  }

  /** On a non-negative word the arithmetic and the logical shift agree. */
  lemma ShiftRightNonNegative(x: bv32, n: bv5)
    requires x < 0x8000_0000
    ensures ShiftRightArithmetic(x, n) == x >> n
  {
  }

  /** On a negative word the arithmetic shift fills the vacated bits with ones. */
  lemma ShiftRightNegative(x: bv32, n: bv5)
    requires x >= 0x8000_0000
    ensures ShiftRightArithmetic(x, n) | (0xFFFF_FFFF >> n) == 0xFFFF_FFFF
    ensures ShiftRightArithmetic(x, n) & (0xFFFF_FFFF >> n) == x >> n
  {
  }

  /** Java masks an `int` shift distance to its low five bits. */
  function ShiftDistance(amount: bv32): bv5 {
    (amount & 31) as bv5
  }
}
