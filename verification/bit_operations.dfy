/**
 * Bit-level helpers shared by the instructions: carry-out of 32-bit
 * additions, unsigned division and comparison, single-bit and bit-field
 * updates, and zero padding of printed numbers.
 *
 * A Java `int` is a `bv32`. Bit positions are `bv5`, because a Java shift
 * only uses the low five bits of its amount. The carry helpers widen their
 * operands to `long`, which is a `bv64` here.
 */
module BitOperations {

  /** Bit `i` of `x` is 1; bit 0 is the least significant one. */
  predicate Bit(i: bv5, x: bv32) {
    (x >> i) & 1 == 1
  }

  // ---------------------------------------------------------------------
  // Per-bit behaviour of the bitwise operators
  // ---------------------------------------------------------------------

  lemma BitAnd(i: bv5, x: bv32, y: bv32)
    ensures Bit(i, x & y) == (Bit(i, x) && Bit(i, y))
  {
    assert Bit(i, x & y) == (((x & y) >> i) & 1 == 1);
  }

  lemma BitOr(i: bv5, x: bv32, y: bv32)
    ensures Bit(i, x | y) == (Bit(i, x) || Bit(i, y))
  {
    assert Bit(i, x | y) == (((x | y) >> i) & 1 == 1);
  }

  lemma BitNot(i: bv5, x: bv32)
    ensures Bit(i, !x) == !Bit(i, x)
  {
    assert Bit(i, !x) == (((!x) >> i) & 1 == 1);
  }

  lemma BitOfOne(i: bv5, p: bv5)
    ensures Bit(i, OneAt(p)) == (i == p)
  {
    assert Bit(i, OneAt(p)) == ((((1 as bv32) << p) >> i) & 1 == 1);
  }

  // ---------------------------------------------------------------------
  // Carry-out
  // ---------------------------------------------------------------------

  /** Java's widening of an `int` to a `long`: the sign bit is copied upwards. */
  function Widen(x: bv32): (r: bv64)
    ensures r & 0xFFFF_FFFF == x as bv64
    ensures x < 0x8000_0000 ==> r == x as bv64
    ensures x >= 0x8000_0000 ==> r >> 32 == 0xFFFF_FFFF
  {
    if x < 0x8000_0000 then x as bv64 else x as bv64 | 0xFFFF_FFFF_0000_0000
  }

  /** Bit 32 of a `long`, as an `int`. */
  function Bit32(x: bv64): (r: bv32)
    ensures r == 0 || r == 1
    ensures r == 1 <==> x & 0x1_0000_0000 != 0
  {
    ((x & 0x1_0000_0000) >> 32) as bv32
  }

  /**
   * Carry-out of rA + rB + carry: bit 32 of the sum of the unsigned
   * operands (`CarryOutAddSum`). A carry other than 0 or 1 is accepted (the
   * Java code only warns) and is widened with its sign.
   */
  function CarryOutAdd(rA: bv32, rB: bv32, carry: bv32): (r: bv32)
    ensures r == 0 || r == 1
  {
    Bit32(rA as bv64 + rB as bv64 + Widen(carry))
  }

  /**
   * `carryOut` above `sum` spells the exact sum a + b + c of the unsigned
   * operands: `sum` is the 32-bit result and `carryOut` its bit 32.
   */
  predicate AddsWithCarry(a: bv32, b: bv32, c: bv32, carryOut: bv32, sum: bv32) {
    ((carryOut as bv64) << 32) | (sum as bv64) == a as bv64 + b as bv64 + c as bv64
  }

  /** The carry-out and the 32-bit sum together form the exact 33-bit sum. */
  lemma CarryOutAddSum(rA: bv32, rB: bv32, carry: bv32)
    requires carry <= 1
    ensures AddsWithCarry(rA, rB, carry, CarryOutAdd(rA, rB, carry), rA + rB + carry)
  {
    assert Widen(carry) == carry as bv64;
  }

  /**
   * The reverse-subtraction carry as the Java code computes it: bit 32 of
   * rB + ~rA + carry over `long`s. The complement is taken after rA has been
   * zero-extended, so it also sets bits 32 to 63 and the sum borrows from
   * them; the result is not the carry-out of the 32-bit sum (see
   * `CarryOutRsubCounterexample`).
   */
  function CarryOutRsubAsWritten(rA: bv32, rB: bv32, carry: bv32): (r: bv32)
    ensures r == 0 || r == 1
  {
    Bit32(rB as bv64 + !(rA as bv64) + Widen(carry))
  }

  /**
   * Carry-out of the 32-bit reverse subtraction rB + ~rA + carry, the value
   * the method's documentation promises: the complement is taken on 32 bits
   * and the carry is bit 32 of the unsigned sum.
   */
  function CarryOutRsub(rA: bv32, rB: bv32, carry: bv32): bv32 {
    CarryOutAdd(rB, Complement(rA), carry)
  }

  /** Java's `~` on an `int`. */
  function Complement(x: bv32): bv32 {
    !x
  }

  /**
   * The corrected carry is bit 32 of the exact sum
   * rB + ~rA + carry of the unsigned 32-bit operands.
   */
  lemma CarryOutRsubSpec(rA: bv32, rB: bv32, carry: bv32)
    requires carry <= 1
    ensures AddsWithCarry(rB, Complement(rA), carry, CarryOutRsub(rA, rB, carry), rB + Complement(rA) + carry)
  {
    CarryOutAddSum(rB, Complement(rA), carry);
  }

  /**
   * 0 - 0 with carry 1: the 32-bit sum 0 + 0xFFFFFFFF + 1 carries out, the
   * Java computation reports no carry.
   */
  lemma CarryOutRsubCounterexample()
    ensures 0 as bv64 + Complement(0) as bv64 + 1 == 0x1_0000_0000
    ensures CarryOutRsub(0, 0, 1) == 1
    ensures CarryOutRsubAsWritten(0, 0, 1) == 0
  {
  }

  // ---------------------------------------------------------------------
  // Unsigned division and comparison
  // ---------------------------------------------------------------------

  lemma MulAtLeast(y: int, q: nat)
    requires y >= 1
    ensures y * q >= q
  {
    assert y * q == q + (y - 1) * q;
  }

  lemma DivBounds(x: nat, y: int)
    requires y >= 1
    ensures 0 <= x / y <= x
    ensures y * (x / y) <= x < y * (x / y) + y
  {
    assert x == y * (x / y) + x % y && 0 <= x % y < y;
    MulAtLeast(y, x / y);
  }

  /**
   * The quotient of a and b read as unsigned 32-bit numbers. The Java code
   * divides the zero-extended `long`s; a zero divisor throws there, so it
   * is excluded here and callers test for it first.
   */
  function UnsignedDiv(a: bv32, b: bv32): (q: nat)
    requires b != 0
    ensures q <= a as int
    ensures (b as int) * q <= a as int < (b as int) * q + b as int
  {
    var x: nat := a as int;
    var y: int := b as int;
    DivBounds(x, y);
    x / y
  }

  /** a > b when both are read as unsigned 32-bit numbers. */
  function UnsignedComp(a: bv32, b: bv32): (r: bool)
    ensures r <==> a > b
  {
    a as bv64 > b as bv64
  }

  // ---------------------------------------------------------------------
  // Single bits
  // ---------------------------------------------------------------------

  /** Sets bit `bit` and keeps every other bit. */
  function SetBit(bit: bv5, target: bv32): (r: bv32)
    ensures Bit(bit, r)
    ensures forall i: bv5 :: i != bit ==> Bit(i, r) == Bit(i, target)
  {
    SetBitBits(bit, target);
    target | OneAt(bit)
  }

  lemma SetBitBits(bit: bv5, target: bv32)
    ensures forall i: bv5 :: Bit(i, target | OneAt(bit)) == (i == bit || Bit(i, target))
  {
    forall i: bv5 ensures Bit(i, target | OneAt(bit)) == (i == bit || Bit(i, target)) {
      SetBitBit(bit, target, i);
    }
  }

  lemma SetBitBit(bit: bv5, target: bv32, i: bv5)
    ensures Bit(i, target | OneAt(bit)) == (i == bit || Bit(i, target))
  {
    BitOr(i, target, OneAt(bit));
    BitOfOne(i, bit);
  }

  /** Clears bit `bit` and keeps every other bit. */
  function ClearBit(bit: bv5, target: bv32): (r: bv32)
    ensures !Bit(bit, r)
    ensures forall i: bv5 :: i != bit ==> Bit(i, r) == Bit(i, target)
  {
    ClearBitBits(bit, target);
    target & Complement(OneAt(bit))
  }

  /** The word whose only set bit is `p`. */
  function OneAt(p: bv5): bv32 {
    (1 as bv32) << p
  }

  lemma BitOfComplement(i: bv5, x: bv32)
    ensures Bit(i, Complement(x)) == !Bit(i, x)
  {
    BitNot(i, x);
  }

  lemma ClearBitBit(bit: bv5, target: bv32, i: bv5)
    ensures Bit(i, target & Complement(OneAt(bit))) == (i != bit && Bit(i, target))
  {
    BitAnd(i, target, Complement(OneAt(bit)));
    BitOfComplement(i, OneAt(bit));
    BitOfOne(i, bit);
  }

  lemma ClearBitBits(bit: bv5, target: bv32)
    ensures forall i: bv5 :: Bit(i, target & Complement(OneAt(bit))) == (i != bit && Bit(i, target))
  {
    forall i: bv5 ensures Bit(i, target & Complement(OneAt(bit))) == (i != bit && Bit(i, target)) {
      ClearBitBit(bit, target, i);
    }
  }

  /**
   * Writes `value` into bit `bit`. Only 0 and 1 are written; any other
   * value leaves the target unchanged (the Java code warns).
   */
  function WriteBit(bit: bv5, value: bv32, target: bv32): (r: bv32)
    ensures value == 0 || value == 1 ==> (Bit(bit, r) <==> value == 1)
    ensures value != 0 && value != 1 ==> r == target
    ensures forall i: bv5 :: i != bit ==> Bit(i, r) == Bit(i, target)
  {
    if value == 0 then ClearBit(bit, target)
    else if value == 1 then SetBit(bit, target)
    else target
  }

  /** Bit `position` of `target` as the number 0 or 1. */
  function GetBit(position: bv5, target: bv32): (r: bv32)
    ensures r == 0 || r == 1
    ensures r == 1 <==> Bit(position, target)
  {
    (target >> position) & 1
  }

  /** Reading back a bit just set, cleared or written returns what was put there. */
  lemma GetBitAfterWrite(bit: bv5, value: bv32, target: bv32)
    ensures GetBit(bit, SetBit(bit, target)) == 1
    ensures GetBit(bit, ClearBit(bit, target)) == 0
    ensures value == 0 || value == 1 ==> GetBit(bit, WriteBit(bit, value, target)) == value
  {
  }

  // ---------------------------------------------------------------------
  // Bit fields
  // ---------------------------------------------------------------------

  /** Ones exactly at positions [position, position + size). */
  function Mask(position: bv5, size: bv5): bv32 {
    LowMask(size) << position
  }

  /** Ones exactly at positions [0, size). */
  function LowMask(size: bv5): bv32 {
    ((1 as bv32) << size) - 1
  }

  /**
   * Writes the low `size` bits of `value` into bits [position, position + size)
   * of `target`. The Java code builds the complement of the field mask and
   * complements it again for the value; here the field mask is used directly.
   */
  function WriteBits(position: bv5, size: bv5, value: bv32, target: bv32): bv32 {
    (target & !Mask(position, size)) | ((value << position) & Mask(position, size))
  }

  /** Bit `i` of a word shifted left by `p` is bit `i - p` of the word, or 0 below `p`. */
  lemma BitShiftedLeft(i: bv5, p: bv5, x: bv32)
    ensures Bit(i, x << p) == (p <= i && Bit(i - p, x))
  {
  }

  lemma BitOfLowMask(i: bv5, size: bv5)
    ensures Bit(i, LowMask(size)) == (i < size)
  {
  }

  /** The field mask has bit `i` set exactly when `i` lies in [position, position + size). */
  lemma BitOfMask(i: bv5, position: bv5, size: bv5)
    ensures Bit(i, Mask(position, size)) == (position <= i && i - position < size)
  {
    BitShiftedLeft(i, position, LowMask(size));
    if position <= i {
      BitOfLowMask(i - position, size);
    }
  }

  /**
   * WriteBits, bit by bit: inside the field, bit `i` is bit `i - position`
   * of the value; outside it, bit `i` of the target is kept. Bits of the
   * field past bit 31 are dropped.
   */
  lemma WriteBitsBit(position: bv5, size: bv5, value: bv32, target: bv32, i: bv5)
    ensures Bit(i, WriteBits(position, size, value, target)) ==
      if position <= i && i - position < size then Bit(i - position, value) else Bit(i, target)
  {
    if position <= i && i - position < size {
      WriteBitsInside(position, size, value, target, i);
    } else {
      WriteBitsOutside(position, size, value, target, i);
    }
  }

  lemma WriteBitsInside(position: bv5, size: bv5, value: bv32, target: bv32, i: bv5)
    requires position <= i && i - position < size
    ensures Bit(i, WriteBits(position, size, value, target)) == Bit(i - position, value)
  {
    WriteBitsMerge(position, size, value, target, i);
    BitOfMask(i, position, size);
    BitShiftedLeft(i, position, value);
  }

  lemma WriteBitsOutside(position: bv5, size: bv5, value: bv32, target: bv32, i: bv5)
    requires !(position <= i && i - position < size)
    ensures Bit(i, WriteBits(position, size, value, target)) == Bit(i, target)
  {
    WriteBitsMerge(position, size, value, target, i);
    BitOfMask(i, position, size);
  }

  /** Bit `i` of a field write is the shifted value's inside the mask and the target's outside it. */
  lemma WriteBitsMerge(position: bv5, size: bv5, value: bv32, target: bv32, i: bv5)
    ensures Bit(i, Mask(position, size)) ==>
      Bit(i, WriteBits(position, size, value, target)) == Bit(i, value << position)
    ensures !Bit(i, Mask(position, size)) ==>
      Bit(i, WriteBits(position, size, value, target)) == Bit(i, target)
  {
    FieldBit(i, WriteBits(position, size, value, target), target, value << position, Mask(position, size));
  }

  /** Bit `i` of a masked merge `w` comes from `x` where the mask is set and from `t` elsewhere. */
  lemma FieldBit(i: bv5, w: bv32, t: bv32, x: bv32, m: bv32)
    requires w == (t & !m) | (x & m)
    ensures Bit(i, m) ==> Bit(i, w) == Bit(i, x)
    ensures !Bit(i, m) ==> Bit(i, w) == Bit(i, t)
  {
  }

  /**
   * Writing a 16-bit field at bit 16 puts the low half of `upper` above the
   * low half of `target`.
   */
  lemma WriteUpperHalf(upper: bv32, target: bv32)
    ensures WriteBits(16, 16, upper, target) == (upper << 16) | (target & 0xFFFF)
  {
    assert Mask(16, 16) == 0xFFFF_0000;
  }

  /**
   * The word whose upper half is the low half of `upper` and whose lower
   * half is the low half of `lower`.
   */
  function JoinHalves(upper: bv32, lower: bv32): bv32 {
    (upper << 16) | (lower & 0xFFFF)
  }

  /** The upper half of the joined word is the low half of `upper`. */
  lemma JoinedUpper(upper: bv32, lower: bv32)
    ensures JoinHalves(upper, lower) >> 16 == upper & 0xFFFF
  {
  }

  /** The lower half of the joined word is the low half of `lower`. */
  lemma JoinedLower(upper: bv32, lower: bv32)
    ensures JoinHalves(upper, lower) & 0xFFFF == lower & 0xFFFF
  {
  }

  /** `JoinHalves` is the 16-bit field write at bit 16. */
  lemma JoinHalvesIsFieldWrite(upper: bv32, lower: bv32)
    ensures JoinHalves(upper, lower) == WriteBits(16, 16, upper, lower)
  {
    WriteUpperHalf(upper, lower);
  }

  // ---------------------------------------------------------------------
  // Padding
  // ---------------------------------------------------------------------

  function Zeros(n: nat): (r: string)
    ensures |r| == n && forall i :: 0 <= i < n ==> r[i] == '0'
  {
    seq(n, _ => '0')
  }

  /** Left-pads a binary string with '0' up to `size` characters; a longer string is returned as is. */
  function PadBinaryString(binaryNumber: string, size: int): (r: string)
    ensures |binaryNumber| >= size ==> r == binaryNumber
    ensures |binaryNumber| < size ==>
      |r| == size && r[size - |binaryNumber|..] == binaryNumber
      && forall i :: 0 <= i < size - |binaryNumber| ==> r[i] == '0'
  {
    if |binaryNumber| >= size then binaryNumber
    else Zeros(size - |binaryNumber|) + binaryNumber
  }

  /** Like `PadBinaryString`, but a padded result also gets the prefix "0x". */
  function PadHexString(hexNumber: string, size: int): (r: string)
    ensures |hexNumber| >= size ==> r == hexNumber
    ensures |hexNumber| < size ==>
      |r| == size + 2 && r[..2] == "0x" && r[size + 2 - |hexNumber|..] == hexNumber
      && forall i :: 2 <= i < size + 2 - |hexNumber| ==> r[i] == '0'
  {
    if |hexNumber| >= size then hexNumber
    else "0x" + Zeros(size - |hexNumber|) + hexNumber
  }
}
