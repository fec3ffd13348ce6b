/**
 * The arithmetic and logic instructions: add, addi, and, andi, or, mul,
 * cmp, idiv, sra, the barrel shifts bsrli/bsrai/bslli, sext16 and imm.
 *
 * Each one reads its source registers, computes a word, writes it to rD
 * (discarded when rD is r0) and reports its latency; none is a branch. The
 * operand fields (register indices, the immediate widened to 32 bits and
 * the option letters of the mnemonic) are decoded by `InstructionBuilder`.
 */
module AluInstructions {
  import opened Wrappers
  import opened BitOperations
  import opened JavaInt
  import opened Machine
  import SpecialRegisters
  import LockRegister
  import MsrTools

  /** The carry-in of an add: the MSR carry bit when the mnemonic has a 'c', else 0. */
  function CarryIn(hw: Hardware, useCarry: bool): (c: bv32)
    ensures c <= 1
  {
    if useCarry then SpecialRegisters.GetCarryBit(hw.sprs) else 0
  }

  // ---------------------------------------------------------------------
  // add, addc, addk, addkc
  // ---------------------------------------------------------------------

  /** The word an add writes: the operands and the carry-in summed modulo 2^32. */
  function Sum(a: bv32, b: bv32, c: bv32): bv32 {
    a + b + c
  }

  /**
   * add: rD receives rA + rB + carry-in modulo 2^32. Without 'k' the carry
   * out of that sum is written to C and CC; with 'k' the MSR is kept.
   */
  function Add(hw: Hardware, rd: nat, ra: nat, rb: nat, useCarry: bool, keepCarry: bool): (r: Result<Outcome, ExecError>)
    ensures r.Success? <==> rd < 32 && ra < 32 && rb < 32
    ensures r.Success? ==>
      var a, b, c := hw.regs[ra], hw.regs[rb], CarryIn(hw, useCarry);
      && RegsWritten(hw.regs, r.value.hw.regs, rd, Sum(a, b, c))
      && r.value.hw.sprs == (if keepCarry then hw.sprs else SpecialRegisters.WriteCarryBit(hw.sprs, CarryOutAdd(a, b, c)))
      && r.value.hw.lock == hw.lock && r.value.hw.memory == hw.memory
      && r.value.latency == 1
  {
    var carry := CarryIn(hw, useCarry);
    var a :- ReadReg(hw, ra);
    var b :- ReadReg(hw, rb);
    var h :- WriteReg(hw, rd, Sum(a, b, carry));
    var sprs := if keepCarry then h.sprs else SpecialRegisters.WriteCarryBit(h.sprs, CarryOutAdd(a, b, carry));
    Success(Outcome(h.(sprs := sprs), 1))
  }

  /**
   * Without 'k', the carry bit left in the MSR and the word written to rD
   * together spell the exact 33-bit sum of rA, rB and the carry-in.
   */
  lemma AddCarryChain(hw: Hardware, rd: nat, ra: nat, rb: nat, useCarry: bool)
    requires Add(hw, rd, ra, rb, useCarry, false).Success?
    requires rd != 0
    ensures var after := Add(hw, rd, ra, rb, useCarry, false).value.hw;
      AddsWithCarry(hw.regs[ra], hw.regs[rb], CarryIn(hw, useCarry),
        SpecialRegisters.GetCarryBit(after.sprs), after.regs[rd])
  {
    var a, b, c := hw.regs[ra], hw.regs[rb], CarryIn(hw, useCarry);
    SumCarry(a, b, c);
    SpecialRegisters.CarryRoundTrip(hw.sprs, CarryOutAdd(a, b, c));
  }

  /** The carry out and the word `Sum` leaves are the two halves of the exact sum. */
  lemma SumCarry(a: bv32, b: bv32, c: bv32)
    requires c <= 1
    ensures AddsWithCarry(a, b, c, CarryOutAdd(a, b, c), Sum(a, b, c))
  {
    CarryOutAddSum(a, b, c);
  }

  // ---------------------------------------------------------------------
  // addi, addic, addik, addikc
  // ---------------------------------------------------------------------

  /**
   * addi: rD receives rA + immediate + carry-in, where the immediate is
   * extended by a preceding IMM when the lock register is locked. Without
   * 'k' the carry out is written to C and CC.
   */
  function Addi(hw: Hardware, rd: nat, ra: nat, imm: bv32, useCarry: bool, keepCarry: bool): (r: Result<Outcome, ExecError>)
    ensures r.Success? <==> rd < 32 && ra < 32
    ensures r.Success? ==>
      var a, i, c := hw.regs[ra], LockRegister.ProcessImmediate(hw.lock, imm), CarryIn(hw, useCarry);
      && RegsWritten(hw.regs, r.value.hw.regs, rd, Sum(a, i, c))
      && r.value.hw.sprs == (if keepCarry then hw.sprs else SpecialRegisters.WriteCarryBit(hw.sprs, CarryOutAdd(a, i, c)))
      && r.value.hw.lock == hw.lock && r.value.hw.memory == hw.memory
      && r.value.latency == 1
  {
    var carry := CarryIn(hw, useCarry);
    var a :- ReadReg(hw, ra);
    var immediate := LockRegister.ProcessImmediate(hw.lock, imm);
    var h :- WriteReg(hw, rd, Sum(a, immediate, carry));
    var sprs := if keepCarry then h.sprs else SpecialRegisters.WriteCarryBit(h.sprs, CarryOutAdd(a, immediate, carry));
    Success(Outcome(h.(sprs := sprs), 1))
  }

  /**
   * After an IMM, addi adds the 32-bit value whose upper half is the IMM
   * operand and whose lower half is its own immediate; with the lock open
   * it adds its immediate as it is.
   */
  lemma AddiImmediate(hw: Hardware, rd: nat, ra: nat, imm: bv32, useCarry: bool, keepCarry: bool)
    requires Addi(hw, rd, ra, imm, useCarry, keepCarry).Success?
    requires rd != 0
    ensures var v := Addi(hw, rd, ra, imm, useCarry, keepCarry).value.hw.regs[rd];
      && (hw.lock.IsLocked() ==>
            v == Sum(hw.regs[ra], (hw.lock.immediate << 16) | (imm & 0xFFFF), CarryIn(hw, useCarry)))
      && (!hw.lock.IsLocked() ==> v == Sum(hw.regs[ra], imm, CarryIn(hw, useCarry)))
  {
  }

  // ---------------------------------------------------------------------
  // and, andi, or, mul, sext16
  // ---------------------------------------------------------------------

  /** and: rD receives rA & rB. */
  function And(hw: Hardware, rd: nat, ra: nat, rb: nat): (r: Result<Outcome, ExecError>)
    ensures r.Success? <==> rd < 32 && ra < 32 && rb < 32
    ensures r.Success? ==>
      && RegsWritten(hw.regs, r.value.hw.regs, rd, hw.regs[ra] & hw.regs[rb])
      && r.value.hw.sprs == hw.sprs && r.value.hw.lock == hw.lock && r.value.hw.memory == hw.memory
      && r.value.latency == 1
  {
    var a :- ReadReg(hw, ra);
    var b :- ReadReg(hw, rb);
    var h :- WriteReg(hw, rd, a & b);
    Success(Outcome(h, 1))
  }

  /**
   * The two source registers of and can be exchanged (only the register
   * named in a failure can differ).
   */
  lemma AndCommutes(hw: Hardware, rd: nat, ra: nat, rb: nat)
    ensures And(hw, rd, ra, rb).Success? == And(hw, rd, rb, ra).Success?
    ensures And(hw, rd, ra, rb).Success? ==> And(hw, rd, ra, rb).value == And(hw, rd, rb, ra).value
  {
    if rd < 32 && ra < 32 && rb < 32 {
      var x, y := And(hw, rd, ra, rb).value.hw.regs, And(hw, rd, rb, ra).value.hw.regs;
      assert forall k :: 0 <= k < 32 ==> x[k] == y[k];
      assert x == y;
      var p, q := And(hw, rd, ra, rb).value, And(hw, rd, rb, ra).value;
      assert p.hw == q.hw;
      assert p == q;
    }
  }

  /** andi: rD receives rA & immediate, the immediate extended by a preceding IMM. */
  function Andi(hw: Hardware, rd: nat, ra: nat, imm: bv32): (r: Result<Outcome, ExecError>)
    ensures r.Success? <==> rd < 32 && ra < 32
    ensures r.Success? ==>
      && RegsWritten(hw.regs, r.value.hw.regs, rd, hw.regs[ra] & LockRegister.ProcessImmediate(hw.lock, imm))
      && r.value.hw.sprs == hw.sprs && r.value.hw.lock == hw.lock && r.value.hw.memory == hw.memory
      && r.value.latency == 1
  {
    var a :- ReadReg(hw, ra);
    var h :- WriteReg(hw, rd, a & LockRegister.ProcessImmediate(hw.lock, imm));
    Success(Outcome(h, 1))
  }

  /** Every bit set in the andi result is set in rA. */
  lemma AndiSubsetOfSource(hw: Hardware, rd: nat, ra: nat, imm: bv32)
    requires Andi(hw, rd, ra, imm).Success? && rd != 0
    ensures var v := Andi(hw, rd, ra, imm).value.hw.regs[rd];
      v & hw.regs[ra] == v
  {
  }

  /** or: rD receives rA | rB. */
  function Or(hw: Hardware, rd: nat, ra: nat, rb: nat): (r: Result<Outcome, ExecError>)
    ensures r.Success? <==> rd < 32 && ra < 32 && rb < 32
    ensures r.Success? ==>
      && RegsWritten(hw.regs, r.value.hw.regs, rd, hw.regs[ra] | hw.regs[rb])
      && r.value.hw.sprs == hw.sprs && r.value.hw.lock == hw.lock && r.value.hw.memory == hw.memory
      && r.value.latency == 1
  {
    var a :- ReadReg(hw, ra);
    var b :- ReadReg(hw, rb);
    var h :- WriteReg(hw, rd, a | b);
    Success(Outcome(h, 1))
  }

  /** Every bit set in either source register is set in the or result. */
  lemma OrSupersetOfSources(hw: Hardware, rd: nat, ra: nat, rb: nat)
    requires Or(hw, rd, ra, rb).Success? && rd != 0
    ensures var v := Or(hw, rd, ra, rb).value.hw.regs[rd];
      v | hw.regs[ra] == v && v | hw.regs[rb] == v
  {
  }

  /** The word a mul writes: the low 32 bits of the product. */
  function Product(a: bv32, b: bv32): bv32 {
    a * b
  }

  /** mul: rD receives the low 32 bits of rA * rB; the MSR is untouched. */
  function Mul(hw: Hardware, config: Config, rd: nat, ra: nat, rb: nat): (r: Result<Outcome, ExecError>)
    ensures r.Success? <==> rd < 32 && ra < 32 && rb < 32
    ensures r.Success? ==>
      && RegsWritten(hw.regs, r.value.hw.regs, rd, Product(hw.regs[ra], hw.regs[rb]))
      && r.value.hw.sprs == hw.sprs && r.value.hw.lock == hw.lock && r.value.hw.memory == hw.memory
      && r.value.latency == (if config.areaOptimized == 0 then 1 else 3)
  {
    var a :- ReadReg(hw, ra);
    var b :- ReadReg(hw, rb);
    var h :- WriteReg(hw, rd, Product(a, b));
    Success(Outcome(h, AreaLatency(config, 1, 3)))
  }

  /** Multiplying by a register that holds 1 copies the other operand; by one holding 0 gives 0. */
  lemma MulByUnit(hw: Hardware, config: Config, rd: nat, ra: nat, rb: nat)
    requires Mul(hw, config, rd, ra, rb).Success? && rd != 0
    ensures hw.regs[rb] == 1 ==> Mul(hw, config, rd, ra, rb).value.hw.regs[rd] == hw.regs[ra]
    ensures hw.regs[rb] == 0 ==> Mul(hw, config, rd, ra, rb).value.hw.regs[rd] == 0
  {
    ProductByUnit(hw.regs[ra], hw.regs[rb]);
  }

  lemma ProductByUnit(a: bv32, b: bv32)
    ensures b == 1 ==> Product(a, b) == a
    ensures b == 0 ==> Product(a, b) == 0
  {
  }

  /** mul rD, rA, rB and mul rD, rB, rA succeed together and leave the same state. */
  lemma MulCommutes(hw: Hardware, config: Config, rd: nat, ra: nat, rb: nat)
    ensures Mul(hw, config, rd, ra, rb).Success? <==> Mul(hw, config, rd, rb, ra).Success?
    ensures Mul(hw, config, rd, ra, rb).Success? ==>
      Mul(hw, config, rd, ra, rb).value == Mul(hw, config, rd, rb, ra).value
  {
    if ra < 32 && rb < 32 {
      ProductCommutes(hw.regs[ra], hw.regs[rb]);
    }
  }

  lemma ProductCommutes(a: bv32, b: bv32)
    ensures Product(a, b) == Product(b, a)
  {
  }

  /**
   * Multiplying by a register holding -1 negates: the result added to the
   * other operand wraps to 0, as Java's `x * -1 == -x` does.
   */
  lemma MulByMinusOne(hw: Hardware, config: Config, rd: nat, ra: nat, rb: nat)
    requires Mul(hw, config, rd, ra, rb).Success? && rd != 0
    requires hw.regs[rb] == 0xFFFF_FFFF
    ensures Mul(hw, config, rd, ra, rb).value.hw.regs[rd] + hw.regs[ra] == 0
  {
    ProductByMinusOne(hw.regs[ra]);
  }

  lemma ProductByMinusOne(a: bv32)
    ensures Product(a, 0xFFFF_FFFF) + a == 0
  {
  }

  /** sext16: rD receives rA unchanged (this version performs no sign extension). */
  function Sext16(hw: Hardware, rd: nat, ra: nat): (r: Result<Outcome, ExecError>)
    ensures r.Success? <==> rd < 32 && ra < 32
    ensures r.Success? ==>
      && RegsWritten(hw.regs, r.value.hw.regs, rd, hw.regs[ra])
      && r.value.hw.sprs == hw.sprs && r.value.hw.lock == hw.lock && r.value.hw.memory == hw.memory
      && r.value.latency == 1
  {
    var a :- ReadReg(hw, ra);
    var h :- WriteReg(hw, rd, a);
    Success(Outcome(h, 1))
  }

  /**
   * sext16 copies: afterwards rD and rA hold the same word (unless rD is
   * r0), rA still holds its old word, and a second sext16 changes nothing.
   */
  lemma Sext16Copies(hw: Hardware, rd: nat, ra: nat)
    requires Sext16(hw, rd, ra).Success?
    ensures var after := Sext16(hw, rd, ra).value.hw;
      && (rd != 0 ==> after.regs[rd] == hw.regs[ra])
      && (ra != rd ==> after.regs[ra] == hw.regs[ra])
      && Sext16(after, rd, ra).value.hw == after
  {
    var after := Sext16(hw, rd, ra).value.hw;
    var again := Sext16(after, rd, ra).value.hw;
    assert forall k :: 0 <= k < 32 ==> again.regs[k] == after.regs[k];
  }

  // ---------------------------------------------------------------------
  // cmp, cmpu
  // ---------------------------------------------------------------------

  /** rA > rB, compared as signed words, or as unsigned ones for cmpu. */
  predicate Greater(a: bv32, b: bv32, unsigned: bool) {
    if unsigned then UnsignedComp(a, b) else Signed(a) > Signed(b)
  }

  /**
   * The word a cmp writes: rB + ~rA + 1 with its top bit set when rA > rB
   * and cleared otherwise.
   */
  function Compare(a: bv32, b: bv32, greater: bool): bv32 {
    var d := b + !a + 1;
    if greater then SetBit(31, d) else ClearBit(31, d)
  }

  /**
   * The top bit of the cmp word is the comparison outcome; the other bits
   * are those of rB + ~rA + 1.
   */
  lemma CompareBits(a: bv32, b: bv32, greater: bool)
    ensures Bit(31, Compare(a, b, greater)) <==> greater
    ensures Compare(a, b, greater) & 0x7FFF_FFFF == (b + !a + 1) & 0x7FFF_FFFF
  {
  }

  /** rB + ~rA + 1, the word cmp starts from, is the two's-complement difference rB - rA. */
  lemma ComplementNegates(a: bv32, b: bv32)
    ensures b + !a + 1 == b - a
  {
  }

  /** cmp: rD receives the comparison word of rA and rB. */
  function Cmp(hw: Hardware, rd: nat, ra: nat, rb: nat, unsigned: bool): (r: Result<Outcome, ExecError>)
    ensures r.Success? <==> rd < 32 && ra < 32 && rb < 32
    ensures r.Success? ==>
      var a, b := hw.regs[ra], hw.regs[rb];
      && RegsWritten(hw.regs, r.value.hw.regs, rd, Compare(a, b, Greater(a, b, unsigned)))
      && r.value.hw.sprs == hw.sprs && r.value.hw.lock == hw.lock && r.value.hw.memory == hw.memory
      && r.value.latency == 1
  {
    var a :- ReadReg(hw, ra);
    var b :- ReadReg(hw, rb);
    var h :- WriteReg(hw, rd, Compare(a, b, Greater(a, b, unsigned)));
    Success(Outcome(h, 1))
  }

  /** cmp never reports both rA > rB and rB > rA. */
  lemma CmpAsymmetric(hw: Hardware, rd: nat, ra: nat, rb: nat, unsigned: bool)
    requires Cmp(hw, rd, ra, rb, unsigned).Success? && rd != 0
    ensures Bit(31, Cmp(hw, rd, ra, rb, unsigned).value.hw.regs[rd]) ==>
      !Bit(31, Cmp(hw, rd, rb, ra, unsigned).value.hw.regs[rd])
  {
    var a, b := hw.regs[ra], hw.regs[rb];
    CompareBits(a, b, Greater(a, b, unsigned));
    CompareBits(b, a, Greater(b, a, unsigned));
  }

  /** Comparing a register with itself leaves the top bit clear. */
  lemma CmpIrreflexive(hw: Hardware, rd: nat, ra: nat, unsigned: bool)
    requires Cmp(hw, rd, ra, ra, unsigned).Success? && rd != 0
    ensures !Bit(31, Cmp(hw, rd, ra, ra, unsigned).value.hw.regs[rd])
  {
    CompareBits(hw.regs[ra], hw.regs[ra], Greater(hw.regs[ra], hw.regs[ra], unsigned));
  }

  // ---------------------------------------------------------------------
  // idiv, idivu
  // ---------------------------------------------------------------------

  /** The status of a faulting divide: DZO set, exception cause 5, and the DEC bit given. */
  function DivideFault(sprs: SpecialRegisters.Sprs, dec: bv32): (s: SpecialRegisters.Sprs)
    requires dec <= 1
    ensures MsrTools.ReadBit(MsrTools.DZO, s[SpecialRegisters.Msr]) == 1
    ensures s[SpecialRegisters.Esr] & 0x1F == 5
    ensures GetBit(SpecialRegisters.DecPosition, s[SpecialRegisters.Esr]) == dec
    ensures s[SpecialRegisters.Pc] == sprs[SpecialRegisters.Pc]
  {
    var s1 := SpecialRegisters.WriteDzoBit(sprs, 1);
    var s2 := SpecialRegisters.WriteEcBits(s1, 5);
    SpecialRegisters.WriteDecBit(s2, dec)
  }

  /** The divisor -1 and the dividend -2^31, whose signed quotient overflows. */
  predicate DivideOverflow(a: bv32, b: bv32, unsigned: bool) {
    !unsigned && a == 0xFFFF_FFFF && b == MinInt
  }

  /** The quotient rB / rA that idiv writes when it does not fault. */
  function Quotient(a: bv32, b: bv32, unsigned: bool): bv32
    requires a != 0
  {
    if unsigned then ToWord(UnsignedDiv(b, a)) else Div(b, a)
  }

  /**
   * idiv: rD receives rB / rA. A zero divisor writes 0 and records a
   * divide-by-zero fault (DEC 0); the overflowing signed division writes
   * rB and records a fault with DEC 1. The latency is 1 for a zero divisor
   * and otherwise 32, or 34 when area-optimized.
   */
  function Idiv(hw: Hardware, config: Config, rd: nat, ra: nat, rb: nat, unsigned: bool): (r: Result<Outcome, ExecError>)
    ensures r.Success? <==> rd < 32 && ra < 32 && rb < 32
    ensures r.Success? ==>
      var a, b := hw.regs[ra], hw.regs[rb];
      && r.value.hw.lock == hw.lock && r.value.hw.memory == hw.memory
      && (r.value.latency == 1 <==> a == 0)
      && (a != 0 ==> r.value.latency == (if config.areaOptimized == 0 then 32 else 34))
      && (a == 0 ==> RegsWritten(hw.regs, r.value.hw.regs, rd, 0)
                     && r.value.hw.sprs == DivideFault(hw.sprs, 0))
      && (a != 0 && DivideOverflow(a, b, unsigned) ==>
            RegsWritten(hw.regs, r.value.hw.regs, rd, b) && r.value.hw.sprs == DivideFault(hw.sprs, 1))
      && (a != 0 && !DivideOverflow(a, b, unsigned) ==>
            RegsWritten(hw.regs, r.value.hw.regs, rd, Quotient(a, b, unsigned)) && r.value.hw.sprs == hw.sprs)
  {
    var a :- ReadReg(hw, ra);
    var b :- ReadReg(hw, rb);
    if a == 0 then
      var h :- WriteReg(hw.(sprs := DivideFault(hw.sprs, 0)), rd, 0);
      Success(Outcome(h, 1))
    else if DivideOverflow(a, b, unsigned) then
      var h :- WriteReg(hw.(sprs := DivideFault(hw.sprs, 1)), rd, b);
      Success(Outcome(h, AreaLatency(config, 32, 34)))
    else
      var h :- WriteReg(hw, rd, Quotient(a, b, unsigned));
      Success(Outcome(h, AreaLatency(config, 32, 34)))
  }

  // ---------------------------------------------------------------------
  // sra, bsrli, bsrai, bslli
  // ---------------------------------------------------------------------

  /**
   * sra: bit 0 of rA goes to the carry (C and CC) and rD receives rA
   * shifted right by one with the sign bit kept.
   */
  function Sra(hw: Hardware, rd: nat, ra: nat): (r: Result<Outcome, ExecError>)
    ensures r.Success? <==> rd < 32 && ra < 32
    ensures r.Success? ==>
      && r.value.hw.sprs == SpecialRegisters.WriteCarryBit(hw.sprs, GetBit(0, hw.regs[ra]))
      && RegsWritten(hw.regs, r.value.hw.regs, rd, ShiftRightArithmetic(hw.regs[ra], 1))
      && r.value.hw.lock == hw.lock && r.value.hw.memory == hw.memory
      && r.value.latency == 1
  {
    var a :- ReadReg(hw, ra);
    var sprs := SpecialRegisters.WriteCarryBit(hw.sprs, GetBit(0, a));
    var h :- WriteReg(hw.(sprs := sprs), rd, ShiftRightArithmetic(a, 1));
    Success(Outcome(h, 1))
  }

  /**
   * sra loses nothing: rD keeps the sign of rA, and rD shifted back left
   * with the carry bit in bit 0 is rA again.
   */
  lemma SraInverse(hw: Hardware, rd: nat, ra: nat)
    requires Sra(hw, rd, ra).Success? && rd != 0
    ensures var after := Sra(hw, rd, ra).value.hw;
      && after.regs[rd] >> 31 == hw.regs[ra] >> 31
      && (after.regs[rd] << 1) | SpecialRegisters.GetCarryBit(after.sprs) == hw.regs[ra]
  {
    SraCarry(hw, rd, ra);
    SraHalf(hw, rd, ra);
    SraSign(hw, rd, ra);
  }

  lemma SraCarry(hw: Hardware, rd: nat, ra: nat)
    requires Sra(hw, rd, ra).Success? && rd != 0
    ensures SpecialRegisters.GetCarryBit(Sra(hw, rd, ra).value.hw.sprs) == GetBit(0, hw.regs[ra])
  {
    SpecialRegisters.CarryRoundTrip(hw.sprs, GetBit(0, hw.regs[ra]));
  }

  lemma SraHalf(hw: Hardware, rd: nat, ra: nat)
    requires Sra(hw, rd, ra).Success? && rd != 0
    ensures var v := Sra(hw, rd, ra).value.hw.regs[rd];
      (v << 1) | GetBit(0, hw.regs[ra]) == hw.regs[ra]
  {
    HalfAndCarry(hw.regs[ra]);
  }

  lemma SraSign(hw: Hardware, rd: nat, ra: nat)
    requires Sra(hw, rd, ra).Success? && rd != 0
    ensures Sra(hw, rd, ra).value.hw.regs[rd] >> 31 == hw.regs[ra] >> 31
  {
    HalfAndCarry(hw.regs[ra]);
  }

  /** The arithmetic half of a word, shifted back, with bit 0 or-ed in, is the word. */
  lemma HalfAndCarry(a: bv32)
    ensures ShiftRightArithmetic(a, 1) >> 31 == a >> 31
    ensures (ShiftRightArithmetic(a, 1) << 1) | GetBit(0, a) == a
  {
    HalveKeepsSign(a);
    LowBitRestores(a, GetBit(0, a));
  }

  /** Clearing bit 0 of a word and or-ing its bit 0 back in gives the word. */
  lemma LowBitRestores(a: bv32, g: bv32)
    requires g == 0 || g == 1
    requires g == 1 <==> Bit(0, a)
    ensures (a & 0xFFFF_FFFE) | g == a
  {
  }

  /** The word a barrel shift writes. */
  function Shift(a: bv32, n: bv5, left: bool, arithmetic: bool): bv32 {
    if left then a << n else if arithmetic then ShiftRightArithmetic(a, n) else a >> n
  }

  /**
   * bsrli, bsrai, bslli: rD receives rA shifted by the immediate taken
   * modulo 32. A mnemonic without 'r' shifts left; one with 'a' shifts
   * right arithmetically, otherwise logically. The lock register is not
   * consulted.
   */
  function Bsi(hw: Hardware, config: Config, rd: nat, ra: nat, imm: bv32, left: bool, arithmetic: bool): (r: Result<Outcome, ExecError>)
    ensures r.Success? <==> rd < 32 && ra < 32
    ensures r.Success? ==>
      && RegsWritten(hw.regs, r.value.hw.regs, rd, Shift(hw.regs[ra], ShiftDistance(imm), left, arithmetic))
      && r.value.hw.sprs == hw.sprs && r.value.hw.lock == hw.lock && r.value.hw.memory == hw.memory
      && r.value.latency == (if config.areaOptimized == 0 then 1 else 2)
  {
    var a :- ReadReg(hw, ra);
    var h :- WriteReg(hw, rd, Shift(a, ShiftDistance(imm), left, arithmetic));
    Success(Outcome(h, AreaLatency(config, 1, 2)))
  }

  /**
   * A left shift followed by a logical right shift over the same distance
   * clears the bits shifted out and keeps the rest; on a non-negative word
   * the arithmetic and the logical right shift agree.
   */
  lemma BsiShiftsBack(hw: Hardware, config: Config, ra: nat, imm: bv32)
    requires ra < 32
    ensures var mid := Bsi(hw, config, 1, ra, imm, true, false).value.hw;
      Bsi(mid, config, 1, 1, imm, false, false).value.hw.regs[1] ==
        hw.regs[ra] & (0xFFFF_FFFF >> ShiftDistance(imm))
    ensures hw.regs[ra] < 0x8000_0000 ==>
      Bsi(hw, config, 1, ra, imm, false, true).value.hw.regs[1] ==
        Bsi(hw, config, 1, ra, imm, false, false).value.hw.regs[1]
  {
    BsiTwice(hw, config, ra, imm);
    ShiftBack(hw.regs[ra], ShiftDistance(imm));
    if hw.regs[ra] < 0x8000_0000 {
      ShiftNonNegative(hw.regs[ra], ShiftDistance(imm));
    }
  }

  lemma BsiTwice(hw: Hardware, config: Config, ra: nat, imm: bv32)
    requires ra < 32
    ensures var mid := Bsi(hw, config, 1, ra, imm, true, false).value.hw;
      Bsi(mid, config, 1, 1, imm, false, false).value.hw.regs[1] ==
        Shift(Shift(hw.regs[ra], ShiftDistance(imm), true, false), ShiftDistance(imm), false, false)
  {
  }

  /**
   * A word shifted left and back loses exactly its top `n` bits. The solver
   * settles the identity quickly for one distance at a time, so the proof
   * first lists the 32 distances and then takes them case by case.
   */
  lemma ShiftBack(a: bv32, n: bv5)
    ensures Shift(Shift(a, n, true, false), n, false, false) == a & (0xFFFF_FFFF >> n)
  {
    EveryDistanceListed(n);
    ShiftBackListed(a, n);
  }

  /** The 32 distances a five-bit shift amount can take, spelled out. */
  predicate ListedDistance(n: bv5) {
    || n == 0 || n == 1 || n == 2 || n == 3 || n == 4 || n == 5 || n == 6 || n == 7
    || n == 8 || n == 9 || n == 10 || n == 11 || n == 12 || n == 13 || n == 14 || n == 15
    || n == 16 || n == 17 || n == 18 || n == 19 || n == 20 || n == 21 || n == 22 || n == 23
    || n == 24 || n == 25 || n == 26 || n == 27 || n == 28 || n == 29 || n == 30 || n == 31
  }

  lemma EveryDistanceListed(n: bv5)
    ensures ListedDistance(n)
  {
  }

  lemma ShiftBackListed(a: bv32, n: bv5)
    requires ListedDistance(n)
    ensures Shift(Shift(a, n, true, false), n, false, false) == a & (0xFFFF_FFFF >> n)
  {
  }

  lemma ShiftNonNegative(a: bv32, n: bv5)
    requires a < 0x8000_0000
    ensures Shift(a, n, false, true) == Shift(a, n, false, false)
  {
    ShiftRightNonNegative(a, n);
  }

  // ---------------------------------------------------------------------
  // imm
  // ---------------------------------------------------------------------

  /** imm: stores its operand in the lock register; nothing else changes. */
  function Imm(hw: Hardware, imm: bv32): (r: Outcome)
    ensures r.hw.lock.state == LockRegister.Imm && r.hw.lock.immediate == imm
    ensures r.hw.regs == hw.regs && r.hw.sprs == hw.sprs && r.hw.memory == hw.memory
    ensures r.latency == 1
  {
    Outcome(hw.(lock := LockRegister.SetImmediate(hw.lock, imm)), 1)
  }
}
