/**
 * The branch instructions: bgei, bri (with its link, absolute and delay
 * variants), br and rtsd.
 *
 * Every branch sets the PC itself and reports itself as a branch, so the
 * clock does not advance the PC after it. A branch taken costs 2 cycles
 * with a delay slot ('d' in the mnemonic) and 3 without; rtsd always
 * costs 2.
 */
module BranchInstructions {
  import opened Wrappers
  import opened BitOperations
  import opened JavaInt
  import opened Machine
  import SpecialRegisters
  import LockRegister

  /** The option letters of a branch mnemonic: delay slot, link, absolute target. */
  datatype BranchFlags = BranchFlags(delay: bool, link: bool, absolute: bool)

  /**
   * The flags bri and br are meant to read from their mnemonic: 'd' for the
   * delay slot, 'l' for the link and 'a' for an absolute target.
   */
  function Flags(name: string): BranchFlags {
    BranchFlags('d' in name, 'l' in name, 'a' in name)
  }

  /**
   * The flags as the source reads them: the link and absolute letters are
   * also declared as "d", so all three flags follow the 'd'.
   */
  function FlagsAsWritten(name: string): (f: BranchFlags)
    ensures f.delay == f.link == f.absolute
    ensures f.delay <==> 'd' in name
  {
    BranchFlags('d' in name, 'd' in name, 'd' in name)
  }

  /** The latency of a taken branch: 2 with a delay slot, 3 without. */
  function TakenLatency(delay: bool): nat {
    if delay then 2 else 3
  }

  /** The address `offset` bytes from `base`, modulo 2^32. */
  function Relative(base: bv32, offset: bv32): bv32 {
    base + offset
  }

  /** The target of a branch: `offset` itself when absolute, otherwise `pc` moved by `offset`. */
  function Target(absolute: bool, pc: bv32, offset: bv32): bv32 {
    if absolute then offset else Relative(pc, offset)
  }

  /** Java's `rA >= 0` on an `int`: the sign bit is clear. */
  predicate NonNegative(a: bv32) {
    a < 0x8000_0000
  }

  // ---------------------------------------------------------------------
  // bgei, bgeid
  // ---------------------------------------------------------------------

  /**
   * bgei: when rA >= 0 the PC moves by the immediate (extended by a
   * preceding IMM) and the branch is taken; otherwise the PC advances by
   * one instruction and the latency is 1.
   */
  function Bgei(hw: Hardware, ra: nat, imm: bv32, delay: bool): (r: Result<Outcome, ExecError>)
    ensures r.Success? <==> ra < 32
    ensures r.Success? ==>
      && r.value.hw.regs == hw.regs && r.value.hw.lock == hw.lock && r.value.hw.memory == hw.memory
     
      && (NonNegative(hw.regs[ra]) ==>
            && r.value.hw.sprs == SpecialRegisters.WritePc(hw.sprs,
                 Relative(SpecialRegisters.GetPc(hw.sprs), LockRegister.ProcessImmediate(hw.lock, imm)))
            && r.value.latency == TakenLatency(delay))
      && (!NonNegative(hw.regs[ra]) ==>
            r.value.hw.sprs == SpecialRegisters.IncrementPc(hw.sprs) && r.value.latency == 1)
  {
    var a :- ReadReg(hw, ra);
    if NonNegative(a) then
      var immediate := LockRegister.ProcessImmediate(hw.lock, imm);
      var pc := SpecialRegisters.GetPc(hw.sprs);
      Success(Outcome(hw.(sprs := SpecialRegisters.WritePc(hw.sprs, Relative(pc, immediate))), TakenLatency(delay)))
    else
      Success(Outcome(hw.(sprs := SpecialRegisters.IncrementPc(hw.sprs)), 1))
  }

  /**
   * bgei branches exactly when rA read as a signed number is at least 0:
   * then the PC moves by the immediate, otherwise it moves to the next
   * instruction. Either way the MSR and ESR are kept.
   */
  lemma BgeiTarget(hw: Hardware, ra: nat, imm: bv32, delay: bool)
    requires ra < 32
    ensures var after := Bgei(hw, ra, imm, delay).value;
      && (Signed(hw.regs[ra]) >= 0 ==>
            && SpecialRegisters.GetPc(after.hw.sprs) ==
                 Relative(SpecialRegisters.GetPc(hw.sprs), LockRegister.ProcessImmediate(hw.lock, imm))
            && after.latency == TakenLatency(delay))
      && (Signed(hw.regs[ra]) < 0 ==>
            SpecialRegisters.GetPc(after.hw.sprs) == SpecialRegisters.GetPc(hw.sprs) + 4 && after.latency == 1)
      && after.hw.sprs[SpecialRegisters.Msr] == hw.sprs[SpecialRegisters.Msr]
      && after.hw.sprs[SpecialRegisters.Esr] == hw.sprs[SpecialRegisters.Esr]
  {
    NonNegativeSigned(hw.regs[ra]);
  }

  /** The sign bit of a word is clear exactly when its signed reading is at least 0. */
  lemma NonNegativeSigned(a: bv32)
    ensures NonNegative(a) <==> Signed(a) >= 0
  {
    if !NonNegative(a) {
      assert a as int < Modulus;
    }
  }

  // ---------------------------------------------------------------------
  // bri, brai, brid, braid, brlid, bralid
  // ---------------------------------------------------------------------

  /**
   * bri: with the link flag rD first receives the PC of the branch; then
   * the PC becomes the immediate (extended by a preceding IMM) when the
   * target is absolute, or the PC plus the immediate otherwise. rD is only
   * touched, and only has to exist, with the link flag.
   */
  function Bri(hw: Hardware, rd: nat, imm: bv32, flags: BranchFlags): (r: Result<Outcome, ExecError>)
    ensures r.Success? <==> !flags.link || rd < 32
    ensures r.Success? ==>
      var pc, i := SpecialRegisters.GetPc(hw.sprs), LockRegister.ProcessImmediate(hw.lock, imm);
      && (flags.link ==> RegsWritten(hw.regs, r.value.hw.regs, rd, pc))
      && (!flags.link ==> r.value.hw.regs == hw.regs)
      && r.value.hw.sprs == SpecialRegisters.WritePc(hw.sprs, Target(flags.absolute, pc, i))
      && r.value.hw.lock == hw.lock && r.value.hw.memory == hw.memory
      && r.value.latency == TakenLatency(flags.delay)
  {
    var pc := SpecialRegisters.GetPc(hw.sprs);
    var h :- if flags.link then WriteReg(hw, rd, pc) else Success(hw);
    var immediate := LockRegister.ProcessImmediate(hw.lock, imm);
    var target := Target(flags.absolute, pc, immediate);
    Success(Outcome(h.(sprs := SpecialRegisters.WritePc(h.sprs, target)), TakenLatency(flags.delay)))
  }

  /**
   * The flags as written make every delayed bri a linking, absolute one:
   * "brid" jumps to the immediate itself instead of moving the PC by it,
   * while the flags read letter by letter move the PC by the immediate.
   */
  lemma BriFlagsCounterexample(hw: Hardware, imm: bv32)
    ensures FlagsAsWritten("brid") == BranchFlags(true, true, true)
    ensures Flags("brid") == BranchFlags(true, false, false)
    ensures SpecialRegisters.GetPc(Bri(hw, 0, imm, FlagsAsWritten("brid")).value.hw.sprs) ==
      LockRegister.ProcessImmediate(hw.lock, imm)
    ensures SpecialRegisters.GetPc(Bri(hw, 0, imm, Flags("brid")).value.hw.sprs) ==
      Relative(SpecialRegisters.GetPc(hw.sprs), LockRegister.ProcessImmediate(hw.lock, imm))
  {
    assert 'd' in "brid";
    assert 'l' !in "brid" && 'a' !in "brid";
  }

  // ---------------------------------------------------------------------
  // rtsd
  // ---------------------------------------------------------------------

  /** rtsd: the PC becomes rA plus the immediate; the lock register is not consulted. */
  function Rtsd(hw: Hardware, ra: nat, imm: bv32): (r: Result<Outcome, ExecError>)
    ensures r.Success? <==> ra < 32
    ensures r.Success? ==>
      && r.value.hw.sprs == SpecialRegisters.WritePc(hw.sprs, Relative(hw.regs[ra], imm))
      && r.value.hw.regs == hw.regs && r.value.hw.lock == hw.lock && r.value.hw.memory == hw.memory
      && r.value.latency == 2
  {
    var a :- ReadReg(hw, ra);
    Success(Outcome(hw.(sprs := SpecialRegisters.WritePc(hw.sprs, Relative(a, imm))), 2))
  }

  /**
   * A linking bri followed by `rtsd rD, 8` returns to the instruction
   * after the branch's delay slot: eight bytes past the branch.
   */
  lemma CallAndReturn(hw: Hardware, rd: nat, imm: bv32, flags: BranchFlags)
    requires flags.link && 0 < rd < 32
    ensures var call := Bri(hw, rd, imm, flags).value.hw;
      SpecialRegisters.GetPc(Rtsd(call, rd, 8).value.hw.sprs) == SpecialRegisters.GetPc(hw.sprs) + 8
  {
  }

  // ---------------------------------------------------------------------
  // br, bra, brd, brad, brld, brald
  // ---------------------------------------------------------------------

  /**
   * br as the source writes it: with the link flag rD is R1 and rB is R2,
   * otherwise rB is R1; the PC becomes the register NUMBER of rB (or the
   * PC plus that number), not the register's contents.
   */
  function BrAsWritten(hw: Hardware, rd: nat, rb: nat, flags: BranchFlags): (r: Result<Outcome, ExecError>)
    ensures r.Success? <==> !flags.link || rd < 32
    ensures r.Success? ==>
      var pc := SpecialRegisters.GetPc(hw.sprs);
      && (flags.link ==> RegsWritten(hw.regs, r.value.hw.regs, rd, pc))
      && (!flags.link ==> r.value.hw.regs == hw.regs)
      && r.value.hw.sprs == SpecialRegisters.WritePc(hw.sprs, Target(flags.absolute, pc, ToWord(rb)))
      && r.value.hw.lock == hw.lock && r.value.hw.memory == hw.memory
      && r.value.latency == TakenLatency(flags.delay)
  {
    var pc := SpecialRegisters.GetPc(hw.sprs);
    var h :- if flags.link then WriteReg(hw, rd, pc) else Success(hw);
    var target := Target(flags.absolute, pc, ToWord(rb));
    Success(Outcome(h.(sprs := SpecialRegisters.WritePc(h.sprs, target)), TakenLatency(flags.delay)))
  }

  /**
   * br: with the link flag rD receives the PC of the branch; the PC becomes
   * the contents of rB, or the PC plus them for a relative branch. rB is
   * read before rD is written.
   */
  function Br(hw: Hardware, rd: nat, rb: nat, flags: BranchFlags): (r: Result<Outcome, ExecError>)
    ensures r.Success? <==> rb < 32 && (!flags.link || rd < 32)
    ensures r.Success? ==>
      var pc, b := SpecialRegisters.GetPc(hw.sprs), hw.regs[rb];
      && (flags.link ==> RegsWritten(hw.regs, r.value.hw.regs, rd, pc))
      && (!flags.link ==> r.value.hw.regs == hw.regs)
      && r.value.hw.sprs == SpecialRegisters.WritePc(hw.sprs, Target(flags.absolute, pc, b))
      && r.value.hw.lock == hw.lock && r.value.hw.memory == hw.memory
      && r.value.latency == TakenLatency(flags.delay)
  {
    var pc := SpecialRegisters.GetPc(hw.sprs);
    var b :- ReadReg(hw, rb);
    var h :- if flags.link then WriteReg(hw, rd, pc) else Success(hw);
    var target := Target(flags.absolute, pc, b);
    Success(Outcome(h.(sprs := SpecialRegisters.WritePc(h.sprs, target)), TakenLatency(flags.delay)))
  }

  /**
   * "bra r5" with 0x100 in r5: as written there is no 'd', so the branch is
   * relative and the PC moves by 5, the register number; the intended
   * reading is absolute and sends the PC to the contents, 0x100.
   */
  lemma BrCounterexample(hw: Hardware)
    requires hw.regs[5] == 0x100
    ensures FlagsAsWritten("bra") == BranchFlags(false, false, false)
    ensures Flags("bra") == BranchFlags(false, false, true)
    ensures SpecialRegisters.GetPc(BrAsWritten(hw, 0, 5, FlagsAsWritten("bra")).value.hw.sprs) ==
      SpecialRegisters.GetPc(hw.sprs) + 5
    ensures SpecialRegisters.GetPc(Br(hw, 0, 5, Flags("bra")).value.hw.sprs) == 0x100
  {
    assert 'a' in "bra";
    assert 'd' !in "bra" && 'l' !in "bra";
    assert ToWord(5) == 5;
  }

  /** An absolute br jumps to the contents of rB whatever the PC was. */
  lemma BrAbsoluteTarget(hw: Hardware, rd: nat, rb: nat, flags: BranchFlags, pc: bv32)
    requires flags.absolute && !flags.link && rb < 32
    ensures var moved := hw.(sprs := SpecialRegisters.WritePc(hw.sprs, pc));
      SpecialRegisters.GetPc(Br(moved, rd, rb, flags).value.hw.sprs) == hw.regs[rb]
  {
  }
}
