/**
 * The load and store instructions: lhui, lbui and sh.
 *
 * Each computes an effective address as the sum of two operands modulo
 * 2^32 and accesses the data memory there. A halfword access needs an even
 * address: lhui at an odd address writes 0 to rD without reading memory,
 * and sh at an odd address leaves memory as it is. A load also updates the
 * memory's bookkeeping (the cached segment, the access counters and the
 * written flag of the word), so the memory after a load is part of the
 * outcome.
 */
module MemoryInstructions {
  import opened Wrappers
  import opened BitOperations
  import opened Machine
  import LockRegister
  import DataMemoryPlus
  import CachedSegments

  /** The effective address of a load or store: base plus offset modulo 2^32. */
  function Address(base: bv32, offset: bv32): bv32 {
    base + offset
  }

  /** An address a halfword access accepts: bit 0 clear. */
  predicate HalfwordAligned(address: bv32) {
    GetBit(0, address) == 0
  }

  /**
   * lhui: rD receives the halfword at rA + immediate (zero-extended), the
   * immediate being extended by a preceding IMM. At an odd address rD
   * receives 0 and memory is not touched.
   */
  function Lhui(hw: Hardware, config: Config, rd: nat, ra: nat, imm: bv32): (r: Result<Outcome, ExecError>)
    ensures r.Success? <==> rd < 32 && ra < 32
    ensures r.Success? ==>
      var address := Address(hw.regs[ra], LockRegister.ProcessImmediate(hw.lock, imm));
      var load := DataMemoryPlus.LoadHalfword(hw.memory, address);
      && (HalfwordAligned(address) ==>
            RegsWritten(hw.regs, r.value.hw.regs, rd, load.0) && r.value.hw.memory == load.1)
      && (!HalfwordAligned(address) ==>
            RegsWritten(hw.regs, r.value.hw.regs, rd, 0) && r.value.hw.memory == hw.memory)
      && r.value.hw.sprs == hw.sprs && r.value.hw.lock == hw.lock
      && r.value.latency == AreaLatency(config, 1, 2)
  {
    var a :- ReadReg(hw, ra);
    var address := Address(a, LockRegister.ProcessImmediate(hw.lock, imm));
    var load := if HalfwordAligned(address) then DataMemoryPlus.LoadHalfword(hw.memory, address) else (0, hw.memory);
    var h :- WriteReg(hw.(memory := load.1), rd, load.0);
    Success(Outcome(h, AreaLatency(config, 1, 2)))
  }

  /** What lhui writes is a halfword: its upper 16 bits are clear. */
  lemma LhuiZeroExtends(hw: Hardware, config: Config, rd: nat, ra: nat, imm: bv32)
    requires Lhui(hw, config, rd, ra, imm).Success? && rd != 0
    ensures Lhui(hw, config, rd, ra, imm).value.hw.regs[rd] <= 0xFFFF
  {
  }

  /** The word lhui leaves in rD, when rD is not r0. */
  lemma LhuiValue(hw: Hardware, config: Config, rd: nat, ra: nat, imm: bv32)
    requires Lhui(hw, config, rd, ra, imm).Success? && rd != 0
    ensures var address := Address(hw.regs[ra], LockRegister.ProcessImmediate(hw.lock, imm));
      Lhui(hw, config, rd, ra, imm).value.hw.regs[rd] ==
        if HalfwordAligned(address) then DataMemoryPlus.LoadHalfword(hw.memory, address).0 else 0
  {
  }

  /**
   * lbui: rD receives the byte at rA + immediate (zero-extended), the
   * immediate being extended by a preceding IMM. Any address is accepted.
   */
  function Lbui(hw: Hardware, config: Config, rd: nat, ra: nat, imm: bv32): (r: Result<Outcome, ExecError>)
    ensures r.Success? <==> rd < 32 && ra < 32
    ensures r.Success? ==>
      var address := Address(hw.regs[ra], LockRegister.ProcessImmediate(hw.lock, imm));
      var load := DataMemoryPlus.LoadByte(hw.memory, address);
      && RegsWritten(hw.regs, r.value.hw.regs, rd, load.0)
      && r.value.hw.memory == load.1
      && r.value.hw.sprs == hw.sprs && r.value.hw.lock == hw.lock
      && r.value.latency == AreaLatency(config, 1, 2)
  {
    var a :- ReadReg(hw, ra);
    var address := Address(a, LockRegister.ProcessImmediate(hw.lock, imm));
    var load := DataMemoryPlus.LoadByte(hw.memory, address);
    var h :- WriteReg(hw.(memory := load.1), rd, load.0);
    Success(Outcome(h, AreaLatency(config, 1, 2)))
  }

  /** The word lbui leaves in rD, when rD is not r0. */
  lemma LbuiValue(hw: Hardware, config: Config, rd: nat, ra: nat, imm: bv32)
    requires Lbui(hw, config, rd, ra, imm).Success? && rd != 0
    ensures Lbui(hw, config, rd, ra, imm).value.hw.regs[rd] ==
      DataMemoryPlus.LoadByte(hw.memory, Address(hw.regs[ra], LockRegister.ProcessImmediate(hw.lock, imm))).0
  {
  }

  /**
   * A load leaves a trace in memory: after lbui the word it read from counts
   * as written, so a later narrow store starts from that word.
   */
  lemma LbuiMarksWritten(hw: Hardware, config: Config, rd: nat, ra: nat, imm: bv32)
    requires Lbui(hw, config, rd, ra, imm).Success?
    ensures var address := Address(hw.regs[ra], LockRegister.ProcessImmediate(hw.lock, imm));
      CachedSegments.IsWordWritten(Lbui(hw, config, rd, ra, imm).value.hw.memory, address).0
  {
    var address := Address(hw.regs[ra], LockRegister.ProcessImmediate(hw.lock, imm));
    CachedSegments.LoadMarksWritten(hw.memory, address);
  }

  /**
   * lbui and lhui agree on the memory they share: at the even address lhui
   * reads from, lbui reads the low byte of that halfword.
   */
  lemma LbuiLowByteOfLhui(hw: Hardware, config: Config, rd: nat, ra: nat, imm: bv32, rb: nat, immB: bv32)
    requires Lhui(hw, config, rd, ra, imm).Success? && Lbui(hw, config, rd, rb, immB).Success?
    requires rd != 0
    requires var address := Address(hw.regs[ra], LockRegister.ProcessImmediate(hw.lock, imm));
      && HalfwordAligned(address)
      && Address(hw.regs[rb], LockRegister.ProcessImmediate(hw.lock, immB)) == address
    ensures Lbui(hw, config, rd, rb, immB).value.hw.regs[rd] == Lhui(hw, config, rd, ra, imm).value.hw.regs[rd] & 0xFF
  {
    var address := Address(hw.regs[ra], LockRegister.ProcessImmediate(hw.lock, imm));
    var half := Lhui(hw, config, rd, ra, imm).value.hw.regs[rd];
    assert half == DataMemoryPlus.LoadHalfword(hw.memory, address).0 by {
      AlignedBit(address);
      LhuiValue(hw, config, rd, ra, imm);
    }
    assert Lbui(hw, config, rd, rb, immB).value.hw.regs[rd] == DataMemoryPlus.LoadByte(hw.memory, address).0 by {
      LbuiValue(hw, config, rd, rb, immB);
    }
    AlignedBit(address);
    DataMemoryPlus.HalfwordBytes(hw.memory, address);
  }

  /** At the odd address after the one lhui reads from, lbui reads the high byte of that halfword. */
  lemma LbuiHighByteOfLhui(hw: Hardware, config: Config, rd: nat, ra: nat, imm: bv32, rb: nat, immB: bv32)
    requires Lhui(hw, config, rd, ra, imm).Success? && Lbui(hw, config, rd, rb, immB).Success?
    requires rd != 0
    requires var address := Address(hw.regs[ra], LockRegister.ProcessImmediate(hw.lock, imm));
      && HalfwordAligned(address)
      && Address(hw.regs[rb], LockRegister.ProcessImmediate(hw.lock, immB)) == DataMemoryPlus.UpperByte(address)
    ensures Lbui(hw, config, rd, rb, immB).value.hw.regs[rd] == Lhui(hw, config, rd, ra, imm).value.hw.regs[rd] >> 8
  {
    var address := Address(hw.regs[ra], LockRegister.ProcessImmediate(hw.lock, imm));
    var half := Lhui(hw, config, rd, ra, imm).value.hw.regs[rd];
    assert half == DataMemoryPlus.LoadHalfword(hw.memory, address).0 by {
      AlignedBit(address);
      LhuiValue(hw, config, rd, ra, imm);
    }
    assert Lbui(hw, config, rd, rb, immB).value.hw.regs[rd] == DataMemoryPlus.LoadByte(hw.memory, DataMemoryPlus.UpperByte(address)).0 by {
      LbuiValue(hw, config, rd, rb, immB);
    }
    AlignedBit(address);
    DataMemoryPlus.HalfwordBytes(hw.memory, address);
  }

  /** The aligned test and the bit mask name the same condition. */
  lemma AlignedBit(address: bv32)
    ensures HalfwordAligned(address) <==> address & 1 == 0
  {
    assert Bit(0, address) == ((address >> 0) & 1 == 1);
  }

  /**
   * sh: the low halfword of rD is stored at rA + rB. At an odd address
   * memory is left as it is. No register changes.
   */
  function Sh(hw: Hardware, config: Config, rd: nat, ra: nat, rb: nat): (r: Result<Outcome, ExecError>)
    ensures r.Success? <==> rd < 32 && ra < 32 && rb < 32
    ensures r.Success? ==>
      var address := Address(hw.regs[ra], hw.regs[rb]);
      && (HalfwordAligned(address) ==>
            r.value.hw.memory == DataMemoryPlus.StoreHalfword(hw.memory, address, hw.regs[rd]))
      && (!HalfwordAligned(address) ==> r.value.hw.memory == hw.memory)
      && r.value.hw.regs == hw.regs && r.value.hw.sprs == hw.sprs && r.value.hw.lock == hw.lock
      && r.value.latency == AreaLatency(config, 1, 2)
  {
    var a :- ReadReg(hw, ra);
    var b :- ReadReg(hw, rb);
    var d :- ReadReg(hw, rd);
    var address := Address(a, b);
    var memory := if HalfwordAligned(address) then DataMemoryPlus.StoreHalfword(hw.memory, address, d) else hw.memory;
    Success(Outcome(hw.(memory := memory), AreaLatency(config, 1, 2)))
  }

  /**
   * An lhui from the address an sh stored to reads back the low halfword of
   * the stored register.
   */
  lemma ShThenLhui(hw: Hardware, config: Config, rs: nat, ra: nat, rb: nat, rd: nat, rc: nat, imm: bv32)
    requires Sh(hw, config, rs, ra, rb).Success?
    requires rd != 0 && rd < 32 && rc < 32
    requires var address := Address(hw.regs[ra], hw.regs[rb]);
      && HalfwordAligned(address)
      && Address(hw.regs[rc], LockRegister.ProcessImmediate(hw.lock, imm)) == address
    ensures var stored := Sh(hw, config, rs, ra, rb).value.hw;
      Lhui(stored, config, rd, rc, imm).value.hw.regs[rd] == hw.regs[rs] & 0xFFFF
  {
    var address := Address(hw.regs[ra], hw.regs[rb]);
    var stored := Sh(hw, config, rs, ra, rb).value.hw;
    LhuiValue(stored, config, rd, rc, imm);
    DataMemoryPlus.StoreHalfwordThenLoad(hw.memory, address, hw.regs[rs]);
  }

  /**
   * An sh leaves the other halfword of the same word as it was: the
   * halfword there reads the same before and after the store.
   */
  lemma ShKeepsOtherHalf(hw: Hardware, config: Config, rs: nat, ra: nat, rb: nat)
    requires Sh(hw, config, rs, ra, rb).Success?
    requires HalfwordAligned(Address(hw.regs[ra], hw.regs[rb]))
    ensures var stored := Sh(hw, config, rs, ra, rb).value.hw;
      var other := DataMemoryPlus.OtherHalf(Address(hw.regs[ra], hw.regs[rb]));
      DataMemoryPlus.LoadHalfword(stored.memory, other).0 == DataMemoryPlus.LoadHalfword(hw.memory, other).0
  {
    DataMemoryPlus.StoreHalfwordKeepsOtherHalf(hw.memory, Address(hw.regs[ra], hw.regs[rb]), hw.regs[rs]);
  }
}
