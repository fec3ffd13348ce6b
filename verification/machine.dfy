/**
 * The hardware an instruction acts on: the register file, the special
 * registers, the lock register and the data memory, plus the two
 * configuration values some latencies depend on.
 *
 * An instruction's effect is an `Outcome`: the hardware after it and its
 * latency in cycles. Whether an instruction is a branch is a property of
 * its kind, not of its execution. A Java exception during
 * execution (an array index outside the register file, a missing immediate)
 * is an `ExecError`; it ends the run.
 */
module Machine {
  import opened Wrappers
  import RegisterFile
  import SpecialRegisters
  import LockRegister
  import CachedSegments

  /** The configuration parameters C_AREA_OPTIMIZED and C_USE_MMU. */
  datatype Config = Config(areaOptimized: int, useMmu: int)

  datatype Hardware = Hardware(
    regs: RegisterFile.Registers,
    sprs: SpecialRegisters.Sprs,
    lock: LockRegister.Lock,
    memory: CachedSegments.Memory)

  datatype ExecError =
    | BadRegister(address: int)
    | MissingImmediate
    | NotModelled(opName: string)

  datatype Outcome = Outcome(hw: Hardware, latency: nat)

  /** The latency of instructions whose cost depends on the area-optimized configuration. */
  function AreaLatency(config: Config, fast: nat, small: nat): nat {
    if config.areaOptimized == 0 then fast else small
  }

  /** The hardware at start-up: every register 0, the lock open, no memory. */
  function Init(): (h: Hardware)
    ensures forall a :: 0 <= a < RegisterFile.NumRegs ==> h.regs[a] == 0
    ensures forall a :: SpecialRegisters.Known(a) ==> h.sprs[a] == 0
    ensures h.lock.state == LockRegister.Unlocked
    ensures h.memory.segments == map[]
  {
    Hardware(RegisterFile.Init(), SpecialRegisters.Init(), LockRegister.Init(), CachedSegments.Init())
  }

  /** The contents of register `a`; an index outside the file fails. */
  function ReadReg(hw: Hardware, a: nat): (r: Result<bv32, ExecError>)
    ensures r.Success? <==> a < RegisterFile.NumRegs
    ensures r.Success? ==> r.value == hw.regs[a]
  {
    match RegisterFile.Read(hw.regs, a)
    case Some(v) => Success(v)
    case None => Failure(BadRegister(a))
  }

  /**
   * `after` is `before` with register `rd` set to `v`, except that a write
   * to r0 is discarded.
   */
  predicate RegsWritten(before: RegisterFile.Registers, after: RegisterFile.Registers, rd: nat, v: bv32) {
    forall k :: 0 <= k < RegisterFile.NumRegs ==> after[k] == (if k == rd && rd != 0 then v else before[k])
  }

  /** Writes `v` to register `rd`; an index outside the file fails. */
  function WriteReg(hw: Hardware, rd: nat, v: bv32): (r: Result<Hardware, ExecError>)
    ensures r.Success? <==> rd < RegisterFile.NumRegs
    ensures r.Success? ==> RegsWritten(hw.regs, r.value.regs, rd, v)
    ensures r.Success? ==> r.value.sprs == hw.sprs && r.value.lock == hw.lock && r.value.memory == hw.memory
  {
    match RegisterFile.Write(hw.regs, rd, v)
    case Some(regs) => Success(hw.(regs := regs))
    case None => Failure(BadRegister(rd))
  }
}
