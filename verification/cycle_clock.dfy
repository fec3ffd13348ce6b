/**
 * The clock that ends every executed instruction: it advances the lock
 * register, moves the PC to the next instruction unless the instruction was
 * a branch (a branch has set the PC itself), and adds the instruction's
 * latency to the cycle count.
 *
 * The source keeps the cycle count in a Java `int`, which wraps around at
 * 2^31 into the negative numbers; `Wrap` writes that out. The model counts
 * in an unbounded `nat` and relates the two.
 */
module CycleClock {
  import opened Machine
  import SpecialRegisters
  import LockRegister

  const Modulus: int := 0x1_0000_0000

  /** The values of a Java `int`. */
  type Int32 = x: int | -0x8000_0000 <= x < 0x8000_0000

  /** `x` reduced into the range of a Java `int`, as `int` addition does on overflow. */
  function Wrap(x: int): (r: Int32)
    ensures (x - r) % Modulus == 0
    ensures -0x8000_0000 <= x < 0x8000_0000 ==> r == x
  {
    var m := x % Modulus;
    if m < 0x8000_0000 then m else m - Modulus
  }

  /**
   * The cycle count, 0 at start-up. The count is unbounded here; the
   * source keeps it in an `int` (see `AddLatencyAsWritten`).
   */
  datatype Clock = Clock(cycles: nat)

  function Init(): (c: Clock)
    ensures c.cycles == 0
  {
    Clock(0)
  }

  /**
   * The end of one instruction. The lock register steps, the PC moves on by
   * 4 unless the instruction is a branch, and the latency is added to the
   * count. Nothing else changes.
   */
  function Step(hw: Hardware, clock: Clock, isBranch: bool, latency: nat): (r: (Hardware, Clock))
    ensures r.0.lock == LockRegister.Step(hw.lock)
    ensures !isBranch ==> SpecialRegisters.GetPc(r.0.sprs) == SpecialRegisters.GetPc(hw.sprs) + 4
    ensures isBranch ==> r.0.sprs == hw.sprs
    ensures r.0.sprs[SpecialRegisters.Msr] == hw.sprs[SpecialRegisters.Msr]
    ensures r.0.sprs[SpecialRegisters.Esr] == hw.sprs[SpecialRegisters.Esr]
    ensures r.0.regs == hw.regs && r.0.memory == hw.memory
    ensures r.1.cycles >= clock.cycles && r.1.cycles - clock.cycles == latency
  {
    var lock := LockRegister.Step(hw.lock);
    var sprs := if isBranch then hw.sprs else SpecialRegisters.IncrementPc(hw.sprs);
    (hw.(lock := lock, sprs := sprs), Clock(clock.cycles + latency))
  }

  /** The total of a sequence of latencies. */
  function Total(latencies: seq<nat>): nat {
    if |latencies| == 0 then 0 else Total(latencies[..|latencies| - 1]) + latencies[|latencies| - 1]
  }

  /** The clock after it has stepped once for each latency in turn. */
  function Count(clock: Clock, latencies: seq<nat>): Clock {
    if |latencies| == 0 then clock
    else
      var before := Count(clock, latencies[..|latencies| - 1]);
      Step(Machine.Init(), before, false, latencies[|latencies| - 1]).1
  }

  /**
   * The count after any number of instructions is the sum of their
   * latencies, and it never goes down from one instruction to the next.
   */
  lemma {:induction false} CountIsTotal(latencies: seq<nat>)
    ensures Count(Init(), latencies).cycles == Total(latencies)
    ensures |latencies| > 0 ==> Count(Init(), latencies[..|latencies| - 1]).cycles <= Count(Init(), latencies).cycles
  {
    if |latencies| > 0 {
      CountIsTotal(latencies[..|latencies| - 1]);
    }
  }

  /** The clock part of a step does not depend on the hardware or on the branch flag. */
  lemma StepCounts(hw: Hardware, clock: Clock, isBranch: bool, latency: nat)
    ensures Step(hw, clock, isBranch, latency).1 == Count(clock, [latency])
  {
    assert [latency][..0] == [];
  }

  // ---------------------------------------------------------------------
  // The count as the source keeps it
  // ---------------------------------------------------------------------

  /** `latency += instruction.latency()` on a Java `int`. */
  function AddLatencyAsWritten(count: Int32, latency: nat): (r: Int32)
    ensures (r - (count + latency)) % Modulus == 0
  {
    Wrap(count + latency)
  }

  /** The `int` count after one addition per latency, starting from 0. */
  function CountAsWritten(latencies: seq<nat>): Int32 {
    if |latencies| == 0 then 0
    else AddLatencyAsWritten(CountAsWritten(latencies[..|latencies| - 1]), latencies[|latencies| - 1])
  }

  /**
   * The `int` count is the true count reduced into the range of an `int`: the
   * two agree while the total stays below 2^31.
   */
  lemma {:induction false} CountAsWrittenIsWrapped(latencies: seq<nat>)
    ensures CountAsWritten(latencies) == Wrap(Count(Init(), latencies).cycles)
    ensures Total(latencies) < 0x8000_0000 ==> CountAsWritten(latencies) == Count(Init(), latencies).cycles
  {
    CountIsTotal(latencies);
    if |latencies| > 0 {
      var prefix := latencies[..|latencies| - 1];
      CountAsWrittenIsWrapped(prefix);
      CountIsTotal(prefix);
      WrapAdd(Total(prefix), latencies[|latencies| - 1]);
    }
  }

  /**
   * The `int` count goes down: one more cycle after 2^31 - 1 gives the
   * most negative `int`.
   */
  lemma CountAsWrittenDecreases()
    ensures AddLatencyAsWritten(0x7FFF_FFFF, 1) == -0x8000_0000
    ensures AddLatencyAsWritten(0x7FFF_FFFF, 1) < 0x7FFF_FFFF
  {
  }

  /** Wrapping an intermediate sum changes nothing: the count is the wrapped total. */
  lemma WrapAdd(a: int, b: int)
    ensures Wrap(Wrap(a) + b) == Wrap(a + b)
  {
    var k := (a - Wrap(a)) / Modulus;
    assert a - Wrap(a) == k * Modulus;
    WrapShift(a + b, -k);
    assert Wrap(a) + b == (a + b) + (-k) * Modulus;
  }

  /** Wrapping ignores whole multiples of 2^32. */
  lemma WrapShift(x: int, k: int)
    ensures Wrap(x + k * Modulus) == Wrap(x)
  {
    assert (x + k * Modulus) % Modulus == x % Modulus;
  }
}
