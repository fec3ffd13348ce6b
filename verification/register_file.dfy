/**
 * The 32 general-purpose registers. Register r0 always reads 0: writes to
 * it are discarded.
 *
 * The Java register file is an `int[32]`; an address outside 0..31 makes
 * the array access throw. Here that is a `None` result, which the
 * instructions turn into an aborted run.
 */
module RegisterFile {
  import opened Wrappers

  const NumRegs: nat := 32

  /** The contents of the register file, one word per register. */
  type Registers = s: seq<bv32> | |s| == NumRegs witness seq(32, _ => 0)

  predicate InRange(address: int) {
    0 <= address < NumRegs
  }

  /** The number of registers, 32. */
  function NumRegisters(): (n: nat)
    ensures n == NumRegs && forall r: Registers :: |r| == n
  {
    NumRegs
  }

  /** A new register file: every register holds 0. */
  function Init(): (r: Registers)
    ensures forall a :: 0 <= a < NumRegs ==> r[a] == 0
  {
    seq(NumRegs, _ => 0)
  }

  /** The value of register `address`, or `None` when there is no such register. */
  function Read(r: Registers, address: int): (v: Option<bv32>)
    ensures v.Some? <==> InRange(address)
    ensures v.Some? ==> v.value == r[address]
  {
    if InRange(address) then Some(r[address]) else None
  }

  /**
   * Writes `value` to register `address`. A write to r0 is discarded; a
   * write to an address outside the file fails.
   */
  function Write(r: Registers, address: int, value: bv32): (w: Option<Registers>)
    ensures w.Some? <==> InRange(address)
    ensures address == 0 ==> w == Some(r)
  {
    if address == 0 then Some(r)
    else if InRange(address) then Some(r[address := value])
    else None
  }

  /** r0 reads 0. */
  predicate ZeroRegisterClear(r: Registers) {
    r[0] == 0
  }

  lemma InitZeroRegister()
    ensures ZeroRegisterClear(Init())
  {
  }

  /** No write can change r0, so a file that starts with r0 = 0 keeps it. */
  lemma WritePreservesZeroRegister(r: Registers, address: int, value: bv32)
    requires ZeroRegisterClear(r)
    ensures Write(r, address, value).Some? ==> ZeroRegisterClear(Write(r, address, value).value)
  {
  }

  /**
   * Reading after a successful write: the written register returns the
   * value (unless it is r0), every other register is unchanged.
   */
  lemma ReadAfterWrite(r: Registers, address: int, value: bv32, other: int)
    requires InRange(address)
    ensures Read(Write(r, address, value).value, other) ==
      if other == address && address != 0 then Some(value) else Read(r, other)
  {
  }
}
