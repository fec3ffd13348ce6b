/**
 * The lock register that carries the operand of an IMM instruction over to
 * the next instruction.
 *
 * IMM stores its 16-bit operand and moves the register to state `Imm`. The
 * clock step at the end of that same instruction moves it to `Locked`, so the
 * following instruction sees the stored value as the upper half of its own
 * immediate. The step after that unlocks the register again.
 */
module LockRegister {
  import opened BitOperations

  datatype LockState = Imm | Locked | Unlocked

  datatype Lock = Lock(state: LockState, immediate: bv32) {

    /** The register is in state `Locked`. */
    predicate IsLocked() {
      state == Locked
    }
  }

  /** A new lock register: unlocked, with a stored value of 0. */
  function Init(): (l: Lock)
    ensures !l.IsLocked()
    ensures l.state == Unlocked
  {
    Lock(Unlocked, 0)
  }

  /** Stores the operand of an IMM instruction and enters state `Imm`. */
  function SetImmediate(l: Lock, immediate: bv32): (r: Lock)
    ensures r.state == Imm && r.immediate == immediate
  {
    Lock(Imm, immediate)
  }

  /** Advances the state machine: Imm to Locked, Locked to Unlocked. */
  function Step(l: Lock): (r: Lock)
    ensures r.immediate == l.immediate
    ensures l.state == Imm ==> r.state == Locked
    ensures l.state == Locked ==> r.state == Unlocked
    ensures l.state == Unlocked ==> r == l
  {
    match l.state
    case Imm => l.(state := Locked)
    case Locked => l.(state := Unlocked)
    case Unlocked => l
  }

  /**
   * The immediate an instruction actually uses. When locked, the stored
   * value forms the upper 16 bits and `imm` the lower 16 bits; otherwise
   * `imm` is used as it is.
   */
  function ProcessImmediate(l: Lock, imm: bv32): (r: bv32)
    ensures l.IsLocked() ==> r >> 16 == l.immediate & 0xFFFF && r & 0xFFFF == imm & 0xFFFF
    ensures !l.IsLocked() ==> r == imm
  {
    if l.IsLocked() then
      JoinedUpper(l.immediate, imm);
      JoinedLower(l.immediate, imm);
      JoinHalves(l.immediate, imm)
    else
      imm
  }

  /** Two steps always leave the register unlocked, whatever its state. */
  lemma TwoStepsUnlock(l: Lock)
    ensures Step(Step(l)).state == Unlocked
    ensures !Step(Step(l)).IsLocked()
  {
  }

  /**
   * The life of one IMM operand: the instruction that sets it sees its own
   * immediate unchanged, the next instruction sees the operand in the upper
   * half, and the one after that sees its immediate unchanged again.
   */
  lemma ImmediateLifetime(l: Lock, v: bv32, x: bv32)
    ensures ProcessImmediate(SetImmediate(l, v), x) == x
    ensures ProcessImmediate(Step(SetImmediate(l, v)), x) == WriteBits(16, 16, v, x)
    ensures ProcessImmediate(Step(Step(SetImmediate(l, v))), x) == x
  {
    JoinHalvesIsFieldWrite(v, x);
  }
}
