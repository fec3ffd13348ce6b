/**
 * Reading and writing the named bits of the Machine Status Register.
 *
 * The MSR bits are numbered from the most significant end (bit 0 is the
 * top bit of the word), so the bit called position p sits at the
 * least-significant-first position 31 - p.
 */
module MsrTools {
  import opened BitOperations

  /** The named bits of the MSR. */
  datatype MsrBit = CC | VMS | VM | UMS | UM | PVR | EIP | EE | DCE | DZO | ICE | FSL | BIP | C | IE | BE {

    /** The bit's position, counted from the most significant bit. */
    function Position(): (p: nat)
      ensures p <= 31
    {
      match this
      case CC => 0
      case VMS => 17
      case VM => 18
      case UMS => 19
      case UM => 20
      case PVR => 21
      case EIP => 22
      case EE => 23
      case DCE => 24
      case DZO => 25
      case ICE => 26
      case FSL => 27
      case BIP => 28
      case C => 29
      case IE => 30
      case BE => 31
    }
  }

  const MaxBits: nat := 31

  /** How far the bit is shifted from bit 0, as a Java shift amount. */
  function Offset(bit: MsrBit): (o: bv5)
    ensures o as int == MaxBits - bit.Position()
  {
    match bit
    case CC => 31
    case VMS => 14
    case VM => 13
    case UMS => 12
    case UM => 11
    case PVR => 10
    case EIP => 9
    case EE => 8
    case DCE => 7
    case DZO => 6
    case ICE => 5
    case FSL => 4
    case BIP => 3
    case C => 2
    case IE => 1
    case BE => 0
  }

  /** Distinct MSR bits occupy distinct bits of the word. */
  lemma OffsetInjective(b: MsrBit, c: MsrBit)
    ensures b != c ==> Offset(b) != Offset(c)
  {
  }

  lemma MaskThenShift(o: bv5, msr: bv32)
    ensures (msr & OneAt(o)) >> o == (msr >> o) & 1
  {
    assert OneAt(o) == (1 as bv32) << o;
  }

  /** The bit's value, 0 or 1: the masked word shifted back down to bit 0. */
  function ReadBit(bit: MsrBit, msr: bv32): (r: bv32)
    ensures r == 0 || r == 1
    ensures r == 1 <==> BitOperations.Bit(Offset(bit), msr)
  {
    MaskThenShift(Offset(bit), msr);
    (msr & OneAt(Offset(bit))) >> Offset(bit)
  }

  /** Sets the bit; every other bit of the MSR is kept. */
  function SetBit(bit: MsrBit, msr: bv32): (r: bv32)
    ensures ReadBit(bit, r) == 1
    ensures forall i: bv5 :: i != Offset(bit) ==> BitOperations.Bit(i, r) == BitOperations.Bit(i, msr)
  {
    BitOperations.SetBit(Offset(bit), msr)
  }

  /** Clears the bit; every other bit of the MSR is kept. */
  function ClearBit(bit: MsrBit, msr: bv32): (r: bv32)
    ensures ReadBit(bit, r) == 0
    ensures forall i: bv5 :: i != Offset(bit) ==> BitOperations.Bit(i, r) == BitOperations.Bit(i, msr)
  {
    BitOperations.ClearBit(Offset(bit), msr)
  }

  /**
   * Writes 0 (clear) or 1 (set) into the bit. Any other value leaves the
   * MSR as it was (the Java code only warns).
   */
  function WriteBit(bit: MsrBit, value: bv32, msr: bv32): (r: bv32)
    ensures value == 0 || value == 1 ==> ReadBit(bit, r) == value
    ensures value != 0 && value != 1 ==> r == msr
    ensures forall i: bv5 :: i != Offset(bit) ==> BitOperations.Bit(i, r) == BitOperations.Bit(i, msr)
  {
    if value == 0 then ClearBit(bit, msr)
    else if value == 1 then SetBit(bit, msr)
    else msr
  }

  /** Writing one MSR bit does not change what any other MSR bit reads. */
  lemma ReadOtherBit(b: MsrBit, c: MsrBit, value: bv32, msr: bv32)
    requires b != c
    ensures ReadBit(c, WriteBit(b, value, msr)) == ReadBit(c, msr)
  {
    OffsetInjective(b, c);
    var w := WriteBit(b, value, msr);
    assert BitOperations.Bit(Offset(c), w) == BitOperations.Bit(Offset(c), msr);
  }

  /** Writing back the value a bit already holds changes nothing in what it reads. */
  lemma WriteReadBack(b: MsrBit, msr: bv32)
    ensures ReadBit(b, WriteBit(b, ReadBit(b, msr), msr)) == ReadBit(b, msr)
  {
  }
}
