/**
 * The special-purpose registers, kept in a map from register address to
 * contents, and the helpers the instructions use on them: the carry bit,
 * the divide-by-zero/overflow bit and the exception status fields, and the
 * program counter.
 *
 * The map holds exactly the known registers: PC (address 0), MSR
 * (address 1) and ESR (address 5, its MicroBlaze register number).
 */
module SpecialRegisters {
  import opened Wrappers
  import opened BitOperations
  import MsrTools

  const Pc: int := 0
  const Msr: int := 1
  const Esr: int := 5

  /** The addresses that name a special register. */
  predicate Known(address: int) {
    address == Pc || address == Msr || address == Esr
  }

  /** The register map: one entry for each known register, nothing else. */
  type Sprs = m: map<int, bv32> | m.Keys == {Pc, Msr, Esr} witness map[Pc := 0, Msr := 0, Esr := 0]

  /** The exception-cause field of ESR: bits 0 to 4. */
  const EcPosition: bv5 := 0
  const EcSize: bv5 := 5
  /** The delay-slot-exception bit of ESR. */
  const DecPosition: bv5 := 11

  /** A new map: every known register holds 0. */
  function Init(): (s: Sprs)
    ensures forall a :: Known(a) ==> a in s && s[a] == 0
  {
    map[Pc := 0, Msr := 0, Esr := 0]
  }

  /**
   * The contents of the register at `address`. An unknown address has no
   * entry; the Java code then fails unboxing a missing value.
   */
  function Read(s: Sprs, address: int): (v: Option<bv32>)
    ensures v.Some? <==> Known(address)
    ensures v.Some? ==> v.value == s[address]
  {
    if address in s then Some(s[address]) else None
  }

  /** Writes a known register; a write to an unknown address changes nothing. */
  function Write(s: Sprs, address: int, value: bv32): (w: Sprs)
    ensures Known(address) ==> Read(w, address) == Some(value)
    ensures forall a :: a != address ==> Read(w, a) == Read(s, a)
    ensures !Known(address) ==> w == s
  {
    if address in s then s[address := value] else s
  }

  /** Bit C of the MSR (least-significant-first position 2), as 0 or 1. */
  function GetCarryBit(s: Sprs): (c: bv32)
    ensures c == 0 || c == 1
    ensures c == MsrTools.ReadBit(MsrTools.C, s[Msr])
  {
    GetBit(MsrTools.Offset(MsrTools.C), s[Msr])
  }

  /**
   * The MSR with the carry written into both C and its copy CC. A value
   * other than 0 or 1 leaves the MSR as it was.
   */
  function WriteCarryMsr(msr: bv32, carry: bv32): (r: bv32)
    ensures carry == 0 || carry == 1 ==>
      MsrTools.ReadBit(MsrTools.C, r) == carry && MsrTools.ReadBit(MsrTools.CC, r) == carry
    ensures carry != 0 && carry != 1 ==> r == msr
    ensures forall i: bv5 :: i != MsrTools.Offset(MsrTools.C) && i != MsrTools.Offset(MsrTools.CC) ==>
      Bit(i, r) == Bit(i, msr)
  {
    var msr1 := WriteBit(MsrTools.Offset(MsrTools.C), carry, msr);
    WriteBit(MsrTools.Offset(MsrTools.CC), carry, msr1)
  }

  /** Writes the carry into both C and CC of the MSR; nothing else changes. */
  function WriteCarryBit(s: Sprs, carry: bv32): (w: Sprs)
    ensures carry == 0 || carry == 1 ==>
      GetCarryBit(w) == carry && MsrTools.ReadBit(MsrTools.CC, w[Msr]) == carry
    ensures carry != 0 && carry != 1 ==> w == s
    ensures w[Pc] == s[Pc] && w[Esr] == s[Esr]
    ensures forall i: bv5 :: i != MsrTools.Offset(MsrTools.C) && i != MsrTools.Offset(MsrTools.CC) ==>
      Bit(i, w[Msr]) == Bit(i, s[Msr])
  {
    Write(s, Msr, WriteCarryMsr(s[Msr], carry))
  }

  /** Writes the divide-by-zero/overflow bit DZO of the MSR. */
  function WriteDzoBit(s: Sprs, dzo: bv32): (w: Sprs)
    ensures dzo == 0 || dzo == 1 ==> MsrTools.ReadBit(MsrTools.DZO, w[Msr]) == dzo
    ensures w[Pc] == s[Pc] && w[Esr] == s[Esr]
    ensures forall i: bv5 :: i != MsrTools.Offset(MsrTools.DZO) ==> Bit(i, w[Msr]) == Bit(i, s[Msr])
  {
    Write(s, Msr, WriteBit(MsrTools.Offset(MsrTools.DZO), dzo, s[Msr]))
  }

  /** Writes the DEC bit (bit 11) of the ESR. */
  function WriteDecBit(s: Sprs, dec: bv32): (w: Sprs)
    ensures dec == 0 || dec == 1 ==> GetBit(DecPosition, w[Esr]) == dec
    ensures w[Pc] == s[Pc] && w[Msr] == s[Msr]
    ensures w[Esr] & 0x1F == s[Esr] & 0x1F
    ensures forall i: bv5 :: i != DecPosition ==> Bit(i, w[Esr]) == Bit(i, s[Esr])
  {
    Write(s, Esr, WriteBit(DecPosition, dec, s[Esr]))
  }

  /** The ESR after writing `ec` into its EC field: the low five bits are replaced. */
  lemma EcField(ec: bv32, esr: bv32)
    ensures WriteBits(EcPosition, EcSize, ec, esr) == (esr & !0x1F) | (ec & 0x1F)
  {
    assert Mask(EcPosition, EcSize) == 0x1F;
  }

  /** Writes the 5-bit exception cause EC into the low bits of the ESR. */
  function WriteEcBits(s: Sprs, ec: bv32): (w: Sprs)
    ensures w[Esr] & 0x1F == ec & 0x1F
    ensures w[Esr] & !0x1F == s[Esr] & !0x1F
    ensures w[Pc] == s[Pc] && w[Msr] == s[Msr]
  {
    EcField(ec, s[Esr]);
    Write(s, Esr, WriteBits(EcPosition, EcSize, ec, s[Esr]))
  }

  function GetPc(s: Sprs): bv32 {
    s[Pc]
  }

  function WritePc(s: Sprs, pc: bv32): (w: Sprs)
    ensures GetPc(w) == pc
    ensures w[Msr] == s[Msr] && w[Esr] == s[Esr]
  {
    Write(s, Pc, pc)
  }

  /** Advances the PC by 4 (wrapping at 2^32, like the Java `int`). */
  function IncrementPc(s: Sprs): (w: Sprs)
    ensures GetPc(w) == GetPc(s) + 4
    ensures w[Msr] == s[Msr] && w[Esr] == s[Esr]
  {
    Write(s, Pc, s[Pc] + 4)
  }

  /** Writing the carry and then reading it back returns the carry. */
  lemma CarryRoundTrip(s: Sprs, carry: bv32)
    requires carry == 0 || carry == 1
    ensures GetCarryBit(WriteCarryBit(s, carry)) == carry
  {
  }

  /** Writing the PC twice keeps only the second write. */
  lemma WritePcTwice(s: Sprs, a: bv32, b: bv32)
    ensures WritePc(WritePc(s, a), b) == WritePc(s, b)
  {
  }
}
