/**
 * The parsed form of one trace instruction: the operation name, up to three
 * operand slots holding register names, and an optional 16-bit immediate.
 * An immediate, when present, is not kept in a slot: its slot is empty.
 *
 * `ToString` writes the operands back as they appear in a trace line: the
 * registers up to the first empty slot, separated by ", ", then the
 * immediate.
 */
module TraceData {
  import opened Wrappers

  const MaxRegisters: nat := 3
  const RdIndex: nat := 0
  const RaIndex: nat := 1
  const RbIndex: nat := 2

  /** The values of a Java `short`. */
  type Short = x: int | -0x8000 <= x < 0x8000

  /** The operand slots; `None` is an empty (null) slot. */
  type Slots = s: seq<Option<string>> | |s| == MaxRegisters witness [None, None, None]

  datatype Data = Data(opName: string, registers: Slots, imm: Option<Short>)

  function Rd(d: Data): Option<string> {
    d.registers[RdIndex]
  }

  function Ra(d: Data): Option<string> {
    d.registers[RaIndex]
  }

  function Rb(d: Data): Option<string> {
    d.registers[RbIndex]
  }

  /** The slots holding `regs` in order, followed by empty slots. */
  function SlotsOf(regs: seq<string>): (s: Slots)
    requires |regs| <= MaxRegisters
    ensures forall i :: 0 <= i < |regs| ==> s[i] == Some(regs[i])
    ensures forall i :: |regs| <= i < MaxRegisters ==> s[i] == None
  {
    seq(MaxRegisters, i requires 0 <= i < MaxRegisters => if i < |regs| then Some(regs[i]) else None)
  }

  /** The register names before the first empty slot. */
  function Prefix(s: seq<Option<string>>): (p: seq<string>)
    ensures |p| <= |s|
  {
    if |s| == 0 || s[0].None? then [] else [s[0].value] + Prefix(s[1..])
  }

  // ---------------------------------------------------------------------
  // Decimal text of a number
  // ---------------------------------------------------------------------

  predicate IsDigit(c: char) {
    '0' <= c <= '9'
  }

  function DigitChar(n: nat): (c: char)
    requires n < 10
    ensures IsDigit(c)
  {
    (48 + n) as char
  }

  /** The decimal digits of `n`, most significant first, without leading zeros. */
  function NaturalText(n: nat): (s: string)
    ensures |s| > 0 && forall i :: 0 <= i < |s| ==> IsDigit(s[i])
  {
    if n < 10 then [DigitChar(n)] else NaturalText(n / 10) + [DigitChar(n % 10)]
  }

  /** The text of a number as Java prints it: a '-' for negatives, then the digits. */
  function ShortText(v: int): (s: string)
    ensures |s| > 0 && (IsDigit(s[0]) || s[0] == '-')
    ensures forall i :: 0 < i < |s| ==> IsDigit(s[i])
  {
    if v < 0 then "-" + NaturalText(-v) else NaturalText(v)
  }

  // ---------------------------------------------------------------------
  // Writing the operands back
  // ---------------------------------------------------------------------

  /**
   * The registers from slot `i` on, stopping at the first empty slot. A
   * register is followed by ", " unless it is the last one written and no
   * immediate follows; the register in the last slot never is.
   */
  function RegistersText(registers: Slots, i: nat, hasImm: bool): string
    decreases MaxRegisters - i
  {
    if i >= MaxRegisters || registers[i].None? then ""
    else
      var r := registers[i].value;
      var piece :=
        if i < MaxRegisters - 1 then
          (if registers[i + 1].None? && !hasImm then r else r + ", ")
        else r;
      piece + RegistersText(registers, i + 1, hasImm)
  }

  function ToString(d: Data): string {
    RegistersText(d.registers, 0, d.imm.Some?) + (if d.imm.Some? then ShortText(d.imm.value) else "")
  }

  /** Tokens separated by ", ". */
  function Join(tokens: seq<string>): string {
    if |tokens| == 0 then ""
    else if |tokens| == 1 then tokens[0]
    else tokens[0] + ", " + Join(tokens[1..])
  }

  lemma {:induction false} JoinAppend(tokens: seq<string>, t: string)
    requires |tokens| > 0
    ensures Join(tokens + [t]) == Join(tokens) + ", " + t
  {
    var all := tokens + [t];
    if |tokens| == 1 {
      assert all[1..] == [t];
    } else {
      assert all[1..] == tokens[1..] + [t];
      JoinAppend(tokens[1..], t);
      calc {
        Join(all);
        all[0] + ", " + Join(all[1..]);
        tokens[0] + ", " + (Join(tokens[1..]) + ", " + t);
        (tokens[0] + ", " + Join(tokens[1..])) + ", " + t;
      }
    }
  }

  /**
   * From slot `i` on, the registers text is the registers before the first
   * empty slot joined by ", "; with an immediate following, a separator is
   * added after them unless they run to the last slot.
   */
  lemma {:induction false} RegistersTextJoin(registers: Slots, i: nat, hasImm: bool)
    requires i <= MaxRegisters
    ensures !hasImm ==> RegistersText(registers, i, hasImm) == Join(Prefix(registers[i..]))
    ensures hasImm ==>
      RegistersText(registers, i, hasImm) == Join(Prefix(registers[i..])) +
        (if 0 < |Prefix(registers[i..])| && i + |Prefix(registers[i..])| < MaxRegisters then ", " else "")
    decreases MaxRegisters - i
  {
    if i < MaxRegisters && registers[i].Some? {
      RegistersTextJoin(registers, i + 1, hasImm);
      var rest := Prefix(registers[i + 1..]);
      assert registers[i..][1..] == registers[i + 1..];
      assert Prefix(registers[i..]) == [registers[i].value] + rest;
      if |rest| > 0 {
        assert registers[i + 1..][0] == registers[i + 1];
        assert ([registers[i].value] + rest)[1..] == rest;
      }
    }
  }

  /** Without an immediate, the text is the registers up to the first empty slot, joined by ", ". */
  lemma ToStringWithoutImmediate(d: Data)
    requires d.imm.None?
    ensures ToString(d) == Join(Prefix(d.registers))
  {
    RegistersTextJoin(d.registers, 0, false);
    assert d.registers[0..] == d.registers;
  }

  /**
   * With an immediate, every register before the first empty slot is
   * followed by ", " and the immediate comes last; when all three slots are
   * full the immediate follows the third register with no separator.
   */
  lemma ToStringWithImmediate(d: Data)
    requires d.imm.Some?
    ensures |Prefix(d.registers)| < MaxRegisters ==>
      ToString(d) == Join(Prefix(d.registers) + [ShortText(d.imm.value)])
    ensures |Prefix(d.registers)| == MaxRegisters ==>
      ToString(d) == Join(Prefix(d.registers)) + ShortText(d.imm.value)
  {
    RegistersTextJoin(d.registers, 0, true);
    assert d.registers[0..] == d.registers;
    var p := Prefix(d.registers);
    if 0 < |p| {
      JoinAppend(p, ShortText(d.imm.value));
    } else {
      assert p + [ShortText(d.imm.value)] == [ShortText(d.imm.value)];
    }
  }

  /** No registers and no immediate give the empty text. */
  lemma ToStringEmpty(opName: string)
    ensures ToString(Data(opName, SlotsOf([]), None)) == ""
  {
    ToStringWithoutImmediate(Data(opName, SlotsOf([]), None));
  }

  /** The registers before the first empty slot of `SlotsOf(regs)` are `regs`. */
  lemma {:induction false} PrefixOfSlots(regs: seq<string>)
    requires |regs| <= MaxRegisters
    ensures Prefix(SlotsOf(regs)) == regs
  {
    var s := SlotsOf(regs);
    PrefixOfSome(s, regs);
  }

  lemma {:induction false} PrefixOfSome(s: seq<Option<string>>, regs: seq<string>)
    requires |regs| <= |s|
    requires forall i :: 0 <= i < |regs| ==> s[i] == Some(regs[i])
    requires |regs| < |s| ==> s[|regs|] == None
    ensures Prefix(s) == regs
  {
    if |regs| > 0 {
      PrefixOfSome(s[1..], regs[1..]);
      assert regs == [regs[0]] + regs[1..];
    }
  }
}
