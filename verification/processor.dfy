/**
 * The processor loop: each trace line is decoded into an instruction,
 * executed on the hardware, and followed by a clock step. A line whose
 * operation name is not in the instruction table is skipped, with a warning
 * the first time that name is seen. Any other failure ends the run.
 */
module Processor {
  import opened Wrappers
  import opened Machine
  import InstructionParser
  import InstructionBuilder
  import CycleClock
  import SpecialRegisters
  import LockRegister
  import JavaInt

  datatype RunError =
    | BadLine(parseError: InstructionParser.ParseError)
    | BadAddress(digits: string)
    | Fault(execError: ExecError)

  /**
   * The processor: its hardware, its clock, the operation names it has
   * found missing from the instruction table, and the warnings it has
   * issued, one name per warning in order.
   */
  datatype State = State(
    hw: Hardware,
    clock: CycleClock.Clock,
    notImplemented: set<string>,
    warnings: seq<string>)

  function Init(): (s: State)
    ensures s.clock.cycles == 0 && s.notImplemented == {} && s.warnings == []
    ensures s.hw == Machine.Init()
  {
    State(Machine.Init(), CycleClock.Init(), {}, [])
  }

  // ---------------------------------------------------------------------
  // Hexadecimal addresses
  // ---------------------------------------------------------------------

  /** A digit `Character.digit(c, 16)` accepts, in the ASCII range. */
  predicate IsHexDigit(c: char) {
    ('0' <= c <= '9') || ('a' <= c <= 'f') || ('A' <= c <= 'F')
  }

  predicate AllHex(s: string) {
    forall i :: 0 <= i < |s| ==> IsHexDigit(s[i])
  }

  function HexDigitValue(c: char): (v: nat)
    requires IsHexDigit(c)
    ensures v < 16
  {
    if '0' <= c <= '9' then c as int - '0' as int
    else if 'a' <= c <= 'f' then c as int - 'a' as int + 10
    else c as int - 'A' as int + 10
  }

  function Power16(n: nat): (p: nat)
    ensures p >= 1
  {
    if n == 0 then 1 else 16 * Power16(n - 1)
  }

  /** The number written by hex digits, most significant first. */
  function HexValue(s: string): (v: nat)
    requires AllHex(s)
    ensures v < Power16(|s|)
  {
    if |s| == 0 then 0
    else HexValue(s[..|s| - 1]) * 16 + HexDigitValue(s[|s| - 1])
  }

  /** The lower-case digit for a value below 16. */
  function HexDigitChar(v: nat): (c: char)
    requires v < 16
    ensures IsHexDigit(c) && HexDigitValue(c) == v
  {
    if v < 10 then ('0' as int + v) as char else ('a' as int + v - 10) as char
  }

  /** `n` in `width` hex digits, most significant first, as the trace writes addresses. */
  function HexText(n: nat, width: nat): (s: string)
    ensures |s| == width && AllHex(s)
  {
    if width == 0 then [] else HexText(n / 16, width - 1) + [HexDigitChar(n % 16)]
  }

  /** Writing a number in enough hex digits and reading them back gives the number. */
  lemma {:induction false} HexRoundTrip(n: nat, width: nat)
    requires n < Power16(width)
    ensures HexValue(HexText(n, width)) == n
  {
    if width > 0 {
      var text := HexText(n, width);
      assert text[..width - 1] == HexText(n / 16, width - 1);
      HexRoundTrip(n / 16, width - 1);
    }
  }

  /** Addresses are 32 bits: eight hex digits. */
  const AddressLimit: nat := 0x1_0000_0000

  lemma AddressDigitsBound()
    ensures Power16(InstructionParser.AddressDigits) == AddressLimit
  {
  }

  /**
   * The instruction address, read as an unsigned 32-bit number. Any eight
   * hex digits are an address.
   */
  function DecodeAddress(digits: string): (r: Option<nat>)
    ensures r.Some? <==> |digits| == InstructionParser.AddressDigits && AllHex(digits)
    ensures r.Some? ==> r.value < AddressLimit
  {
    if |digits| == InstructionParser.AddressDigits && AllHex(digits) then
      AddressDigitsBound();
      Some(HexValue(digits))
    else None
  }

  /** Every 32-bit address, written as the trace writes it, decodes to itself. */
  lemma DecodeAddressRoundTrip(a: nat)
    requires a < AddressLimit
    ensures DecodeAddress(HexText(a, InstructionParser.AddressDigits)) == Some(a)
  {
    AddressDigitsBound();
    HexRoundTrip(a, InstructionParser.AddressDigits);
  }

  /**
   * `Integer.valueOf(s, 16)`: an optional sign, then at least one hex digit,
   * and the value must fit in an `int`; otherwise a NumberFormatException.
   */
  function DecodeAddressAsWritten(s: string): (r: Option<int>)
    ensures r.Some? ==> -0x8000_0000 <= r.value < 0x8000_0000
  {
    if |s| == 0 then None
    else
      var digits := if s[0] == '-' || s[0] == '+' then s[1..] else s;
      if |digits| == 0 || !AllHex(digits) then None
      else
        var magnitude := HexValue(digits);
        var v: int := if s[0] == '-' then -(magnitude as int) else magnitude;
        if -0x8000_0000 <= v < 0x8000_0000 then Some(v) else None
  }

  /**
   * Read as an `int`, an address decodes only in the lower half of the
   * address space: from 0x80000000 up it throws, and the run ends.
   */
  lemma DecodeAddressAsWrittenHalf(a: nat)
    requires a < AddressLimit
    ensures DecodeAddressAsWritten(HexText(a, InstructionParser.AddressDigits))
      == if a < 0x8000_0000 then Some(a) else None
  {
    var text := HexText(a, InstructionParser.AddressDigits);
    assert IsHexDigit(text[0]);
    HexRoundTrip(a, InstructionParser.AddressDigits);
    AddressDigitsBound();
  }

  /** The address 0x80000000: accepted by `DecodeAddress`, rejected as written. */
  lemma DecodeAddressAsWrittenRejects()
    ensures DecodeAddressAsWritten("80000000") == None
    ensures DecodeAddress("80000000") == Some(0x8000_0000)
  {
    assert HexText(0x8, 1) == "8";
    assert HexText(0x80, 2) == "80";
    assert HexText(0x800, 3) == "800";
    assert HexText(0x8000, 4) == "8000";
    assert HexText(0x8_0000, 5) == "80000";
    assert HexText(0x80_0000, 6) == "800000";
    assert HexText(0x800_0000, 7) == "8000000";
    assert HexText(0x8000_0000, 8) == "80000000";
    DecodeAddressAsWrittenHalf(0x8000_0000);
    DecodeAddressRoundTrip(0x8000_0000);
  }

  // ---------------------------------------------------------------------
  // One trace line
  // ---------------------------------------------------------------------

  /** What a well-formed line holds: a name outside the table, or an instruction. */
  datatype Decoded = Unknown(opName: string) | Known(inst: InstructionBuilder.Instruction)

  /**
   * The state-independent part of a line: its address must decode, the
   * line must parse, and a name in the table must build an instruction.
   */
  function Decode(line: string): (r: Result<Decoded, RunError>)
    ensures r.Success? ==> InstructionParser.Parse(line).Success?
    ensures r.Success? && r.value.Unknown? <==>
      && InstructionParser.GetMemoryAddress(line).Success?
      && DecodeAddressAsWritten(InstructionParser.GetMemoryAddress(line).value).Some?
      && InstructionParser.Parse(line).Success?
      && InstructionBuilder.Lookup(InstructionParser.Parse(line).value.opName).None?
    ensures r.Success? && r.value.Unknown? ==> r.value.opName == InstructionParser.Parse(line).value.opName
    ensures r.Success? && r.value.Known? ==>
      InstructionBuilder.Lookup(InstructionParser.Parse(line).value.opName)
        == Some(InstructionBuilder.FamilyOf(r.value.inst))
  {
    match InstructionParser.GetMemoryAddress(line)
    case Failure(e) => Failure(BadLine(e))
    case Success(digits) =>
      if DecodeAddressAsWritten(digits).None? then Failure(BadAddress(digits))
      else
        match InstructionParser.Parse(line)
        case Failure(e) => Failure(BadLine(e))
        case Success(data) =>
          match InstructionBuilder.Lookup(data.opName)
          case None => Success(Unknown(data.opName))
          case Some(family) =>
            match InstructionBuilder.Build(family, data)
            case Failure(e) => Failure(Fault(e))
            case Success(inst) => Success(Known(inst))
  }

  /**
   * A line whose address lies in the upper half of the address space
   * stops the run, however well-formed the rest of it is; one in the lower
   * half gets past the address.
   */
  lemma DecodeHighAddress(line: string, a: nat)
    requires a < AddressLimit
    requires InstructionParser.GetMemoryAddress(line) == Success(HexText(a, InstructionParser.AddressDigits))
    ensures a >= 0x8000_0000 ==>
      Decode(line) == Failure(BadAddress(HexText(a, InstructionParser.AddressDigits)))
    ensures a < 0x8000_0000 && Decode(line).Failure? ==> !Decode(line).error.BadAddress?
  {
    DecodeAddressAsWrittenHalf(a);
  }

  /** Records a name missing from the table, warning only the first time. */
  function Warn(s: State, opName: string): (t: State)
    ensures t.hw == s.hw && t.clock == s.clock
    ensures t.notImplemented == s.notImplemented + {opName}
    ensures opName in s.notImplemented ==> t.warnings == s.warnings
    ensures opName !in s.notImplemented ==> t.warnings == s.warnings + [opName]
  {
    if opName in s.notImplemented then s
    else s.(notImplemented := s.notImplemented + {opName}, warnings := s.warnings + [opName])
  }

  /** Executes one instruction and then steps the clock. */
  function Perform(s: State, config: Config, inst: InstructionBuilder.Instruction): (r: Result<State, RunError>)
    ensures r.Failure? ==> r.error.Fault? && r.error.execError.BadRegister?
    ensures r.Success? ==> r.value.notImplemented == s.notImplemented && r.value.warnings == s.warnings
    ensures r.Success? ==> r.value.clock.cycles > s.clock.cycles
    ensures r.Success? && !inst.Imm? ==> r.value.hw.lock == LockRegister.Step(s.hw.lock)
    ensures r.Success? && !InstructionBuilder.IsBranch(inst) ==>
      SpecialRegisters.GetPc(r.value.hw.sprs) == SpecialRegisters.GetPc(s.hw.sprs) + 4
  {
    match InstructionBuilder.Execute(s.hw, config, inst)
    case Failure(e) => Failure(Fault(e))
    case Success(out) =>
      var (hw, clock) := CycleClock.Step(out.hw, s.clock, InstructionBuilder.IsBranch(inst), out.latency);
      Success(s.(hw := hw, clock := clock))
  }

  /** Processes one trace line. */
  function ProcessLine(s: State, config: Config, line: string): (r: Result<State, RunError>)
    ensures r.Failure? <==>
      Decode(line).Failure? || (Decode(line).value.Known? && Perform(s, config, Decode(line).value.inst).Failure?)
    ensures r.Success? ==> s.notImplemented <= r.value.notImplemented
  {
    match Decode(line)
    case Failure(e) => Failure(e)
    case Success(Unknown(opName)) => Success(Warn(s, opName))
    case Success(Known(inst)) => Perform(s, config, inst)
  }

  /** Processes the lines in order, stopping at the first failure. */
  function Run(s: State, config: Config, lines: seq<string>): (r: Result<State, RunError>)
    decreases |lines|
  {
    if |lines| == 0 then Success(s)
    else
      match ProcessLine(s, config, lines[0])
      case Failure(e) => Failure(e)
      case Success(t) => Run(t, config, lines[1..])
  }

  // ---------------------------------------------------------------------
  // Properties of the loop
  // ---------------------------------------------------------------------

  /**
   * A line whose name is not in the table changes neither the hardware nor
   * the clock, so not even the lock register advances; only the name is
   * recorded.
   */
  lemma UnknownLineChangesNothing(s: State, config: Config, line: string)
    requires Decode(line).Success? && Decode(line).value.Unknown?
    ensures ProcessLine(s, config, line).Success?
    ensures ProcessLine(s, config, line).value.hw == s.hw
    ensures ProcessLine(s, config, line).value.clock == s.clock
    ensures ProcessLine(s, config, line).value.notImplemented
      == s.notImplemented + {InstructionParser.Parse(line).value.opName}
  {
  }

  /**
   * The warnings are the names found missing, each warned about exactly
   * once, and every one of them is indeed missing from the table.
   */
  ghost predicate WarnedOnce(s: State) {
    && (forall i, j :: 0 <= i < j < |s.warnings| ==> s.warnings[i] != s.warnings[j])
    && (forall name :: name in s.notImplemented <==> name in s.warnings)
    && (forall name :: name in s.notImplemented ==> InstructionBuilder.Lookup(name).None?)
  }

  lemma InitWarnedOnce()
    ensures WarnedOnce(Init())
  {
  }

  lemma ProcessLineWarnsOnce(s: State, config: Config, line: string)
    requires WarnedOnce(s)
    requires ProcessLine(s, config, line).Success?
    ensures WarnedOnce(ProcessLine(s, config, line).value)
  {
  }

  lemma {:induction false} RunWarnsOnce(s: State, config: Config, lines: seq<string>)
    requires WarnedOnce(s)
    requires Run(s, config, lines).Success?
    ensures WarnedOnce(Run(s, config, lines).value)
    decreases |lines|
  {
    if |lines| > 0 {
      ProcessLineWarnsOnce(s, config, lines[0]);
      RunWarnsOnce(ProcessLine(s, config, lines[0]).value, config, lines[1..]);
    }
  }

  /** Running two traces one after the other is running their concatenation. */
  lemma {:induction false} RunAppend(s: State, config: Config, a: seq<string>, b: seq<string>)
    ensures Run(s, config, a + b) ==
      match Run(s, config, a)
      case Failure(e) => Failure(e)
      case Success(t) => Run(t, config, b)
    decreases |a|
  {
    if |a| == 0 {
      assert a + b == b;
    } else {
      assert (a + b)[0] == a[0];
      assert (a + b)[1..] == a[1..] + b;
      match ProcessLine(s, config, a[0])
      case Failure(_) =>
      case Success(t) =>
        assert Run(s, config, a + b) == Run(t, config, a[1..] + b);
        assert Run(s, config, a) == Run(t, config, a[1..]);
        RunAppend(t, config, a[1..], b);
    }
  }

  /**
   * The cycle count never goes down over a run: each executed line adds at
   * least one cycle and a skipped line adds none.
   */
  lemma {:induction false} RunCountsUp(s: State, config: Config, lines: seq<string>)
    requires Run(s, config, lines).Success?
    ensures Run(s, config, lines).value.clock.cycles >= s.clock.cycles
    decreases |lines|
  {
    if |lines| > 0 {
      RunCountsUp(ProcessLine(s, config, lines[0]).value, config, lines[1..]);
    }
  }

  /** After an imm instruction and its clock step the lock register holds its operand, locked. */
  lemma PerformImm(s: State, config: Config, imm: bv32)
    ensures Perform(s, config, InstructionBuilder.Imm(imm)).Success?
    ensures Perform(s, config, InstructionBuilder.Imm(imm)).value.hw.lock == LockRegister.Lock(LockRegister.Locked, imm)
  {
    InstructionBuilder.ExecuteImm(s.hw, config, imm);
  }

  /**
   * An imm instruction puts its operand in the lock register, which is then
   * locked; the next instruction executed that is not itself an imm
   * unlocks it again.
   */
  lemma ImmLocksForOneInstruction(s: State, config: Config, imm: bv32, next: InstructionBuilder.Instruction)
    requires !next.Imm?
    ensures
      var t := Perform(s, config, InstructionBuilder.Imm(imm));
      && t.Success? && t.value.hw.lock == LockRegister.Lock(LockRegister.Locked, imm)
      && (Perform(t.value, config, next).Success? ==> Perform(t.value, config, next).value.hw.lock.state == LockRegister.Unlocked)
  {
    PerformImm(s, config, imm);
  }

  /**
   * A line that decodes to an instruction fails only when the instruction
   * names a register outside the register file.
   */
  lemma KnownLineSucceeds(s: State, config: Config, line: string)
    requires Decode(line).Success? && Decode(line).value.Known?
    ensures ProcessLine(s, config, line).Success? <==> InstructionBuilder.RegistersExist(Decode(line).value.inst)
  {
    InstructionBuilder.ExecuteSucceeds(s.hw, config, Decode(line).value.inst);
  }
}
