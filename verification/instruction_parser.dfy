/**
 * Decoding one line of a MicroBlaze execution trace. A line looks like
 *
 *   0x000001A4  addik r1, r0, -5
 *
 * The instruction address takes the first ten characters and is followed
 * by two spaces, so the instruction proper starts at the 13th character.
 * The decoding relies on these fixed positions rather than on a grammar:
 * the operation name runs up to the first space, and the operands are the
 * comma-separated pieces after it, each with surrounding white space
 * removed. A last operand that does not start with a letter is the 16-bit
 * immediate.
 *
 * Where the Java code throws (a line too short, no space, a fourth operand,
 * an empty last operand, an immediate that is not a `short`), the model
 * returns a `Failure`.
 */
module InstructionParser {
  import opened Wrappers
  import opened TraceData

  /** "0x", eight hex digits and two spaces. */
  const InstructionStart: nat := 12
  const AddressDigits: nat := 8
  const HexPrefixLength: nat := 2

  datatype ParseError =
    | LineTooShort
    | NoOperands
    | TooManyOperands
    | EmptyOperand
    | BadImmediate

  /** White space as Java's `String.trim` sees it: every character up to U+0020. */
  predicate IsWhitespace(c: char) {
    c <= ' '
  }

  /** `Character.isLetter`, restricted to ASCII. */
  predicate IsLetter(c: char) {
    ('a' <= c <= 'z') || ('A' <= c <= 'Z')
  }

  /** The position of the first `c` at or after `from`, or -1 (Java's `indexOf`). */
  function IndexOf(s: string, c: char, from: nat): (i: int)
    ensures i == -1 || (from <= i < |s| && s[i] == c)
    ensures i == -1 ==> forall k :: from <= k < |s| ==> s[k] != c
    ensures i != -1 ==> forall k :: from <= k < i ==> s[k] != c
    decreases |s| - from
  {
    if from >= |s| then -1
    else if s[from] == c then from
    else IndexOf(s, c, from + 1)
  }

  // ---------------------------------------------------------------------
  // Trimming
  // ---------------------------------------------------------------------

  /** The first position in `i..end` that is not white space, or `end`. */
  function TrimFrom(s: string, i: nat, end: nat): (j: nat)
    requires i <= end <= |s|
    ensures i <= j <= end
    decreases end - i
  {
    if i < end && IsWhitespace(s[i]) then TrimFrom(s, i + 1, end) else i
  }

  /** The end of `s[from..j]` once its trailing white space is dropped. */
  function TrimTo(s: string, from: nat, j: nat): (k: nat)
    requires from <= j <= |s|
    ensures from <= k <= j
    decreases j
  {
    if j > from && IsWhitespace(s[j - 1]) then TrimTo(s, from, j - 1) else j
  }

  /** `s[b..e]` without leading and trailing white space, as Java's `trim` makes it. */
  function TrimRange(s: string, b: nat, e: nat): string
    requires b <= e <= |s|
  {
    var start := TrimFrom(s, b, e);
    s[start..TrimTo(s, start, e)]
  }

  /** `s` without leading and trailing white space. */
  function Trim(s: string): string {
    TrimRange(s, 0, |s|)
  }

  // ---------------------------------------------------------------------
  // Operands
  // ---------------------------------------------------------------------

  /** The trimmed pieces of `s` between commas, from position `b` on. */
  function ArgumentsFrom(s: string, b: nat): (args: seq<string>)
    requires b <= |s|
    ensures |args| > 0
    decreases |s| - b
  {
    var i := IndexOf(s, ',', b);
    if i == -1 then [TrimRange(s, b, |s|)] else [TrimRange(s, b, i)] + ArgumentsFrom(s, i + 1)
  }

  /** The trimmed pieces of `s` between commas. */
  function Arguments(s: string): (args: seq<string>)
    ensures |args| > 0
  {
    ArgumentsFrom(s, 0)
  }

  /** The number of times `c` occurs in `s` from position `b` on. */
  function CountFrom(s: string, c: char, b: nat): nat
    requires b <= |s|
    decreases |s| - b
  {
    if b == |s| then 0 else CountFrom(s, c, b + 1) + (if s[b] == c then 1 else 0)
  }

  /** A stretch without `c` adds nothing to the count. */
  lemma {:induction false} CountSkips(s: string, c: char, b: nat, i: nat)
    requires b <= i <= |s|
    requires forall k :: b <= k < i ==> s[k] != c
    ensures CountFrom(s, c, b) == CountFrom(s, c, i)
    decreases i - b
  {
    if b < i {
      CountSkips(s, c, b + 1, i);
    }
  }

  /** From any position there is one operand more than there are commas. */
  lemma {:induction false} ArgumentsFromCount(s: string, b: nat)
    requires b <= |s|
    ensures |ArgumentsFrom(s, b)| == CountFrom(s, ',', b) + 1
    decreases |s| - b
  {
    var i := IndexOf(s, ',', b);
    if i == -1 {
      assert |ArgumentsFrom(s, b)| == 1;
      CountSkips(s, ',', b, |s|);
    } else {
      assert |ArgumentsFrom(s, b)| == 1 + |ArgumentsFrom(s, i + 1)|;
      assert CountFrom(s, ',', i) == CountFrom(s, ',', i + 1) + 1;
      ArgumentsFromCount(s, i + 1);
      CountSkips(s, ',', b, i);
    }
  }

  /** There is one operand more than there are commas. */
  lemma ArgumentsCount(s: string)
    ensures |Arguments(s)| == CountFrom(s, ',', 0) + 1
  {
    ArgumentsFromCount(s, 0);
  }

  /**
   * The operand loop as the Java code runs it: cut at each comma from the
   * current start, then take the rest after the last comma.
   */
  method ExtractArgs(instruction: string) returns (args: seq<string>)
    ensures args == Arguments(instruction)
  {
    args := [];
    var beginIndex := 0;
    var indexOfComma := IndexOf(instruction, ',', 0);
    while indexOfComma != -1
      invariant 0 <= beginIndex <= |instruction|
      invariant indexOfComma == IndexOf(instruction, ',', beginIndex)
      invariant args + ArgumentsFrom(instruction, beginIndex) == Arguments(instruction)
      decreases |instruction| - beginIndex
    {
      ExtractStep(instruction, args, beginIndex);
      args := args + [TrimRange(instruction, beginIndex, indexOfComma)];
      beginIndex := indexOfComma + 1;
      indexOfComma := IndexOf(instruction, ',', beginIndex);
    }
    var last := TrimRange(instruction, beginIndex, |instruction|);
    ArgumentsFromLast(instruction, beginIndex, last);
    args := args + [last];
  }

  /** One turn of the operand loop keeps its invariant. */
  lemma ExtractStep(s: string, args: seq<string>, b: nat)
    requires b <= |s| && IndexOf(s, ',', b) != -1
    requires args + ArgumentsFrom(s, b) == Arguments(s)
    ensures
      var i := IndexOf(s, ',', b);
      (args + [TrimRange(s, b, i)]) + ArgumentsFrom(s, i + 1) == Arguments(s)
  {
    var i := IndexOf(s, ',', b);
    var piece := [TrimRange(s, b, i)];
    var rest := ArgumentsFrom(s, i + 1);
    assert ArgumentsFrom(s, b) == piece + rest;
    assert args + (piece + rest) == (args + piece) + rest;
  }

  // ---------------------------------------------------------------------
  // Numbers
  // ---------------------------------------------------------------------

  predicate AllDigits(s: string) {
    forall k :: 0 <= k < |s| ==> IsDigit(s[k])
  }

  /** The value of a string of decimal digits. */
  function DigitsValue(s: string): nat
    requires AllDigits(s)
  {
    if |s| == 0 then 0 else DigitsValue(s[..|s| - 1]) * 10 + (s[|s| - 1] as int - 48)
  }

  /**
   * Java's `Short.valueOf`: an optional sign, then decimal digits, and the
   * value must fit in 16 bits.
   */
  function ParseShort(s: string): (r: Option<Short>) {
    var negative := |s| > 0 && s[0] == '-';
    var digits := if |s| > 0 && (s[0] == '-' || s[0] == '+') then s[1..] else s;
    if |digits| == 0 || !AllDigits(digits) then None
    else
      var v: int := if negative then -(DigitsValue(digits) as int) else DigitsValue(digits);
      if -0x8000 <= v < 0x8000 then Some(v) else None
  }

  lemma {:induction false} DigitsOfNatural(n: nat)
    ensures DigitsValue(NaturalText(n)) == n
  {
    if n >= 10 {
      var s := NaturalText(n);
      DigitsOfNatural(n / 10);
      assert s[..|s| - 1] == NaturalText(n / 10);
    }
  }

  /** Reading back the text Java prints for a `short` gives the same value. */
  lemma ShortRoundTrip(v: Short)
    ensures ParseShort(ShortText(v)) == Some(v)
  {
    if v < 0 {
      var m: nat := -(v as int);
      DigitsOfNatural(m);
      assert ShortText(v)[1..] == NaturalText(m);
    } else {
      DigitsOfNatural(v);
    }
  }

  /**
   * The register number of an operand such as "r12": the first character is
   * dropped and the rest read as a decimal number. A missing operand, or one
   * whose rest is not a number, reads as register 0.
   */
  function ParseRegister(token: Option<string>): (n: nat)
    ensures token.None? ==> n == 0
  {
    if token.None? || |token.value| < 2 || !AllDigits(token.value[1..]) then 0
    else DigitsValue(token.value[1..])
  }

  /** A register name of a letter and a number reads as that number. */
  lemma RegisterNameRoundTrip(letter: char, n: nat)
    ensures ParseRegister(Some([letter] + NaturalText(n))) == n
  {
    DigitsOfNatural(n);
    assert ([letter] + NaturalText(n))[1..] == NaturalText(n);
  }

  // ---------------------------------------------------------------------
  // A trace line
  // ---------------------------------------------------------------------

  /** The eight hex digits of the instruction address, after "0x". */
  function GetMemoryAddress(line: string): (r: Result<string, ParseError>)
    ensures r.Success? <==> |line| >= HexPrefixLength + AddressDigits
    ensures r.Success? ==> |r.value| == AddressDigits
  {
    if |line| < HexPrefixLength + AddressDigits then Failure(LineTooShort)
    else Success(line[HexPrefixLength..HexPrefixLength + AddressDigits])
  }

  /** The address digits of a line written as "0x", the digits, then anything. */
  lemma MemoryAddressOfLine(digits: string, rest: string)
    requires |digits| == AddressDigits
    ensures GetMemoryAddress("0x" + digits + rest) == Success(digits)
  {
    assert ("0x" + digits + rest)[HexPrefixLength..HexPrefixLength + AddressDigits] == digits;
  }

  /**
   * Decodes a trace line. The operation name is the text from the 13th
   * character up to the next space; the operands follow.
   */
  function Parse(line: string): (r: Result<Data, ParseError>)
    ensures |line| < InstructionStart ==> r == Failure(LineTooShort)
    ensures r.Success? ==>
      var n := |r.value.opName|;
      InstructionStart + n < |line| && line[InstructionStart..InstructionStart + n] == r.value.opName &&
      line[InstructionStart + n] == ' ' && ' ' !in r.value.opName
  {
    if |line| < InstructionStart then Failure(LineTooShort)
    else
      var instruction := line[InstructionStart..];
      var end := IndexOf(instruction, ' ', 0);
      if end == -1 then Failure(NoOperands)
      else
        var opName := instruction[..end];
        var args := Arguments(instruction[end..]);
        if |args| > MaxRegisters then Failure(TooManyOperands)
        else
          var last := args[|args| - 1];
          if |last| == 0 then Failure(EmptyOperand)
          else if IsLetter(last[0]) then Success(Data(opName, SlotsOf(args), None))
          else
            match ParseShort(last)
            case None => Failure(BadImmediate)
            case Some(v) => Success(Data(opName, SlotsOf(args[..|args| - 1]), Some(v)))
  }

  // ---------------------------------------------------------------------
  // Writing a line and decoding it again
  // ---------------------------------------------------------------------

  /** An operand as the trace writes it: not empty, no comma, no white space. */
  predicate Token(t: string) {
    |t| > 0 && forall k :: 0 <= k < |t| ==> t[k] != ',' && !IsWhitespace(t[k])
  }

  /** A register operand also starts with a letter. */
  predicate RegisterToken(t: string) {
    Token(t) && IsLetter(t[0])
  }

  lemma IndexOfFirst(a: string, c: char, b: string)
    requires c !in a
    ensures IndexOf(a + [c] + b, c, 0) == |a|
  {
    var s := a + [c] + b;
    assert s[|a|] == c;
    assert forall k :: 0 <= k < |a| ==> s[k] == a[k];
  }

  /** A space and a token, trimmed, give the token. */
  lemma TrimToken(s: string, b: nat, e: nat, t: string)
    requires b <= e <= |s| && s[b..e] == " " + t && Token(t)
    ensures TrimRange(s, b, e) == t
  {
    assert s[b] == s[b..e][0];
    assert s[b + 1] == t[0] == s[b..e][1];
    assert TrimFrom(s, b + 1, e) == b + 1;
    assert s[e - 1] == t[|t| - 1] == s[b..e][e - 1 - b];
    assert TrimTo(s, b + 1, e) == e;
    assert s[b + 1..e] == t;
  }

  /** A text of a space and one token has no comma. */
  lemma JoinLast(s: string, b: nat, t: string)
    requires Token(t) && b <= |s| && s[b..] == " " + t
    ensures IndexOf(s, ',', b) == -1 && TrimRange(s, b, |s|) == t
  {
    forall k | b <= k < |s|
      ensures s[k] != ','
    {
      assert s[k] == s[b..][k - b];
    }
    assert s[b..|s|] == " " + t;
    TrimToken(s, b, |s|, t);
  }

  /** In a text of a space and tokens joined by ", ", the first comma ends the first token. */
  lemma JoinSplit(s: string, b: nat, tokens: seq<string>)
    requires |tokens| > 1
    requires forall k :: 0 <= k < |tokens| ==> Token(tokens[k])
    requires b <= |s| && s[b..] == " " + Join(tokens)
    ensures
      var i := b + |tokens[0]| + 1;
      && i < |s| && IndexOf(s, ',', b) == i && TrimRange(s, b, i) == tokens[0]
      && s[i + 1..] == " " + Join(tokens[1..])
      && (forall k :: 0 <= k < |tokens[1..]| ==> Token(tokens[1..][k]))
      && tokens == [tokens[0]] + tokens[1..]
  {
    var t := tokens[0];
    var i := b + |t| + 1;
    assert Token(t);
    assert s[b..] == (" " + t) + [','] + (" " + Join(tokens[1..]));
    forall k | b <= k < i
      ensures s[k] != ','
    {
      assert s[k] == s[b..][k - b];
    }
    assert s[i] == s[b..][i - b];
    assert s[b..i] == s[b..][..i - b];
    TrimToken(s, b, i, t);
    assert s[i + 1..] == s[b..][i + 1 - b..];
  }

  /** From position `b` on, `s` is a space followed by `tokens` joined with ", ". */
  predicate JoinedAt(s: string, b: nat, tokens: seq<string>) {
    && |tokens| > 0
    && (forall k :: 0 <= k < |tokens| ==> Token(tokens[k]))
    && b <= |s| && s[b..] == " " + Join(tokens)
  }

  /** The operands from `b` of a text that continues with a space and tokens joined by ", ". */
  lemma {:induction false} ArgumentsOfJoinAt(s: string, b: nat, tokens: seq<string>)
    requires JoinedAt(s, b, tokens)
    ensures b <= |s| && ArgumentsFrom(s, b) == tokens
    decreases |tokens|
  {
    if |tokens| == 1 {
      ArgumentsOfJoinOne(s, b, tokens);
    } else {
      var i := JoinNext(s, b, tokens);
      ArgumentsOfJoinAt(s, i + 1, tokens[1..]);
      ArgumentsOfJoinMore(s, b, i, tokens);
    }
  }

  /** The operands of a space and a single token. */
  lemma ArgumentsOfJoinOne(s: string, b: nat, tokens: seq<string>)
    requires JoinedAt(s, b, tokens) && |tokens| == 1
    ensures b <= |s| && ArgumentsFrom(s, b) == tokens
  {
    JoinLast(s, b, tokens[0]);
    ArgumentsFromLast(s, b, tokens[0]);
  }

  /** The position of the comma after the first token. */
  lemma JoinNext(s: string, b: nat, tokens: seq<string>) returns (i: nat)
    requires JoinedAt(s, b, tokens) && |tokens| > 1
    ensures i == b + |tokens[0]| + 1 && JoinedAt(s, i + 1, tokens[1..])
  {
    JoinSplit(s, b, tokens);
    i := b + |tokens[0]| + 1;
  }

  /** The operands from `b` are the first token followed by the operands after the first comma. */
  lemma ArgumentsOfJoinMore(s: string, b: nat, i: nat, tokens: seq<string>)
    requires JoinedAt(s, b, tokens) && |tokens| > 1 && i == b + |tokens[0]| + 1
    requires i < |s| && ArgumentsFrom(s, i + 1) == tokens[1..]
    ensures b <= |s| && ArgumentsFrom(s, b) == tokens
  {
    JoinSplit(s, b, tokens);
    ArgumentsFromCons(s, b, i, tokens[0], tokens[1..]);
  }

  /** The operands from `b` when no comma follows. */
  lemma ArgumentsFromLast(s: string, b: nat, t: string)
    requires b <= |s| && IndexOf(s, ',', b) == -1 && TrimRange(s, b, |s|) == t
    ensures ArgumentsFrom(s, b) == [t]
  {
  }

  /** The operands from `b` when the first comma is at `i`. */
  lemma ArgumentsFromCons(s: string, b: nat, i: nat, t: string, rest: seq<string>)
    requires b <= i < |s| && IndexOf(s, ',', b) == i
    requires TrimRange(s, b, i) == t && ArgumentsFrom(s, i + 1) == rest
    ensures ArgumentsFrom(s, b) == [t] + rest
  {
  }

  /** Splitting a space followed by tokens joined with ", " gives the tokens back. */
  lemma ArgumentsOfJoin(tokens: seq<string>)
    requires |tokens| > 0
    requires forall k :: 0 <= k < |tokens| ==> Token(tokens[k])
    ensures Arguments(" " + Join(tokens)) == tokens
  {
    var s := " " + Join(tokens);
    assert s[0..] == s;
    ArgumentsOfJoinAt(s, 0, tokens);
  }

  /** The text Java prints for a `short` is an operand that does not start with a letter. */
  lemma ShortTextToken(v: int)
    ensures Token(ShortText(v)) && !IsLetter(ShortText(v)[0])
  {
  }

  /**
   * Decoding inverts writing: a line made of a 12-character address field,
   * the operation name, a space and the operands as `ToString` writes them
   * decodes to the same data, provided the name has no space, the register
   * operands are register names, and there are one to three operands.
   */
  lemma ParseRoundTrip(address: string, opName: string, regs: seq<string>, imm: Option<Short>)
    requires |address| == InstructionStart && ' ' !in opName
    requires forall k :: 0 <= k < |regs| ==> RegisterToken(regs[k])
    requires 1 <= |regs| + (if imm.Some? then 1 else 0) <= MaxRegisters
    ensures Parse(address + opName + " " + ToString(Data(opName, SlotsOf(regs), imm)))
      == Success(Data(opName, SlotsOf(regs), imm))
  {
    var d := Data(opName, SlotsOf(regs), imm);
    var text := ToString(d);
    var line := address + opName + " " + text;
    var instruction := line[InstructionStart..];
    assert instruction == opName + [' '] + text;
    IndexOfFirst(opName, ' ', text);
    assert instruction[..|opName|] == opName;
    assert instruction[|opName|..] == " " + text;
    PrefixOfSlots(regs);
    var tokens := if imm.Some? then regs + [ShortText(imm.value)] else regs;
    if imm.Some? {
      ToStringWithImmediate(d);
      ShortTextToken(imm.value);
      ShortRoundTrip(imm.value);
      assert tokens[..|tokens| - 1] == regs;
    } else {
      ToStringWithoutImmediate(d);
    }
    assert text == Join(tokens);
    ArgumentsOfJoin(tokens);
  }

  /** Three register operands as `ToString` writes them. */
  lemma ThreeRegistersText(opName: string, rd: string, ra: string, rb: string)
    ensures ToString(Data(opName, SlotsOf([rd, ra, rb]), None)) == rd + ", " + ra + ", " + rb
  {
    var d := Data(opName, SlotsOf([rd, ra, rb]), None);
    ToStringWithoutImmediate(d);
    PrefixOfSlots([rd, ra, rb]);
    assert [rd, ra, rb][1..] == [ra, rb];
    assert [ra, rb][1..] == [rb];
  }

  /** A line with three register operands decodes to those registers and no immediate. */
  lemma ParseThreeRegisters(address: string, opName: string, rd: string, ra: string, rb: string)
    requires |address| == InstructionStart && ' ' !in opName
    requires RegisterToken(rd) && RegisterToken(ra) && RegisterToken(rb)
    ensures Parse(address + opName + " " + (rd + ", " + ra + ", " + rb))
      == Success(Data(opName, SlotsOf([rd, ra, rb]), None))
  {
    ThreeRegistersText(opName, rd, ra, rb);
    ParseRoundTrip(address, opName, [rd, ra, rb], None);
  }

  /** The getters of decoded data return the operand slots in order: rD, rA, rB. */
  lemma GettersOfParsed(address: string, opName: string, rd: string, ra: string, rb: string)
    requires |address| == InstructionStart && ' ' !in opName
    requires RegisterToken(rd) && RegisterToken(ra) && RegisterToken(rb)
    ensures var r := Parse(address + opName + " " + (rd + ", " + ra + ", " + rb));
      r.Success? && r.value.opName == opName &&
      Rd(r.value) == Some(rd) && Ra(r.value) == Some(ra) && Rb(r.value) == Some(rb) && r.value.imm.None?
  {
    ParseThreeRegisters(address, opName, rd, ra, rb);
    var d := Data(opName, SlotsOf([rd, ra, rb]), None);
    assert Rd(d) == Some(rd) && Ra(d) == Some(ra) && Rb(d) == Some(rb);
  }
}
