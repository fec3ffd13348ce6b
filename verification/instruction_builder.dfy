/**
 * Turning a parsed trace instruction into an executable one.
 *
 * The operation name selects a family by exact, case-sensitive match against
 * the 65 mnemonics the interpreter knows; a name outside that list has no
 * family. A family reads its operands from the slots of the parsed data and
 * its flags from the letters of the mnemonic. `Execute` then dispatches to
 * the instruction's semantics.
 */
module InstructionBuilder {
  import opened Wrappers
  import opened Machine
  import opened TraceData
  import InstructionParser
  import JavaInt
  import SpecialRegisters
  import AluInstructions
  import BranchInstructions
  import MemoryInstructions

  /** The instruction families, one per implementing class. */
  datatype Family =
    | MbAdd
    | MbAddi
    | MbImm
    | MbAnd
    | MbAndi
    | MbBeqi
    | MbBgei
    | MbBgti
    | MbBlei
    | MbBlti
    | MbBnei
    | MbBr
    | MbBri
    | MbBsi
    | MbCmp
    | MbIdiv
    | MbLbu
    | MbLbui
    | MbLhu
    | MbLhui
    | MbLw
    | MbLwi
    | MbMul
    | MbOr
    | MbOri
    | MbRsub
    | MbRtsd
    | MbSb
    | MbSbi
    | MbSext16
    | MbSext8
    | MbSh
    | MbShi
    | MbSra
    | MbSrl
    | MbSw
    | MbSwi
    | MbXori

  /** The family of a mnemonic: an exact match against the known names. */
  function Lookup(name: string): (r: Option<Family>) {
    match name
    case "add" => Some(MbAdd)
    case "addc" => Some(MbAdd)
    case "addk" => Some(MbAdd)
    case "addkc" => Some(MbAdd)
    case "addi" => Some(MbAddi)
    case "addic" => Some(MbAddi)
    case "addik" => Some(MbAddi)
    case "addikc" => Some(MbAddi)
    case "imm" => Some(MbImm)
    case "and" => Some(MbAnd)
    case "andi" => Some(MbAndi)
    case "beqi" => Some(MbBeqi)
    case "beqid" => Some(MbBeqi)
    case "bgei" => Some(MbBgei)
    case "bgeid" => Some(MbBgei)
    case "bgti" => Some(MbBgti)
    case "bgtid" => Some(MbBgti)
    case "blei" => Some(MbBlei)
    case "bleid" => Some(MbBlei)
    case "blti" => Some(MbBlti)
    case "bltid" => Some(MbBlti)
    case "bnei" => Some(MbBnei)
    case "bneid" => Some(MbBnei)
    case "br" => Some(MbBr)
    case "bra" => Some(MbBr)
    case "brd" => Some(MbBr)
    case "brad" => Some(MbBr)
    case "brld" => Some(MbBr)
    case "brald" => Some(MbBr)
    case "bri" => Some(MbBri)
    case "brai" => Some(MbBri)
    case "brid" => Some(MbBri)
    case "braid" => Some(MbBri)
    case "brlid" => Some(MbBri)
    case "bralid" => Some(MbBri)
    case "bsrli" => Some(MbBsi)
    case "bsrai" => Some(MbBsi)
    case "bslli" => Some(MbBsi)
    case "cmp" => Some(MbCmp)
    case "cmpu" => Some(MbCmp)
    case "idiv" => Some(MbIdiv)
    case "idivu" => Some(MbIdiv)
    case "lbu" => Some(MbLbu)
    case "lbui" => Some(MbLbui)
    case "lhu" => Some(MbLhu)
    case "lhui" => Some(MbLhui)
    case "lw" => Some(MbLw)
    case "lwi" => Some(MbLwi)
    case "mul" => Some(MbMul)
    case "or" => Some(MbOr)
    case "ori" => Some(MbOri)
    case "rsub" => Some(MbRsub)
    case "rsubk" => Some(MbRsub)
    case "rtsd" => Some(MbRtsd)
    case "sb" => Some(MbSb)
    case "sbi" => Some(MbSbi)
    case "sext16" => Some(MbSext16)
    case "sext8" => Some(MbSext8)
    case "sh" => Some(MbSh)
    case "shi" => Some(MbShi)
    case "sra" => Some(MbSra)
    case "srl" => Some(MbSrl)
    case "sw" => Some(MbSw)
    case "swi" => Some(MbSwi)
    case "xori" => Some(MbXori)
    case _ => None
  }

  /** The mnemonics of each family, grouped as the implementing classes document them. */
  function NamesOf(f: Family): set<string> {
    match f
    case MbAdd => {"add", "addc", "addk", "addkc"}
    case MbAddi => {"addi", "addic", "addik", "addikc"}
    case MbImm => {"imm"}
    case MbAnd => {"and"}
    case MbAndi => {"andi"}
    case MbBeqi => {"beqi", "beqid"}
    case MbBgei => {"bgei", "bgeid"}
    case MbBgti => {"bgti", "bgtid"}
    case MbBlei => {"blei", "bleid"}
    case MbBlti => {"blti", "bltid"}
    case MbBnei => {"bnei", "bneid"}
    case MbBr => {"br", "bra", "brd", "brad", "brld", "brald"}
    case MbBri => {"bri", "brai", "brid", "braid", "brlid", "bralid"}
    case MbBsi => {"bsrli", "bsrai", "bslli"}
    case MbCmp => {"cmp", "cmpu"}
    case MbIdiv => {"idiv", "idivu"}
    case MbLbu => {"lbu"}
    case MbLbui => {"lbui"}
    case MbLhu => {"lhu"}
    case MbLhui => {"lhui"}
    case MbLw => {"lw"}
    case MbLwi => {"lwi"}
    case MbMul => {"mul"}
    case MbOr => {"or"}
    case MbOri => {"ori"}
    case MbRsub => {"rsub", "rsubk"}
    case MbRtsd => {"rtsd"}
    case MbSb => {"sb"}
    case MbSbi => {"sbi"}
    case MbSext16 => {"sext16"}
    case MbSext8 => {"sext8"}
    case MbSh => {"sh"}
    case MbShi => {"shi"}
    case MbSra => {"sra"}
    case MbSrl => {"srl"}
    case MbSw => {"sw"}
    case MbSwi => {"swi"}
    case MbXori => {"xori"}
  }

  /** A name is found with a family only when the family lists it. */
  lemma LookupListed(name: string)
    requires Lookup(name).Some?
    ensures name in NamesOf(Lookup(name).value)
  {
  }

  /** Every name a family lists is found, with that family. */
  lemma ListedFound(name: string, f: Family)
    requires name in NamesOf(f)
    ensures Lookup(name) == Some(f)
  {
    if f in {MbAdd, MbAddi, MbImm, MbAnd, MbAndi, MbBeqi, MbBgei, MbBgti, MbBlei, MbBlti} {
      ListedFoundPart0(name, f);
    } else if f in {MbBnei, MbBr, MbBri, MbBsi, MbCmp, MbIdiv, MbLbu, MbLbui, MbLhu, MbLhui} {
      ListedFoundPart1(name, f);
    } else if f in {MbLw, MbLwi, MbMul, MbOr, MbOri, MbRsub, MbRtsd, MbSb, MbSbi} {
      ListedFoundPart2(name, f);
    } else {
      ListedFoundPart3(name, f);
    }
  }

  lemma ListedFoundPart0(name: string, f: Family)
    requires name in NamesOf(f) && f in {MbAdd, MbAddi, MbImm, MbAnd, MbAndi, MbBeqi, MbBgei, MbBgti, MbBlei, MbBlti}
    ensures Lookup(name) == Some(f)
  {
  }

  lemma ListedFoundPart1(name: string, f: Family)
    requires name in NamesOf(f) && f in {MbBnei, MbBr, MbBri, MbBsi, MbCmp, MbIdiv, MbLbu, MbLbui, MbLhu, MbLhui}
    ensures Lookup(name) == Some(f)
  {
  }

  lemma ListedFoundPart2(name: string, f: Family)
    requires name in NamesOf(f) && f in {MbLw, MbLwi, MbMul, MbOr, MbOri, MbRsub, MbRtsd, MbSb, MbSbi}
    ensures Lookup(name) == Some(f)
  {
  }

  lemma ListedFoundPart3(name: string, f: Family)
    requires name in NamesOf(f) && f in {MbSext16, MbSext8, MbSh, MbShi, MbSra, MbSrl, MbSw, MbSwi, MbXori}
    ensures Lookup(name) == Some(f)
  {
  }

  /** The match is exact: case, surrounding spaces and prefixes all count. */
  lemma LookupExact()
    ensures Lookup("add") == Some(MbAdd)
    ensures Lookup("ADD") == None && Lookup("add ") == None && Lookup("ad") == None
    ensures Lookup("") == None
  {
  }

  // ---------------------------------------------------------------------
  // Building an instruction
  // ---------------------------------------------------------------------

  /**
   * A built instruction of one of the modelled families: its register
   * numbers, its immediate widened to 32 bits, and the options its mnemonic
   * selects.
   */
  datatype Instruction =
    | Add(rd: nat, ra: nat, rb: nat, useCarry: bool, keepCarry: bool)
    | Addi(rd: nat, ra: nat, imm: bv32, useCarry: bool, keepCarry: bool)
    | Imm(imm: bv32)
    | And(rd: nat, ra: nat, rb: nat)
    | Andi(rd: nat, ra: nat, imm: bv32)
    | Bgei(ra: nat, imm: bv32, delay: bool)
    | Br(rd: nat, rb: nat, flags: BranchInstructions.BranchFlags)
    | Bri(rd: nat, imm: bv32, flags: BranchInstructions.BranchFlags)
    | Bsi(rd: nat, ra: nat, imm: bv32, left: bool, arithmetic: bool)
    | Cmp(rd: nat, ra: nat, rb: nat, unsigned: bool)
    | Idiv(rd: nat, ra: nat, rb: nat, unsigned: bool)
    | Lbui(rd: nat, ra: nat, imm: bv32)
    | Lhui(rd: nat, ra: nat, imm: bv32)
    | Mul(rd: nat, ra: nat, rb: nat)
    | Or(rd: nat, ra: nat, rb: nat)
    | Rtsd(ra: nat, imm: bv32)
    | Sext16(rd: nat, ra: nat)
    | Sh(rd: nat, ra: nat, rb: nat)
    | Sra(rd: nat, ra: nat)

  /** The family an instruction belongs to. */
  function FamilyOf(inst: Instruction): Family {
    match inst
    case Add(_, _, _, _, _) => MbAdd
    case Addi(_, _, _, _, _) => MbAddi
    case Imm(_) => MbImm
    case And(_, _, _) => MbAnd
    case Andi(_, _, _) => MbAndi
    case Bgei(_, _, _) => MbBgei
    case Br(_, _, _) => MbBr
    case Bri(_, _, _) => MbBri
    case Bsi(_, _, _, _, _) => MbBsi
    case Cmp(_, _, _, _) => MbCmp
    case Idiv(_, _, _, _) => MbIdiv
    case Lbui(_, _, _) => MbLbui
    case Lhui(_, _, _) => MbLhui
    case Mul(_, _, _) => MbMul
    case Or(_, _, _) => MbOr
    case Rtsd(_, _) => MbRtsd
    case Sext16(_, _) => MbSext16
    case Sh(_, _, _) => MbSh
    case Sra(_, _) => MbSra
  }

  /** The families whose semantics this model covers. */
  predicate Modelled(f: Family) {
    f in {MbAdd, MbAddi, MbImm, MbAnd, MbAndi, MbBgei, MbBr, MbBri, MbBsi, MbCmp,
          MbIdiv, MbLbui, MbLhui, MbMul, MbOr, MbRtsd, MbSext16, MbSh, MbSra}
  }

  /** The families that read an immediate operand when they are built. */
  predicate TakesImmediate(f: Family) {
    f in {MbAddi, MbImm, MbAndi, MbBgei, MbBri, MbBsi, MbLbui, MbLhui, MbRtsd}
  }

  /** The register number in the slot: rD is the first slot, rA the second, rB the third. */
  function Register(d: Data, slot: nat): nat
    requires slot < MaxRegisters
  {
    InstructionParser.ParseRegister(d.registers[slot])
  }

  /**
   * Builds the instruction of family `f` from the parsed data. Register
   * operands are read fail-soft (a missing or malformed one is r0); a family
   * that takes an immediate fails when the data has none, as unboxing the
   * missing value does. Families outside the model report their name.
   */
  function Build(f: Family, d: Data): (r: Result<Instruction, ExecError>)
    ensures r.Success? <==> Modelled(f) && (TakesImmediate(f) ==> d.imm.Some?)
    ensures r.Success? ==> FamilyOf(r.value) == f
    ensures !Modelled(f) ==> r == Failure(NotModelled(d.opName))
    ensures Modelled(f) && TakesImmediate(f) && d.imm.None? ==> r == Failure(MissingImmediate)
  {
    if !Modelled(f) then Failure(NotModelled(d.opName))
    else if TakesImmediate(f) && d.imm.None? then Failure(MissingImmediate)
    else Success(Construct(f, d))
  }

  /** The instruction of a modelled family, its operands read from the data. */
  function Construct(f: Family, d: Data): (inst: Instruction)
    requires Modelled(f) && (TakesImmediate(f) ==> d.imm.Some?)
    ensures FamilyOf(inst) == f
    ensures TakesImmediate(f) ==> inst.imm == JavaInt.SignExtend(d.imm.value)
  {
    var name := d.opName;
    var rd, ra, rb := Register(d, RdIndex), Register(d, RaIndex), Register(d, RbIndex);
    var imm := if d.imm.Some? then JavaInt.SignExtend(d.imm.value) else 0;
    match f
    case MbAdd => Add(rd, ra, rb, 'c' in name, 'k' in name)
    case MbAddi => Addi(rd, ra, imm, 'c' in name, 'k' in name)
    case MbImm => Imm(imm)
    case MbAnd => And(rd, ra, rb)
    case MbAndi => Andi(rd, ra, imm)
    case MbBgei => Bgei(rd, imm, 'd' in name)
    case MbBr =>
      var flags := BranchInstructions.FlagsAsWritten(name);
      if flags.link then Br(rd, ra, flags) else Br(0, rd, flags)
    case MbBri => Bri(rd, imm, BranchInstructions.FlagsAsWritten(name))
    case MbBsi => Bsi(rd, ra, imm, 'r' !in name, 'a' in name)
    case MbCmp => Cmp(rd, ra, rb, 'u' in name)
    case MbIdiv => Idiv(rd, ra, rb, 'u' in name)
    case MbLbui => Lbui(rd, ra, imm)
    case MbLhui => Lhui(rd, ra, imm)
    case MbMul => Mul(rd, ra, rb)
    case MbOr => Or(rd, ra, rb)
    case MbRtsd => Rtsd(rd, imm)
    case MbSext16 => Sext16(rd, ra)
    case MbSh => Sh(rd, ra, rb)
    case MbSra => Sra(rd, ra)
  }

  // ---------------------------------------------------------------------
  // Executing an instruction
  // ---------------------------------------------------------------------

  /** The instructions that set the PC themselves, so the clock must not advance it. */
  predicate IsBranch(inst: Instruction) {
    inst.Bgei? || inst.Br? || inst.Bri? || inst.Rtsd?
  }

  /** Every register the instruction reads or writes exists. */
  predicate RegistersExist(inst: Instruction) {
    match inst
    case Add(rd, ra, rb, _, _) => rd < 32 && ra < 32 && rb < 32
    case Addi(rd, ra, _, _, _) => rd < 32 && ra < 32
    case Imm(_) => true
    case And(rd, ra, rb) => rd < 32 && ra < 32 && rb < 32
    case Andi(rd, ra, _) => rd < 32 && ra < 32
    case Bgei(ra, _, _) => ra < 32
    case Br(rd, _, flags) => flags.link ==> rd < 32
    case Bri(rd, _, flags) => flags.link ==> rd < 32
    case Bsi(rd, ra, _, _, _) => rd < 32 && ra < 32
    case Cmp(rd, ra, rb, _) => rd < 32 && ra < 32 && rb < 32
    case Idiv(rd, ra, rb, _) => rd < 32 && ra < 32 && rb < 32
    case Lbui(rd, ra, _) => rd < 32 && ra < 32
    case Lhui(rd, ra, _) => rd < 32 && ra < 32
    case Mul(rd, ra, rb) => rd < 32 && ra < 32 && rb < 32
    case Or(rd, ra, rb) => rd < 32 && ra < 32 && rb < 32
    case Rtsd(ra, _) => ra < 32
    case Sext16(rd, ra) => rd < 32 && ra < 32
    case Sh(rd, ra, rb) => rd < 32 && ra < 32 && rb < 32
    case Sra(rd, ra) => rd < 32 && ra < 32
  }

  /**
   * What every instruction guarantees: it fails only on a register outside
   * the file; it takes at least one cycle; only imm touches the lock
   * register; and only the branches move the PC.
   */
  predicate WellBehaved(hw: Hardware, inst: Instruction, r: Result<Outcome, ExecError>) {
    && (r.Failure? ==> r.error.BadRegister?)
    && (r.Success? ==> r.value.latency >= 1)
    && (r.Success? && !inst.Imm? ==> r.value.hw.lock == hw.lock)
    && (r.Success? && !IsBranch(inst) ==> SpecialRegisters.GetPc(r.value.hw.sprs) == SpecialRegisters.GetPc(hw.sprs))
  }

  function ExecuteAdd(hw: Hardware, inst: Instruction): (r: Result<Outcome, ExecError>)
    requires inst.Add? || inst.Addi?
    ensures WellBehaved(hw, inst, r)
  {
    match inst
    case Add(rd, ra, rb, c, k) => AluInstructions.Add(hw, rd, ra, rb, c, k)
    case Addi(rd, ra, imm, c, k) => AluInstructions.Addi(hw, rd, ra, imm, c, k)
  }

  function ExecuteLogic(hw: Hardware, inst: Instruction): (r: Result<Outcome, ExecError>)
    requires inst.And? || inst.Andi? || inst.Or?
    ensures WellBehaved(hw, inst, r)
  {
    match inst
    case And(rd, ra, rb) => AluInstructions.And(hw, rd, ra, rb)
    case Andi(rd, ra, imm) => AluInstructions.Andi(hw, rd, ra, imm)
    case Or(rd, ra, rb) => AluInstructions.Or(hw, rd, ra, rb)
  }

  function ExecuteBranch(hw: Hardware, inst: Instruction): (r: Result<Outcome, ExecError>)
    requires inst.Bgei? || inst.Rtsd?
    ensures WellBehaved(hw, inst, r)
  {
    match inst
    case Bgei(ra, imm, delay) => BranchInstructions.Bgei(hw, ra, imm, delay)
    case Rtsd(ra, imm) => BranchInstructions.Rtsd(hw, ra, imm)
  }

  function ExecuteJump(hw: Hardware, inst: Instruction): (r: Result<Outcome, ExecError>)
    requires inst.Br? || inst.Bri?
    ensures WellBehaved(hw, inst, r)
  {
    match inst
    case Br(rd, rb, flags) => BranchInstructions.BrAsWritten(hw, rd, rb, flags)
    case Bri(rd, imm, flags) => BranchInstructions.Bri(hw, rd, imm, flags)
  }

  function ExecuteMemory(hw: Hardware, config: Config, inst: Instruction): (r: Result<Outcome, ExecError>)
    requires inst.Lbui? || inst.Lhui? || inst.Sh?
    ensures WellBehaved(hw, inst, r)
  {
    match inst
    case Lbui(rd, ra, imm) => MemoryInstructions.Lbui(hw, config, rd, ra, imm)
    case Lhui(rd, ra, imm) => MemoryInstructions.Lhui(hw, config, rd, ra, imm)
    case Sh(rd, ra, rb) => MemoryInstructions.Sh(hw, config, rd, ra, rb)
  }

  function ExecuteShift(hw: Hardware, config: Config, inst: Instruction): (r: Result<Outcome, ExecError>)
    requires inst.Sra? || inst.Bsi? || inst.Sext16?
    ensures WellBehaved(hw, inst, r)
  {
    match inst
    case Sra(rd, ra) => AluInstructions.Sra(hw, rd, ra)
    case Bsi(rd, ra, imm, left, arithmetic) => AluInstructions.Bsi(hw, config, rd, ra, imm, left, arithmetic)
    case Sext16(rd, ra) => AluInstructions.Sext16(hw, rd, ra)
  }

  function ExecuteArithmetic(hw: Hardware, config: Config, inst: Instruction): (r: Result<Outcome, ExecError>)
    requires inst.Mul? || inst.Idiv? || inst.Cmp? || inst.Imm?
    ensures WellBehaved(hw, inst, r)
  {
    match inst
    case Mul(rd, ra, rb) => AluInstructions.Mul(hw, config, rd, ra, rb)
    case Idiv(rd, ra, rb, unsigned) => AluInstructions.Idiv(hw, config, rd, ra, rb, unsigned)
    case Cmp(rd, ra, rb, unsigned) => AluInstructions.Cmp(hw, rd, ra, rb, unsigned)
    case Imm(imm) => Success(AluInstructions.Imm(hw, imm))
  }

  /** Executes an instruction on the hardware. */
  function Execute(hw: Hardware, config: Config, inst: Instruction): (r: Result<Outcome, ExecError>)
    ensures WellBehaved(hw, inst, r)
  {
    if inst.Add? || inst.Addi? then ExecuteAdd(hw, inst)
    else if inst.And? || inst.Andi? || inst.Or? then ExecuteLogic(hw, inst)
    else if inst.Bgei? || inst.Rtsd? then ExecuteBranch(hw, inst)
    else if inst.Br? || inst.Bri? then ExecuteJump(hw, inst)
    else if inst.Lbui? || inst.Lhui? || inst.Sh? then ExecuteMemory(hw, config, inst)
    else if inst.Sra? || inst.Bsi? || inst.Sext16? then ExecuteShift(hw, config, inst)
    else ExecuteArithmetic(hw, config, inst)
  }

  // ---------------------------------------------------------------------
  // When execution fails
  // ---------------------------------------------------------------------

  lemma AddSucceeds(hw: Hardware, inst: Instruction)
    requires inst.Add? || inst.Addi?
    ensures ExecuteAdd(hw, inst).Success? <==> RegistersExist(inst)
  {
  }

  lemma LogicSucceeds(hw: Hardware, inst: Instruction)
    requires inst.And? || inst.Andi? || inst.Or?
    ensures ExecuteLogic(hw, inst).Success? <==> RegistersExist(inst)
  {
  }

  lemma BranchSucceeds(hw: Hardware, inst: Instruction)
    requires inst.Bgei? || inst.Rtsd?
    ensures ExecuteBranch(hw, inst).Success? <==> RegistersExist(inst)
  {
  }

  lemma JumpSucceeds(hw: Hardware, inst: Instruction)
    requires inst.Br? || inst.Bri?
    ensures ExecuteJump(hw, inst).Success? <==> RegistersExist(inst)
  {
  }

  lemma MemorySucceeds(hw: Hardware, config: Config, inst: Instruction)
    requires inst.Lbui? || inst.Lhui? || inst.Sh?
    ensures ExecuteMemory(hw, config, inst).Success? <==> RegistersExist(inst)
  {
  }

  lemma ShiftSucceeds(hw: Hardware, config: Config, inst: Instruction)
    requires inst.Sra? || inst.Bsi? || inst.Sext16?
    ensures ExecuteShift(hw, config, inst).Success? <==> RegistersExist(inst)
  {
  }

  lemma ArithmeticSucceeds(hw: Hardware, config: Config, inst: Instruction)
    requires inst.Mul? || inst.Idiv? || inst.Cmp? || inst.Imm?
    ensures ExecuteArithmetic(hw, config, inst).Success? <==> RegistersExist(inst)
  {
  }

  /**
   * An instruction fails exactly when one of the registers it names lies
   * outside the register file.
   */
  lemma ExecuteSucceeds(hw: Hardware, config: Config, inst: Instruction)
    ensures Execute(hw, config, inst).Success? <==> RegistersExist(inst)
  {
    if inst.Add? || inst.Addi? {
      AddSucceeds(hw, inst);
    } else if inst.And? || inst.Andi? || inst.Or? {
      LogicSucceeds(hw, inst);
    } else if inst.Bgei? || inst.Rtsd? {
      BranchSucceeds(hw, inst);
    } else if inst.Br? || inst.Bri? {
      JumpSucceeds(hw, inst);
    } else if inst.Lbui? || inst.Lhui? || inst.Sh? {
      MemorySucceeds(hw, config, inst);
    } else if inst.Sra? || inst.Bsi? || inst.Sext16? {
      ShiftSucceeds(hw, config, inst);
    } else {
      ArithmeticSucceeds(hw, config, inst);
    }
  }

  /** Executing imm only stores its operand in the lock register, in one cycle. */
  lemma ExecuteImm(hw: Hardware, config: Config, imm: bv32)
    ensures Execute(hw, config, Imm(imm)) == Success(AluInstructions.Imm(hw, imm))
  {
  }

  /**
   * Among the twelve br and bri mnemonics, the flags as the source reads
   * them agree with the letter-by-letter reading only for the four names
   * whose 'l' and 'a' letters both follow the 'd'.
   */
  lemma FlagReadingsAgree(name: string)
    requires name in NamesOf(MbBr) + NamesOf(MbBri)
    ensures BranchInstructions.Flags(name) == BranchInstructions.FlagsAsWritten(name) <==>
      name in {"br", "brald", "bri", "bralid"}
  {
  }
}
