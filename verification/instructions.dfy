/**
 Statements of an assembly source and the argument cleaning done by
 `Instruction.__init__`: register arguments given by name are resolved, the
 `unused` keyword becomes an absent register, a failed parse (`reg_err`) is
 rejected, and the immediate is built in the field size of the instruction's
 format.
 */
module Instructions {
  import opened Wrappers
  import opened Registers
  import opened Immediates

  /** `imm_sizes`: the immediate field width of each format (section 2.3 of the RISC-V unprivileged ISA; `li` is the 32-bit pseudo-instruction). */
  const ImmSizes: map<string, nat> := map[
    "i" := 12, "s" := 12, "b" := 12, "bz" := 12,
    "u" := 20, "j" := 20, "li" := 32
  ]

  datatype Instruction = Instruction(
    opcode: string,
    family: string,
    labels: seq<string>,
    r1: Option<Register>,
    r2: Option<Register>,
    r3: Option<Register>,
    immediate: Option<Immediate>)

  /** A source statement: an instruction, a directive, or a bare labelled statement. */
  datatype Statement =
    | Instr(instr: Instruction)
    | Directive(name: string, dlabels: seq<string>, args: seq<string>)
    | Bare(blabels: seq<string>)

  /** A register argument as the parser passes it: absent, a name, or a register. */
  datatype RegisterArg = Unset | Named(name: string) | Given(register: Register)

  /** An immediate argument: absent, an integer literal, a symbol, or a ready-made constant. */
  datatype ImmediateArg = NoImmediate | Literal(value: int) | Symbolic(symbol: string) | Ready(constant: Immediate)

  /** `ValueError` on a failed parsing pass, `KeyError` on an unknown register name. */
  datatype InstructionError = FailedParse | UnknownRegister(name: string)

  predicate IsParseFailure(a: RegisterArg)
  {
    a == Named("reg_err")
  }

  /** One register argument after cleaning: `unused` is dropped, a name is resolved case-insensitively. */
  function CleanRegister(a: RegisterArg): (r: Result<Option<Register>, InstructionError>)
    ensures a == Unset || a == Named("unused") ==> r == Success(None)
    ensures a.Given? ==> r == Success(Some(a.register))
    ensures a.Named? && a.name != "unused" ==>
              (r.Success? <==> exists reg: Register :: Name(reg) == Upper(a.name))
    ensures a.Named? && r.Success? && r.value.Some? ==> Name(r.value.value) == Upper(a.name)
    ensures r.Failure? ==> r.error == UnknownRegister(a.name)
  {
    match a
    case Unset => Success(None)
    case Given(reg) => Success(Some(reg))
    case Named(s) =>
      if s == "unused" then Success(None)
      else match ResolveName(s)
        case None => Failure(UnknownRegister(s))
        case Some(reg) => Success(Some(reg))
  }

  /** The immediate an instruction of format `family` keeps for the argument `imm`. */
  function BuildImmediate(family: string, imm: ImmediateArg): (r: Option<Immediate>)
    ensures family !in ImmSizes ==> r.None?
    ensures family in ImmSizes && imm.Literal? ==>
              r.Some? && Valid(r.value) && r.value.size == ImmSizes[family] && r.value.symbol.None?
              && r.value.bits == Some(imm.value % Pow2(ImmSizes[family]))
    ensures family in ImmSizes && imm.Symbolic? ==>
              r == Some(Immediate(ImmSizes[family], Some(imm.symbol), None))
    ensures family in ImmSizes && imm.Ready? ==> r == Some(imm.constant)
    ensures imm.NoImmediate? ==> r.None?
  {
    if family !in ImmSizes then None
    else match imm
      case Literal(v) =>
        var c := NewImmediate(ImmSizes[family], None, Some(v));
        if c.Success? then Some(c.value) else None
      case Symbolic(sym) =>
        var c := NewImmediate(ImmSizes[family], Some(sym), None);
        if c.Success? then Some(c.value) else None
      case Ready(c) => Some(c)
      case NoImmediate => None
  }

  /** `Instruction(opcode, family, labels, r1, r2, r3, immediate)`. */
  function NewInstruction(opcode: string, family: string, labels: seq<string>,
                          r1: RegisterArg, r2: RegisterArg, r3: RegisterArg,
                          imm: ImmediateArg): (r: Result<Instruction, InstructionError>)
    ensures (IsParseFailure(r1) || IsParseFailure(r2) || IsParseFailure(r3)) <==> r == Failure(FailedParse)
    ensures r.Success? <==> CleanRegister(r1).Success? && CleanRegister(r2).Success? && CleanRegister(r3).Success?
                             && !(IsParseFailure(r1) || IsParseFailure(r2) || IsParseFailure(r3))
    ensures r.Success? ==>
              && r.value.opcode == opcode && r.value.family == family && r.value.labels == labels
              && r.value.r1 == CleanRegister(r1).value
              && r.value.r2 == CleanRegister(r2).value
              && r.value.r3 == CleanRegister(r3).value
              && r.value.immediate == BuildImmediate(family, imm)
  {
    if IsParseFailure(r1) || IsParseFailure(r2) || IsParseFailure(r3) then Failure(FailedParse)
    else
      var c1 :- CleanRegister(r1);
      var c2 :- CleanRegister(r2);
      var c3 :- CleanRegister(r3);
      Success(Instruction(opcode, family, labels, c1, c2, c3, BuildImmediate(family, imm)))
  }
}
