/**
 The `opcodes` classification table: for each opcode, how many registers it
 names and whether it writes its first register (`r1`, the destination).
 */
module Opcodes {
  import opened Wrappers

  datatype OpcodeClass = OpcodeClass(registers: nat, writes: bool)

  /** `opcodes.get(opcode)`: the table's entry, in the table's own order, or nothing. */
  function Lookup(opcode: string): Option<OpcodeClass> {
    match opcode
    case "lui" => Some(OpcodeClass(1, true))
    case "auipc" => Some(OpcodeClass(1, true))
    case "jal" => Some(OpcodeClass(1, true))
    case "jalr" => Some(OpcodeClass(2, true))
    case "lb" => Some(OpcodeClass(2, true))
    case "lh" => Some(OpcodeClass(2, true))
    case "lw" => Some(OpcodeClass(2, true))
    case "lbu" => Some(OpcodeClass(2, true))
    case "lhu" => Some(OpcodeClass(2, true))
    case "addi" => Some(OpcodeClass(2, true))
    case "slti" => Some(OpcodeClass(2, true))
    case "sltiu" => Some(OpcodeClass(2, true))
    case "xori" => Some(OpcodeClass(2, true))
    case "ori" => Some(OpcodeClass(2, true))
    case "andi" => Some(OpcodeClass(2, true))
    case "slli" => Some(OpcodeClass(2, true))
    case "srli" => Some(OpcodeClass(2, true))
    case "srai" => Some(OpcodeClass(2, true))
    case "lwu" => Some(OpcodeClass(2, true))
    case "ld" => Some(OpcodeClass(2, true))
    case "addiw" => Some(OpcodeClass(2, true))
    case "slliw" => Some(OpcodeClass(2, true))
    case "srliw" => Some(OpcodeClass(2, true))
    case "sext.w" => Some(OpcodeClass(2, true))
    case "mv" => Some(OpcodeClass(2, true))
    case "sraiw" => Some(OpcodeClass(2, true))
    case "lr.w" => Some(OpcodeClass(2, true))
    case "lr.d" => Some(OpcodeClass(2, true))
    case "add" => Some(OpcodeClass(3, true))
    case "sub" => Some(OpcodeClass(3, true))
    case "sll" => Some(OpcodeClass(3, true))
    case "slt" => Some(OpcodeClass(3, true))
    case "sltu" => Some(OpcodeClass(3, true))
    case "xor" => Some(OpcodeClass(3, true))
    case "srl" => Some(OpcodeClass(3, true))
    case "sra" => Some(OpcodeClass(3, true))
    case "or" => Some(OpcodeClass(3, true))
    case "and" => Some(OpcodeClass(3, true))
    case "addw" => Some(OpcodeClass(3, true))
    case "subw" => Some(OpcodeClass(3, true))
    case "sllw" => Some(OpcodeClass(3, true))
    case "srlw" => Some(OpcodeClass(3, true))
    case "sraw" => Some(OpcodeClass(3, true))
    case "mul" => Some(OpcodeClass(3, true))
    case "mulh" => Some(OpcodeClass(3, true))
    case "mulhsu" => Some(OpcodeClass(3, true))
    case "mulhu" => Some(OpcodeClass(3, true))
    case "div" => Some(OpcodeClass(3, true))
    case "divu" => Some(OpcodeClass(3, true))
    case "rem" => Some(OpcodeClass(3, true))
    case "remu" => Some(OpcodeClass(3, true))
    case "mulw" => Some(OpcodeClass(3, true))
    case "divw" => Some(OpcodeClass(3, true))
    case "divuw" => Some(OpcodeClass(3, true))
    case "remw" => Some(OpcodeClass(3, true))
    case "remuw" => Some(OpcodeClass(3, true))
    case "sc.w" => Some(OpcodeClass(3, true))
    case "amoswap.w" => Some(OpcodeClass(3, true))
    case "amoadd.w" => Some(OpcodeClass(3, true))
    case "amoxor.w" => Some(OpcodeClass(3, true))
    case "amoor.w" => Some(OpcodeClass(3, true))
    case "amoand.w" => Some(OpcodeClass(3, true))
    case "amomin.w" => Some(OpcodeClass(3, true))
    case "amomax.w" => Some(OpcodeClass(3, true))
    case "amominu.w" => Some(OpcodeClass(3, true))
    case "amomaxu.w" => Some(OpcodeClass(3, true))
    case "sc.d" => Some(OpcodeClass(3, true))
    case "amoswap.d" => Some(OpcodeClass(3, true))
    case "amoadd.d" => Some(OpcodeClass(3, true))
    case "amoxor.d" => Some(OpcodeClass(3, true))
    case "amoor.d" => Some(OpcodeClass(3, true))
    case "amoand.d" => Some(OpcodeClass(3, true))
    case "amomin.d" => Some(OpcodeClass(3, true))
    case "amomax.d" => Some(OpcodeClass(3, true))
    case "amominu.d" => Some(OpcodeClass(3, true))
    case "amomaxu.d" => Some(OpcodeClass(3, true))
    case "jr" => Some(OpcodeClass(1, false))
    case "j" => Some(OpcodeClass(0, false))
    case "beq" => Some(OpcodeClass(2, false))
    case "bne" => Some(OpcodeClass(2, false))
    case "blt" => Some(OpcodeClass(2, false))
    case "bge" => Some(OpcodeClass(2, false))
    case "ble" => Some(OpcodeClass(2, false))
    case "bltu" => Some(OpcodeClass(2, false))
    case "bgeu" => Some(OpcodeClass(2, false))
    case "sb" => Some(OpcodeClass(2, false))
    case "sh" => Some(OpcodeClass(2, false))
    case "sw" => Some(OpcodeClass(2, false))
    case "sd" => Some(OpcodeClass(2, false))
    case "li" => Some(OpcodeClass(1, true))
    case "beqz" => Some(OpcodeClass(1, false))
    case "bnez" => Some(OpcodeClass(1, false))
    case "blez" => Some(OpcodeClass(1, false))
    case "bgez" => Some(OpcodeClass(1, false))
    case "bgtu" => Some(OpcodeClass(2, false))
    case "bleu" => Some(OpcodeClass(2, false))
    case "nop" => Some(OpcodeClass(0, false))
    case "call" => Some(OpcodeClass(0, false))
    case _ => None
  }

  // The opcodes again, grouped by what the instruction does rather than by the table's flag.

  /** Loads, including the load-reserved forms: the loaded word goes to `rd`. */
  predicate IsLoad(opcode: string) {
    match opcode
    case "lb" | "lh" | "lw" | "lbu" | "lhu" | "lwu" | "ld" | "lr.w" | "lr.d" => true
    case _ => false
  }

  /** Register-immediate arithmetic, shifts and comparisons. */
  predicate IsImmediateOp(opcode: string) {
    match opcode
    case "addi" | "slti" | "sltiu" | "xori" | "ori" | "andi" | "slli" | "srli" | "srai"
       | "addiw" | "slliw" | "srliw" | "sraiw" => true
    case _ => false
  }

  /** Register-register arithmetic, shifts and comparisons. */
  predicate IsRegisterOp(opcode: string) {
    match opcode
    case "add" | "sub" | "sll" | "slt" | "sltu" | "xor" | "srl" | "sra" | "or" | "and"
       | "addw" | "subw" | "sllw" | "srlw" | "sraw" => true
    case _ => false
  }

  /** Multiplication and division. */
  predicate IsMulDiv(opcode: string) {
    match opcode
    case "mul" | "mulh" | "mulhsu" | "mulhu" | "div" | "divu" | "rem" | "remu"
       | "mulw" | "divw" | "divuw" | "remw" | "remuw" => true
    case _ => false
  }

  /** Store-conditional and the atomic memory operations, which return a value in `rd`. */
  predicate IsAtomic(opcode: string) {
    match opcode
    case "sc.w" | "amoswap.w" | "amoadd.w" | "amoxor.w" | "amoor.w" | "amoand.w"
       | "amomin.w" | "amomax.w" | "amominu.w" | "amomaxu.w"
       | "sc.d" | "amoswap.d" | "amoadd.d" | "amoxor.d" | "amoor.d" | "amoand.d"
       | "amomin.d" | "amomax.d" | "amominu.d" | "amomaxu.d" => true
    case _ => false
  }

  /** Upper-immediate forms, linking jumps, and the pseudo-instructions that set a register. */
  predicate IsSetting(opcode: string) {
    match opcode
    case "lui" | "auipc" | "jal" | "jalr" | "li" | "mv" | "sext.w" => true
    case _ => false
  }

  /** Stores only read their registers. */
  predicate IsStore(opcode: string) {
    match opcode
    case "sb" | "sh" | "sw" | "sd" => true
    case _ => false
  }

  /** Conditional branches, including the compare-with-zero pseudo-instructions. */
  predicate IsBranch(opcode: string) {
    match opcode
    case "beq" | "bne" | "blt" | "bge" | "ble" | "bltu" | "bgeu" | "bgtu" | "bleu"
       | "beqz" | "bnez" | "blez" | "bgez" => true
    case _ => false
  }

  /** Plain jumps, calls and `nop`, which write no register of their own. */
  predicate IsTransfer(opcode: string) {
    match opcode
    case "j" | "jr" | "call" | "nop" => true
    case _ => false
  }

  /** The opcodes that put a result in their destination register. */
  predicate IsWriting(opcode: string) {
    IsLoad(opcode) || IsImmediateOp(opcode) || IsRegisterOp(opcode) || IsMulDiv(opcode)
    || IsAtomic(opcode) || IsSetting(opcode)
  }

  /** The opcodes that only read their registers. */
  predicate IsReadOnly(opcode: string) {
    IsStore(opcode) || IsBranch(opcode) || IsTransfer(opcode)
  }

  /**
   `opcodes[opcode][1]`: whether the opcode writes its destination, or
   nothing for an opcode the table does not know (`KeyError`). Loads,
   arithmetic, multiplication and division, atomics and the register-setting
   forms write; stores, branches, plain jumps, calls and `nop` do not; no
   other opcode is in the table.
   */
  function WritesDestination(opcode: string): (r: Option<bool>)
    ensures r == Some(true) <==> IsWriting(opcode)
    ensures r == Some(false) <==> IsReadOnly(opcode)
    ensures r.None? <==> Lookup(opcode).None?
  {
    WritingAgrees(opcode);
    ReadOnlyAgrees(opcode);
    match Lookup(opcode)
    case Some(c) => Some(c.writes)
    case None => None
  }

  /** The table flags an opcode as writing exactly when it is a load, arithmetic, atomic or register-setting form. */
  lemma WritingAgrees(opcode: string)
    ensures Lookup(opcode).Some? && Lookup(opcode).value.writes <==> IsWriting(opcode)
  {
  }

  /** The table flags an opcode as read-only exactly when it is a store, branch, jump, call or `nop`. */
  lemma ReadOnlyAgrees(opcode: string)
    ensures Lookup(opcode).Some? && !Lookup(opcode).value.writes <==> IsReadOnly(opcode)
  {
    if IsBranch(opcode) {
      BranchesReadOnly(opcode);
    }
  }

  /** Every conditional branch is in the table as read-only. */
  lemma BranchesReadOnly(opcode: string)
    requires IsBranch(opcode)
    ensures Lookup(opcode).Some? && !Lookup(opcode).value.writes
  {
  }
}
