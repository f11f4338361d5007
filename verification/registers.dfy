/**
 The `Register` enumeration: the 32 integer registers x0..x31 of the RISC-V
 unprivileged ISA (section 2.1), named by their ABI names, each with the ordinal
 the heat engine uses as a vector index.
 */
module Registers {
  import opened Wrappers

  datatype Register =
    | ZERO | RA | SP | GP | TP | T0 | T1 | T2
    | S0 | S1 | A0 | A1 | A2 | A3 | A4 | A5
    | A6 | A7 | S2 | S3 | S4 | S5 | S6 | S7
    | S8 | S9 | S10 | S11 | T3 | T4 | T5 | T6

  /** `len(Register)`: the width of every heat vector. */
  const NumRegisters: nat := 32

  /** Every register, listed in ordinal order. */
  const AllRegisters: seq<Register> := [
    ZERO, RA, SP, GP, TP, T0, T1, T2,
    S0, S1, A0, A1, A2, A3, A4, A5,
    A6, A7, S2, S3, S4, S5, S6, S7,
    S8, S9, S10, S11, T3, T4, T5, T6
  ]

  /** The enum member's `value`: its position in `AllRegisters`, hence a valid index into a heat vector. */
  function Ordinal(r: Register): (n: nat)
    ensures n < NumRegisters == |AllRegisters|
    ensures AllRegisters[n] == r
  {
    match r
    case ZERO => 0  case RA => 1   case SP => 2   case GP => 3
    case TP => 4    case T0 => 5   case T1 => 6   case T2 => 7
    case S0 => 8    case S1 => 9   case A0 => 10  case A1 => 11
    case A2 => 12   case A3 => 13  case A4 => 14  case A5 => 15
    case A6 => 16   case A7 => 17  case S2 => 18  case S3 => 19
    case S4 => 20   case S5 => 21  case S6 => 22  case S7 => 23
    case S8 => 24   case S9 => 25  case S10 => 26 case S11 => 27
    case T3 => 28   case T4 => 29  case T5 => 30  case T6 => 31
  }

  /** No two registers share an ordinal. */
  lemma OrdinalInjective(a: Register, b: Register)
    ensures Ordinal(a) == Ordinal(b) <==> a == b
  {
  }

  /** The enum member's name, as `Register[...]` looks it up. */
  function Name(r: Register): string
  {
    match r
    case ZERO => "ZERO" case RA => "RA"   case SP => "SP"   case GP => "GP"
    case TP => "TP"     case T0 => "T0"   case T1 => "T1"   case T2 => "T2"
    case S0 => "S0"     case S1 => "S1"   case A0 => "A0"   case A1 => "A1"
    case A2 => "A2"     case A3 => "A3"   case A4 => "A4"   case A5 => "A5"
    case A6 => "A6"     case A7 => "A7"   case S2 => "S2"   case S3 => "S3"
    case S4 => "S4"     case S5 => "S5"   case S6 => "S6"   case S7 => "S7"
    case S8 => "S8"     case S9 => "S9"   case S10 => "S10" case S11 => "S11"
    case T3 => "T3"     case T4 => "T4"   case T5 => "T5"   case T6 => "T6"
  }

  /** The first register of `rs` whose name is `s`, if any. */
  function FindByName(s: string, rs: seq<Register>): (r: Option<Register>)
    ensures r.Some? ==> r.value in rs && Name(r.value) == s
    ensures r.None? ==> forall i :: 0 <= i < |rs| ==> Name(rs[i]) != s
  {
    if |rs| == 0 then None
    else if Name(rs[0]) == s then Some(rs[0])
    else FindByName(s, rs[1..])
  }

  /** `Register[s]`: the member named exactly `s`, or nothing (Python raises `KeyError`). */
  function FromName(s: string): (r: Option<Register>)
    ensures r.Some? ==> Name(r.value) == s
    ensures r.None? ==> forall reg: Register :: Name(reg) != s
  {
    var r := FindByName(s, AllRegisters);
    assert r.None? ==> forall reg: Register :: Name(reg) != s by {
      if r.None? {
        forall reg: Register ensures Name(reg) != s {
          var i := Ordinal(reg);
          assert AllRegisters[i] == reg;
        }
      }
    }
    r
  }

  /** Distinct registers have distinct names. */
  lemma NameInjective(a: Register, b: Register)
    ensures Name(a) == Name(b) ==> a == b
  {
  }

  /** Looking a register up by its own name finds it. */
  lemma FromNameOfName(reg: Register)
    ensures FromName(Name(reg)) == Some(reg)
  {
    NameInjective(FromName(Name(reg)).value, reg);
  }

  /** ASCII upper-casing; Python's `str.upper` also maps some non-ASCII letters onto ASCII ones, which this does not. */
  function Upper(s: string): (u: string)
    ensures |u| == |s|
    ensures forall i :: 0 <= i < |s| ==> u[i] == UpperChar(s[i])
  {
    if |s| == 0 then "" else [UpperChar(s[0])] + Upper(s[1..])
  }

  function UpperChar(c: char): char
  {
    if 'a' <= c <= 'z' then (c as int - 32) as char else c
  }

  function LowerChar(c: char): char
  {
    if 'A' <= c <= 'Z' then (c as int + 32) as char else c
  }

  /** Resolving a register argument by name, case-insensitively: `Register[s.upper()]`. */
  function ResolveName(s: string): (r: Option<Register>)
    ensures r.Some? ==> Name(r.value) == Upper(s)
    ensures r.None? <==> forall reg: Register :: Name(reg) != Upper(s)
  {
    FromName(Upper(s))
  }

  /** Whatever the case of its letters, a register's own name resolves to that register. */
  lemma ResolveNameAnyCase(reg: Register, s: string)
    requires |s| == |Name(reg)|
    requires forall i :: 0 <= i < |s| ==> s[i] == Name(reg)[i] || s[i] == LowerChar(Name(reg)[i])
    ensures ResolveName(s) == Some(reg)
  {
    var n := Name(reg);
    assert forall i :: 0 <= i < |n| ==> UpperChar(n[i]) == n[i] && UpperChar(LowerChar(n[i])) == n[i];
    assert Upper(s) == n;
    FromNameOfName(reg);
  }
}
