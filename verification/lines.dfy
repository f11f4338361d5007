/** `to_line_iterator`: statements paired with consecutive line numbers. */
module Lines {
  import opened Instructions

  /** `ASMLine`: a statement together with its line number. */
  datatype AsmLine = AsmLine(number: int, statement: Statement)

  /** One line per statement, in order, numbered `start`, `start + 1`, and so on. */
  function NumberLines(stmts: seq<Statement>, start: int): (lines: seq<AsmLine>)
    ensures |lines| == |stmts|
    ensures forall i :: 0 <= i < |lines| ==> lines[i].number == start + i && lines[i].statement == stmts[i]
  {
    seq(|stmts|, i requires 0 <= i < |stmts| => AsmLine(start + i, stmts[i]))
  }

  /** Numbering a concatenation numbers the second part where the first part stops. */
  lemma NumberLinesAppend(a: seq<Statement>, b: seq<Statement>, start: int)
    ensures NumberLines(a + b, start) == NumberLines(a, start) + NumberLines(b, start + |a|)
  {
  }

  /** Numbering a prefix gives the prefix of the numbering. */
  lemma NumberLinesPrefix(stmts: seq<Statement>, start: int, k: nat)
    requires k <= |stmts|
    ensures NumberLines(stmts, start)[..k] == NumberLines(stmts[..k], start)
  {
  }

  /** No two lines share a number. */
  lemma NumberLinesDistinct(stmts: seq<Statement>, start: int)
    ensures var lines := NumberLines(stmts, start);
      forall i, j :: 0 <= i < j < |lines| ==> lines[i].number != lines[j].number
  {
  }
}
