/**
 `node_register_heat`: the register heat of one CFG node. For every
 instruction of the node's block, in line order, each positive heat level
 drops by one, then the destination register of a write-classified opcode is
 set to `maxHeat`; the vector after both steps is recorded under the
 instruction's line number. An external node yields no snapshots and a cold
 vector of `len(Register)` entries.
 */
module Heat {
  import opened Wrappers
  import opened Registers
  import opened Instructions
  import opened Opcodes
  import opened Lines

  /** A CFG node as the heat engine sees it: opaque external code, or a block of statements starting at line `begin`. */
  datatype Node = External | Block(begin: int, statements: seq<Statement>)

  /** A node's heat: the snapshot after each of its instruction lines, and its outgoing vector. */
  datatype NodeHeat = NodeHeat(snapshots: map<int, seq<int>>, final: seq<int>)

  /**
   The exceptions the per-instruction step can raise: `KeyError` for an opcode
   missing from the table, `AttributeError` for a write without a destination,
   `IndexError` for a destination beyond the vector.
   */
  datatype HeatError = UnknownOpcode(opcode: string) | NoDestination(opcode: string) | DestinationOutOfRange(register: Register)

  function Zeros(n: nat): (v: seq<int>)
    ensures |v| == n && forall i :: 0 <= i < n ==> v[i] == 0
  {
    seq(n, _ => 0)
  }

  /** Every level lies in `[0, maxHeat]`. */
  predicate Bounded(v: seq<int>, maxHeat: int)
  {
    forall i :: 0 <= i < |v| ==> 0 <= v[i] <= maxHeat
  }

  /** One register ages by one step, never below zero. */
  function Cool(h: int): int
  {
    if h > 0 then h - 1 else h
  }

  /** Time passes for every register. */
  function Decay(v: seq<int>): (r: seq<int>)
    ensures |r| == |v|
    ensures forall i :: 0 <= i < |v| ==> (v[i] > 0 ==> r[i] == v[i] - 1) && (v[i] <= 0 ==> r[i] == v[i])
  {
    if |v| == 0 then [] else [Cool(v[0])] + Decay(v[1..])
  }

  /** Decaying a cold vector changes nothing. */
  lemma DecayKeepsCold(n: nat)
    ensures Decay(Zeros(n)) == Zeros(n)
  {
  }

  /** `k` successive decays. */
  function DecayTimes(v: seq<int>, k: nat): (r: seq<int>)
    ensures |r| == |v|
  {
    if k == 0 then v else Decay(DecayTimes(v, k - 1))
  }

  /** A register refreshed to `maxHeat` cools to zero after exactly `maxHeat` decays, one level per decay. */
  lemma {:induction false} RefreshThenDecay(v: seq<int>, reg: nat, maxHeat: int, k: nat)
    requires reg < |v| && maxHeat >= 0
    ensures DecayTimes(v[reg := maxHeat], k)[reg] == if k <= maxHeat then maxHeat - k else 0
  {
    if k > 0 {
      RefreshThenDecay(v, reg, maxHeat, k - 1);
    }
  }

  /** The opcode is known and writes its first register. */
  predicate Writes(ins: Instruction)
  {
    WritesDestination(ins.opcode) == Some(true)
  }

  /** The step over `ins` raises on a vector of `width` entries. */
  predicate Defective(ins: Instruction, width: nat)
  {
    || WritesDestination(ins.opcode).None?
    || (Writes(ins) && (ins.r1.None? || Ordinal(ins.r1.value) >= width))
  }

  /** One instruction: decay, then refresh the destination of a write. */
  function Step(v: seq<int>, ins: Instruction, maxHeat: int): (r: Result<seq<int>, HeatError>)
    ensures r.Success? <==> !Defective(ins, |v|)
    ensures r.Success? ==> |r.value| == |v|
    ensures r.Success? ==> forall i :: 0 <= i < |v| ==>
              r.value[i] == if Writes(ins) && i == Ordinal(ins.r1.value) then maxHeat else Cool(v[i])
  {
    var cooled := Decay(v);
    match WritesDestination(ins.opcode)
    case None => Failure(UnknownOpcode(ins.opcode))
    case Some(writes) =>
    if !writes then Success(cooled)
    else if ins.r1.None? then Failure(NoDestination(ins.opcode))
    else if Ordinal(ins.r1.value) >= |cooled| then Failure(DestinationOutOfRange(ins.r1.value))
    else Success(cooled[Ordinal(ins.r1.value) := maxHeat])
  }

  /** A step keeps every level within `[0, maxHeat]`. */
  lemma StepBounded(v: seq<int>, ins: Instruction, maxHeat: int)
    requires 0 <= maxHeat && Bounded(v, maxHeat)
    ensures Step(v, ins, maxHeat).Success? ==> Bounded(Step(v, ins, maxHeat).value, maxHeat)
  {
  }

  /** The heat over numbered lines, defined on prefixes: non-instruction lines are skipped but keep their numbers. */
  function FoldHeat(lines: seq<AsmLine>, init: seq<int>, maxHeat: int): Result<NodeHeat, HeatError>
    decreases |lines|
  {
    if |lines| == 0 then Success(NodeHeat(map[], init))
    else
      var prev := FoldHeat(lines[..|lines| - 1], init, maxHeat);
      var line := lines[|lines| - 1];
      if prev.Failure? || !line.statement.Instr? then prev
      else match Step(prev.value.final, line.statement.instr, maxHeat)
        case Failure(e) => Failure(e)
        case Success(v) => Success(NodeHeat(prev.value.snapshots[line.number := v], v))
  }

  /** The heat of a node. */
  function NodeRegisterHeat(node: Node, maxHeat: int, init: seq<int>): (r: Result<NodeHeat, HeatError>)
    ensures node.External? ==> r == Success(NodeHeat(map[], Zeros(NumRegisters)))
  {
    match node
    case External => Success(NodeHeat(map[], Zeros(NumRegisters)))
    case Block(begin, stmts) => FoldHeat(NumberLines(stmts, begin), init, maxHeat)
  }

  // ---------------------------------------------------------------------------
  // Facts about the fold over lines

  /** A block's heat is the fold over its numbered lines. */
  lemma NodeHeatIsFold(begin: int, stmts: seq<Statement>, maxHeat: int, init: seq<int>)
    ensures NodeRegisterHeat(Block(begin, stmts), maxHeat, init) == FoldHeat(NumberLines(stmts, begin), init, maxHeat)
  {
  }

  /** Once a prefix fails, the whole fold fails with the same exception. */
  lemma {:induction false} FoldFailureSticks(lines: seq<AsmLine>, j: nat, init: seq<int>, maxHeat: int)
    requires j <= |lines| && FoldHeat(lines[..j], init, maxHeat).Failure?
    ensures FoldHeat(lines, init, maxHeat) == FoldHeat(lines[..j], init, maxHeat)
    decreases |lines|
  {
    if j < |lines| {
      assert lines[..|lines| - 1][..j] == lines[..j];
      FoldFailureSticks(lines[..|lines| - 1], j, init, maxHeat);
    } else {
      assert lines[..j] == lines;
    }
  }

  /** Every snapshot and the outgoing vector have the width of `init`, and stay in `[0, maxHeat]` when `init` does. */
  lemma {:induction false} FoldShape(lines: seq<AsmLine>, init: seq<int>, maxHeat: int)
    ensures var r := FoldHeat(lines, init, maxHeat);
      r.Success? ==>
        && |r.value.final| == |init|
        && (forall l :: l in r.value.snapshots ==> |r.value.snapshots[l]| == |init|)
        && (0 <= maxHeat && Bounded(init, maxHeat) ==>
              Bounded(r.value.final, maxHeat) && forall l :: l in r.value.snapshots ==> Bounded(r.value.snapshots[l], maxHeat))
    decreases |lines|
  {
    if |lines| > 0 {
      FoldShape(lines[..|lines| - 1], init, maxHeat);
    }
  }

  /** The fold raises exactly when some instruction line is defective. */
  lemma {:induction false} FoldFailure(lines: seq<AsmLine>, init: seq<int>, maxHeat: int)
    ensures FoldHeat(lines, init, maxHeat).Failure? <==>
              exists i :: 0 <= i < |lines| && lines[i].statement.Instr? && Defective(lines[i].statement.instr, |init|)
    decreases |lines|
  {
    if |lines| > 0 {
      var front := lines[..|lines| - 1];
      FoldFailure(front, init, maxHeat);
      FoldShape(front, init, maxHeat);
      assert forall i :: 0 <= i < |front| ==> front[i] == lines[i];
    }
  }

  /** Snapshots are taken exactly at the instruction lines. */
  lemma {:induction false} FoldKeys(lines: seq<AsmLine>, init: seq<int>, maxHeat: int)
    ensures var r := FoldHeat(lines, init, maxHeat);
      r.Success? ==> r.value.snapshots.Keys == set i | 0 <= i < |lines| && lines[i].statement.Instr? :: lines[i].number
    decreases |lines|
  {
    if |lines| > 0 {
      var front := lines[..|lines| - 1];
      FoldKeys(front, init, maxHeat);
      assert forall i :: 0 <= i < |front| ==> front[i] == lines[i];
      var r := FoldHeat(lines, init, maxHeat);
      if r.Success? {
        var want := set i | 0 <= i < |lines| && lines[i].statement.Instr? :: lines[i].number;
        var wantFront := set i | 0 <= i < |front| && front[i].statement.Instr? :: front[i].number;
        var last := lines[|lines| - 1];
        if last.statement.Instr? {
          assert want == wantFront + {last.number};
        } else {
          assert want == wantFront;
        }
      }
    }
  }

  /** With no instruction lines the fold records nothing and hands `init` on. */
  lemma {:induction false} FoldNoInstructions(lines: seq<AsmLine>, init: seq<int>, maxHeat: int)
    requires forall i :: 0 <= i < |lines| ==> !lines[i].statement.Instr?
    ensures FoldHeat(lines, init, maxHeat) == Success(NodeHeat(map[], init))
    decreases |lines|
  {
    if |lines| > 0 {
      FoldNoInstructions(lines[..|lines| - 1], init, maxHeat);
    }
  }

  /** The outgoing vector is the snapshot of the last instruction line. */
  lemma {:induction false} FoldFinalIsLastSnapshot(lines: seq<AsmLine>, k: nat, init: seq<int>, maxHeat: int)
    requires k < |lines| && lines[k].statement.Instr?
    requires forall j :: k < j < |lines| ==> !lines[j].statement.Instr?
    ensures var r := FoldHeat(lines, init, maxHeat);
      r.Success? ==> lines[k].number in r.value.snapshots && r.value.final == r.value.snapshots[lines[k].number]
    decreases |lines|
  {
    if k < |lines| - 1 {
      FoldFinalIsLastSnapshot(lines[..|lines| - 1], k, init, maxHeat);
    }
  }

  /**
   With distinct line numbers, the snapshot of instruction line `k` is the step
   over that instruction from the vector the lines before it leave.
   */
  lemma {:induction false} FoldSnapshot(lines: seq<AsmLine>, k: nat, init: seq<int>, maxHeat: int)
    requires k < |lines| && lines[k].statement.Instr?
    requires forall i, j :: 0 <= i < j < |lines| ==> lines[i].number != lines[j].number
    requires FoldHeat(lines, init, maxHeat).Success?
    ensures FoldHeat(lines[..k], init, maxHeat).Success?
    ensures var before := FoldHeat(lines[..k], init, maxHeat).value.final;
      && lines[k].number in FoldHeat(lines, init, maxHeat).value.snapshots
      && Step(before, lines[k].statement.instr, maxHeat) == Success(FoldHeat(lines, init, maxHeat).value.snapshots[lines[k].number])
    decreases |lines|
  {
    var front := lines[..|lines| - 1];
    if FoldHeat(lines[..k], init, maxHeat).Failure? {
      FoldFailureSticks(lines, k, init, maxHeat);
      assert false;
    }
    if k < |lines| - 1 {
      assert front[..k] == lines[..k];
      if FoldHeat(front, init, maxHeat).Failure? {
        assert false;
      }
      FoldSnapshot(front, k, init, maxHeat);
    } else {
      assert front == lines[..k];
    }
  }

  // ---------------------------------------------------------------------------
  // The same facts, stated for a node

  /** Snapshots and outgoing vector keep the width of the incoming vector (32 for an external node) and stay in `[0, maxHeat]`. */
  lemma NodeHeatShape(node: Node, maxHeat: int, init: seq<int>)
    ensures var r := NodeRegisterHeat(node, maxHeat, init);
      var width := if node.External? then NumRegisters else |init|;
      r.Success? ==>
        && |r.value.final| == width
        && (forall l :: l in r.value.snapshots ==> |r.value.snapshots[l]| == width)
        && (0 <= maxHeat && Bounded(init, maxHeat) ==>
              Bounded(r.value.final, maxHeat) && forall l :: l in r.value.snapshots ==> Bounded(r.value.snapshots[l], maxHeat))
  {
    if node.Block? {
      FoldShape(NumberLines(node.statements, node.begin), init, maxHeat);
    }
  }

  /** A block raises exactly when one of its instructions has an unknown opcode or an unusable destination. */
  lemma NodeHeatFailure(begin: int, stmts: seq<Statement>, maxHeat: int, init: seq<int>)
    ensures NodeRegisterHeat(Block(begin, stmts), maxHeat, init).Failure? <==>
              exists i :: 0 <= i < |stmts| && stmts[i].Instr? && Defective(stmts[i].instr, |init|)
  {
    var lines := NumberLines(stmts, begin);
    FoldFailure(lines, init, maxHeat);
    if exists i :: 0 <= i < |stmts| && stmts[i].Instr? && Defective(stmts[i].instr, |init|) {
      var i :| 0 <= i < |stmts| && stmts[i].Instr? && Defective(stmts[i].instr, |init|);
      assert lines[i].statement == stmts[i];
    }
  }

  /** Only instruction statements get snapshots, yet every statement consumes a line number. */
  lemma NodeHeatLines(begin: int, stmts: seq<Statement>, maxHeat: int, init: seq<int>)
    ensures var r := NodeRegisterHeat(Block(begin, stmts), maxHeat, init);
      r.Success? ==> r.value.snapshots.Keys == set i | 0 <= i < |stmts| && stmts[i].Instr? :: begin + i
  {
    var lines := NumberLines(stmts, begin);
    FoldKeys(lines, init, maxHeat);
    var a := set i | 0 <= i < |lines| && lines[i].statement.Instr? :: lines[i].number;
    var b := set i | 0 <= i < |stmts| && stmts[i].Instr? :: begin + i;
    assert forall x :: x in a ==> x in b;
    assert forall x :: x in b ==> x in a by {
      forall x | x in b ensures x in a {
        var i :| 0 <= i < |stmts| && stmts[i].Instr? && x == begin + i;
        assert lines[i].number == x;
      }
    }
  }

  /** A block without instructions records nothing and passes its incoming vector on. */
  lemma NodeHeatNoInstructions(begin: int, stmts: seq<Statement>, maxHeat: int, init: seq<int>)
    requires forall i :: 0 <= i < |stmts| ==> !stmts[i].Instr?
    ensures NodeRegisterHeat(Block(begin, stmts), maxHeat, init) == Success(NodeHeat(map[], init))
  {
    FoldNoInstructions(NumberLines(stmts, begin), init, maxHeat);
  }

  /** The outgoing vector of a block is the snapshot of its last instruction. */
  lemma NodeHeatFinal(begin: int, stmts: seq<Statement>, k: nat, maxHeat: int, init: seq<int>)
    requires k < |stmts| && stmts[k].Instr?
    requires forall j :: k < j < |stmts| ==> !stmts[j].Instr?
    ensures var r := NodeRegisterHeat(Block(begin, stmts), maxHeat, init);
      r.Success? ==> begin + k in r.value.snapshots && r.value.final == r.value.snapshots[begin + k]
  {
    FoldFinalIsLastSnapshot(NumberLines(stmts, begin), k, init, maxHeat);
  }

  /**
   The snapshot of instruction `k` is the state after decay and refresh over
   that instruction, starting from the outgoing vector of the statements before it.
   */
  lemma NodeHeatSnapshot(begin: int, stmts: seq<Statement>, k: nat, maxHeat: int, init: seq<int>)
    requires k < |stmts| && stmts[k].Instr?
    requires NodeRegisterHeat(Block(begin, stmts), maxHeat, init).Success?
    ensures NodeRegisterHeat(Block(begin, stmts[..k]), maxHeat, init).Success?
    ensures var before := NodeRegisterHeat(Block(begin, stmts[..k]), maxHeat, init).value.final;
      var after := NodeRegisterHeat(Block(begin, stmts), maxHeat, init).value.snapshots;
      begin + k in after && Step(before, stmts[k].instr, maxHeat) == Success(after[begin + k])
  {
    var lines := NumberLines(stmts, begin);
    NumberLinesPrefix(stmts, begin, k);
    NumberLinesDistinct(stmts, begin);
    FoldSnapshot(lines, k, init, maxHeat);
    NodeHeatIsFold(begin, stmts, maxHeat, init);
    NodeHeatIsFold(begin, stmts[..k], maxHeat, init);
  }

  // ---------------------------------------------------------------------------
  // The loop of the source

  /** The source's inner loop: every positive level drops by one, in place. */
  method DecayInPlace(before: seq<int>) returns (current: seq<int>)
    ensures current == Decay(before)
  {
    current := before;
    var reg := 0;
    while reg < |current|
      invariant 0 <= reg <= |current| == |before|
      invariant forall i :: 0 <= i < reg ==> current[i] == Cool(before[i])
      invariant forall i :: reg <= i < |current| ==> current[i] == before[i]
    {
      if current[reg] > 0 {
        current := current[reg := current[reg] - 1];
      }
      reg := reg + 1;
    }
  }

  /** The body of the source's outer loop for one instruction: decay, look the opcode up, refresh the destination. */
  method StepInPlace(before: seq<int>, ins: Instruction, maxHeat: int) returns (r: Result<seq<int>, HeatError>)
    ensures r == Step(before, ins, maxHeat)
  {
    var current := DecayInPlace(before);
    var writes := WritesDestination(ins.opcode);
    if writes.None? {
      return Failure(UnknownOpcode(ins.opcode));
    }
    if writes.value {
      if ins.r1.None? {
        return Failure(NoDestination(ins.opcode));
      }
      var d := Ordinal(ins.r1.value);
      if d >= |current| {
        return Failure(DestinationOutOfRange(ins.r1.value));
      }
      current := current[d := maxHeat];
    }
    return Success(current);
  }

  /** The fold over one more line. */
  lemma FoldHeatNext(lines: seq<AsmLine>, k: nat, init: seq<int>, maxHeat: int)
    requires k < |lines|
    ensures FoldHeat(lines[..k + 1], init, maxHeat) ==
      var prev := FoldHeat(lines[..k], init, maxHeat);
      if prev.Failure? || !lines[k].statement.Instr? then prev
      else match Step(prev.value.final, lines[k].statement.instr, maxHeat)
        case Failure(e) => Failure(e)
        case Success(v) => Success(NodeHeat(prev.value.snapshots[lines[k].number := v], v))
  {
    assert lines[..k + 1][..k] == lines[..k];
  }

  /** `node_register_heat` as the source computes it: an in-place decay loop per instruction line. */
  method ComputeNodeHeat(node: Node, maxHeat: int, init: seq<int>) returns (r: Result<NodeHeat, HeatError>)
    ensures r == NodeRegisterHeat(node, maxHeat, init)
  {
    if node.External? {
      return Success(NodeHeat(map[], Zeros(NumRegisters)));
    }
    var lines := NumberLines(node.statements, node.begin);
    var current := init;
    var heatmap: map<int, seq<int>> := map[];
    var k := 0;
    while k < |lines|
      invariant 0 <= k <= |lines|
      invariant FoldHeat(lines[..k], init, maxHeat) == Success(NodeHeat(heatmap, current))
    {
      var line := lines[k];
      FoldHeatNext(lines, k, init, maxHeat);
      if line.statement.Instr? {
        var next := StepInPlace(current, line.statement.instr, maxHeat);
        if next.Failure? {
          FoldFailureSticks(lines, k + 1, init, maxHeat);
          return Failure(next.error);
        }
        current := next.value;
        heatmap := heatmap[line.number := current];
      }
      k := k + 1;
    }
    assert lines[..k] == lines;
    return Success(NodeHeat(heatmap, current));
  }

  /** Writing x1, writing x2, then only reading x1, from a cold vector with `maxHeat` 4, leaves x1 at 2 and x2 at 3. */
  lemma ThreeInstructionExample()
    ensures var ins := [
        Instr(Instruction("li", "li", [], Some(RA), None, None, None)),
        Instr(Instruction("li", "li", [], Some(SP), None, None, None)),
        Instr(Instruction("bgez", "bz", [], Some(RA), None, None, None))];
      var r := NodeRegisterHeat(Block(0, ins), 4, Zeros(NumRegisters));
      && r.Success? && |r.value.final| == NumRegisters
      && r.value.final[Ordinal(RA)] == 2 && r.value.final[Ordinal(SP)] == 3
      && 1 in r.value.snapshots && |r.value.snapshots[1]| == NumRegisters
      && r.value.snapshots[1][Ordinal(RA)] == 3 && r.value.snapshots[1][Ordinal(SP)] == 4
  {
    var ins := [
        Instr(Instruction("li", "li", [], Some(RA), None, None, None)),
        Instr(Instruction("li", "li", [], Some(SP), None, None, None)),
        Instr(Instruction("bgez", "bz", [], Some(RA), None, None, None))];
    var lines := NumberLines(ins, 0);
    assert WritesDestination("li") == Some(true) by { assert IsSetting("li"); }
    assert WritesDestination("bgez") == Some(false) by { assert IsBranch("bgez"); }
    assert lines[..1][..0] == [] && lines[..2][..1] == lines[..1] && lines[..3][..2] == lines[..2] && lines[..3] == lines;
    var z := Zeros(NumRegisters);
    var v1 := Decay(z)[1 := 4];
    var v2 := Decay(v1)[2 := 4];
    var v3 := Decay(v2);
    assert Step(z, ins[0].instr, 4) == Success(v1);
    assert Step(v1, ins[1].instr, 4) == Success(v2);
    assert Step(v2, ins[2].instr, 4) == Success(v3);
    assert FoldHeat(lines[..1], z, 4) == Success(NodeHeat(map[0 := v1], v1));
    assert FoldHeat(lines[..2], z, 4) == Success(NodeHeat(map[0 := v1, 1 := v2], v2));
    assert FoldHeat(lines[..3], z, 4) == Success(NodeHeat(map[0 := v1, 1 := v2, 2 := v3], v3));
  }
}
