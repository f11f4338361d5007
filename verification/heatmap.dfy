/**
 The entry point `register_heatmap`: resolve the paths of the graph without
 its loop-back nodes, drop the pseudo-entry of node 0, close the loop-back
 nodes, and merge every node's fragment, in the scratch map's insertion
 order, into one map from line numbers to heat vectors.
 */
module Heatmaps {
  import opened Wrappers
  import opened Registers
  import opened Heat
  import opened Engine
  import opened Cycles

  /** `for nhm in node_heatmaps.values(): heatmap.update(nhm[0])`: later fragments overwrite earlier ones. */
  function Flatten(order: seq<int>, heat: map<int, NodeHeat>): (m: map<int, seq<int>>)
    requires forall i :: 0 <= i < |order| ==> order[i] in heat
    ensures |order| > 0 ==> forall l :: l in heat[order[|order| - 1]].snapshots ==>
      l in m && m[l] == heat[order[|order| - 1]].snapshots[l]
  {
    if |order| == 0 then map[]
    else Flatten(order[..|order| - 1], heat) + heat[order[|order| - 1]].snapshots
  }

  /** A line is in the merged map exactly when some fragment has it. */
  lemma {:induction false} FlattenDomain(order: seq<int>, heat: map<int, NodeHeat>, l: int)
    requires forall i :: 0 <= i < |order| ==> order[i] in heat
    ensures l in Flatten(order, heat) <==> exists i :: 0 <= i < |order| && l in heat[order[i]].snapshots
  {
    if |order| > 0 {
      var init := order[..|order| - 1];
      FlattenDomain(init, heat, l);
      if l in Flatten(order, heat) && l !in heat[order[|order| - 1]].snapshots {
        var i :| 0 <= i < |init| && l in heat[init[i]].snapshots;
        assert init[i] == order[i];
      }
      if exists i :: 0 <= i < |order| && l in heat[order[i]].snapshots {
        var i :| 0 <= i < |order| && l in heat[order[i]].snapshots;
        if i < |init| {
          assert init[i] == order[i];
        }
      }
    }
  }

  /** A line takes its vector from the last fragment, in insertion order, that has it. */
  lemma {:induction false} FlattenLastWins(order: seq<int>, heat: map<int, NodeHeat>, i: nat, l: int)
    requires forall i :: 0 <= i < |order| ==> order[i] in heat
    requires i < |order| && l in heat[order[i]].snapshots
    requires forall j :: i < j < |order| ==> l !in heat[order[j]].snapshots
    ensures l in Flatten(order, heat) && Flatten(order, heat)[l] == heat[order[i]].snapshots[l]
  {
    var init := order[..|order| - 1];
    if i < |init| {
      assert init[i] == order[i];
      forall j | i < j < |init| ensures l !in heat[init[j]].snapshots {
        assert init[j] == order[j];
      }
      FlattenLastWins(init, heat, i, l);
    }
  }

  /** Every merged vector is some fragment's snapshot, so it inherits the fragments' shape. */
  lemma {:induction false} FlattenShaped(order: seq<int>, heat: map<int, NodeHeat>, maxHeat: int)
    requires forall i :: 0 <= i < |order| ==> order[i] in heat
    requires AllShaped(heat, maxHeat)
    ensures forall l :: l in Flatten(order, heat) ==>
      |Flatten(order, heat)[l]| == NumRegisters && (0 <= maxHeat ==> Bounded(Flatten(order, heat)[l], maxHeat))
  {
    if |order| > 0 {
      var init := order[..|order| - 1];
      FlattenShaped(init, heat, maxHeat);
      ShapedAt(heat, maxHeat, order[|order| - 1]);
    }
  }

  /** The loop that collapses the scratch map. */
  method FlattenScratch(sc: Scratch) returns (m: map<int, seq<int>>)
    requires forall i :: 0 <= i < |sc.order| ==> sc.order[i] in sc.heat
    ensures m == Flatten(sc.order, sc.heat)
  {
    m := map[];
    for i := 0 to |sc.order|
      invariant m == Flatten(sc.order[..i], sc.heat)
    {
      assert sc.order[..i + 1][..i] == sc.order[..i];
      m := m + sc.heat[sc.order[i]].snapshots;
    }
    assert sc.order[..|sc.order|] == sc.order;
  }

  /** The scratch map after both passes, before it is flattened. */
  function Scratchpad(g: Cfg, maxHeat: int, fuel: nat): (r: Result<Scratch, EngineError>)
    ensures r.Success? ==> Ordered(r.value) && AllShaped(r.value.heat, maxHeat)
  {
    var st :- ResolveFrom(g, maxHeat, Start(g, maxHeat));
    var sc := Delete(st.sc, 0);
    Close(g, maxHeat, Closing(g.loopBack, sc), fuel)
  }

  /** Every line maps to one level per register, each within `[0, maxHeat]` when `maxHeat` is non-negative. */
  ghost predicate LinesShaped(m: map<int, seq<int>>, maxHeat: int)
  {
    forall l :: l in m ==> |m[l]| == NumRegisters && (0 <= maxHeat ==> Bounded(m[l], maxHeat))
  }

  /** `m` holds exactly the lines some node of `heat` has a snapshot at. */
  ghost predicate LinesOf(m: map<int, seq<int>>, heat: map<int, NodeHeat>)
  {
    forall l :: l in m <==> exists n :: n in heat && l in heat[n].snapshots
  }

  /** The merged map holds exactly the lines some node of the scratch map has a snapshot at. */
  lemma FragmentLines(sc: Scratch)
    requires Ordered(sc)
    ensures forall i :: 0 <= i < |sc.order| ==> sc.order[i] in sc.heat
    ensures forall l :: l in Flatten(sc.order, sc.heat) <==> exists n :: n in sc.heat && l in sc.heat[n].snapshots
  {
    OrderedAt(sc);
    forall l ensures l in Flatten(sc.order, sc.heat) <==> exists n :: n in sc.heat && l in sc.heat[n].snapshots {
      FlattenDomain(sc.order, sc.heat, l);
      if exists n :: n in sc.heat && l in sc.heat[n].snapshots {
        var n :| n in sc.heat && l in sc.heat[n].snapshots;
        assert n in sc.order;
        var i :| 0 <= i < |sc.order| && sc.order[i] == n;
        assert l in sc.heat[sc.order[i]].snapshots;
      }
    }
  }

  /**
   `register_heatmap(cfg, max_heat)`, with `fuel` bounding the rounds of the
   cycle closing: it fails when a pass fails, and otherwise maps exactly the
   lines of the nodes the scratch map ends up holding, each to one level per
   register within `[0, maxHeat]`.
   */
  function Heatmap(g: Cfg, maxHeat: int, fuel: nat): (r: Result<map<int, seq<int>>, EngineError>)
    ensures r.Success? <==> Scratchpad(g, maxHeat, fuel).Success?
    ensures r.Failure? ==> r.error == Scratchpad(g, maxHeat, fuel).error
    ensures r.Success? ==> LinesShaped(r.value, maxHeat)
    ensures r.Success? ==> LinesOf(r.value, Scratchpad(g, maxHeat, fuel).value.heat)
  {
    var sc :- Scratchpad(g, maxHeat, fuel);
    OrderedAt(sc);
    FlattenShaped(sc.order, sc.heat, maxHeat);
    FragmentLines(sc);
    Success(Flatten(sc.order, sc.heat))
  }

  /**
   On success the scratch map holds every node the path pass resolved except
   node 0, plus every loop-back node.
   */
  lemma ScratchpadDomain(g: Cfg, maxHeat: int, fuel: nat)
    ensures var r := Scratchpad(g, maxHeat, fuel);
      r.Success? ==>
        && ResolveFrom(g, maxHeat, Start(g, maxHeat)).Success?
        && r.value.heat.Keys == (ResolveFrom(g, maxHeat, Start(g, maxHeat)).value.sc.heat.Keys - {0}) + set k | k in g.loopBack
  {
    var st := ResolveFrom(g, maxHeat, Start(g, maxHeat));
    if st.Success? && Close(g, maxHeat, Closing(g.loopBack, Delete(st.value.sc, 0)), fuel).Success? {
      CloseDomain(g, maxHeat, Closing(g.loopBack, Delete(st.value.sc, 0)), fuel);
    }
  }

  /** Without loop-back nodes the closing pass does nothing, whatever the fuel. */
  lemma NoLoopsNoFuel(g: Cfg, maxHeat: int, fuel: nat, fuel': nat)
    requires g.loopBack == []
    ensures Heatmap(g, maxHeat, fuel) == Heatmap(g, maxHeat, fuel')
    ensures var st := ResolveFrom(g, maxHeat, Start(g, maxHeat));
      Scratchpad(g, maxHeat, fuel) == if st.Success? then Success(Delete(st.value.sc, 0)) else Failure(st.error)
  {
  }

  /** A heat map computed with some fuel is the one computed with any larger fuel. */
  lemma HeatmapFuelMonotone(g: Cfg, maxHeat: int, fuel: nat, fuel': nat)
    requires Heatmap(g, maxHeat, fuel).Success? && fuel <= fuel'
    ensures Heatmap(g, maxHeat, fuel') == Heatmap(g, maxHeat, fuel)
  {
    var st := ResolveFrom(g, maxHeat, Start(g, maxHeat));
    CloseFuelMonotone(g, maxHeat, Closing(g.loopBack, Delete(st.value.sc, 0)), fuel, fuel');
  }

  /** `register_heatmap(cfg, max_heat)` as the source runs it, bounding the cycle closing by `fuel` rounds. */
  method RegisterHeatmap(g: Cfg, maxHeat: int, fuel: nat) returns (r: Result<map<int, seq<int>>, EngineError>)
    ensures r == Heatmap(g, maxHeat, fuel)
    ensures r.Success? ==> forall l :: l in r.value ==>
      |r.value[l]| == NumRegisters && (0 <= maxHeat ==> Bounded(r.value[l], maxHeat))
  {
    var st := ResolvePaths(g, maxHeat);
    if st.Failure? {
      return Failure(st.error);
    }
    var sc := Delete(st.value.sc, 0);
    var closed := CloseCycles(g, maxHeat, sc, fuel);
    if closed.Failure? {
      return Failure(closed.error);
    }
    OrderedAt(closed.value);
    var m := FlattenScratch(closed.value);
    return Success(m);
  }
}
