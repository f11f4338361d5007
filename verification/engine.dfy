/**
 The first loop of `register_heatmap`: simple paths from entry node 1 to
 node 0 of the graph without its loop-back nodes are walked from a LIFO
 stack; a node already in the scratch map is never recomputed, a non-merge
 node is seeded from its first predecessor, and a merge point parks the
 path's remaining suffix (its stump) until all its predecessors are
 resolved, then mediates them and requeues every stump. The graph, the
 scratch map and the engine's errors are declared here as well, since the
 cycle closing and the final merge share them.
 */
module Engine {
  import opened Wrappers
  import opened Registers
  import opened Heat
  import opened Mediation

  /**
   The graph with every query the engine makes already answered: node bodies;
   predecessors in the view without loop-back nodes (`preds`) and in the full
   graph (`allPreds`), each in the graph's iteration order; the merge points of
   the view; the loop-back nodes; and the simple paths of the view from node 1
   to node 0, in enumeration order.
   */
  datatype Cfg = Cfg(
    nodes: map<int, Node>,
    preds: map<int, seq<int>>,
    allPreds: map<int, seq<int>>,
    merges: set<int>,
    loopBack: seq<int>,
    paths: seq<seq<int>>)

  /** The exceptions the engine can raise, and the fuel running out where the source would loop forever. */
  datatype EngineError =
    | NodeFault(node: int, fault: HeatError)
    | MissingNode(node: int)
    | NoPredecessor(node: int)
    | UnmappedPredecessor(node: int, pred: int)
    | EmptyMediation(node: int)
    | CyclesNotClosed(pending: seq<int>)

  /** The pseudo-entry for node 0: no snapshots, every register cold. */
  const Seed: NodeHeat := NodeHeat(map[], Zeros(NumRegisters))

  /** Every vector of a node's heat has one entry per register, each in `[0, maxHeat]` when `maxHeat` is non-negative. */
  ghost predicate Shaped(h: NodeHeat, maxHeat: int)
  {
    && |h.final| == NumRegisters
    && (forall l :: l in h.snapshots ==> |h.snapshots[l]| == NumRegisters)
    && (0 <= maxHeat ==> Bounded(h.final, maxHeat) && forall l :: l in h.snapshots ==> Bounded(h.snapshots[l], maxHeat))
  }

  ghost predicate AllShaped(heat: map<int, NodeHeat>, maxHeat: int)
  {
    forall n :: n in heat ==> Shaped(heat[n], maxHeat)
  }

  /** `node_register_heat(cfg.nodes[n], max_heat, init)`. */
  function Compute(g: Cfg, n: int, maxHeat: int, init: seq<int>): (r: Result<NodeHeat, EngineError>)
    ensures r.Success? ==> n in g.nodes && NodeRegisterHeat(g.nodes[n], maxHeat, init) == Success(r.value)
    ensures r.Success? && |init| == NumRegisters && (0 <= maxHeat ==> Bounded(init, maxHeat)) ==> Shaped(r.value, maxHeat)
  {
    if n !in g.nodes then Failure(MissingNode(n))
    else
      NodeHeatShape(g.nodes[n], maxHeat, init);
      match NodeRegisterHeat(g.nodes[n], maxHeat, init)
      case Failure(e) => Failure(NodeFault(n, e))
      case Success(h) => Success(h)
  }

  // ---------------------------------------------------------------------------
  // The scratch map, a Python dict: its entries and their insertion order

  datatype Scratch = Scratch(heat: map<int, NodeHeat>, order: seq<int>)

  /** The order lists every key exactly once. */
  ghost predicate Ordered(sc: Scratch)
  {
    && (forall k :: k in sc.order <==> k in sc.heat)
    && Distinct(sc.order)
  }

  lemma OrderedAt(sc: Scratch)
    requires Ordered(sc)
    ensures forall i :: 0 <= i < |sc.order| ==> sc.order[i] in sc.heat
  {
    forall i | 0 <= i < |sc.order| ensures sc.order[i] in sc.heat {
      assert sc.order[i] in sc.order;
    }
  }

  /** `scratch[n] = h`: a new key goes last, an existing key keeps its place. */
  function Assign(sc: Scratch, n: int, h: NodeHeat): (r: Scratch)
    requires Ordered(sc)
    ensures Ordered(r) && r.heat == sc.heat[n := h]
    ensures r.order == if n in sc.heat then sc.order else sc.order + [n]
  {
    Scratch(sc.heat[n := h], if n in sc.heat then sc.order else sc.order + [n])
  }

  predicate Distinct(s: seq<int>)
  {
    forall i, j :: 0 <= i < j < |s| ==> s[i] != s[j]
  }

  function Without(s: seq<int>, x: int): (r: seq<int>)
    ensures forall k :: k in r <==> k in s && k != x
  {
    if |s| == 0 then []
    else if s[0] == x then Without(s[1..], x)
    else [s[0]] + Without(s[1..], x)
  }

  lemma {:induction false} WithoutDistinct(s: seq<int>, x: int)
    requires Distinct(s)
    ensures Distinct(Without(s, x))
  {
    if |s| > 0 {
      assert Distinct(s[1..]);
      WithoutDistinct(s[1..], x);
      if s[0] != x {
        assert s[0] !in s[1..];
        var rest := Without(s[1..], x);
        assert s[0] !in rest;
        var r := [s[0]] + rest;
        forall i, j | 0 <= i < j < |r| ensures r[i] != r[j] {
          if i == 0 {
            assert r[j] == rest[j - 1];
          } else {
            assert r[i] == rest[i - 1] && r[j] == rest[j - 1];
          }
        }
      }
    }
  }

  /** `a` occurs somewhere before `b` in `s`. */
  ghost predicate Before(s: seq<int>, a: int, b: int)
  {
    exists i, j :: 0 <= i < j < |s| && s[i] == a && s[j] == b
  }

  lemma BeforeCons(s: seq<int>, a: int, b: int)
    requires |s| > 0
    ensures Before(s, a, b) <==> (s[0] == a && b in s[1..]) || Before(s[1..], a, b)
  {
    if Before(s, a, b) {
      var i, j :| 0 <= i < j < |s| && s[i] == a && s[j] == b;
      if i > 0 {
        assert s[1..][i - 1] == a && s[1..][j - 1] == b;
      } else {
        assert s[1..][j - 1] == b;
      }
    }
    if s[0] == a && b in s[1..] {
      var j :| 0 <= j < |s[1..]| && s[1..][j] == b;
      assert s[0] == a && s[j + 1] == b;
    }
    if Before(s[1..], a, b) {
      var i, j :| 0 <= i < j < |s[1..]| && s[1..][i] == a && s[1..][j] == b;
      assert s[i + 1] == a && s[j + 1] == b;
    }
  }

  /** Removing `x` leaves the relative order of every other pair of keys as it was. */
  lemma {:induction false} WithoutKeepsOrder(s: seq<int>, x: int, a: int, b: int)
    requires a != x && b != x
    ensures Before(Without(s, x), a, b) <==> Before(s, a, b)
  {
    if |s| > 0 {
      WithoutKeepsOrder(s[1..], x, a, b);
      BeforeCons(s, a, b);
      if s[0] != x {
        var r := Without(s, x);
        assert r[1..] == Without(s[1..], x);
        BeforeCons(r, a, b);
      }
    }
  }

  /** `del scratch[n]`. */
  function Delete(sc: Scratch, n: int): (r: Scratch)
    requires Ordered(sc)
    ensures Ordered(r) && r.heat == sc.heat - {n}
    ensures r.order == Without(sc.order, n)
  {
    WithoutDistinct(sc.order, n);
    Scratch(sc.heat - {n}, Without(sc.order, n))
  }

  /** Entries already present are kept unchanged. */
  ghost predicate Grows(heat: map<int, NodeHeat>, heat': map<int, NodeHeat>)
  {
    forall k :: k in heat ==> k in heat' && heat'[k] == heat[k]
  }

  // ---------------------------------------------------------------------------
  // The worklist

  /** The worklist state: the stack of paths, the stumps parked per merge point, and the scratch map. */
  datatype State = State(stack: seq<seq<int>>, waiting: map<int, seq<seq<int>>>, sc: Scratch)

  /** The outgoing vectors of the nodes `ps`, in order. */
  function FinalsOf(ps: seq<int>, heat: map<int, NodeHeat>): (vs: seq<seq<int>>)
    requires forall j :: 0 <= j < |ps| ==> ps[j] in heat
    ensures |vs| == |ps| && forall j :: 0 <= j < |ps| ==> vs[j] == heat[ps[j]].final
  {
    seq(|ps|, j requires 0 <= j < |ps| => heat[ps[j]].final)
  }

  lemma ShapedAt(heat: map<int, NodeHeat>, maxHeat: int, k: int)
    requires AllShaped(heat, maxHeat) && k in heat
    ensures Shaped(heat[k], maxHeat)
  {
  }

  /** The predecessors `ps` are resolved and can be mediated. */
  ghost predicate MediatedShapedAt(ps: seq<int>, heat: map<int, NodeHeat>)
  {
    && |ps| > 0
    && (forall j :: 0 <= j < |ps| ==> ps[j] in heat)
    && Mediable(FinalsOf(ps, heat))
  }

  /** The mean of resolved predecessors' outgoing vectors is a well-formed incoming vector. */
  lemma MediatedShaped(ps: seq<int>, heat: map<int, NodeHeat>, maxHeat: int)
    requires |ps| > 0 && (forall j :: 0 <= j < |ps| ==> ps[j] in heat) && AllShaped(heat, maxHeat)
    ensures var vs := FinalsOf(ps, heat);
      && MediatedShapedAt(ps, heat)
      && Mediable(vs)
      && |Mediate(vs)| == NumRegisters
      && (0 <= maxHeat ==> Bounded(Mediate(vs), maxHeat))
  {
    var vs := FinalsOf(ps, heat);
    forall j | 0 <= j < |ps|
      ensures |vs[j]| == NumRegisters && (0 <= maxHeat ==> Bounded(vs[j], maxHeat))
    {
      ShapedAt(heat, maxHeat, ps[j]);
    }
    MediateBounded(vs, maxHeat);
  }

  /** What processing an unresolved node leaves: carry on along the path, or stop it. */
  datatype Arrival = Continue(state: State) | Stop(state: State)

  /**
   Reaching an unresolved merge point: the first arrival parks its stump; a
   later one mediates the predecessors and continues when they are all
   resolved, and parks its stump beside the others otherwise.
   */
  function MergeArrival(g: Cfg, maxHeat: int, path: seq<int>, i: nat, st: State): (r: Result<Arrival, EngineError>)
    requires i < |path| && path[i] !in st.sc.heat && path[i] in g.merges
    requires Ordered(st.sc) && AllShaped(st.sc.heat, maxHeat)
    ensures r.Success? ==> Ordered(r.value.state.sc) && AllShaped(r.value.state.sc.heat, maxHeat)
  {
    var n := path[i];
    if n !in st.waiting then
      Success(Stop(st.(waiting := st.waiting[n := [path[i..]]])))
    else if n !in g.preds then Failure(MissingNode(n))
    else if forall p :: p in g.preds[n] ==> p in st.sc.heat then
      var requeued := st.(stack := st.stack + st.waiting[n], waiting := st.waiting - {n});
      if n !in g.nodes then Failure(MissingNode(n))
      else if |g.preds[n]| == 0 then Failure(EmptyMediation(n))
      else
        var vs := FinalsOf(g.preds[n], st.sc.heat);
        MediatedShaped(g.preds[n], st.sc.heat, maxHeat);
        var h :- Compute(g, n, maxHeat, Mediate(vs));
        Success(Continue(requeued.(sc := Assign(st.sc, n, h))))
    else
      Success(Stop(st.(waiting := st.waiting[n := st.waiting[n] + [path[i..]]])))
  }

  /** Reaching an unresolved node that is not a merge point: seed it from its first predecessor. */
  function PlainArrival(g: Cfg, maxHeat: int, path: seq<int>, i: nat, st: State): (r: Result<Arrival, EngineError>)
    requires i < |path| && path[i] !in st.sc.heat
    requires Ordered(st.sc) && AllShaped(st.sc.heat, maxHeat)
    ensures r.Success? ==> r.value.Continue? && Ordered(r.value.state.sc) && AllShaped(r.value.state.sc.heat, maxHeat)
  {
    var n := path[i];
    if n !in g.nodes || n !in g.preds then Failure(MissingNode(n))
    else if |g.preds[n]| == 0 then Failure(NoPredecessor(n))
    else if g.preds[n][0] !in st.sc.heat then Failure(UnmappedPredecessor(n, g.preds[n][0]))
    else
      ShapedAt(st.sc.heat, maxHeat, g.preds[n][0]);
      var h :- Compute(g, n, maxHeat, st.sc.heat[g.preds[n][0]].final);
      Success(Continue(st.(sc := Assign(st.sc, n, h))))
  }

  /** The body of the inner loop for an unresolved node `path[i]`. */
  function Visit(g: Cfg, maxHeat: int, path: seq<int>, i: nat, st: State): (r: Result<Arrival, EngineError>)
    requires i < |path| && path[i] !in st.sc.heat
    requires Ordered(st.sc) && AllShaped(st.sc.heat, maxHeat)
    ensures r.Success? ==> Ordered(r.value.state.sc) && AllShaped(r.value.state.sc.heat, maxHeat)
  {
    if path[i] in g.merges then MergeArrival(g, maxHeat, path, i, st) else PlainArrival(g, maxHeat, path, i, st)
  }

  /**
   The merge-point protocol: the first arrival parks its stump and stops even
   when every predecessor is resolved; a later arrival stops and parks its
   stump after the others while some predecessor is unresolved; and the path
   continues exactly when the node was already waiting and all its
   predecessors are resolved, in which case the node is computed from the
   mean of their outgoing vectors, its stumps go back on the stack and its
   waiting entry is removed.
   */
  lemma MergeProtocol(g: Cfg, maxHeat: int, path: seq<int>, i: nat, st: State)
    requires i < |path| && path[i] !in st.sc.heat && path[i] in g.merges
    requires Ordered(st.sc) && AllShaped(st.sc.heat, maxHeat)
    ensures var n, r := path[i], Visit(g, maxHeat, path, i, st);
      && (n !in st.waiting ==> r == Success(Stop(State(st.stack, st.waiting[n := [path[i..]]], st.sc))))
      && (n in st.waiting && n in g.preds && (exists p :: p in g.preds[n] && p !in st.sc.heat) ==>
            r == Success(Stop(State(st.stack, st.waiting[n := st.waiting[n] + [path[i..]]], st.sc))))
      && (r.Success? ==> (r.value.Continue? <==> n in st.waiting && n in g.preds && forall p :: p in g.preds[n] ==> p in st.sc.heat))
      && (r.Success? && r.value.Continue? ==>
            && r.value.state.stack == st.stack + st.waiting[n]
            && r.value.state.waiting == st.waiting - {n}
            && MediatedShapedAt(g.preds[n], st.sc.heat)
            && Compute(g, n, maxHeat, Mediate(FinalsOf(g.preds[n], st.sc.heat))) == Success(r.value.state.sc.heat[n])
            && r.value.state.sc.heat == st.sc.heat[n := r.value.state.sc.heat[n]])
  {
    var n := path[i];
    if n in st.waiting && n in g.preds && |g.preds[n]| > 0 && forall p :: p in g.preds[n] ==> p in st.sc.heat {
      MediatedShaped(g.preds[n], st.sc.heat, maxHeat);
    }
  }

  /**
   A node off the merge points is resolved from its first predecessor's
   outgoing vector, and the path goes on; it fails when it has no
   predecessor or its first one is unresolved.
   */
  lemma PlainProtocol(g: Cfg, maxHeat: int, path: seq<int>, i: nat, st: State)
    requires i < |path| && path[i] !in st.sc.heat && path[i] !in g.merges
    requires Ordered(st.sc) && AllShaped(st.sc.heat, maxHeat)
    ensures var n, r := path[i], Visit(g, maxHeat, path, i, st);
      && (n in g.nodes && n in g.preds && |g.preds[n]| == 0 ==> r == Failure(NoPredecessor(n)))
      && (n in g.nodes && n in g.preds && |g.preds[n]| > 0 && g.preds[n][0] !in st.sc.heat ==>
            r == Failure(UnmappedPredecessor(n, g.preds[n][0])))
      && (r.Success? ==>
            && r.value.Continue?
            && r.value.state.stack == st.stack
            && r.value.state.waiting == st.waiting
            && n in g.preds && |g.preds[n]| > 0 && g.preds[n][0] in st.sc.heat
            && Compute(g, n, maxHeat, st.sc.heat[g.preds[n][0]].final) == Success(r.value.state.sc.heat[n])
            && r.value.state.sc.heat == st.sc.heat[n := r.value.state.sc.heat[n]])
  {
  }

  /** The inner loop over one path from position `i`, skipping nodes the scratch map already holds at the time they are reached. */
  function Walk(g: Cfg, maxHeat: int, path: seq<int>, i: nat, st: State): (r: Result<State, EngineError>)
    requires i <= |path| && Ordered(st.sc) && AllShaped(st.sc.heat, maxHeat)
    ensures r.Success? ==> Ordered(r.value.sc) && AllShaped(r.value.sc.heat, maxHeat)
    decreases |path| - i
  {
    if i == |path| then Success(st)
    else if path[i] in st.sc.heat then Walk(g, maxHeat, path, i + 1, st)
    else match Visit(g, maxHeat, path, i, st)
      case Failure(e) => Failure(e)
      case Success(Stop(st')) => Success(st')
      case Success(Continue(st')) => Walk(g, maxHeat, path, i + 1, st')
  }

  /** The scratch entry of node `n` is what the engine computes for it from the entries it depends on. */
  ghost predicate Justified(g: Cfg, maxHeat: int, heat: map<int, NodeHeat>, n: int)
    requires n in heat
  {
    && n in g.preds
    && |g.preds[n]| > 0
    && if n in g.merges then
         && (forall j :: 0 <= j < |g.preds[n]| ==> g.preds[n][j] in heat && |heat[g.preds[n][j]].final| == NumRegisters)
         && Compute(g, n, maxHeat, Mediate(FinalsOf(g.preds[n], heat))) == Success(heat[n])
       else
         && g.preds[n][0] in heat
         && Compute(g, n, maxHeat, heat[g.preds[n][0]].final) == Success(heat[n])
  }

  /** The scratch map is well laid out, and node 0 holds the cold seed. */
  ghost predicate Layout(sc: Scratch, maxHeat: int)
  {
    Ordered(sc) && AllShaped(sc.heat, maxHeat) && 0 in sc.heat && sc.heat[0] == Seed
  }

  /** A merge point is unresolved while it has parked stumps, and each stump starts at its merge point. */
  ghost predicate Parked(g: Cfg, st: State)
  {
    && st.waiting.Keys <= g.merges
    && (forall n :: n in st.waiting ==> n !in st.sc.heat)
    && (forall n :: n in st.waiting ==> forall s :: s in st.waiting[n] ==> |s| > 0 && s[0] == n)
  }

  /** Every resolved node other than 0 satisfies its dataflow equation. */
  ghost predicate Equations(g: Cfg, maxHeat: int, heat: map<int, NodeHeat>)
  {
    forall n {:trigger Justified(g, maxHeat, heat, n)} :: n in heat && n != 0 ==> Justified(g, maxHeat, heat, n)
  }

  /** The worklist invariant. */
  ghost predicate Inv(g: Cfg, maxHeat: int, st: State)
  {
    Layout(st.sc, maxHeat) && Parked(g, st) && Equations(g, maxHeat, st.sc.heat)
  }

  lemma GrowsAt(heat: map<int, NodeHeat>, heat': map<int, NodeHeat>, k: int)
    requires Grows(heat, heat') && k in heat
    ensures k in heat' && heat'[k] == heat[k]
  {
  }

  /** A resolved node's equation keeps holding while the scratch map only grows. */
  lemma JustifiedStable(g: Cfg, maxHeat: int, heat: map<int, NodeHeat>, heat': map<int, NodeHeat>, n: int)
    requires n in heat && Justified(g, maxHeat, heat, n) && Grows(heat, heat')
    ensures n in heat' && Justified(g, maxHeat, heat', n)
  {
    var ps := g.preds[n];
    GrowsAt(heat, heat', n);
    if n in g.merges {
      forall j | 0 <= j < |ps|
        ensures ps[j] in heat' && heat'[ps[j]] == heat[ps[j]]
      {
        GrowsAt(heat, heat', ps[j]);
      }
      assert FinalsOf(ps, heat') == FinalsOf(ps, heat);
    } else {
      GrowsAt(heat, heat', ps[0]);
    }
  }

  /** Parking stumps at an unresolved merge point keeps the invariant. */
  lemma ParkKeeps(g: Cfg, maxHeat: int, st: State, n: int, stumps: seq<seq<int>>)
    requires Inv(g, maxHeat, st) && n in g.merges && n !in st.sc.heat
    requires forall s :: s in stumps ==> |s| > 0 && s[0] == n
    ensures Inv(g, maxHeat, st.(waiting := st.waiting[n := stumps]))
  {
  }

  /** Resolving an unresolved node with an entry satisfying its equation keeps the invariant. */
  lemma ResolveKeeps(g: Cfg, maxHeat: int, st: State, n: int, h: NodeHeat, stack: seq<seq<int>>)
    requires Inv(g, maxHeat, st) && n !in st.sc.heat && n != 0
    requires n !in g.merges ==> n !in st.waiting
    requires Shaped(h, maxHeat)
    requires Justified(g, maxHeat, st.sc.heat[n := h], n)
    ensures Inv(g, maxHeat, State(stack, st.waiting - {n}, Assign(st.sc, n, h)))
    ensures Grows(st.sc.heat, st.sc.heat[n := h])
  {
    var heat' := st.sc.heat[n := h];
    assert Grows(st.sc.heat, heat');
    forall m | m in heat' && m != 0
      ensures Justified(g, maxHeat, heat', m)
    {
      if m != n {
        JustifiedStable(g, maxHeat, st.sc.heat, heat', m);
      }
    }
  }

  /** Mediating at a merge point whose predecessors are all resolved keeps the invariant. */
  lemma MergeResolveKeeps(g: Cfg, maxHeat: int, st: State, n: int)
    requires Inv(g, maxHeat, st) && n in g.merges && n in st.waiting && n in g.preds && |g.preds[n]| > 0
    requires forall j :: 0 <= j < |g.preds[n]| ==> g.preds[n][j] in st.sc.heat
    requires Mediable(FinalsOf(g.preds[n], st.sc.heat))
    requires Compute(g, n, maxHeat, Mediate(FinalsOf(g.preds[n], st.sc.heat))).Success?
    ensures var h := Compute(g, n, maxHeat, Mediate(FinalsOf(g.preds[n], st.sc.heat))).value;
      && Inv(g, maxHeat, State(st.stack + st.waiting[n], st.waiting - {n}, Assign(st.sc, n, h)))
      && Grows(st.sc.heat, st.sc.heat[n := h])
  {
    var ps := g.preds[n];
    var vs := FinalsOf(ps, st.sc.heat);
    MediatedShaped(ps, st.sc.heat, maxHeat);
    var h := Compute(g, n, maxHeat, Mediate(vs)).value;
    var heat' := st.sc.heat[n := h];
    forall j | 0 <= j < |ps|
      ensures ps[j] in heat' && heat'[ps[j]] == st.sc.heat[ps[j]] && |heat'[ps[j]].final| == NumRegisters
    {
      ShapedAt(st.sc.heat, maxHeat, ps[j]);
    }
    assert FinalsOf(ps, heat') == vs;
    ResolveKeeps(g, maxHeat, st, n, h, st.stack + st.waiting[n]);
  }

  /** Seeding a non-merge node from its resolved first predecessor keeps the invariant. */
  lemma PlainResolveKeeps(g: Cfg, maxHeat: int, st: State, n: int)
    requires Inv(g, maxHeat, st) && n !in g.merges && n !in st.sc.heat && n in g.preds && |g.preds[n]| > 0
    requires g.preds[n][0] in st.sc.heat
    requires Compute(g, n, maxHeat, st.sc.heat[g.preds[n][0]].final).Success?
    ensures var h := Compute(g, n, maxHeat, st.sc.heat[g.preds[n][0]].final).value;
      && Inv(g, maxHeat, State(st.stack, st.waiting, Assign(st.sc, n, h)))
      && Grows(st.sc.heat, st.sc.heat[n := h])
  {
    ShapedAt(st.sc.heat, maxHeat, g.preds[n][0]);
    var h := Compute(g, n, maxHeat, st.sc.heat[g.preds[n][0]].final).value;
    ResolveKeeps(g, maxHeat, st, n, h, st.stack);
    assert st.waiting - {n} == st.waiting;
  }

  /** The number of graph nodes the scratch map does not yet hold. */
  function Unresolved(g: Cfg, heat: map<int, NodeHeat>): nat
  {
    |g.nodes.Keys - heat.Keys|
  }

  /** A scratch map that only grows never has more unresolved nodes. */
  lemma UnresolvedMonotone(g: Cfg, heat: map<int, NodeHeat>, heat': map<int, NodeHeat>)
    requires Grows(heat, heat')
    ensures Unresolved(g, heat') <= Unresolved(g, heat)
  {
    forall k | k in heat ensures k in heat' {
      GrowsAt(heat, heat', k);
    }
    var kept, gained := g.nodes.Keys - heat'.Keys, (g.nodes.Keys * heat'.Keys) - heat.Keys;
    assert g.nodes.Keys - heat.Keys == kept + gained;
    assert kept !! gained;
  }

  /** Adding a node of the graph to the scratch map shrinks the unresolved count. */
  lemma UnresolvedShrinks(g: Cfg, heat: map<int, NodeHeat>, n: int, h: NodeHeat)
    requires n in g.nodes && n !in heat
    ensures Unresolved(g, heat[n := h]) < Unresolved(g, heat)
  {
    assert g.nodes.Keys - heat.Keys == (g.nodes.Keys - heat[n := h].Keys) + {n};
  }

  /** Whether a visit kept the invariant, kept every resolved entry, and left the stack alone unless it resolved a node. */
  ghost predicate Advances(g: Cfg, maxHeat: int, st: State, st': State)
  {
    && Inv(g, maxHeat, st')
    && Grows(st.sc.heat, st'.sc.heat)
    && (st'.stack == st.stack || Unresolved(g, st'.sc.heat) < Unresolved(g, st.sc.heat))
  }

  /** Parking stumps at an unresolved merge point is an advance that leaves the stack alone. */
  lemma ParkAdvances(g: Cfg, maxHeat: int, st: State, n: int, stumps: seq<seq<int>>)
    requires Inv(g, maxHeat, st) && n in g.merges && n !in st.sc.heat
    requires forall s :: s in stumps ==> |s| > 0 && s[0] == n
    ensures Advances(g, maxHeat, st, st.(waiting := st.waiting[n := stumps]))
  {
    ParkKeeps(g, maxHeat, st, n, stumps);
  }

  /** Resolving a merge point from its mediated predecessors is an advance that shrinks the unresolved set. */
  lemma MergeResolveAdvances(g: Cfg, maxHeat: int, st: State, n: int)
    requires Inv(g, maxHeat, st) && n in g.merges && n in st.waiting && n in g.preds && |g.preds[n]| > 0
    requires n in g.nodes && n !in st.sc.heat
    requires forall j :: 0 <= j < |g.preds[n]| ==> g.preds[n][j] in st.sc.heat
    requires Mediable(FinalsOf(g.preds[n], st.sc.heat))
    requires Compute(g, n, maxHeat, Mediate(FinalsOf(g.preds[n], st.sc.heat))).Success?
    ensures var h := Compute(g, n, maxHeat, Mediate(FinalsOf(g.preds[n], st.sc.heat))).value;
      Advances(g, maxHeat, st, State(st.stack + st.waiting[n], st.waiting - {n}, Assign(st.sc, n, h)))
  {
    var h := Compute(g, n, maxHeat, Mediate(FinalsOf(g.preds[n], st.sc.heat))).value;
    MergeResolveKeeps(g, maxHeat, st, n);
    UnresolvedShrinks(g, st.sc.heat, n, h);
    assert Assign(st.sc, n, h).heat == st.sc.heat[n := h];
  }

  lemma MergeArrivalPreserves(g: Cfg, maxHeat: int, path: seq<int>, i: nat, st: State)
    requires i < |path| && path[i] !in st.sc.heat && path[i] in g.merges && Inv(g, maxHeat, st)
    ensures var r := MergeArrival(g, maxHeat, path, i, st);
      r.Success? ==> Advances(g, maxHeat, st, r.value.state)
  {
    var n := path[i];
    if n !in st.waiting {
      ParkAdvances(g, maxHeat, st, n, [path[i..]]);
    } else if n in g.preds && n in g.nodes && |g.preds[n]| > 0 && forall p :: p in g.preds[n] ==> p in st.sc.heat {
      MediatedShaped(g.preds[n], st.sc.heat, maxHeat);
      if Compute(g, n, maxHeat, Mediate(FinalsOf(g.preds[n], st.sc.heat))).Success? {
        MergeResolveAdvances(g, maxHeat, st, n);
      }
    } else if n in g.preds && !(forall p :: p in g.preds[n] ==> p in st.sc.heat) {
      ParkAdvances(g, maxHeat, st, n, st.waiting[n] + [path[i..]]);
    }
  }

  lemma PlainArrivalPreserves(g: Cfg, maxHeat: int, path: seq<int>, i: nat, st: State)
    requires i < |path| && path[i] !in st.sc.heat && path[i] !in g.merges && Inv(g, maxHeat, st)
    ensures var r := PlainArrival(g, maxHeat, path, i, st);
      r.Success? ==> Advances(g, maxHeat, st, r.value.state)
  {
    var n := path[i];
    if n in g.preds && |g.preds[n]| > 0 && g.preds[n][0] in st.sc.heat {
      var c := Compute(g, n, maxHeat, st.sc.heat[g.preds[n][0]].final);
      if c.Success? {
        PlainResolveKeeps(g, maxHeat, st, n);
        UnresolvedShrinks(g, st.sc.heat, n, c.value);
      }
    }
  }

  /** One visit keeps the invariant, never changes a resolved entry, and leaves the stack alone unless it resolves a node. */
  lemma VisitPreserves(g: Cfg, maxHeat: int, path: seq<int>, i: nat, st: State)
    requires i < |path| && path[i] !in st.sc.heat && Inv(g, maxHeat, st)
    ensures var r := Visit(g, maxHeat, path, i, st);
      r.Success? ==> Advances(g, maxHeat, st, r.value.state)
  {
    if path[i] in g.merges {
      MergeArrivalPreserves(g, maxHeat, path, i, st);
    } else {
      PlainArrivalPreserves(g, maxHeat, path, i, st);
    }
  }

  /** Advancing without ever adding unresolved nodes. */
  ghost predicate Progress(g: Cfg, maxHeat: int, st: State, st': State)
  {
    Advances(g, maxHeat, st, st') && Unresolved(g, st'.sc.heat) <= Unresolved(g, st.sc.heat)
  }

  lemma ProgressTrans(g: Cfg, maxHeat: int, st: State, st1: State, st2: State)
    requires Progress(g, maxHeat, st, st1) && Progress(g, maxHeat, st1, st2)
    ensures Progress(g, maxHeat, st, st2)
  {
    GrowsTrans(st.sc.heat, st1.sc.heat, st2.sc.heat);
  }

  /** A walk keeps the invariant, never changes a resolved entry, and leaves the stack alone unless it resolves a node. */
  lemma {:induction false} WalkPreserves(g: Cfg, maxHeat: int, path: seq<int>, i: nat, st: State)
    requires i <= |path| && Inv(g, maxHeat, st)
    ensures var r := Walk(g, maxHeat, path, i, st);
      r.Success? ==> Progress(g, maxHeat, st, r.value)
    decreases |path| - i
  {
    if i == |path| {
      assert Grows(st.sc.heat, st.sc.heat);
    } else if path[i] in st.sc.heat {
      WalkPreserves(g, maxHeat, path, i + 1, st);
    } else {
      VisitPreserves(g, maxHeat, path, i, st);
      var v := Visit(g, maxHeat, path, i, st);
      if v.Success? {
        UnresolvedMonotone(g, st.sc.heat, v.value.state.sc.heat);
        assert Progress(g, maxHeat, st, v.value.state);
        if v.value.Continue? {
          WalkPreserves(g, maxHeat, path, i + 1, v.value.state);
          var w := Walk(g, maxHeat, path, i + 1, v.value.state);
          if w.Success? {
            ProgressTrans(g, maxHeat, st, v.value.state, w.value);
          }
        }
      }
    }
  }

  lemma GrowsTrans(a: map<int, NodeHeat>, b: map<int, NodeHeat>, c: map<int, NodeHeat>)
    requires Grows(a, b) && Grows(b, c)
    ensures Grows(a, c)
  {
  }

  /** The state the first loop starts from: every path on the stack, node 0 seeded. */
  function Start(g: Cfg, maxHeat: int): (st: State)
    ensures Inv(g, maxHeat, st) && st.stack == g.paths && st.sc.heat.Keys == {0}
  {
    State(g.paths, map[], Scratch(map[0 := Seed], [0]))
  }

  /** The last path on the stack, which the next round pops. */
  function Top(st: State): seq<int>
    requires |st.stack| > 0
  {
    st.stack[|st.stack| - 1]
  }

  /** The state once the last path is popped. */
  function Rest(st: State): State
    requires |st.stack| > 0
  {
    st.(stack := st.stack[..|st.stack| - 1])
  }

  /** The outer loop's measure shrinks: fewer unresolved nodes, or as many and a shorter stack. */
  predicate Smaller(g: Cfg, st': State, st: State)
  {
    || Unresolved(g, st'.sc.heat) < Unresolved(g, st.sc.heat)
    || (Unresolved(g, st'.sc.heat) == Unresolved(g, st.sc.heat) && |st'.stack| < |st.stack|)
  }

  /** A round of the outer loop keeps the invariant and shrinks the measure. */
  lemma RoundProgress(g: Cfg, maxHeat: int, st: State)
    requires |st.stack| > 0 && Inv(g, maxHeat, st)
    ensures var r := Walk(g, maxHeat, Top(st), 0, Rest(st));
      r.Success? ==> Inv(g, maxHeat, r.value) && Grows(st.sc.heat, r.value.sc.heat) && Smaller(g, r.value, st)
  {
    WalkPreserves(g, maxHeat, Top(st), 0, Rest(st));
  }

  /** The first loop of `register_heatmap` as a function: pop paths from `st` until the stack is empty. */
  function ResolveFrom(g: Cfg, maxHeat: int, st: State): (r: Result<State, EngineError>)
    requires Inv(g, maxHeat, st)
    ensures r.Success? ==> r.value.stack == [] && Inv(g, maxHeat, r.value) && Grows(st.sc.heat, r.value.sc.heat)
    decreases Unresolved(g, st.sc.heat), |st.stack|
  {
    if |st.stack| == 0 then Success(st)
    else
      RoundProgress(g, maxHeat, st);
      match Walk(g, maxHeat, Top(st), 0, Rest(st))
      case Failure(e) => Failure(e)
      case Success(next) =>
        var r := ResolveFrom(g, maxHeat, next);
        if r.Success? then GrowsTrans(st.sc.heat, next.sc.heat, r.value.sc.heat); r else r
  }

  /** The first loop of `register_heatmap`: pop paths until the stack is empty. */
  method ResolvePaths(g: Cfg, maxHeat: int) returns (r: Result<State, EngineError>)
    ensures r.Success? ==> r.value.stack == [] && Inv(g, maxHeat, r.value)
    ensures r == ResolveFrom(g, maxHeat, Start(g, maxHeat))
  {
    var st := Start(g, maxHeat);
    while |st.stack| > 0
      invariant Inv(g, maxHeat, st)
      invariant ResolveFrom(g, maxHeat, st) == ResolveFrom(g, maxHeat, Start(g, maxHeat))
      decreases Unresolved(g, st.sc.heat), |st.stack|
    {
      RoundProgress(g, maxHeat, st);
      var next := Walk(g, maxHeat, Top(st), 0, Rest(st));
      if next.Failure? {
        return Failure(next.error);
      }
      st := next.value;
    }
    return Success(st);
  }
}
