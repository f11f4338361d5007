/**
 `close_cycles`: extending the scratch map over the loop-back nodes. The
 pending nodes form a FIFO queue; the head is seeded from the outgoing vector
 of its first predecessor, in the full graph, that the scratch map already
 holds, and goes back to the end of the queue when there is none. The source
 retries for ever when no pending node can ever be seeded; the model counts
 its rounds with `fuel` and reports `CyclesNotClosed` when the fuel runs out.
 */
module Cycles {
  import opened Wrappers
  import opened Heat
  import opened Engine

  /** The position of the first node of `ps` that the scratch map holds, if any. */
  function FirstMapped(ps: seq<int>, heat: map<int, NodeHeat>): (r: Option<nat>)
    ensures r.Some? ==> r.value < |ps| && ps[r.value] in heat && forall j :: 0 <= j < r.value ==> ps[j] !in heat
    ensures r.None? <==> forall j :: 0 <= j < |ps| ==> ps[j] !in heat
  {
    if |ps| == 0 then None
    else if ps[0] in heat then Some(0)
    else match FirstMapped(ps[1..], heat)
      case None => None
      case Some(k) => Some(k + 1)
  }

  /** The pending loop-back nodes and the scratch map. */
  datatype Closing = Closing(queue: seq<int>, sc: Scratch)

  /** One round: pop the head of the queue, then seed it or requeue it. */
  function CloseStep(g: Cfg, maxHeat: int, c: Closing): (r: Result<Closing, EngineError>)
    requires |c.queue| > 0 && Ordered(c.sc) && AllShaped(c.sc.heat, maxHeat)
    ensures r.Success? ==> Ordered(r.value.sc) && AllShaped(r.value.sc.heat, maxHeat)
  {
    var n, rest := c.queue[0], c.queue[1..];
    if n !in g.allPreds then Failure(MissingNode(n))
    else match FirstMapped(g.allPreds[n], c.sc.heat)
      case None => Success(Closing(rest + [n], c.sc))
      case Some(j) =>
        ShapedAt(c.sc.heat, maxHeat, g.allPreds[n][j]);
        var h :- Compute(g, n, maxHeat, c.sc.heat[g.allPreds[n][j]].final);
        Success(Closing(rest, Assign(c.sc, n, h)))
  }

  /**
   A round pops the head of the queue: a node without a predecessor held by
   the scratch map goes back to the end of the queue, and one with such a
   predecessor is computed from the first one's outgoing vector, with no
   mediation, and leaves the queue.
   */
  lemma CloseProtocol(g: Cfg, maxHeat: int, c: Closing)
    requires |c.queue| > 0 && Ordered(c.sc) && AllShaped(c.sc.heat, maxHeat)
    ensures var n, r := c.queue[0], CloseStep(g, maxHeat, c);
      && (n !in g.allPreds ==> r == Failure(MissingNode(n)))
      && (n in g.allPreds && FirstMapped(g.allPreds[n], c.sc.heat).None? ==>
            r == Success(Closing(c.queue[1..] + [n], c.sc)))
      && (r.Success? && n in g.allPreds && FirstMapped(g.allPreds[n], c.sc.heat).Some? ==>
            var p := g.allPreds[n][FirstMapped(g.allPreds[n], c.sc.heat).value];
            && r.value.queue == c.queue[1..]
            && p in c.sc.heat
            && Compute(g, n, maxHeat, c.sc.heat[p].final) == Success(r.value.sc.heat[n])
            && r.value.sc.heat == c.sc.heat[n := r.value.sc.heat[n]])
  {
  }

  /** At most `fuel` rounds until the queue is empty. */
  function Close(g: Cfg, maxHeat: int, c: Closing, fuel: nat): (r: Result<Scratch, EngineError>)
    requires Ordered(c.sc) && AllShaped(c.sc.heat, maxHeat)
    ensures r.Success? ==> Ordered(r.value) && AllShaped(r.value.heat, maxHeat)
    decreases fuel
  {
    if |c.queue| == 0 then Success(c.sc)
    else if fuel == 0 then Failure(CyclesNotClosed(c.queue))
    else
      var c' :- CloseStep(g, maxHeat, c);
      Close(g, maxHeat, c', fuel - 1)
  }

  /** A successful round hands the rest of the work to the next round. */
  lemma CloseUnroll(g: Cfg, maxHeat: int, c: Closing, fuel: nat)
    requires |c.queue| > 0 && fuel > 0 && Ordered(c.sc) && AllShaped(c.sc.heat, maxHeat)
    requires CloseStep(g, maxHeat, c).Success?
    ensures Close(g, maxHeat, c, fuel) == Close(g, maxHeat, CloseStep(g, maxHeat, c).value, fuel - 1)
  {
  }

  /** More fuel never changes a successful closing: the fuel only cuts off a queue that never empties. */
  lemma {:induction false} CloseFuelMonotone(g: Cfg, maxHeat: int, c: Closing, fuel: nat, fuel': nat)
    requires Ordered(c.sc) && AllShaped(c.sc.heat, maxHeat)
    requires Close(g, maxHeat, c, fuel).Success? && fuel <= fuel'
    ensures Close(g, maxHeat, c, fuel') == Close(g, maxHeat, c, fuel)
    decreases fuel
  {
    if |c.queue| > 0 {
      CloseUnroll(g, maxHeat, c, fuel);
      CloseUnroll(g, maxHeat, c, fuel');
      CloseFuelMonotone(g, maxHeat, CloseStep(g, maxHeat, c).value, fuel - 1, fuel' - 1);
    }
  }

  /** The nodes the scratch map holds or will hold once the queue is empty. */
  function Covered(c: Closing): set<int>
  {
    c.sc.heat.Keys + set k | k in c.queue
  }

  /** A round never changes the covered set, nor an entry whose node is not the popped one. */
  lemma CloseStepFrame(g: Cfg, maxHeat: int, c: Closing)
    requires |c.queue| > 0 && Ordered(c.sc) && AllShaped(c.sc.heat, maxHeat)
    ensures var r := CloseStep(g, maxHeat, c);
      r.Success? ==>
        && Covered(r.value) == Covered(c)
        && (r.value.queue == c.queue[1..] || r.value.queue == c.queue[1..] + [c.queue[0]])
        && forall k :: k in c.sc.heat && k != c.queue[0] ==> k in r.value.sc.heat && r.value.sc.heat[k] == c.sc.heat[k]
  {
    var r := CloseStep(g, maxHeat, c);
    if r.Success? {
      assert c.queue == [c.queue[0]] + c.queue[1..];
      assert forall k :: k in c.queue <==> k == c.queue[0] || k in c.queue[1..];
    }
  }

  /** On success the scratch map holds exactly the nodes it held plus the queued ones. */
  lemma {:induction false} CloseDomain(g: Cfg, maxHeat: int, c: Closing, fuel: nat)
    requires Ordered(c.sc) && AllShaped(c.sc.heat, maxHeat)
    requires Close(g, maxHeat, c, fuel).Success?
    ensures Close(g, maxHeat, c, fuel).value.heat.Keys == Covered(c)
    decreases fuel
  {
    if |c.queue| > 0 {
      CloseStepFrame(g, maxHeat, c);
      CloseUnroll(g, maxHeat, c, fuel);
      CloseDomain(g, maxHeat, CloseStep(g, maxHeat, c).value, fuel - 1);
    }
  }

  /** On success an entry whose node was never queued is left as it was. */
  lemma {:induction false} CloseKeepsOthers(g: Cfg, maxHeat: int, c: Closing, fuel: nat, k: int)
    requires Ordered(c.sc) && AllShaped(c.sc.heat, maxHeat)
    requires Close(g, maxHeat, c, fuel).Success?
    requires k in c.sc.heat && k !in c.queue
    ensures k in Close(g, maxHeat, c, fuel).value.heat && Close(g, maxHeat, c, fuel).value.heat[k] == c.sc.heat[k]
    decreases fuel
  {
    if |c.queue| > 0 {
      CloseStepFrame(g, maxHeat, c);
      CloseUnroll(g, maxHeat, c, fuel);
      var c' := CloseStep(g, maxHeat, c).value;
      assert k !in c'.queue;
      CloseKeepsOthers(g, maxHeat, c', fuel - 1, k);
    }
  }

  /** Node `n` holds the heat computed from the outgoing vector of one of its predecessors in the full graph. */
  ghost predicate SeededFrom(g: Cfg, maxHeat: int, heat: map<int, NodeHeat>, n: int)
  {
    && n in heat
    && n in g.allPreds
    && (exists j :: 0 <= j < |g.allPreds[n]| && g.allPreds[n][j] in heat
         && Compute(g, n, maxHeat, heat[g.allPreds[n][j]].final) == Success(heat[n]))
  }

  /** Every node of `queue` is seeded from one of its predecessors. */
  ghost predicate AllSeeded(g: Cfg, maxHeat: int, heat: map<int, NodeHeat>, queue: seq<int>)
  {
    forall i :: 0 <= i < |queue| ==> SeededFrom(g, maxHeat, heat, queue[i])
  }

  /** No queued node is held yet, and none is queued twice. */
  ghost predicate Fresh(c: Closing)
  {
    && (forall i :: 0 <= i < |c.queue| ==> c.queue[i] !in c.sc.heat)
    && Distinct(c.queue)
  }

  lemma FreshStep(g: Cfg, maxHeat: int, c: Closing)
    requires |c.queue| > 0 && Ordered(c.sc) && AllShaped(c.sc.heat, maxHeat) && Fresh(c)
    ensures var r := CloseStep(g, maxHeat, c);
      r.Success? ==>
        && Fresh(r.value)
        && (c.queue[0] in r.value.sc.heat ==> SeededFrom(g, maxHeat, r.value.sc.heat, c.queue[0]))
  {
    var r := CloseStep(g, maxHeat, c);
    var n, rest := c.queue[0], c.queue[1..];
    if r.Success? {
      assert Distinct(rest);
      assert n !in rest;
      assert forall i :: 0 <= i < |rest| ==> rest[i] !in c.sc.heat && rest[i] != n;
      match FirstMapped(g.allPreds[n], c.sc.heat)
      case None =>
        var q := rest + [n];
        forall i, j | 0 <= i < j < |q| ensures q[i] != q[j] {
          if j == |rest| {
            assert q[i] == rest[i];
          } else {
            assert q[i] == rest[i] && q[j] == rest[j];
          }
        }
      case Some(j) =>
        var heat' := r.value.sc.heat;
        assert g.allPreds[n][j] in c.sc.heat;
        assert heat'[g.allPreds[n][j]] == c.sc.heat[g.allPreds[n][j]];
    }
  }

  /** What one round leaves behind for a node of the queue, once the later rounds succeed. */
  lemma SeedsAfterStep(g: Cfg, maxHeat: int, c: Closing, c': Closing, fuel: nat, i: nat)
    requires |c.queue| > 0 && Ordered(c.sc) && AllShaped(c.sc.heat, maxHeat) && Fresh(c)
    requires CloseStep(g, maxHeat, c) == Success(c') && Ordered(c'.sc) && AllShaped(c'.sc.heat, maxHeat) && Fresh(c')
    requires c.queue[0] in c'.sc.heat ==> SeededFrom(g, maxHeat, c'.sc.heat, c.queue[0])
    requires i < |c.queue| && Close(g, maxHeat, c', fuel).Success?
    requires forall i :: 0 <= i < |c'.queue| ==> SeededFrom(g, maxHeat, Close(g, maxHeat, c', fuel).value.heat, c'.queue[i])
    ensures SeededFrom(g, maxHeat, Close(g, maxHeat, c', fuel).value.heat, c.queue[i])
  {
    CloseStepFrame(g, maxHeat, c);
    var n := c.queue[0];
    if c.queue[i] == n && n in c'.sc.heat {
      SeededStable(g, maxHeat, c', fuel, n);
    } else if c.queue[i] == n {
      assert c'.queue == c.queue[1..] + [n];
      assert c'.queue[|c'.queue| - 1] == n;
    } else {
      assert c.queue[i] == c.queue[1..][i - 1];
      assert c.queue[i] in c'.queue;
    }
  }

  /** `SeedsAfterStep` for every node of the queue. */
  lemma AllSeedsAfterStep(g: Cfg, maxHeat: int, c: Closing, c': Closing, fuel: nat)
    requires |c.queue| > 0 && Ordered(c.sc) && AllShaped(c.sc.heat, maxHeat) && Fresh(c)
    requires CloseStep(g, maxHeat, c) == Success(c') && Ordered(c'.sc) && AllShaped(c'.sc.heat, maxHeat) && Fresh(c')
    requires c.queue[0] in c'.sc.heat ==> SeededFrom(g, maxHeat, c'.sc.heat, c.queue[0])
    requires Close(g, maxHeat, c', fuel).Success?
    requires AllSeeded(g, maxHeat, Close(g, maxHeat, c', fuel).value.heat, c'.queue)
    ensures AllSeeded(g, maxHeat, Close(g, maxHeat, c', fuel).value.heat, c.queue)
  {
    forall i | 0 <= i < |c.queue|
      ensures SeededFrom(g, maxHeat, Close(g, maxHeat, c', fuel).value.heat, c.queue[i])
    {
      SeedsAfterStep(g, maxHeat, c, c', fuel, i);
    }
  }

  /**
   When no queued node starts out held and none is queued twice, every queued
   node ends up seeded from a predecessor's final vector in the result.
   */
  lemma {:induction false} CloseSeeds(g: Cfg, maxHeat: int, c: Closing, fuel: nat)
    requires Ordered(c.sc) && AllShaped(c.sc.heat, maxHeat) && Fresh(c)
    requires Close(g, maxHeat, c, fuel).Success?
    ensures AllSeeded(g, maxHeat, Close(g, maxHeat, c, fuel).value.heat, c.queue)
    decreases fuel
  {
    if |c.queue| > 0 {
      var c' := CloseStep(g, maxHeat, c).value;
      FreshStep(g, maxHeat, c);
      CloseUnroll(g, maxHeat, c, fuel);
      CloseSeeds(g, maxHeat, c', fuel - 1);
      AllSeedsAfterStep(g, maxHeat, c, c', fuel - 1);
    }
  }

  /** An entry seeded in an earlier round stays seeded through later rounds. */
  lemma SeededStable(g: Cfg, maxHeat: int, c: Closing, fuel: nat, n: int)
    requires Ordered(c.sc) && AllShaped(c.sc.heat, maxHeat) && Fresh(c)
    requires Close(g, maxHeat, c, fuel).Success?
    requires SeededFrom(g, maxHeat, c.sc.heat, n)
    ensures SeededFrom(g, maxHeat, Close(g, maxHeat, c, fuel).value.heat, n)
  {
    var ps := g.allPreds[n];
    var j :| 0 <= j < |ps| && ps[j] in c.sc.heat && Compute(g, n, maxHeat, c.sc.heat[ps[j]].final) == Success(c.sc.heat[n]);
    assert n !in c.queue && ps[j] !in c.queue by {
      forall i | 0 <= i < |c.queue| ensures c.queue[i] != n && c.queue[i] != ps[j] {
      }
    }
    CloseKeepsOthers(g, maxHeat, c, fuel, n);
    CloseKeepsOthers(g, maxHeat, c, fuel, ps[j]);
  }

  /**
   When no queued node has a predecessor the scratch map holds, the queue only
   rotates: the source spins for ever, and the model fails whatever the fuel.
   */
  lemma {:induction false} CloseStuck(g: Cfg, maxHeat: int, c: Closing, fuel: nat)
    requires Ordered(c.sc) && AllShaped(c.sc.heat, maxHeat) && |c.queue| > 0
    requires forall i :: 0 <= i < |c.queue| ==> c.queue[i] in g.allPreds && FirstMapped(g.allPreds[c.queue[i]], c.sc.heat).None?
    ensures Close(g, maxHeat, c, fuel).Failure? && Close(g, maxHeat, c, fuel).error.CyclesNotClosed?
    decreases fuel
  {
    if fuel > 0 {
      var q := c.queue[1..] + [c.queue[0]];
      assert CloseStep(g, maxHeat, c) == Success(Closing(q, c.sc));
      forall i | 0 <= i < |q|
        ensures q[i] in g.allPreds && FirstMapped(g.allPreds[q[i]], c.sc.heat).None?
      {
        if i < |q| - 1 {
          assert q[i] == c.queue[i + 1];
        }
      }
      CloseStuck(g, maxHeat, Closing(q, c.sc), fuel - 1);
    }
  }

  /** `close_cycles(cfg, heatmap, max_heat)`, the loop of the source with a bound on its rounds. */
  method CloseCycles(g: Cfg, maxHeat: int, sc: Scratch, fuel: nat) returns (r: Result<Scratch, EngineError>)
    requires Ordered(sc) && AllShaped(sc.heat, maxHeat)
    ensures r == Close(g, maxHeat, Closing(g.loopBack, sc), fuel)
    ensures r.Success? ==> r.value.heat.Keys == sc.heat.Keys + set k | k in g.loopBack
  {
    if Close(g, maxHeat, Closing(g.loopBack, sc), fuel).Success? {
      CloseDomain(g, maxHeat, Closing(g.loopBack, sc), fuel);
    }
    var c := Closing(g.loopBack, sc);
    var left := fuel;
    while |c.queue| > 0
      invariant Ordered(c.sc) && AllShaped(c.sc.heat, maxHeat)
      invariant Close(g, maxHeat, c, left) == Close(g, maxHeat, Closing(g.loopBack, sc), fuel)
      decreases left
    {
      if left == 0 {
        return Failure(CyclesNotClosed(c.queue));
      }
      var n := c.queue[0];
      var queue := c.queue[1..];
      if n !in g.allPreds {
        return Failure(MissingNode(n));
      }
      var first := FirstMapped(g.allPreds[n], c.sc.heat);
      if first.None? {
        c := Closing(queue + [n], c.sc);
      } else {
        var p := g.allPreds[n][first.value];
        ShapedAt(c.sc.heat, maxHeat, p);
        var h := Compute(g, n, maxHeat, c.sc.heat[p].final);
        if h.Failure? {
          return Failure(h.error);
        }
        c := Closing(queue, Assign(c.sc, n, h.value));
      }
      left := left - 1;
    }
    return Success(c.sc);
  }
}
