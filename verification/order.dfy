/**
 The order in which `all_simple_paths` lists the paths does not change the
 result. Every node the first loop resolves satisfies its dataflow equation,
 and on a well-formed graph each equation reads only the pseudo-entry 0 or
 nodes that rank lower, so the equations have a single solution: two
 successful runs over the same paths, listed in any order, end with the same
 scratch map, whichever predecessor of a merge point happens to be resolved
 first. The cycle closing depends only on the entries, not on their insertion
 order, so the same holds after it; and when no two nodes have a snapshot at
 the same line, the final heat map is the same too.
 */
module Order {
  import opened Wrappers
  import opened Heat
  import opened Mediation
  import opened Engine
  import opened Cycles
  import opened Heatmaps
  import opened Coverage

  /**
   A path node other than 0 and off the merge points is entered from its first
   predecessor along some path, or from the pseudo-entry 0. In a graph this
   holds because such a node has one predecessor in the view.
   */
  ghost predicate FirstFed(g: Cfg)
  {
    forall x :: x !in g.merges && x != 0 && OnPath(g, x) && x in g.preds && |g.preds[x]| > 0 ==>
      g.preds[x][0] == 0 || exists q :: 0 <= q < |g.paths| && Edge(g.paths[q], g.preds[x][0], x)
  }

  /** The same paths, in any order. */
  ghost predicate SamePaths(p: seq<seq<int>>, p': seq<seq<int>>)
  {
    forall u :: u in p <==> u in p'
  }

  /** Every predecessor the equation of `n` reads is 0 or ranks below `n`. */
  ghost predicate ReadsBelow(g: Cfg, rank: map<int, nat>, n: int)
  {
    n in g.preds ==> forall j :: 0 <= j < |g.preds[n]| && (n in g.merges || j == 0) ==>
      g.preds[n][j] == 0 || Below(rank, g.preds[n][j], n)
  }

  // ---------------------------------------------------------------------------
  // The equations have one solution

  /**
   Two scratch maps over the same nodes that both satisfy the equations and
   agree on node 0 agree on every node, when each equation reads lower nodes.
   */
  lemma {:induction false} AgreeAt(g: Cfg, maxHeat: int, rank: map<int, nat>, h1: map<int, NodeHeat>, h2: map<int, NodeHeat>, n: int)
    requires Equations(g, maxHeat, h1) && Equations(g, maxHeat, h2)
    requires h1.Keys == h2.Keys && 0 in h1 && h1[0] == h2[0]
    requires forall k :: k in h1 && k != 0 ==> ReadsBelow(g, rank, k)
    requires n in h1
    ensures h1[n] == h2[n]
    decreases if n in rank then rank[n] else 0
  {
    if n != 0 {
      assert Justified(g, maxHeat, h1, n) && Justified(g, maxHeat, h2, n);
      assert ReadsBelow(g, rank, n);
      var ps := g.preds[n];
      if n in g.merges {
        forall j | 0 <= j < |ps| ensures h1[ps[j]] == h2[ps[j]] {
          if ps[j] != 0 {
            AgreeAt(g, maxHeat, rank, h1, h2, ps[j]);
          }
        }
        assert FinalsOf(ps, h1) == FinalsOf(ps, h2);
      } else if ps[0] != 0 {
        AgreeAt(g, maxHeat, rank, h1, h2, ps[0]);
      }
    }
  }

  /** A step along a path climbs in the ranking. */
  lemma EdgeBelow(g: Cfg, rank: map<int, nat>, q: int, p: int, n: int)
    requires Ranked(g, rank) && 0 <= q < |g.paths| && Edge(g.paths[q], p, n)
    ensures Below(rank, p, n)
  {
    var a :| 0 <= a < |g.paths[q]| - 1 && g.paths[q][a] == p && g.paths[q][a + 1] == n;
    assert Climbs(g.paths[q], rank);
  }

  /** On a well-formed graph the equation of a path node reads only 0 and lower nodes. */
  lemma ReadsBelowOnPath(g: Cfg, rank: map<int, nat>, n: int)
    requires Ranked(g, rank) && Fed(g) && FirstFed(g) && OnPath(g, n) && n != 0
    ensures ReadsBelow(g, rank, n)
  {
    if n in g.preds {
      forall j | 0 <= j < |g.preds[n]| && (n in g.merges || j == 0)
        ensures g.preds[n][j] == 0 || Below(rank, g.preds[n][j], n)
      {
        var p := g.preds[n][j];
        if n in g.merges {
          assert p in g.preds[n];
          var q :| 0 <= q < |g.paths| && Edge(g.paths[q], p, n);
          EdgeBelow(g, rank, q, p, n);
        } else if p != 0 {
          var q :| 0 <= q < |g.paths| && Edge(g.paths[q], p, n);
          EdgeBelow(g, rank, q, p, n);
        }
      }
    }
  }

  // ---------------------------------------------------------------------------
  // Listing the same paths in another order

  /** The engine's computation of a node does not look at the paths. */
  lemma ComputeIgnoresPaths(g: Cfg, p: seq<seq<int>>, n: int, maxHeat: int, init: seq<int>)
    ensures Compute(g.(paths := p), n, maxHeat, init) == Compute(g, n, maxHeat, init)
  {
  }

  /** The equations do not look at the paths either. */
  lemma EquationsIgnorePaths(g: Cfg, p: seq<seq<int>>, maxHeat: int, heat: map<int, NodeHeat>)
    requires Equations(g.(paths := p), maxHeat, heat)
    ensures Equations(g, maxHeat, heat)
  {
    forall n | n in heat && n != 0 ensures Justified(g, maxHeat, heat, n) {
      assert Justified(g.(paths := p), maxHeat, heat, n);
      var ps := g.preds[n];
      if n in g.merges {
        ComputeIgnoresPaths(g, p, n, maxHeat, Mediate(FinalsOf(ps, heat)));
      } else {
        ComputeIgnoresPaths(g, p, n, maxHeat, heat[ps[0]].final);
      }
    }
  }

  /** The same paths reach the same nodes. */
  lemma OnPathSame(g: Cfg, p: seq<seq<int>>, x: int)
    requires SamePaths(g.paths, p)
    ensures OnPath(g, x) <==> OnPath(g.(paths := p), x)
  {
    var g' := g.(paths := p);
    if OnPath(g, x) {
      var q, a :| 0 <= q < |g.paths| && 0 <= a < |g.paths[q]| && g.paths[q][a] == x;
      assert g.paths[q] in p;
      var q' :| 0 <= q' < |p| && p[q'] == g.paths[q];
      assert g'.paths[q'][a] == x;
    }
    if OnPath(g', x) {
      var q', a :| 0 <= q' < |p| && 0 <= a < |p[q']| && p[q'][a] == x;
      assert p[q'] in g.paths;
      var q :| 0 <= q < |g.paths| && g.paths[q] == p[q'];
      assert g.paths[q][a] == x;
    }
  }

  /** The same paths make the same steps. */
  lemma EdgeSame(g: Cfg, p: seq<seq<int>>, a: int, b: int)
    requires SamePaths(g.paths, p)
    ensures (exists q :: 0 <= q < |g.paths| && Edge(g.paths[q], a, b)) <==> (exists q :: 0 <= q < |p| && Edge(p[q], a, b))
  {
    if exists q :: 0 <= q < |g.paths| && Edge(g.paths[q], a, b) {
      var q :| 0 <= q < |g.paths| && Edge(g.paths[q], a, b);
      assert g.paths[q] in p;
      var q' :| 0 <= q' < |p| && p[q'] == g.paths[q];
      assert Edge(p[q'], a, b);
    }
    if exists q :: 0 <= q < |p| && Edge(p[q], a, b) {
      var q' :| 0 <= q' < |p| && Edge(p[q'], a, b);
      assert p[q'] in g.paths;
      var q :| 0 <= q < |g.paths| && g.paths[q] == p[q'];
      assert Edge(g.paths[q], a, b);
    }
  }

  /** Listing the same paths in another order keeps the graph well formed. */
  lemma WellFormedSame(g: Cfg, p: seq<seq<int>>)
    requires WellFormed(g) && SamePaths(g.paths, p)
    ensures WellFormed(g.(paths := p))
  {
    var g' := g.(paths := p);
    var rank :| Ranked(g, rank);
    forall q' | 0 <= q' < |p| ensures Climbs(p[q'], rank) {
      assert p[q'] in g.paths;
      var q :| 0 <= q < |g.paths| && g.paths[q] == p[q'];
    }
    assert Ranked(g', rank);
    forall x, u | x in g'.merges && OnPath(g', x) && x in g'.preds && u in g'.preds[x]
      ensures exists q :: 0 <= q < |g'.paths| && Edge(g'.paths[q], u, x)
    {
      OnPathSame(g, p, x);
      EdgeSame(g, p, u, x);
    }
    forall x | x in g'.merges && OnPath(g', x)
      ensures x in g'.preds && exists a, b :: 0 <= a < |g'.preds[x]| && 0 <= b < |g'.preds[x]| && g'.preds[x][a] != g'.preds[x][b]
    {
      OnPathSame(g, p, x);
    }
    forall k | 0 <= k < |g'.loopBack| ensures !OnPath(g', g'.loopBack[k]) {
      OnPathSame(g, p, g.loopBack[k]);
    }
  }

  /**
   On a well-formed graph, two successful first loops over the same paths,
   listed in any order, end with the same scratch map.
   */
  lemma ResolveOrderFree(g: Cfg, p: seq<seq<int>>, maxHeat: int)
    requires WellFormed(g) && FirstFed(g) && SamePaths(g.paths, p)
    ensures var r1, r2 := ResolveFrom(g, maxHeat, Start(g, maxHeat)), ResolveFrom(g.(paths := p), maxHeat, Start(g.(paths := p), maxHeat));
      r1.Success? && r2.Success? ==> r1.value.sc.heat == r2.value.sc.heat
  {
    var g' := g.(paths := p);
    WellFormedSame(g, p);
    PathsResolved(g, maxHeat);
    PathsResolved(g', maxHeat);
    var r1, r2 := ResolveFrom(g, maxHeat, Start(g, maxHeat)), ResolveFrom(g', maxHeat, Start(g', maxHeat));
    if r1.Success? && r2.Success? {
      var h1, h2 := r1.value.sc.heat, r2.value.sc.heat;
      forall k ensures k in h1 <==> k in h2 {
        OnPathSame(g, p, k);
      }
      EquationsIgnorePaths(g, p, maxHeat, h2);
      var rank :| Ranked(g, rank);
      forall k | k in h1 && k != 0 ensures ReadsBelow(g, rank, k) {
        ReadsBelowOnPath(g, rank, k);
      }
      forall n | n in h1 ensures h1[n] == h2[n] {
        AgreeAt(g, maxHeat, rank, h1, h2, n);
      }
    }
  }

  /** The cycle closing reads the entries of the scratch map and not their insertion order. */
  lemma {:induction false} CloseOrderFree(g: Cfg, p: seq<seq<int>>, maxHeat: int, c1: Closing, c2: Closing, fuel: nat)
    requires Ordered(c1.sc) && AllShaped(c1.sc.heat, maxHeat) && Ordered(c2.sc) && AllShaped(c2.sc.heat, maxHeat)
    requires c1.queue == c2.queue && c1.sc.heat == c2.sc.heat
    ensures var r1, r2 := Close(g, maxHeat, c1, fuel), Close(g.(paths := p), maxHeat, c2, fuel);
      && (r1.Success? <==> r2.Success?)
      && (r1.Success? ==> r1.value.heat == r2.value.heat)
    decreases fuel
  {
    if |c1.queue| > 0 && fuel > 0 {
      var n := c1.queue[0];
      if n in g.allPreds && FirstMapped(g.allPreds[n], c1.sc.heat).Some? {
        var j := FirstMapped(g.allPreds[n], c1.sc.heat).value;
        ComputeIgnoresPaths(g, p, n, maxHeat, c1.sc.heat[g.allPreds[n][j]].final);
      }
      var s1, s2 := CloseStep(g, maxHeat, c1), CloseStep(g.(paths := p), maxHeat, c2);
      if s1.Success? && s2.Success? {
        CloseOrderFree(g, p, maxHeat, s1.value, s2.value, fuel - 1);
      }
    }
  }

  /**
   On a well-formed graph, two successful runs over the same paths, listed in
   any order, end with the same scratch map after the cycle closing.
   */
  lemma ScratchpadOrderFree(g: Cfg, p: seq<seq<int>>, maxHeat: int, fuel: nat)
    requires WellFormed(g) && FirstFed(g) && SamePaths(g.paths, p)
    ensures var s1, s2 := Scratchpad(g, maxHeat, fuel), Scratchpad(g.(paths := p), maxHeat, fuel);
      s1.Success? && s2.Success? ==> s1.value.heat == s2.value.heat
  {
    var g' := g.(paths := p);
    ResolveOrderFree(g, p, maxHeat);
    var r1, r2 := ResolveFrom(g, maxHeat, Start(g, maxHeat)), ResolveFrom(g', maxHeat, Start(g', maxHeat));
    if r1.Success? && r2.Success? {
      var c1, c2 := Closing(g.loopBack, Delete(r1.value.sc, 0)), Closing(g'.loopBack, Delete(r2.value.sc, 0));
      CloseOrderFree(g, p, maxHeat, c1, c2, fuel);
    }
  }

  /** No two nodes of the scratch map have a snapshot at the same line. */
  ghost predicate LinesApart(heat: map<int, NodeHeat>)
  {
    forall a, b, l :: a in heat && b in heat && l in heat[a].snapshots && l in heat[b].snapshots ==> a == b
  }

  /** When no line is shared, a line takes its node's vector, wherever the node sits in the insertion order. */
  lemma FlattenAt(sc: Scratch, n: int, l: int)
    requires Ordered(sc) && LinesApart(sc.heat) && n in sc.heat && l in sc.heat[n].snapshots
    ensures forall i :: 0 <= i < |sc.order| ==> sc.order[i] in sc.heat
    ensures l in Flatten(sc.order, sc.heat) && Flatten(sc.order, sc.heat)[l] == sc.heat[n].snapshots[l]
  {
    OrderedAt(sc);
    assert n in sc.order;
    var i :| 0 <= i < |sc.order| && sc.order[i] == n;
    forall j | i < j < |sc.order| ensures l !in sc.heat[sc.order[j]].snapshots {
      assert sc.order[j] != n;
    }
    FlattenLastWins(sc.order, sc.heat, i, l);
  }

  /** When no line is shared, merging the fragments does not depend on their order. */
  lemma FlattenOrderFree(sc1: Scratch, sc2: Scratch)
    requires Ordered(sc1) && Ordered(sc2) && sc1.heat == sc2.heat && LinesApart(sc1.heat)
    ensures forall i :: 0 <= i < |sc1.order| ==> sc1.order[i] in sc1.heat
    ensures forall i :: 0 <= i < |sc2.order| ==> sc2.order[i] in sc2.heat
    ensures Flatten(sc1.order, sc1.heat) == Flatten(sc2.order, sc2.heat)
  {
    FragmentLines(sc1);
    FragmentLines(sc2);
    var m1, m2 := Flatten(sc1.order, sc1.heat), Flatten(sc2.order, sc2.heat);
    forall l | l in m1 ensures l in m2 && m1[l] == m2[l] {
      var n :| n in sc1.heat && l in sc1.heat[n].snapshots;
      FlattenAt(sc1, n, l);
      FlattenAt(sc2, n, l);
    }
    forall l | l in m2 ensures l in m1 {
      var n :| n in sc2.heat && l in sc2.heat[n].snapshots;
      FlattenAt(sc1, n, l);
    }
    assert m1.Keys == m2.Keys;
  }

  /**
   On a well-formed graph whose nodes never share a line, two successful runs
   over the same paths, listed in any order, give the same heat map.
   */
  lemma HeatmapOrderFree(g: Cfg, p: seq<seq<int>>, maxHeat: int, fuel: nat)
    requires WellFormed(g) && FirstFed(g) && SamePaths(g.paths, p)
    ensures var r1, r2, s := Heatmap(g, maxHeat, fuel), Heatmap(g.(paths := p), maxHeat, fuel), Scratchpad(g, maxHeat, fuel);
      r1.Success? && r2.Success? && LinesApart(s.value.heat) ==> r1.value == r2.value
  {
    ScratchpadOrderFree(g, p, maxHeat, fuel);
    var s1, s2 := Scratchpad(g, maxHeat, fuel), Scratchpad(g.(paths := p), maxHeat, fuel);
    if s1.Success? && s2.Success? && LinesApart(s1.value.heat) {
      FlattenOrderFree(s1.value, s2.value);
    }
  }
}
