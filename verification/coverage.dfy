/**
 What the first loop of `register_heatmap` reaches. On a graph whose view is
 acyclic, whose merge points have two different predecessors, and whose every
 predecessor of a merge point on a path reaches it along some path, a
 successful run resolves every node of every path and leaves no stump
 parked; it resolves nothing else besides the pseudo-entry 0.

 The proof follows the paths still to be walked as "tokens": the paths on the
 stack, the stumps parked at merge points, and the rest of the path being
 walked. Every token is a suffix of a path; every unresolved path node lies on
 a token that starts at or before it; every predecessor edge into an
 unresolved merge point that is still needed lies on a token; and every parked
 merge point waits either for an unresolved predecessor or behind another
 token that still has to reach it.
 */
module Coverage {
  import opened Wrappers
  import opened Heat
  import opened Engine
  import opened Cycles
  import opened Heatmaps

  // ---------------------------------------------------------------------------
  // Well-formed graphs

  /** `s` climbs strictly in `rank`. */
  ghost predicate Climbs(s: seq<int>, rank: map<int, nat>)
  {
    forall a, b :: 0 <= a < b < |s| ==> Below(rank, s[a], s[b])
  }

  /** `x` ranks strictly below `y`. */
  ghost predicate Below(rank: map<int, nat>, x: int, y: int)
  {
    x in rank && y in rank && rank[x] < rank[y]
  }

  /** Every path climbs in `rank`: the view is acyclic and its paths are simple. */
  ghost predicate Ranked(g: Cfg, rank: map<int, nat>)
  {
    forall q :: 0 <= q < |g.paths| ==> Climbs(g.paths[q], rank)
  }

  /** `x` lies on some path. */
  ghost predicate OnPath(g: Cfg, x: int)
  {
    exists q, a :: 0 <= q < |g.paths| && 0 <= a < |g.paths[q]| && g.paths[q][a] == x
  }

  /** `u` steps from `p` straight to `x`. */
  ghost predicate Edge(u: seq<int>, p: int, x: int)
  {
    exists a :: 0 <= a < |u| - 1 && u[a] == p && u[a + 1] == x
  }

  /** Every predecessor of a merge point on a path steps into it along some path. */
  ghost predicate Fed(g: Cfg)
  {
    forall x, p :: x in g.merges && OnPath(g, x) && x in g.preds && p in g.preds[x] ==>
      exists q :: 0 <= q < |g.paths| && Edge(g.paths[q], p, x)
  }

  /** Every merge point on a path has two different predecessors. */
  ghost predicate Joins(g: Cfg)
  {
    forall x :: x in g.merges && OnPath(g, x) ==>
      && x in g.preds
      && exists a, b :: 0 <= a < |g.preds[x]| && 0 <= b < |g.preds[x]| && g.preds[x][a] != g.preds[x][b]
  }

  /** The loop-back nodes are off every path and listed once each. */
  ghost predicate LoopsApart(g: Cfg)
  {
    && (forall k :: 0 <= k < |g.loopBack| ==> !OnPath(g, g.loopBack[k]))
    && Distinct(g.loopBack)
  }

  /** The shape `all_simple_paths`, `merge_points` and `loop_back_nodes` give a graph whose every node is reachable. */
  ghost predicate WellFormed(g: Cfg)
  {
    (exists rank :: Ranked(g, rank)) && Fed(g) && Joins(g) && LoopsApart(g)
  }

  // ---------------------------------------------------------------------------
  // Tokens: the paths still to be walked

  /** `u` is the suffix of some path. */
  ghost predicate Suffix(g: Cfg, u: seq<int>)
  {
    exists q, j :: 0 <= q < |g.paths| && 0 <= j <= |g.paths[q]| && u == g.paths[q][j..]
  }

  /** `u` is a stump parked at some merge point. */
  ghost predicate Parks(st: State, u: seq<int>)
  {
    exists m :: m in st.waiting && u in st.waiting[m]
  }

  /** `u` is still to be walked: on the stack or parked. */
  ghost predicate Token(st: State, u: seq<int>)
  {
    u in st.stack || Parks(st, u)
  }

  /** `u` is still to be walked, other than as a stump parked at `x` itself. */
  ghost predicate OtherToken(st: State, x: int, u: seq<int>)
  {
    u in st.stack || exists m :: m in st.waiting && m != x && u in st.waiting[m]
  }

  ghost predicate TokensOnPaths(g: Cfg, st: State)
  {
    forall u :: Token(st, u) ==> Suffix(g, u)
  }

  ghost predicate ResolvedOnPaths(g: Cfg, st: State)
  {
    forall k :: k in st.sc.heat ==> k == 0 || OnPath(g, k)
  }

  /** Every path node is resolved, or still ahead on a token. */
  ghost predicate Pending(g: Cfg, st: State)
  {
    forall q, k :: 0 <= q < |g.paths| && 0 <= k < |g.paths[q]| ==>
      g.paths[q][k] in st.sc.heat || exists j :: 0 <= j <= k && Token(st, g.paths[q][j..])
  }

  /**
   An edge into an unresolved merge point lies on a token while its source is
   unresolved or the merge point has not been reached yet.
   */
  ghost predicate EdgesHeld(g: Cfg, st: State)
  {
    forall x, p :: NeedsEdge(g, st, x, p) ==> exists u :: Token(st, u) && Edge(u, p, x)
  }

  /** The edge from `p` into the unresolved merge point `x` is still needed. */
  ghost predicate NeedsEdge(g: Cfg, st: State, x: int, p: int)
  {
    && x in g.merges && OnPath(g, x) && x !in st.sc.heat && x in g.preds && p in g.preds[x]
    && (p !in st.sc.heat || x !in st.waiting)
  }

  /** A parked merge point has stumps, and waits for an unresolved predecessor or for another token that reaches it. */
  ghost predicate Blocked(g: Cfg, st: State)
  {
    forall x :: x in st.waiting ==>
      && |st.waiting[x]| > 0
      && ((x in g.preds && exists p :: p in g.preds[x] && p !in st.sc.heat)
          || exists u :: OtherToken(st, x, u) && x in u)
  }

  /** The coverage invariant. */
  ghost predicate Cov(g: Cfg, st: State)
  {
    TokensOnPaths(g, st) && ResolvedOnPaths(g, st) && Pending(g, st) && EdgesHeld(g, st) && Blocked(g, st)
  }

  /** The state with `u` pushed on the stack. */
  function Push(st: State, u: seq<int>): State
  {
    st.(stack := st.stack + [u])
  }

  /** The token the walk at position `i` still holds: the whole path, or its suffix from the last node passed. */
  function Look(path: seq<int>, i: nat): seq<int>
    requires i <= |path|
  {
    if i == 0 then path else path[i - 1..]
  }

  // ---------------------------------------------------------------------------
  // Facts about suffixes

  lemma TokenPush(st: State, u: seq<int>, t: seq<int>, x: int)
    ensures Token(Push(st, u), t) <==> t == u || Token(st, t)
    ensures OtherToken(Push(st, u), x, t) <==> t == u || OtherToken(st, x, t)
  {
  }

  lemma SuffixTail(g: Cfg, u: seq<int>)
    requires Suffix(g, u) && |u| > 0
    ensures Suffix(g, u[1..])
  {
    var q, j :| 0 <= q < |g.paths| && 0 <= j <= |g.paths[q]| && u == g.paths[q][j..];
    assert u[1..] == g.paths[q][j + 1..];
  }

  lemma SuffixOnPath(g: Cfg, u: seq<int>, a: int)
    requires Suffix(g, u) && 0 <= a < |u|
    ensures OnPath(g, u[a])
  {
    var q, j :| 0 <= q < |g.paths| && 0 <= j <= |g.paths[q]| && u == g.paths[q][j..];
    assert u[a] == g.paths[q][j + a];
  }

  lemma SuffixClimbs(g: Cfg, rank: map<int, nat>, u: seq<int>)
    requires Ranked(g, rank) && Suffix(g, u)
    ensures Climbs(u, rank)
  {
    var q, j :| 0 <= q < |g.paths| && 0 <= j <= |g.paths[q]| && u == g.paths[q][j..];
    assert Climbs(g.paths[q], rank);
    ClimbsDrop(g.paths[q], rank, j);
  }

  lemma ClimbsDrop(s: seq<int>, rank: map<int, nat>, j: int)
    requires Climbs(s, rank) && 0 <= j <= |s|
    ensures Climbs(s[j..], rank)
  {
    forall a, b | 0 <= a < b < |s[j..]|
      ensures Below(rank, s[j..][a], s[j..][b])
    {
      ClimbsAt(s, rank, j + a, j + b);
    }
  }

  lemma ClimbsAt(s: seq<int>, rank: map<int, nat>, a: int, b: int)
    requires Climbs(s, rank) && 0 <= a < b < |s|
    ensures s[a] in rank && s[b] in rank && rank[s[a]] < rank[s[b]]
  {
  }

  /** A climbing sequence holds each node at one position only. */
  lemma ClimbsOnce(u: seq<int>, rank: map<int, nat>, a: int, b: int)
    requires Climbs(u, rank) && 0 <= a < |u| && 0 <= b < |u| && u[a] == u[b]
    ensures a == b
  {
  }

  /** Two tokens stepping into the same node from different nodes are different tokens. */
  lemma EdgesApart(g: Cfg, rank: map<int, nat>, t: seq<int>, p1: int, p2: int, x: int)
    requires Ranked(g, rank) && Suffix(g, t) && p1 != p2
    requires Edge(t, p1, x)
    ensures !Edge(t, p2, x)
  {
    SuffixClimbs(g, rank, t);
    var a1 :| 0 <= a1 < |t| - 1 && t[a1] == p1 && t[a1 + 1] == x;
    forall a | 0 <= a < |t| - 1 && t[a + 1] == x
      ensures t[a] == p1
    {
      ClimbsOnce(t, rank, a1 + 1, a + 1);
    }
  }

  // ---------------------------------------------------------------------------
  // Dropping and shortening the token being walked

  /** A suffix whose nodes are all resolved covers no unresolved path node. */
  lemma SuffixResolved(path: seq<int>, u: seq<int>, j: int, k: int, heat: map<int, NodeHeat>)
    requires 0 <= j <= k < |path| && u == path[j..]
    requires forall a :: 0 <= a < |u| ==> u[a] in heat
    ensures path[k] in heat
  {
    assert u[k - j] == path[k];
  }

  /** Dropping a token whose nodes are all resolved keeps the invariant. */
  lemma Drop(g: Cfg, st: State, u: seq<int>)
    requires Cov(g, Push(st, u)) && Parked(g, st)
    requires forall a :: 0 <= a < |u| ==> u[a] in st.sc.heat
    ensures Cov(g, st)
  {
    DropTokens(g, st, u);
    DropPending(g, st, u);
    DropEdges(g, st, u);
    DropBlocked(g, st, u);
  }

  lemma DropTokens(g: Cfg, st: State, u: seq<int>)
    requires TokensOnPaths(g, Push(st, u))
    ensures TokensOnPaths(g, st)
  {
    forall t | Token(st, t) ensures Suffix(g, t) {
      TokenPush(st, u, t, 0);
    }
  }

  lemma DropPending(g: Cfg, st: State, u: seq<int>)
    requires Pending(g, Push(st, u))
    requires forall a :: 0 <= a < |u| ==> u[a] in st.sc.heat
    ensures Pending(g, st)
  {
    forall q, k | 0 <= q < |g.paths| && 0 <= k < |g.paths[q]|
      ensures g.paths[q][k] in st.sc.heat || exists j :: 0 <= j <= k && Token(st, g.paths[q][j..])
    {
      if g.paths[q][k] !in st.sc.heat {
        var j :| 0 <= j <= k && Token(Push(st, u), g.paths[q][j..]);
        TokenPush(st, u, g.paths[q][j..], 0);
      }
    }
  }

  lemma DropEdges(g: Cfg, st: State, u: seq<int>)
    requires EdgesHeld(g, Push(st, u))
    requires forall a :: 0 <= a < |u| ==> u[a] in st.sc.heat
    ensures EdgesHeld(g, st)
  {
    forall x, p | NeedsEdge(g, st, x, p)
      ensures exists t :: Token(st, t) && Edge(t, p, x)
    {
      assert NeedsEdge(g, Push(st, u), x, p);
      var t :| Token(Push(st, u), t) && Edge(t, p, x);
      TokenPush(st, u, t, 0);
    }
  }

  lemma DropBlocked(g: Cfg, st: State, u: seq<int>)
    requires Blocked(g, Push(st, u)) && Parked(g, st)
    requires forall a :: 0 <= a < |u| ==> u[a] in st.sc.heat
    ensures Blocked(g, st)
  {
    forall x | x in st.waiting
      ensures (x in g.preds && exists p :: p in g.preds[x] && p !in st.sc.heat) || exists t :: OtherToken(st, x, t) && x in t
    {
      if !(x in g.preds && exists p :: p in g.preds[x] && p !in st.sc.heat) {
        var t :| OtherToken(Push(st, u), x, t) && x in t;
        TokenPush(st, u, t, x);
      }
    }
  }

  /** Moving past the first node of the token being walked, once it and the next node are resolved, keeps the invariant. */
  lemma Shrink(g: Cfg, st: State, u: seq<int>)
    requires Cov(g, Push(st, u)) && Parked(g, st)
    requires |u| > 1 && u[0] in st.sc.heat && u[1] in st.sc.heat
    ensures Cov(g, Push(st, u[1..]))
  {
    ShrinkTokens(g, st, u);
    ShrinkPending(g, st, u);
    ShrinkEdges(g, st, u);
    ShrinkBlocked(g, st, u);
  }

  lemma ShrinkTokens(g: Cfg, st: State, u: seq<int>)
    requires TokensOnPaths(g, Push(st, u)) && |u| > 0
    ensures TokensOnPaths(g, Push(st, u[1..]))
  {
    forall t | Token(Push(st, u[1..]), t) ensures Suffix(g, t) {
      TokenPush(st, u[1..], t, 0);
      TokenPush(st, u, t, 0);
      if t == u[1..] {
        TokenPush(st, u, u, 0);
        SuffixTail(g, u);
      }
    }
  }

  lemma ShrinkPending(g: Cfg, st: State, u: seq<int>)
    requires Pending(g, Push(st, u))
    requires |u| > 0 && u[0] in st.sc.heat
    ensures Pending(g, Push(st, u[1..]))
  {
    forall q, k | 0 <= q < |g.paths| && 0 <= k < |g.paths[q]|
      ensures g.paths[q][k] in st.sc.heat || exists j :: 0 <= j <= k && Token(Push(st, u[1..]), g.paths[q][j..])
    {
      if g.paths[q][k] !in st.sc.heat {
        var j :| 0 <= j <= k && Token(Push(st, u), g.paths[q][j..]);
        TokenPush(st, u, g.paths[q][j..], 0);
        TokenPush(st, u[1..], g.paths[q][j..], 0);
        if g.paths[q][j..] == u {
          assert j != k;
          assert g.paths[q][j + 1..] == u[1..];
          TokenPush(st, u[1..], u[1..], 0);
        }
      }
    }
  }

  lemma ShrinkEdges(g: Cfg, st: State, u: seq<int>)
    requires EdgesHeld(g, Push(st, u))
    requires |u| > 1 && u[1] in st.sc.heat
    ensures EdgesHeld(g, Push(st, u[1..]))
  {
    forall x, p | NeedsEdge(g, Push(st, u[1..]), x, p)
      ensures exists t :: Token(Push(st, u[1..]), t) && Edge(t, p, x)
    {
      assert NeedsEdge(g, Push(st, u), x, p);
      var t :| Token(Push(st, u), t) && Edge(t, p, x);
      TokenPush(st, u, t, 0);
      TokenPush(st, u[1..], t, 0);
      if t == u {
        var a :| 0 <= a < |u| - 1 && u[a] == p && u[a + 1] == x;
        assert a != 0;
        assert u[1..][a - 1] == p && u[1..][a] == x;
        TokenPush(st, u[1..], u[1..], 0);
      }
    }
  }

  lemma ShrinkBlocked(g: Cfg, st: State, u: seq<int>)
    requires Blocked(g, Push(st, u)) && Parked(g, st)
    requires |u| > 0 && u[0] in st.sc.heat
    ensures Blocked(g, Push(st, u[1..]))
  {
    forall x | x in st.waiting
      ensures (x in g.preds && exists p :: p in g.preds[x] && p !in st.sc.heat)
        || exists t :: OtherToken(Push(st, u[1..]), x, t) && x in t
    {
      if !(x in g.preds && exists p :: p in g.preds[x] && p !in st.sc.heat) {
        var t :| OtherToken(Push(st, u), x, t) && x in t;
        TokenPush(st, u, t, x);
        TokenPush(st, u[1..], t, x);
        if t == u {
          var b :| 0 <= b < |u| && u[b] == x;
          assert b != 0;
          assert u[1..][b - 1] == x;
          TokenPush(st, u[1..], u[1..], x);
        }
      }
    }
  }

  /** A token stepping into `x` holds `x`, and not at its start. */
  lemma EntersLater(g: Cfg, rank: map<int, nat>, t: seq<int>, p: int, x: int)
    requires Ranked(g, rank) && Suffix(g, t) && Edge(t, p, x)
    ensures t[0] != x && x in t
  {
    SuffixClimbs(g, rank, t);
    var a :| 0 <= a < |t| - 1 && t[a] == p && t[a + 1] == x;
    forall b | 0 <= b < |t| && t[b] == x
      ensures b == a + 1
    {
      ClimbsOnce(t, rank, a + 1, b);
    }
  }

  /** A parked merge point lies on a path. */
  lemma WaitingOnPath(g: Cfg, st: State, x: int)
    requires TokensOnPaths(g, st) && Blocked(g, st) && Parked(g, st) && x in st.waiting
    ensures OnPath(g, x)
  {
    var s := st.waiting[x][0];
    assert Token(st, s);
    SuffixOnPath(g, s, 0);
  }

  // ---------------------------------------------------------------------------
  // Resolving a node

  /**
   `st'` is `st` with node `n` resolved: the same tokens, `n` added to the
   scratch map and removed from the waiting map, every other waiting entry
   as it was, and every token that is not a stump at some `x` other than `n`
   still not one.
   */
  ghost predicate Resolves(st: State, st': State, n: int)
  {
    && (forall t :: Token(st', t) <==> Token(st, t))
    && (forall x, t :: x != n && OtherToken(st, x, t) ==> OtherToken(st', x, t))
    && st'.sc.heat.Keys == st.sc.heat.Keys + {n}
    && st'.waiting.Keys == st.waiting.Keys - {n}
    && (forall x :: x in st'.waiting ==> st'.waiting[x] == st.waiting[x])
  }

  /** Resolving an unresolved path node keeps the invariant. */
  lemma Resolve(g: Cfg, rank: map<int, nat>, st: State, st': State, n: int)
    requires Cov(g, st) && Parked(g, st) && Ranked(g, rank) && Resolves(st, st', n)
    requires n !in st.sc.heat && OnPath(g, n)
    ensures Cov(g, st')
  {
    ResolveEach(g, st, st', n);
    ResolveBlocked(g, rank, st, st', n);
  }

  lemma ResolveEach(g: Cfg, st: State, st': State, n: int)
    requires Cov(g, st) && Resolves(st, st', n) && OnPath(g, n)
    ensures TokensOnPaths(g, st') && ResolvedOnPaths(g, st') && Pending(g, st') && EdgesHeld(g, st')
  {
    forall k | k in st'.sc.heat ensures k == 0 || OnPath(g, k) {
      assert k in st'.sc.heat.Keys;
    }
    forall q, k | 0 <= q < |g.paths| && 0 <= k < |g.paths[q]|
      ensures g.paths[q][k] in st'.sc.heat || exists j :: 0 <= j <= k && Token(st', g.paths[q][j..])
    {
      if g.paths[q][k] !in st'.sc.heat {
        assert g.paths[q][k] !in st.sc.heat.Keys;
        var j :| 0 <= j <= k && Token(st, g.paths[q][j..]);
        assert Token(st', g.paths[q][j..]);
      }
    }
    forall x, p | NeedsEdge(g, st', x, p)
      ensures exists t :: Token(st', t) && Edge(t, p, x)
    {
      assert x !in st.sc.heat.Keys && x != n;
      assert p !in st'.sc.heat ==> p !in st.sc.heat.Keys;
      assert x !in st'.waiting ==> x !in st.waiting.Keys;
      assert NeedsEdge(g, st, x, p);
      var t :| Token(st, t) && Edge(t, p, x);
      assert Token(st', t);
    }
  }

  lemma ResolveBlocked(g: Cfg, rank: map<int, nat>, st: State, st': State, n: int)
    requires Cov(g, st) && Parked(g, st) && Ranked(g, rank) && Resolves(st, st', n)
    requires n !in st.sc.heat
    ensures Blocked(g, st')
  {
    forall x | x in st'.waiting
      ensures |st'.waiting[x]| > 0
      ensures (x in g.preds && exists p :: p in g.preds[x] && p !in st'.sc.heat)
        || exists t :: OtherToken(st', x, t) && x in t
    {
      assert x in st'.waiting.Keys;
      assert x in st.waiting && x != n;
      if !(x in g.preds && exists p :: p in g.preds[x] && p !in st'.sc.heat) {
        var t: seq<int>;
        if x in g.preds && exists p :: p in g.preds[x] && p !in st.sc.heat {
          var p :| p in g.preds[x] && p !in st.sc.heat;
          assert p in st'.sc.heat.Keys;
          WaitingOnPath(g, st, x);
          assert NeedsEdge(g, st, x, n);
          t :| Token(st, t) && Edge(t, n, x);
          EntersLater(g, rank, t, n, x);
          if t !in st.stack {
            var m :| m in st.waiting && t in st.waiting[m];
            assert OtherToken(st, x, t);
          }
        } else {
          t :| OtherToken(st, x, t) && x in t;
        }
        assert OtherToken(st', x, t);
      }
    }
  }

  // ---------------------------------------------------------------------------
  // Parking a stump

  /** `w` is the waiting list of merge point `n` once stump `v` is parked there. */
  ghost predicate Parking(st: State, n: int, v: seq<int>, w: seq<seq<int>>)
  {
    if n in st.waiting then w == st.waiting[n] + [v] else w == [v]
  }

  /** `v` is what is left of token `u` at the node being visited: `u` itself, or its tail past a resolved node. */
  ghost predicate Stepped(u: seq<int>, v: seq<int>, heat: map<int, NodeHeat>)
  {
    v == u || (|u| > 0 && v == u[1..] && u[0] in heat)
  }

  lemma TokenPark(st: State, n: int, v: seq<int>, w: seq<seq<int>>, t: seq<int>, x: int)
    requires Parking(st, n, v, w)
    ensures Token(st.(waiting := st.waiting[n := w]), t) <==> Token(st, t) || t == v
    ensures x != n ==> (OtherToken(st.(waiting := st.waiting[n := w]), x, t) <==> OtherToken(st, x, t) || t == v)
    ensures OtherToken(st, x, t) ==> OtherToken(st.(waiting := st.waiting[n := w]), x, t)
  {
    var st' := st.(waiting := st.waiting[n := w]);
    if Parks(st', t) {
      var m :| m in st'.waiting && t in st'.waiting[m];
      if m != n {
        assert Parks(st, t);
      }
    }
    if Parks(st, t) {
      var m :| m in st.waiting && t in st.waiting[m];
      assert t in st'.waiting[m];
    }
    assert v in st'.waiting[n];
    if x != n && OtherToken(st', x, t) && t !in st'.stack {
      var m :| m in st'.waiting && m != x && t in st'.waiting[m];
      if m != n {
        assert OtherToken(st, x, t);
      }
    }
    if OtherToken(st, x, t) && t !in st.stack {
      var m :| m in st.waiting && m != x && t in st.waiting[m];
      assert t in st'.waiting[m];
    }
  }

  /** Parking what is left of the walked token at the unresolved merge point it reached keeps the invariant. */
  lemma Park(g: Cfg, rank: map<int, nat>, st: State, u: seq<int>, n: int, v: seq<int>, w: seq<seq<int>>)
    requires Cov(g, Push(st, u)) && Parked(g, st) && Ranked(g, rank) && Joins(g)
    requires Stepped(u, v, st.sc.heat) && |v| > 0 && v[0] == n && n in g.merges && n !in st.sc.heat
    requires Parking(st, n, v, w)
    requires n in st.waiting ==> n in g.preds && exists p :: p in g.preds[n] && p !in st.sc.heat
    ensures Cov(g, st.(waiting := st.waiting[n := w]))
  {
    ParkTokens(g, st, u, n, v, w);
    ParkPending(g, st, u, n, v, w);
    ParkEdges(g, st, u, n, v, w);
    ParkBlocked(g, rank, st, u, n, v, w);
  }

  lemma ParkTokens(g: Cfg, st: State, u: seq<int>, n: int, v: seq<int>, w: seq<seq<int>>)
    requires TokensOnPaths(g, Push(st, u)) && Stepped(u, v, st.sc.heat) && Parking(st, n, v, w)
    ensures TokensOnPaths(g, st.(waiting := st.waiting[n := w])) && Suffix(g, v)
  {
    TokenPush(st, u, u, 0);
    if v != u {
      SuffixTail(g, u);
    }
    forall t | Token(st.(waiting := st.waiting[n := w]), t) ensures Suffix(g, t) {
      TokenPark(st, n, v, w, t, 0);
      TokenPush(st, u, t, 0);
    }
  }

  lemma ParkPending(g: Cfg, st: State, u: seq<int>, n: int, v: seq<int>, w: seq<seq<int>>)
    requires Pending(g, Push(st, u)) && Stepped(u, v, st.sc.heat) && Parking(st, n, v, w)
    ensures Pending(g, st.(waiting := st.waiting[n := w]))
  {
    var st' := st.(waiting := st.waiting[n := w]);
    forall q, k | 0 <= q < |g.paths| && 0 <= k < |g.paths[q]|
      ensures g.paths[q][k] in st'.sc.heat || exists j :: 0 <= j <= k && Token(st', g.paths[q][j..])
    {
      if g.paths[q][k] !in st.sc.heat {
        var j :| 0 <= j <= k && Token(Push(st, u), g.paths[q][j..]);
        TokenPush(st, u, g.paths[q][j..], 0);
        TokenPark(st, n, v, w, g.paths[q][j..], 0);
        if g.paths[q][j..] == u && v != u {
          assert j != k;
          assert g.paths[q][j + 1..] == v;
          TokenPark(st, n, v, w, v, 0);
        }
      }
    }
  }

  lemma ParkEdges(g: Cfg, st: State, u: seq<int>, n: int, v: seq<int>, w: seq<seq<int>>)
    requires EdgesHeld(g, Push(st, u)) && Stepped(u, v, st.sc.heat) && Parking(st, n, v, w)
    requires |v| > 0 && v[0] == n
    ensures EdgesHeld(g, st.(waiting := st.waiting[n := w]))
  {
    var st' := st.(waiting := st.waiting[n := w]);
    forall x, p | NeedsEdge(g, st', x, p)
      ensures exists t :: Token(st', t) && Edge(t, p, x)
    {
      assert NeedsEdge(g, Push(st, u), x, p);
      var t :| Token(Push(st, u), t) && Edge(t, p, x);
      TokenPush(st, u, t, 0);
      TokenPark(st, n, v, w, t, 0);
      if t == u && v != u {
        var a :| 0 <= a < |u| - 1 && u[a] == p && u[a + 1] == x;
        assert a != 0;
        assert v[a - 1] == p && v[a] == x;
        TokenPark(st, n, v, w, v, 0);
      }
    }
  }

  lemma ParkBlocked(g: Cfg, rank: map<int, nat>, st: State, u: seq<int>, n: int, v: seq<int>, w: seq<seq<int>>)
    requires Cov(g, Push(st, u)) && Parked(g, st) && Ranked(g, rank) && Joins(g)
    requires Stepped(u, v, st.sc.heat) && |v| > 0 && v[0] == n && n in g.merges && n !in st.sc.heat
    requires Parking(st, n, v, w)
    requires n in st.waiting ==> n in g.preds && exists p :: p in g.preds[n] && p !in st.sc.heat
    ensures Blocked(g, st.(waiting := st.waiting[n := w]))
  {
    var st' := st.(waiting := st.waiting[n := w]);
    ParkTokens(g, st, u, n, v, w);
    TokenPush(st, u, u, 0);
    forall x | x in st'.waiting
      ensures |st'.waiting[x]| > 0
      ensures (x in g.preds && exists p :: p in g.preds[x] && p !in st'.sc.heat)
        || exists t :: OtherToken(st', x, t) && x in t
    {
      if x == n {
        if n !in st.waiting {
          SuffixOnPath(g, v, 0);
          var a, b :| 0 <= a < |g.preds[n]| && 0 <= b < |g.preds[n]| && g.preds[n][a] != g.preds[n][b];
          var p1, p2 := g.preds[n][a], g.preds[n][b];
          assert NeedsEdge(g, Push(st, u), n, p1) && NeedsEdge(g, Push(st, u), n, p2);
          var t1 :| Token(Push(st, u), t1) && Edge(t1, p1, n);
          var t2 :| Token(Push(st, u), t2) && Edge(t2, p2, n);
          var t, p := t1, p1;
          if t1 == u {
            EdgesApart(g, rank, u, p1, p2, n);
            t, p := t2, p2;
          }
          TokenPush(st, u, t, n);
          EntersLater(g, rank, t, p, n);
          TokenPark(st, n, v, w, t, n);
          assert OtherToken(st', n, t);
        }
      } else {
        if !(x in g.preds && exists p :: p in g.preds[x] && p !in st.sc.heat) {
          var t :| OtherToken(Push(st, u), x, t) && x in t;
          TokenPush(st, u, t, x);
          TokenPark(st, n, v, w, t, x);
          if t == u && v != u {
            var b :| 0 <= b < |u| && u[b] == x;
            assert b != 0;
            assert v[b - 1] == x;
            TokenPark(st, n, v, w, v, x);
          }
        }
      }
    }
  }

  // ---------------------------------------------------------------------------
  // The walk

  /** At an unvisited position the token held is the rest of the path, or one node more. */
  lemma LookStep(path: seq<int>, i: nat, heat: map<int, NodeHeat>)
    requires i < |path| && (0 < i ==> path[i - 1] in heat)
    ensures Look(path, i + 1) == path[i..]
    ensures Stepped(Look(path, i), path[i..], heat)
    ensures i == 0 ==> Look(path, i) == path[i..]
    ensures 0 < i ==> |Look(path, i)| > 1 && Look(path, i)[0] == path[i - 1] && Look(path, i)[1..] == path[i..]
  {
  }

  /** The walked token after a merge point mediates: the stumps parked there join the stack. */
  lemma MergeResolves(st: State, st': State, u: seq<int>, n: int)
    requires n in st.waiting && st'.stack == st.stack + st.waiting[n] && st'.waiting == st.waiting - {n}
    requires st'.sc.heat.Keys == st.sc.heat.Keys + {n}
    ensures Resolves(Push(st, u), Push(st', u), n)
  {
    forall t ensures Token(Push(st', u), t) <==> Token(Push(st, u), t) {
      if Parks(Push(st, u), t) {
        var m :| m in st.waiting && t in st.waiting[m];
        if m != n {
          assert m in st'.waiting && st'.waiting[m] == st.waiting[m];
          assert Parks(Push(st', u), t);
        }
      }
      if Parks(Push(st', u), t) {
        var m :| m in st'.waiting && t in st'.waiting[m];
        assert Parks(Push(st, u), t);
      }
    }
    forall x, t | x != n && OtherToken(Push(st, u), x, t)
      ensures OtherToken(Push(st', u), x, t)
    {
      if t !in Push(st, u).stack {
        var m :| m in st.waiting && m != x && t in st.waiting[m];
        if m != n {
          assert m in st'.waiting;
        }
      }
    }
  }

  /** The walked token after a node off the merge points is resolved: nothing moves. */
  lemma PlainResolves(st: State, st': State, u: seq<int>, n: int)
    requires n !in st.waiting && st'.stack == st.stack && st'.waiting == st.waiting
    requires st'.sc.heat.Keys == st.sc.heat.Keys + {n}
    ensures Resolves(Push(st, u), Push(st', u), n)
  {
  }

  /**
   Visiting the unresolved node `path[i]` keeps the invariant: a stop leaves
   a covered state, and a continuation resolves the node and covers the state
   with the walk's next token pushed.
   */
  lemma VisitCovers(g: Cfg, maxHeat: int, rank: map<int, nat>, path: seq<int>, i: nat, st: State)
    requires i < |path| && path[i] !in st.sc.heat && Inv(g, maxHeat, st) && Ranked(g, rank) && Joins(g)
    requires 0 < i ==> path[i - 1] in st.sc.heat
    requires Cov(g, Push(st, Look(path, i)))
    ensures var r := Visit(g, maxHeat, path, i, st);
      r.Success? ==>
        && Inv(g, maxHeat, r.value.state)
        && (r.value.Stop? ==> Cov(g, r.value.state))
        && (r.value.Continue? ==> path[i] in r.value.state.sc.heat && Cov(g, Push(r.value.state, Look(path, i + 1))))
  {
    VisitPreserves(g, maxHeat, path, i, st);
    var r := Visit(g, maxHeat, path, i, st);
    if r.Success? {
      if r.value.Stop? {
        StopCovers(g, maxHeat, rank, path, i, st);
      } else {
        ContinueCovers(g, maxHeat, rank, path, i, st);
      }
    }
  }

  lemma StopCovers(g: Cfg, maxHeat: int, rank: map<int, nat>, path: seq<int>, i: nat, st: State)
    requires i < |path| && path[i] !in st.sc.heat && Inv(g, maxHeat, st) && Ranked(g, rank) && Joins(g)
    requires 0 < i ==> path[i - 1] in st.sc.heat
    requires Cov(g, Push(st, Look(path, i)))
    requires Visit(g, maxHeat, path, i, st).Success? && Visit(g, maxHeat, path, i, st).value.Stop?
    ensures Cov(g, Visit(g, maxHeat, path, i, st).value.state)
  {
    var u, n := Look(path, i), path[i];
    LookStep(path, i, st.sc.heat);
    TokenPush(st, u, u, 0);
    var st' := Visit(g, maxHeat, path, i, st).value.state;
    if n in g.merges {
      MergeProtocol(g, maxHeat, path, i, st);
    } else {
      PlainProtocol(g, maxHeat, path, i, st);
    }
    Park(g, rank, st, u, n, path[i..], st'.waiting[n]);
    assert st' == st.(waiting := st.waiting[n := st'.waiting[n]]);
  }

  lemma ContinueCovers(g: Cfg, maxHeat: int, rank: map<int, nat>, path: seq<int>, i: nat, st: State)
    requires i < |path| && path[i] !in st.sc.heat && Inv(g, maxHeat, st) && Ranked(g, rank) && Joins(g)
    requires 0 < i ==> path[i - 1] in st.sc.heat
    requires Cov(g, Push(st, Look(path, i)))
    requires Visit(g, maxHeat, path, i, st).Success? && Visit(g, maxHeat, path, i, st).value.Continue?
    ensures var st' := Visit(g, maxHeat, path, i, st).value.state;
      path[i] in st'.sc.heat && Cov(g, Push(st', Look(path, i + 1)))
  {
    var u, n := Look(path, i), path[i];
    LookStep(path, i, st.sc.heat);
    TokenPush(st, u, u, 0);
    SuffixOnPath(g, u, if i == 0 then 0 else 1);
    VisitPreserves(g, maxHeat, path, i, st);
    var st' := Visit(g, maxHeat, path, i, st).value.state;
    if n in g.merges {
      MergeProtocol(g, maxHeat, path, i, st);
      MergeResolves(st, st', u, n);
    } else {
      PlainProtocol(g, maxHeat, path, i, st);
      PlainResolves(st, st', u, n);
    }
    Resolve(g, rank, Push(st, u), Push(st', u), n);
    if 0 < i {
      Shrink(g, st', u);
    }
  }

  /**
   A walk from position `i`, holding the token `Look(path, i)`, ends in a
   state that keeps the coverage invariant.
   */
  lemma {:induction false} WalkCovers(g: Cfg, maxHeat: int, rank: map<int, nat>, path: seq<int>, i: nat, st: State)
    requires i <= |path| && Inv(g, maxHeat, st) && Ranked(g, rank) && Joins(g)
    requires 0 < i ==> path[i - 1] in st.sc.heat
    requires Cov(g, Push(st, Look(path, i)))
    ensures var r := Walk(g, maxHeat, path, i, st); r.Success? ==> Cov(g, r.value)
    decreases |path| - i
  {
    var u := Look(path, i);
    if i == |path| {
      Drop(g, st, u);
    } else if path[i] in st.sc.heat {
      LookStep(path, i, st.sc.heat);
      if 0 < i {
        Shrink(g, st, u);
      }
      WalkCovers(g, maxHeat, rank, path, i + 1, st);
    } else {
      VisitCovers(g, maxHeat, rank, path, i, st);
      var r := Visit(g, maxHeat, path, i, st);
      if r.Success? && r.value.Continue? {
        WalkCovers(g, maxHeat, rank, path, i + 1, r.value.state);
      }
    }
  }

  // ---------------------------------------------------------------------------
  // The outer loop

  /** Every path on the stack and nothing parked: the start is covered when every predecessor edge is on a path. */
  lemma StartCovers(g: Cfg, maxHeat: int)
    requires Fed(g)
    ensures Cov(g, Start(g, maxHeat))
  {
    var st := Start(g, maxHeat);
    forall t | Token(st, t) ensures Suffix(g, t) {
      var q :| 0 <= q < |g.paths| && g.paths[q] == t;
      assert t == g.paths[q][0..];
    }
    forall q, k | 0 <= q < |g.paths| && 0 <= k < |g.paths[q]|
      ensures g.paths[q][k] in st.sc.heat || exists j :: 0 <= j <= k && Token(st, g.paths[q][j..])
    {
      assert g.paths[q][0..] == g.paths[q];
      assert Token(st, g.paths[q][0..]);
    }
    forall x, p | NeedsEdge(g, st, x, p)
      ensures exists t :: Token(st, t) && Edge(t, p, x)
    {
      var q :| 0 <= q < |g.paths| && Edge(g.paths[q], p, x);
      assert Token(st, g.paths[q]);
    }
  }

  /** Each round of the outer loop keeps the coverage invariant. */
  lemma {:induction false} ResolveCovers(g: Cfg, maxHeat: int, rank: map<int, nat>, st: State)
    requires Inv(g, maxHeat, st) && Ranked(g, rank) && Joins(g) && Cov(g, st)
    ensures var r := ResolveFrom(g, maxHeat, st); r.Success? ==> Cov(g, r.value)
    decreases Unresolved(g, st.sc.heat), |st.stack|
  {
    if |st.stack| > 0 {
      assert Push(Rest(st), Top(st)) == st;
      RoundProgress(g, maxHeat, st);
      WalkCovers(g, maxHeat, rank, Top(st), 0, Rest(st));
      var w := Walk(g, maxHeat, Top(st), 0, Rest(st));
      if w.Success? {
        ResolveCovers(g, maxHeat, rank, w.value);
      }
    }
  }

  /** A stump parked at `m` ranks `m` below every later node it holds. */
  lemma StumpClimbs(g: Cfg, rank: map<int, nat>, st: State, t: seq<int>, m: int, b: int)
    requires TokensOnPaths(g, st) && Parked(g, st) && Ranked(g, rank)
    requires m in st.waiting && t in st.waiting[m] && 0 < b < |t|
    ensures m in rank && t[b] in rank && rank[m] < rank[t[b]]
  {
    assert Token(st, t) && t[0] == m;
    SuffixClimbs(g, rank, t);
    ClimbsAt(t, rank, 0, b);
  }

  /** With the stack empty, a parked merge point has another parked merge point ranked below it. */
  lemma Lower(g: Cfg, rank: map<int, nat>, st: State, x: int) returns (m: int)
    requires Cov(g, st) && Parked(g, st) && Ranked(g, rank) && st.stack == [] && x in st.waiting
    ensures m in st.waiting && x in rank && m in rank && rank[m] < rank[x]
  {
    if x in g.preds && exists p :: p in g.preds[x] && p !in st.sc.heat {
      m := LowerByEdge(g, rank, st, x);
    } else {
      var t :| OtherToken(st, x, t) && x in t;
      m :| m in st.waiting && m != x && t in st.waiting[m];
      var b :| 0 <= b < |t| && t[b] == x;
      StumpClimbs(g, rank, st, t, m, b);
    }
  }

  /** The stump holding the edge from an unresolved predecessor is parked below the merge point. */
  lemma LowerByEdge(g: Cfg, rank: map<int, nat>, st: State, x: int) returns (m: int)
    requires TokensOnPaths(g, st) && EdgesHeld(g, st) && Blocked(g, st) && Parked(g, st) && Ranked(g, rank) && st.stack == [] && x in st.waiting
    requires x in g.preds && exists p :: p in g.preds[x] && p !in st.sc.heat
    ensures m in st.waiting && x in rank && m in rank && rank[m] < rank[x]
  {
    var p :| p in g.preds[x] && p !in st.sc.heat;
    WaitingOnPath(g, st, x);
    assert NeedsEdge(g, st, x, p);
    var t :| Token(st, t) && Edge(t, p, x);
    assert !(t in st.stack);
    var a :| 0 <= a < |t| - 1 && t[a] == p && t[a + 1] == x;
    m :| m in st.waiting && t in st.waiting[m];
    StumpClimbs(g, rank, st, t, m, a + 1);
  }

  /** With the stack empty, no merge point stays parked. */
  lemma {:induction false} NoneWaiting(g: Cfg, rank: map<int, nat>, st: State, x: int)
    requires Cov(g, st) && Parked(g, st) && Ranked(g, rank) && st.stack == []
    ensures x !in st.waiting
    decreases if x in rank then rank[x] else 0
  {
    if x in st.waiting {
      var m := Lower(g, rank, st, x);
      NoneWaiting(g, rank, st, m);
      assert false;
    }
  }

  /**
   On a well-formed graph a successful first loop leaves no stump parked and
   holds exactly the pseudo-entry 0 and the nodes of the paths.
   */
  lemma PathsResolved(g: Cfg, maxHeat: int)
    requires WellFormed(g)
    ensures var r := ResolveFrom(g, maxHeat, Start(g, maxHeat));
      r.Success? ==> r.value.waiting == map[] && forall k :: k in r.value.sc.heat <==> k == 0 || OnPath(g, k)
  {
    var rank :| Ranked(g, rank);
    StartCovers(g, maxHeat);
    ResolveCovers(g, maxHeat, rank, Start(g, maxHeat));
    var r := ResolveFrom(g, maxHeat, Start(g, maxHeat));
    if r.Success? {
      var st := r.value;
      forall x ensures x !in st.waiting {
        NoneWaiting(g, rank, st, x);
      }
      assert st.waiting == map[];
      forall k | OnPath(g, k) ensures k in st.sc.heat {
        var q, a :| 0 <= q < |g.paths| && 0 <= a < |g.paths[q]| && g.paths[q][a] == k;
        assert !Token(st, g.paths[q][..]);
        assert forall t :: !Token(st, t);
      }
    }
  }

  /**
   On a well-formed graph a successful run's scratch map holds exactly the
   path nodes other than 0 and the loop-back nodes, and every loop-back node
   holds the heat computed from the outgoing vector of one of its
   predecessors in the full graph.
   */
  lemma ScratchpadCovers(g: Cfg, maxHeat: int, fuel: nat)
    requires WellFormed(g)
    ensures var r := Scratchpad(g, maxHeat, fuel);
      r.Success? ==>
        && (forall k :: k in r.value.heat <==> (k != 0 && OnPath(g, k)) || k in g.loopBack)
        && AllSeeded(g, maxHeat, r.value.heat, g.loopBack)
  {
    PathsResolved(g, maxHeat);
    ScratchpadDomain(g, maxHeat, fuel);
    var st := ResolveFrom(g, maxHeat, Start(g, maxHeat));
    if st.Success? {
      var c := Closing(g.loopBack, Delete(st.value.sc, 0));
      forall i | 0 <= i < |c.queue| ensures c.queue[i] !in c.sc.heat {
        assert !OnPath(g, g.loopBack[i]);
      }
      assert Fresh(c);
      if Close(g, maxHeat, c, fuel).Success? {
        CloseSeeds(g, maxHeat, c, fuel);
      }
    }
  }

  /** On a well-formed graph a successful run's scratch map holds exactly the path nodes other than 0 and the loop-back nodes. */
  lemma ScratchpadNodes(g: Cfg, maxHeat: int, fuel: nat)
    requires WellFormed(g)
    ensures var r := Scratchpad(g, maxHeat, fuel);
      r.Success? ==> forall k :: k in r.value.heat <==> (k != 0 && OnPath(g, k)) || k in g.loopBack
  {
    PathsResolved(g, maxHeat);
    ScratchpadDomain(g, maxHeat, fuel);
  }

  /**
   On a well-formed graph a line is in a successful run's heat map exactly
   when it is a line of a path node other than 0 or of a loop-back node.
   */
  lemma HeatmapCovers(g: Cfg, maxHeat: int, fuel: nat, l: int)
    requires WellFormed(g)
    ensures var r, s := Heatmap(g, maxHeat, fuel), Scratchpad(g, maxHeat, fuel);
      r.Success? ==>
        && s.Success?
        && (l in r.value <==>
              exists n :: ((n != 0 && OnPath(g, n)) || n in g.loopBack) && n in s.value.heat && l in s.value.heat[n].snapshots)
  {
    ScratchpadNodes(g, maxHeat, fuel);
  }

  /**
   Without `Fed` the walk can leave a merge point parked: node 2 merges
   node 1 and node 5, but node 5 lies on no path, so the only stump at 2
   never moves and node 2 is never resolved, although the run succeeds.
   */
  lemma UnfedMergeStaysParked()
    ensures var g := Cfg(
        map[0 := External, 1 := External, 2 := External, 5 := External],
        map[0 := [2], 1 := [0], 2 := [1, 5]],
        map[0 := [2], 1 := [0], 2 := [1, 5]],
        {2}, [], [[1, 2, 0]]);
      var r := ResolveFrom(g, 4, Start(g, 4));
      && Ranked(g, map[1 := 0, 2 := 1, 0 := 2]) && Joins(g) && LoopsApart(g) && !Fed(g)
      && r.Success? && r.value.stack == [] && r.value.waiting == map[2 := [[2, 0]]] && 2 !in r.value.sc.heat
  {
    var g := Cfg(
        map[0 := External, 1 := External, 2 := External, 5 := External],
        map[0 := [2], 1 := [0], 2 := [1, 5]],
        map[0 := [2], 1 := [0], 2 := [1, 5]],
        {2}, [], [[1, 2, 0]]);
    var path := [1, 2, 0];
    assert OnPath(g, 2) by {
      assert g.paths[0][1] == 2;
    }
    assert g.preds[2][0] != g.preds[2][1];
    assert !Edge(g.paths[0], 5, 2);
    assert !(exists q :: 0 <= q < |g.paths| && Edge(g.paths[q], 5, 2));
    assert 2 in g.merges && 2 in g.preds && 5 in g.preds[2];
    var st := Start(g, 4);
    var st1 := Walk(g, 4, path, 0, Rest(st));
    assert Top(st) == path;
    var h1 := Seed;
    var sc1 := Assign(st.sc, 1, h1);
    assert Visit(g, 4, path, 0, Rest(st)) == Success(Continue(Rest(st).(sc := sc1)));
    assert Visit(g, 4, path, 1, Rest(st).(sc := sc1)) == Success(Stop(Rest(st).(sc := sc1, waiting := map[2 := [[2, 0]]])));
  }
}
