/** The deadlock detector's search for a cycle in the waits-for graph: a depth-first search with a
    visited array that reports a vertex it meets twice. */
module Deadlock {
  const MAX: nat := 100

  // ---- the search on an adjacency list ----

  type Graph = seq<seq<nat>>

  ghost predicate Closed(g: Graph)
  {
    forall v, j :: 0 <= v < |g| && 0 <= j < |g[v]| ==> g[v][j] < |g|
  }

  ghost predicate IsVertex(g: Graph, v: nat) { v < |g| }

  ghost function Vertices(g: Graph): set<nat> { set v: nat | v < |g| && IsVertex(g, v) }

  /** DFS: the vertices visited when it returns, and whether it met a visited one. */
  ghost function Dfs(g: Graph, v: nat, seen: set<nat>): (r: (set<nat>, bool))
    requires Closed(g) && v < |g|
    ensures seen <= r.0 && (r.0 <= Vertices(g) <== seen <= Vertices(g))
    decreases Vertices(g) - seen, 1, 0
  {
    if v in seen then (seen, true) else
      assert IsVertex(g, v);
      DfsFrom(g, v, 0, seen + {v})
  }

  /** Its loop over the successors of v from the i-th. */
  ghost function DfsFrom(g: Graph, v: nat, i: nat, seen: set<nat>): (r: (set<nat>, bool))
    requires Closed(g) && v < |g| && i <= |g[v]|
    ensures seen <= r.0 && (r.0 <= Vertices(g) <== seen <= Vertices(g))
    decreases Vertices(g) - seen, 2, |g[v]| - i
  {
    if i == |g[v]| then (seen, false)
    else
      var (s, d) := Dfs(g, g[v][i], seen);
      assert Vertices(g) - s <= Vertices(g) - seen;
      var (s', d') := DfsFrom(g, v, i + 1, s);
      (s', d || d')
  }

  /** search_for_cycle finds something at idx: from one of its successors, idx marked. */
  ghost predicate Reports(g: Graph, idx: nat)
    requires Closed(g) && idx < |g|
  {
    exists j: nat :: j < |g[idx]| && Dfs(g, g[idx][j], {idx}).1
  }

  // ---- walks ----

  /** A walk from v, given by the successor taken at each vertex, and where it ends. */
  ghost predicate Walk(g: Graph, v: nat, p: seq<nat>)
    decreases |p|
  {
    v < |g| && (p != [] ==> p[0] < |g[v]| && Walk(g, g[v][p[0]], p[1..]))
  }

  ghost function End(g: Graph, v: nat, p: seq<nat>): nat
    requires Walk(g, v, p)
    decreases |p|
  {
    if p == [] then v else End(g, g[v][p[0]], p[1..])
  }

  ghost predicate Cyclic(g: Graph)
  {
    exists v: nat, p: seq<nat> :: p != [] && Walk(g, v, p) && End(g, v, p) == v
  }

  /** No walk from v ends in seen. */
  ghost predicate Avoids(g: Graph, v: nat, seen: set<nat>)
  {
    forall p: seq<nat> :: Walk(g, v, p) ==> End(g, v, p) !in seen
  }

  /** No vertex is reached from v in two ways. */
  ghost predicate OneWay(g: Graph, v: nat)
  {
    forall p: seq<nat>, q: seq<nat> :: Walk(g, v, p) && Walk(g, v, q) && End(g, v, p) == End(g, v, q) ==> p == q
  }

  // ---- what the search finds out ----

  /** The same about the walks that leave v by its i-th successor or a later one. */
  ghost predicate AvoidsFrom(g: Graph, v: nat, i: nat, seen: set<nat>)
  {
    forall p: seq<nat> :: Walk(g, v, p) && p != [] && p[0] >= i ==> End(g, v, p) !in seen
  }

  ghost predicate OneWayFrom(g: Graph, v: nat, i: nat)
  {
    forall p: seq<nat>, q: seq<nat> | Walk(g, v, p) && Walk(g, v, q) && p != [] && q != [] && p[0] >= i && q[0] >= i ::
      End(g, v, p) == End(g, v, q) ==> p == q
  }

  /** s adds to seen just the vertices reached from v. */
  ghost predicate Reached(g: Graph, v: nat, seen: set<nat>, s: set<nat>)
  {
    forall x :: x in s <==> x in seen || exists p: seq<nat> :: Walk(g, v, p) && End(g, v, p) == x
  }

  ghost predicate ReachedFrom(g: Graph, v: nat, i: nat, seen: set<nat>, s: set<nat>)
  {
    forall x ::
      x in s <==>
      x in seen || exists p: seq<nat> :: Walk(g, v, p) && p != [] && p[0] >= i && End(g, v, p) == x
  }

  lemma {:induction false} Prefixed(g: Graph, v: nat, i: nat, p: seq<nat>)
    requires v < |g| && i < |g[v]| && Walk(g, g[v][i], p)
    ensures Walk(g, v, [i] + p) && End(g, v, [i] + p) == End(g, g[v][i], p)
  {
    assert ([i] + p)[1..] == p;
  }

  lemma {:induction false} DfsExact(g: Graph, v: nat, seen: set<nat>)
    requires Closed(g) && v < |g|
    ensures !Dfs(g, v, seen).1 <==> Avoids(g, v, seen) && OneWay(g, v)
    ensures !Dfs(g, v, seen).1 ==> Reached(g, v, seen, Dfs(g, v, seen).0)
    decreases Vertices(g) - seen, 1, 0
  {
    assert Walk(g, v, []) && End(g, v, []) == v;
    if v !in seen {
      assert IsVertex(g, v);
      DfsFromExact(g, v, 0, seen + {v});
      FromStart(g, v, seen);
    }
  }

  /** A walk from v is empty or leaves v by some successor. */
  lemma FromStart(g: Graph, v: nat, seen: set<nat>)
    requires v < |g| && v !in seen
    ensures Avoids(g, v, seen) && OneWay(g, v) <==> AvoidsFrom(g, v, 0, seen + {v}) && OneWayFrom(g, v, 0)
    ensures forall s :: ReachedFrom(g, v, 0, seen + {v}, s) ==> Reached(g, v, seen, s)
  {
    assert Walk(g, v, []) && End(g, v, []) == v;
    if AvoidsFrom(g, v, 0, seen + {v}) && OneWayFrom(g, v, 0) {
      forall p: seq<nat> | Walk(g, v, p)
        ensures End(g, v, p) !in seen
      {
        assert p == [] || p[0] >= 0;
      }
      forall p: seq<nat>, q: seq<nat> | Walk(g, v, p) && Walk(g, v, q) && End(g, v, p) == End(g, v, q)
        ensures p == q
      {
        assert (p == [] || p[0] >= 0) && (q == [] || q[0] >= 0);
      }
    }
    if Avoids(g, v, seen) && OneWay(g, v) {
      forall p: seq<nat> | Walk(g, v, p) && p != []
        ensures End(g, v, p) !in seen + {v}
      {
        assert End(g, v, p) == v ==> p == [];
      }
    }
  }

  /** Avoiding and one-way for v from i on implies both for its i-th successor. */
  lemma FirstOk(g: Graph, v: nat, i: nat, seen: set<nat>)
    requires Closed(g) && v < |g| && i < |g[v]| && AvoidsFrom(g, v, i, seen) && OneWayFrom(g, v, i)
    ensures Avoids(g, g[v][i], seen) && OneWay(g, g[v][i])
  {
    var w := g[v][i];
    forall p: seq<nat> | Walk(g, w, p)
      ensures End(g, w, p) !in seen
    {
      Prefixed(g, v, i, p);
    }
    forall p: seq<nat>, q: seq<nat> | Walk(g, w, p) && Walk(g, w, q) && End(g, w, p) == End(g, w, q)
      ensures p == q
    {
      Prefixed(g, v, i, p);
      Prefixed(g, v, i, q);
      assert [i] + p == [i] + q;
      assert ([i] + p)[1..] == p && ([i] + q)[1..] == q;
    }
  }

  /** Once the i-th successor is searched, the later ones must also avoid what it reached. */
  lemma RestOk(g: Graph, v: nat, i: nat, seen: set<nat>, s: set<nat>)
    requires Closed(g) && v < |g| && i < |g[v]| && Reached(g, g[v][i], seen, s)
    requires AvoidsFrom(g, v, i, seen) && OneWayFrom(g, v, i)
    ensures AvoidsFrom(g, v, i + 1, s) && OneWayFrom(g, v, i + 1)
  {
    var w := g[v][i];
    forall p: seq<nat> | Walk(g, v, p) && p != [] && p[0] >= i + 1
      ensures End(g, v, p) !in s
    {
      forall q: seq<nat> | Walk(g, w, q)
        ensures End(g, w, q) != End(g, v, p)
      {
        Prefixed(g, v, i, q);
        assert ([i] + q)[0] != p[0];
      }
    }
  }

  lemma Together(g: Graph, v: nat, i: nat, seen: set<nat>, s: set<nat>)
    requires Closed(g) && v < |g| && i < |g[v]| && Reached(g, g[v][i], seen, s)
    requires Avoids(g, g[v][i], seen) && OneWay(g, g[v][i]) && AvoidsFrom(g, v, i + 1, s) && OneWayFrom(g, v, i + 1)
    ensures AvoidsFrom(g, v, i, seen) && OneWayFrom(g, v, i)
  {
    var w := g[v][i];
    forall p: seq<nat> | Walk(g, v, p) && p != [] && p[0] >= i
      ensures End(g, v, p) !in seen
      ensures p[0] == i <==> End(g, v, p) in s
    {
      if p[0] == i {
        assert Walk(g, w, p[1..]);
      }
    }
    forall p: seq<nat>, q: seq<nat> | Walk(g, v, p) && Walk(g, v, q) && p != [] && q != [] && p[0] >= i && q[0] >= i
                                      && End(g, v, p) == End(g, v, q)
      ensures p == q
    {
      if p[0] == i && q[0] == i {
        assert Walk(g, w, p[1..]) && Walk(g, w, q[1..]);
        assert p == [i] + p[1..] && q == [i] + q[1..];
      }
    }
  }

  lemma ReachedTogether(g: Graph, v: nat, i: nat, seen: set<nat>, s: set<nat>, s': set<nat>)
    requires Closed(g) && v < |g| && i < |g[v]| && Reached(g, g[v][i], seen, s) && ReachedFrom(g, v, i + 1, s, s')
    ensures ReachedFrom(g, v, i, seen, s')
  {
    var w := g[v][i];
    forall x
      ensures x in s' <==> x in seen || exists p: seq<nat> :: Walk(g, v, p) && p != [] && p[0] >= i && End(g, v, p) == x
    {
      if x in s' && x !in seen {
        if x in s {
          var q: seq<nat> :| Walk(g, w, q) && End(g, w, q) == x;
          Prefixed(g, v, i, q);
          assert ([i] + q)[0] == i;
        }
      }
      if p: seq<nat> :| Walk(g, v, p) && p != [] && p[0] >= i && End(g, v, p) == x {
        if p[0] == i {
          assert Walk(g, w, p[1..]) && End(g, w, p[1..]) == x;
        }
      }
    }
  }

  lemma {:induction false} DfsFromExact(g: Graph, v: nat, i: nat, seen: set<nat>)
    requires Closed(g) && v < |g| && i <= |g[v]|
    ensures !DfsFrom(g, v, i, seen).1 <==> AvoidsFrom(g, v, i, seen) && OneWayFrom(g, v, i)
    ensures !DfsFrom(g, v, i, seen).1 ==> ReachedFrom(g, v, i, seen, DfsFrom(g, v, i, seen).0)
    decreases Vertices(g) - seen, 2, |g[v]| - i
  {
    if i == |g[v]| {
      assert forall p: seq<nat> :: Walk(g, v, p) && p != [] ==> p[0] < i;
    } else {
      var (s, d) := Dfs(g, g[v][i], seen);
      var (s', d') := DfsFrom(g, v, i + 1, s);
      assert Vertices(g) - s <= Vertices(g) - seen;
      DfsExact(g, g[v][i], seen);
      if AvoidsFrom(g, v, i, seen) && OneWayFrom(g, v, i) {
        FirstOk(g, v, i, seen);
        RestOk(g, v, i, seen, s);
        DfsFromExact(g, v, i + 1, s);
      }
      if !d && !d' {
        DfsFromExact(g, v, i + 1, s);
        Together(g, v, i, seen, s);
        ReachedTogether(g, v, i, seen, s, s');
      }
    }
  }

  // ---- what a report, or none, means ----

  /** Some vertex is reached from idx by two walks that leave it by the same successor, or by one
      that comes back to idx. */
  ghost predicate Meets(g: Graph, idx: nat)
    requires Closed(g) && idx < |g|
  {
    exists j: nat :: j < |g[idx]| && !(Avoids(g, g[idx][j], {idx}) && OneWay(g, g[idx][j]))
  }

  /** Exactly then a search from idx reports. */
  lemma ReportsExactly(g: Graph, idx: nat)
    requires Closed(g) && idx < |g|
    ensures Reports(g, idx) <==> Meets(g, idx)
  {
    forall j: nat | j < |g[idx]|
      ensures Dfs(g, g[idx][j], {idx}).1 <==> !(Avoids(g, g[idx][j], {idx}) && OneWay(g, g[idx][j]))
    {
      DfsExact(g, g[idx][j], {idx});
    }
  }

  /** No report from any vertex: no cycle, self-loops included. */
  lemma SilentMeansAcyclic(g: Graph)
    requires Closed(g) && forall idx: nat :: idx < |g| ==> !Reports(g, idx)
    ensures !Cyclic(g)
  {
    forall v: nat, p: seq<nat> | p != [] && Walk(g, v, p)
      ensures End(g, v, p) != v
    {
      ReportsExactly(g, v);
      assert Avoids(g, g[v][p[0]], {v});
      assert Walk(g, g[v][p[0]], p[1..]);
    }
  }

  /** Every vertex waits for at most one other. */
  ghost predicate OneSuccessor(g: Graph)
  {
    forall v :: 0 <= v < |g| ==> |g[v]| <= 1
  }

  /** Then a walk goes on where a shorter one from the same vertex ends. */
  lemma {:induction false} GoesOn(g: Graph, v: nat, p: seq<nat>, q: seq<nat>)
    requires OneSuccessor(g) && Walk(g, v, p) && Walk(g, v, q) && |p| <= |q|
    ensures p == q[..|p|] && Walk(g, End(g, v, p), q[|p|..]) && End(g, End(g, v, p), q[|p|..]) == End(g, v, q)
    decreases |p|
  {
    if p == [] {
      assert q[0..] == q;
    } else {
      assert p[0] == q[0] == 0;
      GoesOn(g, g[v][0], p[1..], q[1..]);
      assert p == [0] + p[1..] && q[..|p|] == [0] + q[1..][..|p| - 1];
      assert q[1..][|p| - 1..] == q[|p|..];
    }
  }

  /** Two walks of unlike length to one vertex go round a cycle. */
  lemma {:induction false} TwoWaysCycle(g: Graph, v: nat, p: seq<nat>, q: seq<nat>)
    requires OneSuccessor(g) && Walk(g, v, p) && Walk(g, v, q) && End(g, v, p) == End(g, v, q) && p != q && |p| <= |q|
    ensures Cyclic(g)
  {
    GoesOn(g, v, p, q);
    assert q == q[..|p|] + q[|p|..];
  }

  /** Where every thread waits for at most one other, check_dead_lock reports just the deadlocks: some
      search reports if and only if there is a cycle. */
  lemma OneSuccessorExact(g: Graph)
    requires Closed(g) && OneSuccessor(g)
    ensures (exists idx: nat :: idx < |g| && Reports(g, idx)) <==> Cyclic(g)
  {
    if idx: nat :| idx < |g| && Reports(g, idx) {
      ReportsExactly(g, idx);
      var w := g[idx][0];
      if !Avoids(g, w, {idx}) {
        var p: seq<nat> :| Walk(g, w, p) && End(g, w, p) in {idx};
        Prefixed(g, idx, 0, p);
        assert [0] + p != [];
      } else {
        var p: seq<nat>, q: seq<nat> :| Walk(g, w, p) && Walk(g, w, q) && End(g, w, p) == End(g, w, q) && p != q;
        if |p| <= |q| {
          TwoWaysCycle(g, w, p, q);
        } else {
          TwoWaysCycle(g, w, q, p);
        }
      }
    } else {
      SilentMeansAcyclic(g);
    }
  }

  /** In general the converse fails: a diamond behind a common first step is reported though it has no cycle. */
  lemma DiamondReported()
    ensures var g: Graph := [[1], [2, 3], [4], [4], []];
            Closed(g) && Reports(g, 0) && !Cyclic(g)
  {
    var g: Graph := [[1], [2, 3], [4], [4], []];
    var p: seq<nat>, q: seq<nat> := [0, 0], [1, 0];
    assert p[1..] == [0] && q[1..] == [0] && [0][1..] == [];
    assert Walk(g, 2, [0]) && Walk(g, 3, [0]) && End(g, 2, [0]) == 4 && End(g, 3, [0]) == 4;
    assert Walk(g, 1, p) && Walk(g, 1, q) && End(g, 1, p) == 4 && End(g, 1, q) == 4;
    assert p[0] != q[0];
    assert !OneWay(g, g[0][0]);
    ReportsExactly(g, 0);
    forall v: nat, w: seq<nat> | w != [] && Walk(g, v, w)
      ensures End(g, v, w) > v
    {
      Upward(g, v, w);
    }
  }

  /** Where every edge leads to a larger vertex, so does every walk. */
  lemma {:induction false} Upward(g: Graph, v: nat, w: seq<nat>)
    requires forall u, j :: 0 <= u < |g| && 0 <= j < |g[u]| ==> g[u][j] > u
    requires w != [] && Walk(g, v, w)
    ensures End(g, v, w) > v
    decreases |w|
  {
    if |w| > 1 {
      Upward(g, g[v][w[0]], w[1..]);
    }
  }
}
