/** check_dead_lock on the graph of waiting threads: the search of module Deadlock over visited and path arrays. */
module DeadlockSearch {
  import opened Deadlock

  datatype Kind = Process | Resource
  datatype Source = Source(id: nat, kind: Kind)

  /** A vertex and the linked list of the sources it waits for. */
  datatype Vertex = Vertex(s: Source, next: seq<Source>)

  type Vertices = seq<Vertex>

  /** search_vertex; the length stands for its -1. */
  function IndexOf(list: Vertices, s: Source): (i: nat)
    ensures i <= |list| && (i < |list| ==> list[i].s == s)
  {
    if list == [] then 0 else if list[0].s == s then 0 else 1 + IndexOf(list[1..], s)
  }

  /** add_edge adds both ends before the edge. */
  ghost predicate Complete(list: Vertices)
  {
    forall i, j :: 0 <= i < |list| && 0 <= j < |list[i].next| ==> IndexOf(list, list[i].next[j]) < |list|
  }

  ghost function Successors(list: Vertices, v: Vertex): seq<nat>
  {
    seq(|v.next|, j requires 0 <= j < |v.next| => IndexOf(list, v.next[j]))
  }

  ghost function GraphOf(list: Vertices): (g: Graph)
    ensures |g| == |list| && forall i :: 0 <= i < |list| ==> g[i] == Successors(list, list[i])
    ensures Complete(list) ==> Closed(g)
  {
    seq(|list|, i requires 0 <= i < |list| => Successors(list, list[i]))
  }

  lemma {:induction false} Cardinality(s: set<nat>, n: nat)
    requires forall x :: x in s ==> x < n
    ensures |s| <= n
    decreases n
  {
    if n > 0 {
      Cardinality(s - {n - 1}, n - 1);
    } else {
      assert s == {};
    }
  }

  class Detector {
    const list: Vertices
    const visited: array<bool>
    const path: array<int>
    var k: nat
    var deadlock: bool

    ghost predicate Valid()
    {
      && |list| <= MAX && Complete(list)
      && visited.Length == MAX && path.Length == MAX + 1 && visited as object != path as object
    }

    ghost function Seen(): set<nat>
      reads visited
      requires Valid()
    {
      set v: nat | v < |list| && visited[v]
    }

    constructor (list: Vertices)
      requires |list| <= MAX && Complete(list)
      ensures Valid() && this.list == list && fresh(visited) && fresh(path)
    {
      this.list := list;
      visited := new bool[MAX](_ => false);
      path := new int[MAX + 1](_ => 0);
      k, deadlock := 0, false;
    }

    method SearchVertex(s: Source) returns (i: nat)
      ensures i == IndexOf(list, s)
    {
      i := 0;
      assert list[0..] == list;
      while i < |list|
        invariant i <= |list| && IndexOf(list, s) == i + IndexOf(list[i..], s)
      {
        assert list[i..][1..] == list[i + 1..];
        if list[i].s == s {
          return;
        }
        i := i + 1;
      }
    }

    method DFS(idx: nat)
      requires Valid() && idx < |list| && k <= |Seen()|
      modifies this`k, this`deadlock, visited, path
      ensures Seen() == Dfs(GraphOf(list), idx, old(Seen())).0
      ensures deadlock == (old(deadlock) || Dfs(GraphOf(list), idx, old(Seen())).1)
      ensures k == old(k) + 1
      decreases Deadlock.Vertices(GraphOf(list)) - Seen()
    {
      Cardinality(Seen(), |list|);
      if visited[idx] {
        path[k] := idx;
        k := k + 1;
        deadlock := true;
        return;
      }
      ghost var g, seen0 := GraphOf(list), Seen();
      Enter(idx);
      ghost var start := Seen();
      ghost var whole := DfsFrom(g, idx, 0, start);
      ghost var rest := whole;
      var i := 0;
      while i < |list[idx].next|
        invariant i <= |list[idx].next| && start <= Seen() && k == old(k) + 1 <= |Seen()|
        invariant rest == DfsFrom(g, idx, i, Seen()) && rest.0 == whole.0
        invariant (deadlock || rest.1) == (old(deadlock) || whole.1)
      {
        ghost var seen := Seen();
        var v := SearchVertex(list[idx].next[i]);
        Smaller(g, seen0, seen, idx);
        OneMore(g, idx, i, seen);
        DFS(v);
        More(seen, Seen());
        rest := DfsFrom(g, idx, i + 1, Seen());
        k := k - 1;
        i := i + 1;
      }
    }

    method Enter(idx: nat)
      requires Valid() && idx < |list| && !visited[idx] && k <= |Seen()| && k <= MAX
      modifies this`k, visited, path
      ensures Seen() == old(Seen()) + {idx} && k == old(k) + 1 <= |Seen()|
    {
      ghost var seen := Seen();
      visited[idx] := true;
      path[k] := idx;
      k := k + 1;
      assert Seen() == seen + {idx} && |seen + {idx}| == |seen| + 1;
    }

    /** One successor searched. */
    lemma OneMore(g: Graph, v: nat, i: nat, seen: set<nat>)
      requires Closed(g) && v < |g| && i < |g[v]|
      ensures var here := Dfs(g, g[v][i], seen); var rest := DfsFrom(g, v, i + 1, here.0);
              DfsFrom(g, v, i, seen) == (rest.0, here.1 || rest.1)
    {
    }

    lemma Smaller(g: Graph, s: set<nat>, s': set<nat>, v: nat)
      requires s <= s' && v in s' && v !in s && IsVertex(g, v)
      ensures Deadlock.Vertices(g) - s' < Deadlock.Vertices(g) - s
    {
      assert v in Deadlock.Vertices(g) - s;
    }

    lemma More(s: set<nat>, s': set<nat>)
      requires s <= s'
      ensures |s| <= |s'|
    {
      assert s' == s + (s' - s);
    }

    method SearchForCycle(idx: nat)
      requires Valid() && idx < |list|
      modifies this`k, this`deadlock, visited, path
      ensures deadlock == (old(deadlock) || Reports(GraphOf(list), idx))
    {
      ghost var g := GraphOf(list);
      visited[idx] := true;
      k := 0;
      path[k] := idx;
      k := k + 1;
      var j := 0;
      while j < |list[idx].next|
        invariant j <= |list[idx].next| && visited[idx]
        invariant deadlock == (old(deadlock) || exists e: nat :: e < j && Dfs(g, g[idx][e], {idx}).1)
      {
        ResetVisited(idx);
        ResetPath();
        k := 1;
        var v := SearchVertex(list[idx].next[j]);
        ghost var before := deadlock;
        DFS(v);
        assert deadlock == (before || Dfs(g, g[idx][j], {idx}).1);
        j := j + 1;
      }
    }

    method ResetVisited(idx: nat)
      requires Valid() && idx < |list| && visited[idx]
      modifies visited
      ensures Seen() == {idx}
    {
      var i := 0;
      while i < |list|
        invariant i <= |list| && visited[idx]
        invariant forall u :: 0 <= u < i && u != idx ==> !visited[u]
      {
        if i != idx {
          visited[i] := false;
        }
        i := i + 1;
      }
    }

    method ResetPath()
      requires Valid()
      modifies path
    {
      var i := 1;
      while i <= MAX
        invariant 1 <= i <= MAX + 1
      {
        path[i] := -1;
        i := i + 1;
      }
    }

    /** check_dead_lock: deadlock ends set exactly if a search from some vertex reports. */
    method CheckDeadLock()
      requires Valid()
      modifies this`k, this`deadlock, visited, path
      ensures deadlock <==> exists idx: nat :: idx < |list| && Reports(GraphOf(list), idx)
      ensures !deadlock ==> !Cyclic(GraphOf(list))
      ensures (forall v :: v in list ==> |v.next| <= 1) ==> (deadlock <==> Cyclic(GraphOf(list)))
    {
      ghost var g := GraphOf(list);
      deadlock := false;
      var i := 0;
      while i < |list|
        invariant i <= |list|
        invariant deadlock <==> exists idx: nat :: idx < i && Reports(g, idx)
      {
        if deadlock {
          break;
        }
        SearchForCycle(i);
        i := i + 1;
      }
      if !deadlock {
        SilentMeansAcyclic(g);
      } else if forall v :: v in list ==> |v.next| <= 1 {
        OneSuccessorExact(g);
      }
    }
  }
}
