/** The timer skip list: nodes with an array of forward pointers each, a header as tall as any can
    be, and the nodes in order as a ghost sequence. */
module SkipList {
  import opened SkipShape

  const MAXLEVEL: nat := 32

  class SkipNode {
    const score: nat
    const forward: array<SkipNode?>

    /** zslCreateNode */
    constructor (level: nat, score: nat)
      ensures this.score == score && forward.Length == level && fresh(forward)
      ensures forall i :: 0 <= i < level ==> forward[i] == null
    {
      this.score := score;
      forward := new SkipNode?[level](_ => null);
    }
  }

  ghost function Heights(nodes: seq<SkipNode>): (hs: seq<nat>)
    ensures |hs| == |nodes| && forall k :: 0 <= k < |nodes| ==> hs[k] == nodes[k].forward.Length
  {
    seq(|nodes|, k requires 0 <= k < |nodes| => nodes[k].forward.Length)
  }

  /** Node number a; -1 is the header. */
  ghost function At(header: SkipNode, nodes: seq<SkipNode>, a: int): SkipNode
    requires -1 <= a < |nodes|
  {
    if a == -1 then header else nodes[a]
  }

  ghost function Ptr(nodes: seq<SkipNode>, r: nat): SkipNode?
  {
    if r < |nodes| then nodes[r] else null
  }

  /** No two nodes, and no two pointer arrays, are the same. */
  ghost predicate Apart(header: SkipNode, nodes: seq<SkipNode>)
  {
    forall a, b :: -1 <= a < b < |nodes| ==>
      At(header, nodes, a) != At(header, nodes, b) && At(header, nodes, a).forward != At(header, nodes, b).forward
  }

  ghost function Arrays(header: SkipNode, nodes: seq<SkipNode>): set<array<SkipNode?>>
  {
    {header.forward} + set x | x in nodes :: x.forward
  }

  /** On level i every tall enough node points to the next one. */
  ghost predicate Level(header: SkipNode, nodes: seq<SkipNode>, i: nat)
    reads Arrays(header, nodes)
  {
    forall a :: -1 <= a < |nodes| ==> LinkOk(header, nodes, a, i)
  }

  ghost predicate LinkOk(header: SkipNode, nodes: seq<SkipNode>, a: int, i: nat)
    requires -1 <= a < |nodes|
    reads At(header, nodes, a).forward
  {
    i < At(header, nodes, a).forward.Length ==>
      At(header, nodes, a).forward[i] == Ptr(nodes, NextFrom(Heights(nodes), a + 1, i))
  }

  lemma HeightsInserted(nodes: seq<SkipNode>, p: nat, x: SkipNode)
    requires p <= |nodes|
    ensures Heights(Inserted(nodes, p, x)) == Inserted(Heights(nodes), p, x.forward.Length)
  {
  }

  lemma HeightsRemoved(nodes: seq<SkipNode>, p: nat)
    requires p < |nodes|
    ensures Heights(Removed(nodes, p)) == Removed(Heights(nodes), p)
  {
  }

  lemma PtrUp(nodes: seq<SkipNode>, p: nat, x: SkipNode, n: nat)
    requires p <= |nodes|
    ensures Ptr(Inserted(nodes, p, x), Up(n, p)) == Ptr(nodes, n) && Ptr(Inserted(nodes, p, x), p) == x
  {
  }

  lemma PtrDown(nodes: seq<SkipNode>, p: nat, n: nat)
    requires p < |nodes| && n != p
    ensures Ptr(Removed(nodes, p), Down(n, p)) == Ptr(nodes, n)
  {
  }

  lemma AtUp(header: SkipNode, nodes: seq<SkipNode>, p: nat, x: SkipNode, a: int)
    requires p <= |nodes| && -1 <= a < |nodes|
    ensures At(header, Inserted(nodes, p, x), Up(a, p)) == At(header, nodes, a)
  {
  }

  /** What a node's pointer must be after an insertion at p. */
  lemma {:induction false} PointsUp(header: SkipNode, nodes: seq<SkipNode>, p: nat, x: SkipNode, i: nat, a: int)
    requires p <= |nodes| && -1 <= a < |nodes| && i < At(header, nodes, a).forward.Length
    ensures Ptr(Inserted(nodes, p, x), NextFrom(Heights(Inserted(nodes, p, x)), Up(a, p) + 1, i))
            == if a == PrevOf(Heights(nodes), p, i) && i < x.forward.Length then x
                else Ptr(nodes, NextFrom(Heights(nodes), a + 1, i))
  {
    var hs, hs' := Heights(nodes), Heights(Inserted(nodes, p, x));
    OldNext(hs, hs', p, x.forward.Length, i, a) by {
      HeightsInserted(nodes, p, x);
    }
    PtrUp(nodes, p, x, NextFrom(hs, a + 1, i));
  }

  lemma OldNext(hs: seq<nat>, hs': seq<nat>, p: nat, h: nat, i: nat, a: int)
    requires p <= |hs| && hs' == Inserted(hs, p, h) && -1 <= a < |hs| && (a >= 0 ==> hs[a] > i)
    ensures NextFrom(hs', Up(a, p) + 1, i) == if a == PrevOf(hs, p, i) && i < h then p
            else Up(NextFrom(hs, a + 1, i), p)
  {
    NextUp(hs, p, h, i, a);
  }

  /** And the new node's: what its predecessor pointed at. */
  lemma {:induction false} NewPoints(nodes: seq<SkipNode>, p: nat, x: SkipNode, i: nat)
    requires p <= |nodes|
    ensures Ptr(Inserted(nodes, p, x), NextFrom(Heights(Inserted(nodes, p, x)), p + 1, i))
            == Ptr(nodes, NextFrom(Heights(nodes), PrevOf(Heights(nodes), p, i) + 1, i))
  {
    var hs, hs' := Heights(nodes), Heights(Inserted(nodes, p, x));
    NewNext(hs, hs', p, x.forward.Length, i) by {
      HeightsInserted(nodes, p, x);
    }
    PtrUp(nodes, p, x, NextFrom(hs, PrevOf(hs, p, i) + 1, i));
  }

  lemma NewNext(hs: seq<nat>, hs': seq<nat>, p: nat, h: nat, i: nat)
    requires p <= |hs| && hs' == Inserted(hs, p, h)
    ensures NextFrom(hs', p + 1, i) == Up(NextFrom(hs, PrevOf(hs, p, i) + 1, i), p)
  {
    NextOfNew(hs, p, h, i);
  }

  /** Where an old node's pointer is right after an insertion. */
  lemma {:induction false} LinkUp(header: SkipNode, nodes: seq<SkipNode>, p: nat, x: SkipNode, i: nat, a: int)
    requires p <= |nodes| && -1 <= a < |nodes|
    requires i < At(header, nodes, a).forward.Length ==>
               if a == PrevOf(Heights(nodes), p, i) && i < x.forward.Length then At(header, nodes, a).forward[i] == x
               else LinkOk(header, nodes, a, i)
    ensures LinkOk(header, Inserted(nodes, p, x), Up(a, p), i)
  {
    AtUp(header, nodes, p, x, a);
    if i < At(header, nodes, a).forward.Length {
      PointsUp(header, nodes, p, x, i, a);
    }
  }

  /** The whole level, from its old nodes and the new one. */
  lemma LevelOfLinks(header: SkipNode, nodes: seq<SkipNode>, p: nat, x: SkipNode, i: nat)
    requires p <= |nodes| && LinkOk(header, Inserted(nodes, p, x), p, i)
    requires forall a :: -1 <= a < |nodes| ==> LinkOk(header, Inserted(nodes, p, x), Up(a, p), i)
    ensures Level(header, Inserted(nodes, p, x), i)
  {
    forall a' | -1 <= a' <= |nodes|
      ensures LinkOk(header, Inserted(nodes, p, x), a', i)
    {
      if a' < p {
        assert Up(a', p) == a';
      } else if a' > p {
        assert Up(a' - 1, p) == a';
      }
    }
  }

  /** The level is right again once x and its predecessor point where they should. */
  lemma {:induction false} LevelUp(header: SkipNode, nodes: seq<SkipNode>, p: nat, x: SkipNode, i: nat)
    requires p <= |nodes| && i < x.forward.Length
    requires var q := PrevOf(Heights(nodes), p, i);
             && (i < At(header, nodes, q).forward.Length ==> At(header, nodes, q).forward[i] == x)
             && x.forward[i] == Ptr(nodes, NextFrom(Heights(nodes), q + 1, i))
             && forall a :: -1 <= a < |nodes| && a != q ==> LinkOk(header, nodes, a, i)
    ensures Level(header, Inserted(nodes, p, x), i)
  {
    NewPoints(nodes, p, x, i);
    forall a | -1 <= a < |nodes|
      ensures LinkOk(header, Inserted(nodes, p, x), Up(a, p), i)
    {
      LinkUp(header, nodes, p, x, i, a);
    }
    LevelOfLinks(header, nodes, p, x, i);
  }

  /** A level x is not tall enough for stays right when x is put in. */
  lemma LevelBeside(header: SkipNode, nodes: seq<SkipNode>, p: nat, x: SkipNode, i: nat)
    requires p <= |nodes| && i >= x.forward.Length && Level(header, nodes, i)
    ensures Level(header, Inserted(nodes, p, x), i)
  {
    forall a | -1 <= a < |nodes|
      ensures LinkOk(header, Inserted(nodes, p, x), Up(a, p), i)
    {
      assert LinkOk(header, nodes, a, i);
      LinkUp(header, nodes, p, x, i, a);
    }
    LevelOfLinks(header, nodes, p, x, i);
  }

  /** Places in the pointer arrays other than those of level i. */
  twostate predicate Untouched(header: SkipNode, nodes: seq<SkipNode>, i: nat)
    reads Arrays(header, nodes)
  {
    forall a, j :: -1 <= a < |nodes| && 0 <= j < At(header, nodes, a).forward.Length && j != i ==>
      At(header, nodes, a).forward[j] == old(At(header, nodes, a).forward[j])
  }

  lemma NewApart(header: SkipNode, nodes: seq<SkipNode>, p: nat, x: SkipNode, a: int)
    requires p <= |nodes| && -1 <= a < |nodes| && Apart(header, Inserted(nodes, p, x))
    ensures At(header, nodes, a) != x && At(header, nodes, a).forward != x.forward
    ensures forall b :: -1 <= b < |nodes| && b != a ==> At(header, nodes, b).forward != At(header, nodes, a).forward
  {
    var nodes' := Inserted(nodes, p, x);
    AtUp(header, nodes, p, x, a);
    assert At(header, nodes', p) == x;
    forall b | -1 <= b < |nodes| && b != a
      ensures At(header, nodes, b).forward != At(header, nodes, a).forward
    {
      AtUp(header, nodes, p, x, b);
    }
  }

  /** One turn of zslInsert's linking loop. */
  method LinkLevel(header: SkipNode, ghost nodes: seq<SkipNode>, ghost p: nat, x: SkipNode, u: SkipNode, i: nat)
    requires p <= |nodes| && Apart(header, Inserted(nodes, p, x)) && Level(header, nodes, i)
    requires i < x.forward.Length && i < header.forward.Length && u == At(header, nodes, PrevOf(Heights(nodes), p, i))
    modifies x.forward, u.forward
    ensures Level(header, Inserted(nodes, p, x), i) && Untouched(header, Inserted(nodes, p, x), i)
  {
    ghost var q := PrevOf(Heights(nodes), p, i);
    NewApart(header, nodes, p, x, q);
    assert LinkOk(header, nodes, q, i);
    SetTwo(x, u, i);
    forall a | -1 <= a < |nodes| && a != q
      ensures LinkOk(header, nodes, a, i)
    {
      NewApart(header, nodes, p, x, a);
      assert old(LinkOk(header, nodes, a, i));
    }
    LevelUp(header, nodes, p, x, i);
  }

  method SetTwo(x: SkipNode, u: SkipNode, i: nat)
    requires i < x.forward.Length && i < u.forward.Length && x.forward != u.forward
    modifies x.forward, u.forward
    ensures x.forward[i] == old(u.forward[i]) && u.forward[i] == x
    ensures forall j :: 0 <= j < x.forward.Length && j != i ==> x.forward[j] == old(x.forward[j])
    ensures forall j :: 0 <= j < u.forward.Length && j != i ==> u.forward[j] == old(u.forward[j])
  {
    x.forward[i] := u.forward[i];
    u.forward[i] := x;
  }

  /** The turn leaves the levels before it and after it alone. */
  method LinkTurn(header: SkipNode, ghost nodes: seq<SkipNode>, ghost p: nat, x: SkipNode, u: SkipNode, i: nat)
    requires p <= |nodes| && Apart(header, Inserted(nodes, p, x))
    requires (forall j: nat :: j < i ==> Level(header, Inserted(nodes, p, x), j))
             && (forall j: nat :: i <= j < MAXLEVEL ==> Level(header, nodes, j))
    requires i < x.forward.Length && i < header.forward.Length == MAXLEVEL
             && u == At(header, nodes, PrevOf(Heights(nodes), p, i))
    modifies x.forward, u.forward
    ensures forall j: nat :: j <= i ==> Level(header, Inserted(nodes, p, x), j)
    ensures forall j: nat :: i < j < MAXLEVEL ==> Level(header, nodes, j)
  {
    ghost var nodes' := Inserted(nodes, p, x);
    LinkLevel(header, nodes, p, x, u, i);
    forall j: nat | j < i
      ensures Level(header, nodes', j)
    {
      assert old(Level(header, nodes', j));
      forall a | -1 <= a < |nodes'|
        ensures LinkOk(header, nodes', a, j)
      {
        assert old(LinkOk(header, nodes', a, j));
      }
    }
    forall j: nat | i < j < MAXLEVEL
      ensures Level(header, nodes, j)
    {
      assert old(Level(header, nodes, j));
      forall a | -1 <= a < |nodes|
        ensures LinkOk(header, nodes, a, j)
      {
        assert old(LinkOk(header, nodes, a, j));
        AtUp(header, nodes, p, x, a);
      }
    }
  }

  lemma AtDown(header: SkipNode, nodes: seq<SkipNode>, p: nat, a: int)
    requires p < |nodes| && -1 <= a < |nodes| && a != p
    ensures At(header, Removed(nodes, p), Down(a, p)) == At(header, nodes, a)
  {
  }

  /** What a remaining node's pointer must be once node p is gone. */
  lemma {:induction false} PointsDown(header: SkipNode, nodes: seq<SkipNode>, p: nat, i: nat, a: int)
    requires p < |nodes| && -1 <= a < |nodes| && a != p && i < At(header, nodes, a).forward.Length
    ensures var hs := Heights(nodes);
            Ptr(Removed(nodes, p), NextFrom(Heights(Removed(nodes, p)), Down(a, p) + 1, i))
            == if a == PrevOf(hs, p, i) && i < nodes[p].forward.Length then Ptr(nodes, NextFrom(hs, p + 1, i))
               else Ptr(nodes, NextFrom(hs, a + 1, i))
  {
    var hs := Heights(nodes);
    HeightsRemoved(nodes, p);
    NextDown(hs, p, i, a);
    PtrDown(nodes, p, if NextFrom(hs, a + 1, i) == p then NextFrom(hs, p + 1, i) else NextFrom(hs, a + 1, i));
  }

  lemma {:induction false} LinkDown(header: SkipNode, nodes: seq<SkipNode>, p: nat, i: nat, a: int)
    requires p < |nodes| && -1 <= a < |nodes| && a != p
    requires i < At(header, nodes, a).forward.Length ==>
               if a == PrevOf(Heights(nodes), p, i) && i < nodes[p].forward.Length
               then At(header, nodes, a).forward[i] == Ptr(nodes, NextFrom(Heights(nodes), p + 1, i))
               else LinkOk(header, nodes, a, i)
    ensures LinkOk(header, Removed(nodes, p), Down(a, p), i)
  {
    AtDown(header, nodes, p, a);
    if i < At(header, nodes, a).forward.Length {
      PointsDown(header, nodes, p, i, a);
    }
  }

  lemma LevelOfLinksDown(header: SkipNode, nodes: seq<SkipNode>, p: nat, i: nat)
    requires p < |nodes| && forall a :: -1 <= a < |nodes| && a != p ==> LinkOk(header, Removed(nodes, p), Down(a, p), i)
    ensures Level(header, Removed(nodes, p), i)
  {
    forall a' | -1 <= a' < |nodes| - 1
      ensures LinkOk(header, Removed(nodes, p), a', i)
    {
      if a' < p {
        assert Down(a', p) == a';
      } else {
        assert Down(a' + 1, p) == a';
      }
    }
  }

  /** The level is right without node p once its predecessor points past it. */
  lemma {:induction false} LevelDown(header: SkipNode, nodes: seq<SkipNode>, p: nat, i: nat)
    requires p < |nodes|
    requires var q := PrevOf(Heights(nodes), p, i);
             && (forall a ::
                   -1 <= a < |nodes| && a != p && !(a == q && i < nodes[p].forward.Length)
                   ==> LinkOk(header, nodes, a, i))
             && (i < nodes[p].forward.Length && i < At(header, nodes, q).forward.Length ==>
                   At(header, nodes, q).forward[i] == Ptr(nodes, NextFrom(Heights(nodes), p + 1, i)))
    ensures Level(header, Removed(nodes, p), i)
  {
    forall a | -1 <= a < |nodes| && a != p
      ensures LinkOk(header, Removed(nodes, p), Down(a, p), i)
    {
      LinkDown(header, nodes, p, i, a);
    }
    LevelOfLinksDown(header, nodes, p, i);
  }

  lemma TwoApart(header: SkipNode, nodes: seq<SkipNode>, a: int, b: int)
    requires Apart(header, nodes) && -1 <= a < |nodes| && -1 <= b < |nodes| && a != b
    ensures At(header, nodes, a) != At(header, nodes, b) && At(header, nodes, a).forward != At(header, nodes, b).forward
  {
  }

  /** Whether the predecessor points at node p. */
  lemma {:induction false} PointsAt(header: SkipNode, nodes: seq<SkipNode>, p: nat, i: nat)
    requires p < |nodes| && Apart(header, nodes) && Level(header, nodes, i) && i < header.forward.Length
    ensures var u := At(header, nodes, PrevOf(Heights(nodes), p, i));
            i < u.forward.Length && (u.forward[i] == nodes[p] <==> i < nodes[p].forward.Length)
    ensures i < nodes[p].forward.Length ==> nodes[p].forward[i] == Ptr(nodes, NextFrom(Heights(nodes), p + 1, i))
  {
    var hs := Heights(nodes);
    var q := PrevOf(hs, p, i);
    assert LinkOk(header, nodes, q, i);
    assert LinkOk(header, nodes, p, i);
    PrevNext(hs, p, i, q);
    var n := NextFrom(hs, q + 1, i);
    if n < |nodes| && n != p {
      TwoApart(header, nodes, n, p);
    }
  }

  /** One turn of the loops of zslDeleteHead and zslDeleteNode. */
  method UnlinkLevel(header: SkipNode, ghost nodes: seq<SkipNode>, ghost p: nat, x: SkipNode, u: SkipNode, i: nat)
    requires p < |nodes| && x == nodes[p] && Apart(header, nodes) && Level(header, nodes, i)
    requires i < header.forward.Length && u == At(header, nodes, PrevOf(Heights(nodes), p, i))
    modifies u.forward
    ensures Level(header, Removed(nodes, p), i)
    ensures forall j :: 0 <= j < u.forward.Length && j != i ==> u.forward[j] == old(u.forward[j])
  {
    ghost var q := PrevOf(Heights(nodes), p, i);
    PointsAt(header, nodes, p, i);
    if u.forward[i] == x {
      u.forward[i] := x.forward[i];
    }
    forall a | -1 <= a < |nodes| && a != p && !(a == q && i < nodes[p].forward.Length)
      ensures LinkOk(header, nodes, a, i)
    {
      assert old(LinkOk(header, nodes, a, i));
      if a != q {
        TwoApart(header, nodes, a, q);
      }
    }
    LevelDown(header, nodes, p, i);
  }

  /** The turn leaves the other levels alone. */
  method UnlinkTurn(header: SkipNode, ghost nodes: seq<SkipNode>, ghost p: nat, x: SkipNode, u: SkipNode, i: nat,
                    ghost done: set<nat>)
    requires p < |nodes| && x == nodes[p] && Apart(header, nodes) && i < header.forward.Length == MAXLEVEL && i !in done
    requires u == At(header, nodes, PrevOf(Heights(nodes), p, i))
    requires (forall j: nat :: j in done ==> Level(header, Removed(nodes, p), j))
             && (forall j: nat :: j < MAXLEVEL && j !in done ==> Level(header, nodes, j))
    modifies u.forward
    ensures forall j: nat :: j in done + {i} ==> Level(header, Removed(nodes, p), j)
    ensures forall j: nat :: j < MAXLEVEL && j !in done + {i} ==> Level(header, nodes, j)
  {
    ghost var nodes' := Removed(nodes, p);
    UnlinkLevel(header, nodes, p, x, u, i);
    forall j: nat | j in done
      ensures Level(header, nodes', j)
    {
      assert old(Level(header, nodes', j));
      forall a | -1 <= a < |nodes'|
        ensures LinkOk(header, nodes', a, j)
      {
        assert old(LinkOk(header, nodes', a, j));
      }
    }
    forall j: nat | j < MAXLEVEL && j !in done + {i}
      ensures Level(header, nodes, j)
    {
      assert old(Level(header, nodes, j));
      forall a | -1 <= a < |nodes|
        ensures LinkOk(header, nodes, a, j)
      {
        assert old(LinkOk(header, nodes, a, j));
      }
    }
  }

  // ---- the list ----

  ghost predicate Sorted(nodes: seq<SkipNode>)
  {
    forall a, b :: 0 <= a < b < |nodes| ==> nodes[a].score <= nodes[b].score
  }

  /** The number of nodes before the first one whose score is not below this one. */
  ghost function Rank(nodes: seq<SkipNode>, score: nat): (p: nat)
    ensures p <= |nodes|
  {
    FirstNotBelow(nodes, 0, score)
  }

  ghost function FirstNotBelow(nodes: seq<SkipNode>, b: nat, score: nat): (p: nat)
    requires b <= |nodes|
    ensures b <= p <= |nodes|
    decreases |nodes| - b
  {
    if b == |nodes| || nodes[b].score >= score then b else FirstNotBelow(nodes, b + 1, score)
  }

  lemma {:induction false} RankSplits(nodes: seq<SkipNode>, b: nat, score: nat)
    requires b <= |nodes|
    ensures var p := FirstNotBelow(nodes, b, score);
            (forall a :: b <= a < p ==> nodes[a].score < score) && (p < |nodes| ==> nodes[p].score >= score)
    decreases |nodes| - b
  {
    if b < |nodes| && nodes[b].score < score {
      RankSplits(nodes, b + 1, score);
    }
  }

  /** The tallest node's height, at least 1. */
  ghost predicate Tallest(nodes: seq<SkipNode>, level: nat)
  {
    && 1 <= level <= MAXLEVEL
    && (forall a :: 0 <= a < |nodes| ==> 1 <= nodes[a].forward.Length <= level)
    && (level > 1 ==> exists a :: 0 <= a < |nodes| && nodes[a].forward.Length == level)
  }

  class ZSkipList {
    const header: SkipNode
    var level: nat
    var length: nat
    ghost var nodes: seq<SkipNode>

    ghost predicate Valid()
      reads this, Arrays(header, nodes)
    {
      Linked() && Tallest(nodes, level)
    }

    /** All of it but the level. */
    ghost predicate Linked()
      reads this, Arrays(header, nodes)
    {
      && header.forward.Length == MAXLEVEL && Apart(header, nodes) && Sorted(nodes) && length == |nodes|
      && forall i: nat :: i < MAXLEVEL ==> Level(header, nodes, i)
    }

    /** zslCreate */
    constructor ()
      ensures Valid() && nodes == [] && fresh(header.forward)
    {
      header := new SkipNode(MAXLEVEL, 0);
      level, length := 1, 0;
      nodes := [];
    }

    /** Links above level hold nothing. */
    lemma AboveLevel(i: nat)
      requires Valid() && level <= i < MAXLEVEL
      ensures header.forward[i] == null
    {
      assert Level(header, nodes, i);
      assert LinkOk(header, nodes, -1, i);
      NextIs(Heights(nodes), 0, i, |nodes|);
    }

    /** Level 0 is the whole list in order; level i the nodes taller than i, in order. */
    lemma NextOnLevel(a: int, i: nat)
      requires Valid() && -1 <= a < |nodes| && i < At(header, nodes, a).forward.Length && i < MAXLEVEL
      ensures var next := At(header, nodes, a).forward[i];
              if next == null then forall b :: a < b < |nodes| ==> nodes[b].forward.Length <= i
              else exists b :: a < b < |nodes| && nodes[b] == next && next.forward.Length > i
                               && forall c :: a < c < b ==> nodes[c].forward.Length <= i
    {
      assert Level(header, nodes, i);
      assert LinkOk(header, nodes, a, i);
      NextIsFirst(Heights(nodes), a + 1, i);
      var b := NextFrom(Heights(nodes), a + 1, i);
      assert b < |nodes| ==> a < b < |nodes| && nodes[b] == At(header, nodes, a).forward[i];
    }

    /** The walk along one level: as far as the scores stay below. */
    method Walk(x0: SkipNode, i: nat, score: nat, ghost a0: int) returns (x: SkipNode, ghost a: int)
      requires Valid() && i < level
      requires -1 <= a0 < Rank(nodes, score) && x0 == At(header, nodes, a0) && i < x0.forward.Length
      ensures Valid() && a0 <= a < Rank(nodes, score) && x == At(header, nodes, a) && i < x.forward.Length
      ensures x == Before(score, i)
    {
      x, a := x0, a0;
      while x.forward[i] != null && x.forward[i].score < score
        invariant Valid() && Level(header, nodes, i)
        invariant a0 <= a < Rank(nodes, score) && x == At(header, nodes, a) && i < x.forward.Length
        decreases Rank(nodes, score) - a
      {
        a := StepOn(a, i, score);
        x := x.forward[i];
      }
      WalkEnd(a, i, score);
    }

    /** One step of the walk. */
    lemma StepOn(a: int, i: nat, score: nat) returns (b: int)
      requires Sorted(nodes) && -1 <= a < |nodes| && i < At(header, nodes, a).forward.Length
               && LinkOk(header, nodes, a, i)
      requires var y := At(header, nodes, a).forward[i]; y != null && y.score < score
      ensures a < b < Rank(nodes, score) && nodes[b] == At(header, nodes, a).forward[i] && i < nodes[b].forward.Length
    {
      b := NextFrom(Heights(nodes), a + 1, i);
      NextIsFirst(Heights(nodes), a + 1, i);
      Below(b, score);
    }

    /** Where the walk stops is the last tall node before the score's place. */
    lemma WalkEnd(a: int, i: nat, score: nat)
      requires -1 <= a < Rank(nodes, score) && i < At(header, nodes, a).forward.Length && LinkOk(header, nodes, a, i)
      requires var y := At(header, nodes, a).forward[i]; y != null ==> y.score >= score
      ensures At(header, nodes, a) == Before(score, i)
    {
      var n := NextFrom(Heights(nodes), a + 1, i);
      if n < |nodes| {
        NotBelow(n, score);
      }
      PrevNext(Heights(nodes), Rank(nodes, score), i, a);
    }

    lemma Below(b: nat, score: nat)
      requires Sorted(nodes) && b < |nodes| && nodes[b].score < score
      ensures b < Rank(nodes, score)
    {
      RankSplits(nodes, 0, score);
    }

    lemma NotBelow(b: nat, score: nat)
      requires b < |nodes| && nodes[b].score >= score
      ensures b >= Rank(nodes, score)
    {
      RankSplits(nodes, 0, score);
    }

    /** The search both zslInsert and zslDelete start with: update[i] is the last node before the
        score's place that is taller than i. */
    method Search(score: nat) returns (x: SkipNode, update: seq<SkipNode>)
      requires Valid()
      ensures Valid() && |update| == MAXLEVEL && Sought(update, level, score) && x == update[0]
    {
      x := header;
      update := seq(MAXLEVEL, _ => header);
      ghost var a := -1;
      var i := level;
      while i > 0
        invariant Valid() && 0 <= i <= level && |update| == MAXLEVEL && -1 <= a < Rank(nodes, score)
                  && x == At(header, nodes, a)
        invariant a >= 0 ==> i < nodes[a].forward.Length
        invariant forall j: nat :: i <= j < level ==> update[j] == Before(score, j)
        invariant i < level ==> x == update[i]
      {
        i := i - 1;
        x, a := Walk(x, i, score, a);
        update := update[i := x];
      }
    }

    /** The last node before the score's place that is taller than j. */
    ghost function Before(score: nat, j: nat): SkipNode
      reads this
    {
      At(header, nodes, PrevOf(Heights(nodes), Rank(nodes, score), j))
    }

    ghost predicate Sought(update: seq<SkipNode>, top: nat, score: nat)
      reads this
    {
      && top <= |update|
      && forall j: nat :: j < top ==> update[j] == Before(score, j)
    }

    /** On levels no node reaches, the last tall node is the header. */
    lemma {:induction false} AllBelow(p: nat, i: nat)
      requires p <= |nodes| && Tallest(nodes, level) && i >= level
      ensures PrevOf(Heights(nodes), p, i) == -1
    {
    }

    /** The entries of update above the old level. */
    method Raise(update0: seq<SkipNode>, h: nat, score: nat) returns (update: seq<SkipNode>)
      requires Valid() && |update0| == MAXLEVEL && Sought(update0, level, score) && h <= MAXLEVEL
      ensures |update| == MAXLEVEL && Sought(update, if h > level then h else level, score)
    {
      update := update0;
      if h > level {
        var i := level;
        while i < h
          invariant level <= i <= h && |update| == MAXLEVEL && Sought(update, i, score)
        {
          AllBelow(Rank(nodes, score), i);
          update := update[i := header];
          i := i + 1;
        }
      }
    }

    /** The linking loop. */
    method Link(x: SkipNode, update: seq<SkipNode>, ghost p: nat)
      requires header.forward.Length == MAXLEVEL && p <= |nodes| && Apart(header, Inserted(nodes, p, x))
               && x.forward.Length <= MAXLEVEL
      requires forall i: nat :: i < MAXLEVEL ==> Level(header, nodes, i)
      requires |update| == MAXLEVEL
      requires forall j: nat ::
                 j < x.forward.Length ==> update[j] == At(header, nodes, PrevOf(Heights(nodes), p, j))
      modifies Arrays(header, Inserted(nodes, p, x))
      ensures forall i: nat :: i < MAXLEVEL ==> Level(header, Inserted(nodes, p, x), i)
    {
      ghost var ns := nodes;
      var i := 0;
      while i < x.forward.Length
        invariant i <= x.forward.Length
        invariant forall j: nat :: j < i ==> Level(header, Inserted(ns, p, x), j)
        invariant forall j: nat :: i <= j < MAXLEVEL ==> Level(header, ns, j)
      {
        InArrays(ns, p, x, PrevOf(Heights(ns), p, i));
        LinkTurn(header, ns, p, x, update[i], i);
        i := i + 1;
      }
      forall j: nat | x.forward.Length <= j < MAXLEVEL
        ensures Level(header, Inserted(ns, p, x), j)
      {
        LevelBeside(header, ns, p, x, j);
      }
    }

    lemma InArrays(ns: seq<SkipNode>, p: nat, x: SkipNode, a: int)
      requires p <= |ns| && -1 <= a < |ns|
      ensures x.forward in Arrays(header, Inserted(ns, p, x))
              && At(header, ns, a).forward in Arrays(header, Inserted(ns, p, x))
    {
      AtUp(header, ns, p, x, a);
      assert Inserted(ns, p, x)[p] in Inserted(ns, p, x);
      if a >= 0 {
        assert Inserted(ns, p, x)[Up(a, p)] in Inserted(ns, p, x);
      }
    }

    lemma InsertedApart(ns: seq<SkipNode>, p: nat, x: SkipNode)
      requires Apart(header, ns) && p <= |ns| && x != header && x !in ns && x.forward !in Arrays(header, ns)
      ensures Apart(header, Inserted(ns, p, x))
    {
      var ns' := Inserted(ns, p, x);
      forall a, b | -1 <= a < b < |ns'|
        ensures At(header, ns', a) != At(header, ns', b) && At(header, ns', a).forward != At(header, ns', b).forward
      {
        if a == p {
          NotIn(ns, x, b - 1);
          AtUp(header, ns, p, x, b - 1);
        } else {
          var c := if a < p then a else a - 1;
          AtUp(header, ns, p, x, c);
          if b == p {
            NotIn(ns, x, c);
          } else {
            var d := if b < p then b else b - 1;
            AtUp(header, ns, p, x, d);
            TwoApart(header, ns, c, d);
          }
        }
      }
    }

    lemma NotIn(ns: seq<SkipNode>, x: SkipNode, a: int)
      requires -1 <= a < |ns| && x != header && x !in ns && x.forward !in Arrays(header, ns)
      ensures At(header, ns, a) != x && At(header, ns, a).forward != x.forward
    {
      if a >= 0 {
        assert ns[a] in ns;
      }
    }

    lemma InsertedSorted(ns: seq<SkipNode>, p: nat, x: SkipNode)
      requires Sorted(ns) && p == Rank(ns, x.score)
      ensures Sorted(Inserted(ns, p, x))
    {
      RankSplits(ns, 0, x.score);
    }

    lemma InsertedTallest(ns: seq<SkipNode>, p: nat, x: SkipNode, top: nat)
      requires p <= |ns| && Tallest(ns, top) && 1 <= x.forward.Length <= MAXLEVEL
      ensures Tallest(Inserted(ns, p, x), if x.forward.Length > top then x.forward.Length else top)
    {
      var ns' := Inserted(ns, p, x);
      assert ns'[p] == x;
      if top > 1 {
        var a :| 0 <= a < |ns| && ns[a].forward.Length == top;
        assert ns'[Up(a, p)].forward.Length == top;
      }
    }

    /** The new node is linked in, and the list is whole again. */
    method Adopt(x: SkipNode, update: seq<SkipNode>, ghost p: nat)
      requires Linked() && p <= |nodes| && Apart(header, Inserted(nodes, p, x)) && Sorted(Inserted(nodes, p, x))
      requires Tallest(Inserted(nodes, p, x), level)
      requires |update| == MAXLEVEL
      requires forall j: nat ::
                 j < x.forward.Length ==> update[j] == At(header, nodes, PrevOf(Heights(nodes), p, j))
      modifies this`length, this`nodes, Arrays(header, Inserted(nodes, p, x))
      ensures Valid() && nodes == Inserted(old(nodes), p, x)
    {
      assert Inserted(nodes, p, x)[p] == x;
      Link(x, update, p);
      length := length + 1;
      nodes := Inserted(nodes, p, x);
    }

    lemma ArraysInserted(p: nat, x: SkipNode)
      requires p <= |nodes|
      ensures Arrays(header, Inserted(nodes, p, x)) == Arrays(header, nodes) + {x.forward}
    {
      var ns' := Inserted(nodes, p, x);
      assert ns'[p] in ns';
      forall y | y in nodes
        ensures y in ns'
      {
        var a :| 0 <= a < |nodes| && nodes[a] == y;
        assert ns'[Up(a, p)] == y;
      }
      forall y | y in ns'
        ensures y == x || y in nodes
      {
        var a :| 0 <= a < |ns'| && ns'[a] == y;
      }
    }

    /** The level is raised to the new node's height. */
    method RaiseLevel(h: nat)
      requires Linked() && h <= MAXLEVEL
      modifies this`level
      ensures Linked() && level == if h > old(level) then h else old(level)
    {
      if h > level {
        level := h;
        forall i: nat | i < MAXLEVEL
          ensures Level(header, nodes, i)
        {
          assert old(Level(header, nodes, i));
          forall a | -1 <= a < |nodes|
            ensures LinkOk(header, nodes, a, i)
          {
            assert old(LinkOk(header, nodes, a, i));
          }
        }
      }
    }

    /** The new node, not yet linked in. */
    method NewNode(h: nat, score: nat) returns (x: SkipNode)
      requires Linked()
      ensures Linked() && fresh(x) && fresh(x.forward) && x.score == score && x.forward.Length == h
      ensures x != header && x !in nodes && x.forward !in Arrays(header, nodes)
    {
      x := new SkipNode(h, score);
      forall i: nat | i < MAXLEVEL
        ensures Level(header, nodes, i)
      {
        assert old(Level(header, nodes, i));
        forall a | -1 <= a < |nodes|
          ensures LinkOk(header, nodes, a, i)
        {
          assert old(LinkOk(header, nodes, a, i));
        }
      }
    }

    /** zslInsert; h is what zslRandomLevel drew. */
    method Insert(score: nat, h: nat) returns (x: SkipNode)
      requires Valid() && 1 <= h <= MAXLEVEL
      modifies this, Arrays(header, nodes)
      ensures Valid() && fresh(x) && fresh(x.forward) && x.score == score && x.forward.Length == h
      ensures nodes == Inserted(old(nodes), Rank(old(nodes), score), x)
    {
      var update;
      x, update := Search(score);
      update := Raise(update, h, score);
      x := Place(score, h, update);
    }

    /** zslInsert once the places are known. */
    method Place(score: nat, h: nat, update: seq<SkipNode>) returns (x: SkipNode)
      requires Valid() && 1 <= h <= MAXLEVEL && |update| == MAXLEVEL
               && Sought(update, if h > level then h else level, score)
      modifies this, Arrays(header, nodes)
      ensures Valid() && fresh(x) && fresh(x.forward) && x.score == score && x.forward.Length == h
      ensures nodes == Inserted(old(nodes), Rank(old(nodes), score), x)
    {
      ghost var p, top := Rank(nodes, score), level;
      RaiseLevel(h);
      x := NewNode(h, score);
      InsertedApart(nodes, p, x);
      InsertedSorted(nodes, p, x);
      InsertedTallest(nodes, p, x, top);
      ArraysInserted(p, x);
      Adopt(x, update, p);
    }

    /** What stays true of the list while a node is taken out, but for the links. */
    ghost predicate Lowering(ns: seq<SkipNode>, top: nat)
      reads Arrays(header, ns)
    {
      && header.forward.Length == MAXLEVEL && 1 <= top <= MAXLEVEL
      && (forall a :: 0 <= a < |ns| ==> 1 <= ns[a].forward.Length <= top)
      && forall i: nat :: i < MAXLEVEL ==> Level(header, ns, i)
    }

    /** The loop that lowers the level while the header points nowhere on the top one. */
    method LowerLevel(ghost ns: seq<SkipNode>)
      requires Lowering(ns, level)
      modifies this`level
      ensures Lowering(ns, level) && Tallest(ns, level)
    {
      while level > 1 && header.forward[level - 1] == null
        invariant Lowering(ns, level)
        decreases level
      {
        LowerOne(ns);
      }
      if level > 1 {
        TopUsed(ns, level);
      }
    }

    method LowerOne(ghost ns: seq<SkipNode>)
      requires Lowering(ns, level) && level > 1 && header.forward[level - 1] == null
      modifies this`level
      ensures Lowering(ns, level) && level == old(level) - 1
    {
      TopEmpty(ns, level);
      level := level - 1;
      forall i: nat | i < MAXLEVEL
        ensures Level(header, ns, i)
      {
        assert old(Level(header, ns, i));
        forall a | -1 <= a < |ns|
          ensures LinkOk(header, ns, a, i)
        {
          assert old(LinkOk(header, ns, a, i));
        }
      }
    }

    lemma TopEmpty(ns: seq<SkipNode>, top: nat)
      requires Lowering(ns, top) && top > 1 && header.forward[top - 1] == null
      ensures Lowering(ns, top - 1)
    {
      assert Level(header, ns, top - 1);
      assert LinkOk(header, ns, -1, top - 1);
      NextIsFirst(Heights(ns), 0, top - 1);
      var n := NextFrom(Heights(ns), 0, top - 1);
      assert n == |ns|;
      assert forall a :: 0 <= a < |ns| ==> Heights(ns)[a] <= top - 1;
    }

    lemma TopUsed(ns: seq<SkipNode>, top: nat)
      requires Lowering(ns, top) && top > 1 && header.forward[top - 1] != null
      ensures exists a :: 0 <= a < |ns| && ns[a].forward.Length == top
    {
      assert Level(header, ns, top - 1);
      assert LinkOk(header, ns, -1, top - 1);
      NextIsFirst(Heights(ns), 0, top - 1);
      var n := NextFrom(Heights(ns), 0, top - 1);
      assert n < |ns|;
      assert ns[n].forward.Length == top;
    }

    lemma RemovedWell(ns: seq<SkipNode>, p: nat, top: nat)
      requires p < |ns| && Apart(header, ns) && Sorted(ns) && Tallest(ns, top)
      ensures Apart(header, Removed(ns, p)) && Sorted(Removed(ns, p))
      ensures forall a :: 0 <= a < |ns| - 1 ==> 1 <= Removed(ns, p)[a].forward.Length <= top
    {
      var ns' := Removed(ns, p);
      forall a, b | -1 <= a < b < |ns'|
        ensures At(header, ns', a) != At(header, ns', b) && At(header, ns', a).forward != At(header, ns', b).forward
      {
        var c, d := if a < p then a else a + 1, if b < p then b else b + 1;
        assert At(header, ns', a) == At(header, ns, c) && At(header, ns', b) == At(header, ns, d);
        TwoApart(header, ns, c, d);
      }
    }

    /** Levels the removed node did not reach are right without it. */
    lemma LevelsAbove(ns: seq<SkipNode>, p: nat, i: nat)
      requires p < |ns| && i >= ns[p].forward.Length && Level(header, ns, i)
      ensures Level(header, Removed(ns, p), i)
    {
      forall a | -1 <= a < |ns|
        ensures LinkOk(header, ns, a, i)
      {
      }
      LevelDown(header, ns, p, i);
    }

    /** Unlinked everywhere, the node leaves the list. */
    method Forget(ghost p: nat)
      requires p < |nodes| && header.forward.Length == MAXLEVEL && Apart(header, nodes) && Sorted(nodes)
      requires Tallest(nodes, level) && length == |nodes|
      requires forall i: nat :: i < MAXLEVEL ==> Level(header, Removed(nodes, p), i)
      modifies this
      ensures Valid() && nodes == Removed(old(nodes), p)
    {
      ghost var ns' := Removed(nodes, p);
      RemovedWell(nodes, p, level);
      LowerLevel(ns');
      Shrink(ns');
    }

    method Shrink(ghost ns': seq<SkipNode>)
      requires Lowering(ns', level) && Tallest(ns', level) && Apart(header, ns') && Sorted(ns') && length == |ns'| + 1
      modifies this`length, this`nodes
      ensures Valid() && nodes == ns'
    {
      length := length - 1;
      nodes := ns';
      forall i: nat | i < MAXLEVEL
        ensures Level(header, ns', i)
      {
        assert old(Level(header, ns', i));
        forall a | -1 <= a < |ns'|
          ensures LinkOk(header, ns', a, i)
        {
          assert old(LinkOk(header, ns', a, i));
        }
      }
    }

    /** zslDeleteHead */
    method DeleteHead()
      requires Valid()
      modifies this, header.forward
      ensures Valid() && nodes == if old(nodes) == [] then [] else old(nodes)[1..]
    {
      assert Level(header, nodes, 0);
      assert LinkOk(header, nodes, -1, 0);
      var x := header.forward[0];
      if x == null {
        return;
      }
      ghost var ns := nodes;
      UnlinkHead(x);
      Forget(0);
      assert Removed(ns, 0) == ns[1..];
    }

    method UnlinkHead(x: SkipNode)
      requires Valid() && nodes != [] && x == nodes[0]
      modifies header.forward
      ensures forall j: nat :: j < MAXLEVEL ==> Level(header, Removed(nodes, 0), j)
    {
      ghost var done: set<nat> := {};
      var i := level;
      while i > 0
        invariant 0 <= i <= level && (forall j: nat :: j in done <==> i <= j < level)
        invariant forall j: nat :: j in done ==> Level(header, Removed(nodes, 0), j)
        invariant forall j: nat :: j < MAXLEVEL && j !in done ==> Level(header, nodes, j)
      {
        i := i - 1;
        UnlinkTurn(header, nodes, 0, x, header, i, done);
        done := done + {i};
      }
      forall j: nat | level <= j < MAXLEVEL
        ensures Level(header, Removed(nodes, 0), j)
      {
        LevelsAbove(nodes, 0, j);
      }
    }

    /** zslDeleteNode's loop. */
    method UnlinkNode(x: SkipNode, update: seq<SkipNode>, ghost p: nat, ghost score: nat)
      requires Valid() && p < |nodes| && x == nodes[p] && |update| == MAXLEVEL && p == Rank(nodes, score)
               && Sought(update, level, score)
      modifies Arrays(header, nodes)
      ensures forall j: nat :: j < MAXLEVEL ==> Level(header, Removed(nodes, p), j)
    {
      ghost var done: set<nat> := {};
      var i := 0;
      while i < level
        invariant 0 <= i <= level && (forall j: nat :: j in done <==> j < i)
        invariant forall j: nat :: j in done ==> Level(header, Removed(nodes, p), j)
        invariant forall j: nat :: j < MAXLEVEL && j !in done ==> Level(header, nodes, j)
      {
        assert update[i].forward in Arrays(header, nodes);
        UnlinkTurn(header, nodes, p, x, update[i], i, done);
        done := done + {i};
        i := i + 1;
      }
      forall j: nat | level <= j < MAXLEVEL
        ensures Level(header, Removed(nodes, p), j)
      {
        LevelsAbove(nodes, p, j);
      }
    }

    /** zslDelete: the first node of zn's score goes, if there is one. */
    method Delete(zn: SkipNode) returns (deleted: bool)
      requires Valid()
      modifies this, Arrays(header, nodes)
      ensures Valid()
      ensures var ns, p := old(nodes), Rank(old(nodes), zn.score);
              && (deleted <==> p < |ns| && ns[p].score == zn.score)
              && nodes == if deleted then Removed(ns, p) else ns
    {
      var x, update := Search(zn.score);
      ghost var p := Rank(nodes, zn.score);
      var first := FirstFrom(x, zn.score);
      deleted := first != null && zn.score == first.score;
      if deleted {
        DeleteNode(first, update, p, zn.score);
      }
    }

    /** zslDeleteNode */
    method DeleteNode(x: SkipNode, update: seq<SkipNode>, ghost p: nat, ghost score: nat)
      requires Valid() && p < |nodes| && x == nodes[p] && |update| == MAXLEVEL && p == Rank(nodes, score)
               && Sought(update, level, score)
      modifies this, Arrays(header, nodes)
      ensures Valid() && nodes == Removed(old(nodes), p)
    {
      UnlinkNode(x, update, p, score);
      Forget(p);
    }

    /** The node behind the last one below the score. */
    method FirstFrom(x: SkipNode, ghost score: nat) returns (first: SkipNode?)
      requires Valid() && x == At(header, nodes, PrevOf(Heights(nodes), Rank(nodes, score), 0))
      ensures first == Ptr(nodes, Rank(nodes, score))
    {
      ghost var hs, p := Heights(nodes), Rank(nodes, score);
      assert Level(header, nodes, 0);
      assert LinkOk(header, nodes, PrevOf(hs, p, 0), 0);
      PrevNext(hs, p, 0, PrevOf(hs, p, 0));
      NextIs(hs, p, 0, p);
      first := x.forward[0];
    }

    /** zslDelete takes out zn itself exactly when no earlier node has its score. */
    lemma DeletesItself(a: nat)
      requires Sorted(nodes) && a < |nodes| && (forall b :: 0 <= b < |nodes| && b != a ==> nodes[b] != nodes[a])
      ensures var p := Rank(nodes, nodes[a].score);
              p <= a && nodes[p].score == nodes[a].score
              && (nodes[p] == nodes[a] <==> a == 0 || nodes[a - 1].score < nodes[a].score)
    {
      RankSplits(nodes, 0, nodes[a].score);
    }
  }

  /** Of two nodes of one score, the later in the list is handed to zslDelete: the other one goes. */
  method DeletesAnother(score: nat, h: nat)
    returns (l: ZSkipList, zn: SkipNode, other: SkipNode, deleted: bool, ghost before: seq<SkipNode>)
    requires 1 <= h <= MAXLEVEL
    ensures l.Valid() && zn != other && zn.score == other.score && before == [other, zn]
    ensures deleted && l.nodes == [zn]
  {
    l := new ZSkipList();
    zn := l.Insert(score, h);
    other := l.Insert(score, h);
    before := l.nodes;
    deleted := l.Delete(zn);
  }
}
