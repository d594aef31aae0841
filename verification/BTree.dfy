/** B-tree insertion with splitting on the way down: the tree as a value, node by node as the code
    rebuilds it. */
module BTree {
  import opened U32
  import opened Seqs

  datatype Node = Node(leaf: bool, keys: seq<int>, kids: seq<Node>)

  // ---- shape ----

  /** All leaves h levels below, at most 2t - 1 keys here, t - 1 to 2t - 1 in every node below. */
  ghost predicate Shaped(n: Node, t: nat, h: nat)
    decreases h
  {
    && |n.keys| <= 2 * t - 1 && n.leaf == (h == 0)
    && if h == 0 then n.kids == []
       else
         && |n.kids| == |n.keys| + 1
         && forall i :: 0 <= i < |n.kids| ==> Shaped(n.kids[i], t, h - 1) && |n.kids[i].keys| >= t - 1
  }

  /** A root may have fewer keys, but an internal one has some. */
  ghost predicate RootShaped(n: Node, t: nat, h: nat)
  {
    Shaped(n, t, h) && (h > 0 ==> n.keys != [])
  }

  // ---- order ----

  ghost predicate Regular(n: Node)
    decreases n
  {
    !n.leaf ==> |n.kids| == |n.keys| + 1 && forall i :: 0 <= i < |n.kids| ==> Regular(n.kids[i])
  }

  ghost function Inorder(n: Node): seq<int>
    requires Regular(n)
    decreases n, 1
  {
    if n.leaf then n.keys else Weave(n.keys, n.kids)
  }

  ghost function Weave(keys: seq<int>, kids: seq<Node>): seq<int>
    requires |kids| == |keys| + 1 && forall i :: 0 <= i < |kids| ==> Regular(kids[i])
    decreases kids, 0
  {
    if keys == [] then Inorder(kids[0]) else Inorder(kids[0]) + [keys[0]] + Weave(keys[1..], kids[1..])
  }

  ghost predicate Sorted(s: seq<int>)
  {
    forall i, j :: 0 <= i < j < |s| ==> s[i] <= s[j]
  }

  /** o' is o with k put where everything before is at most k and everything after at least k. */
  ghost predicate Placed(o: seq<int>, k: int, o': seq<int>)
  {
    exists p: nat :: p <= |o| && PlacedAt(o, k, p, o')
  }

  ghost predicate PlacedAt(o: seq<int>, k: int, p: nat, o': seq<int>)
    requires p <= |o|
  {
    && o' == o[..p] + [k] + o[p..]
    && (forall j :: 0 <= j < p ==> o[j] <= k) && (forall j :: p <= j < |o| ==> k <= o[j])
  }

  lemma PlacedSorted(o: seq<int>, k: int, o': seq<int>)
    requires Placed(o, k, o') && Sorted(o)
    ensures Sorted(o') && multiset(o') == multiset(o) + multiset{k}
  {
    var p: nat :| p <= |o| && PlacedAt(o, k, p, o');
    InsertedCounts(o, p, k);
    forall i, j | 0 <= i < j < |o'|
      ensures o'[i] <= o'[j]
    {
      assert o'[i] == if i < p then o[i] else if i == p then k else o[i - 1];
      assert o'[j] == if j < p then o[j] else if j == p then k else o[j - 1];
    }
  }

  function InsertAt<T>(s: seq<T>, i: nat, v: T): (r: seq<T>)
    requires i <= |s|
    ensures |r| == |s| + 1
  {
    s[..i] + [v] + s[i..]
  }

  lemma InsertedCounts(s: seq<int>, i: nat, v: int)
    requires i <= |s|
    ensures multiset(InsertAt(s, i, v)) == multiset(s) + multiset{v}
  {
    assert s == s[..i] + s[i..];
  }

  lemma PlacedWithin(a: seq<int>, o: seq<int>, b: seq<int>, k: int, o': seq<int>)
    requires Placed(o, k, o')
    requires (forall j :: 0 <= j < |a| ==> a[j] <= k) && (forall j :: 0 <= j < |b| ==> k <= b[j])
    ensures Placed(a + o + b, k, a + o' + b)
  {
    var p: nat :| p <= |o| && PlacedAt(o, k, p, o');
    var w := a + o + b;
    assert w[..|a| + p] == a + o[..p];
    assert w[|a| + p..] == o[p..] + b;
    assert PlacedAt(w, k, |a| + p, a + o' + b);
  }

  // ---- weaving ----

  /** A woven sequence cut at a key. */
  lemma {:induction false} WeaveCut(keys: seq<int>, kids: seq<Node>, j: nat)
    requires |kids| == |keys| + 1 && j < |keys| && forall i :: 0 <= i < |kids| ==> Regular(kids[i])
    ensures Weave(keys, kids) == Weave(keys[..j], kids[..j + 1]) + [keys[j]] + Weave(keys[j + 1..], kids[j + 1..])
    decreases j
  {
    if j == 0 {
      assert keys[..0] == [] && kids[..1] == [kids[0]];
      assert kids[..1][0] == kids[0];
    } else {
      WeaveCut(keys[1..], kids[1..], j - 1);
      assert keys[1..][..j - 1] == keys[..j][1..] && kids[1..][..j] == kids[..j + 1][1..];
      assert keys[1..][j..] == keys[j + 1..] && kids[1..][j..] == kids[j + 1..];
      var a, b, c := Weave(keys[..j][1..], kids[..j + 1][1..]), [keys[j]], Weave(keys[j + 1..], kids[j + 1..]);
      var first := Inorder(kids[0]) + [keys[0]];
      assert Weave(keys[..j], kids[..j + 1]) == first + a;
      Assoc(first, a, b);
      Assoc(first, a + b, c);
    }
  }

  /** What comes before child i, and after. */
  ghost function Before(keys: seq<int>, kids: seq<Node>, i: nat): seq<int>
    requires |kids| == |keys| + 1 && i <= |keys| && forall j :: 0 <= j < |kids| ==> Regular(kids[j])
  {
    if i == 0 then [] else Weave(keys[..i - 1], kids[..i]) + [keys[i - 1]]
  }

  ghost function After(keys: seq<int>, kids: seq<Node>, i: nat): seq<int>
    requires |kids| == |keys| + 1 && i <= |keys| && forall j :: 0 <= j < |kids| ==> Regular(kids[j])
  {
    if i == |keys| then [] else [keys[i]] + Weave(keys[i + 1..], kids[i + 1..])
  }

  lemma {:induction false} WeaveAround(keys: seq<int>, kids: seq<Node>, i: nat)
    requires |kids| == |keys| + 1 && i <= |keys| && forall j :: 0 <= j < |kids| ==> Regular(kids[j])
    ensures Weave(keys, kids) == Before(keys, kids, i) + Inorder(kids[i]) + After(keys, kids, i)
  {
    if i < |keys| {
      WeaveUpTo(keys, kids, i);
      WeaveCut(keys, kids, i);
      Assoc(Before(keys, kids, i) + Inorder(kids[i]), [keys[i]], Weave(keys[i + 1..], kids[i + 1..]));
    } else {
      WeaveLast(keys, kids);
      assert Before(keys, kids, i) + Inorder(kids[i]) + [] == Before(keys, kids, i) + Inorder(kids[i]);
    }
  }

  /** The part up to and including child i. */
  lemma WeaveUpTo(keys: seq<int>, kids: seq<Node>, i: nat)
    requires |kids| == |keys| + 1 && i < |keys| && forall j :: 0 <= j < |kids| ==> Regular(kids[j])
    ensures Weave(keys[..i], kids[..i + 1]) == Before(keys, kids, i) + Inorder(kids[i])
  {
    WeaveLast(keys[..i], kids[..i + 1]);
    if i > 0 {
      assert keys[..i][..i - 1] == keys[..i - 1] && kids[..i + 1][..i] == kids[..i];
    }
  }

  /** The same at the last child. */
  lemma {:induction false} WeaveLast(keys: seq<int>, kids: seq<Node>)
    requires |kids| == |keys| + 1 && forall j :: 0 <= j < |kids| ==> Regular(kids[j])
    ensures Weave(keys, kids) == Before(keys, kids, |keys|) + Inorder(kids[|keys|])
  {
    var i := |keys|;
    if i > 0 {
      WeaveCut(keys, kids, i - 1);
      assert keys[i..] == [] && kids[i..] == [kids[i]];
      assert Weave([], [kids[i]]) == Inorder(kids[i]);
    }
  }

  // ---- insertion ----

  /** Where the scan from the right stops: behind the last key that is not greater. */
  function SlotFor(keys: seq<int>, k: int): (c: nat)
    ensures c <= |keys| && (forall j :: c <= j < |keys| ==> keys[j] > k) && (c > 0 ==> keys[c - 1] <= k)
  {
    if keys == [] || keys[|keys| - 1] <= k then |keys| else SlotFor(keys[..|keys| - 1], k)
  }

  function LeftHalf(y: Node, t: nat): Node
    requires 1 <= t <= |y.keys| + 1 && (!y.leaf ==> t <= |y.kids|)
  {
    Node(y.leaf, y.keys[..t - 1], if y.leaf then [] else y.kids[..t])
  }

  function RightHalf(y: Node, t: nat): Node
    requires t <= |y.keys| && (!y.leaf ==> t <= |y.kids|)
  {
    Node(y.leaf, y.keys[t..], if y.leaf then [] else y.kids[t..])
  }

  /** btree_split_child */
  function SplitChild(x: Node, i: nat, t: nat): Node
    requires 1 <= t && i < |x.kids| && i <= |x.keys| && |x.kids[i].keys| == 2 * t - 1
    requires !x.kids[i].leaf ==> |x.kids[i].kids| == 2 * t
  {
    var y := x.kids[i];
    Node(x.leaf, InsertAt(x.keys, i, y.keys[t - 1]), x.kids[..i] + [LeftHalf(y, t), RightHalf(y, t)] + x.kids[i + 1..])
  }

  lemma {:induction false} HalvesShaped(y: Node, t: nat, h: nat)
    requires t >= 1 && Shaped(y, t, h) && |y.keys| == 2 * t - 1
    ensures Shaped(LeftHalf(y, t), t, h) && Shaped(RightHalf(y, t), t, h)
    ensures |LeftHalf(y, t).keys| == t - 1 == |RightHalf(y, t).keys|
  {
    if h > 0 {
      assert forall i :: 0 <= i < t ==> LeftHalf(y, t).kids[i] == y.kids[i] && RightHalf(y, t).kids[i] == y.kids[i + t];
    }
  }

  /** A full child has all the children it can have. */
  lemma FullKid(x: Node, i: nat, t: nat, h: nat)
    requires t >= 1 && h > 0 && Shaped(x, t, h) && i < |x.kids|
    ensures Shaped(x.kids[i], t, h - 1)
    ensures |x.kids[i].keys| == 2 * t - 1 && !x.kids[i].leaf ==> |x.kids[i].kids| == 2 * t
  {
    assert Shaped(x.kids[i], t, h - 1);
  }

  /** The split parent with another child in place of one of the halves, or as it is. */
  lemma {:induction false} SplitShaped(x: Node, i: nat, t: nat, h: nat)
    requires t >= 1 && h > 0 && Shaped(x, t, h) && |x.keys| < 2 * t - 1 && i < |x.kids| && |x.kids[i].keys| == 2 * t - 1
    ensures !x.kids[i].leaf ==> |x.kids[i].kids| == 2 * t
    ensures Shaped(SplitChild(x, i, t), t, h)
    ensures var x' := SplitChild(x, i, t); |x'.kids[i].keys| == t - 1 == |x'.kids[i + 1].keys|
  {
    FullKid(x, i, t, h);
    var x' := SplitChild(x, i, t);
    HalvesShaped(x.kids[i], t, h - 1);
    forall j | 0 <= j < |x'.kids|
      ensures Shaped(x'.kids[j], t, h - 1) && |x'.kids[j].keys| >= t - 1
    {
      assert x'.kids[j] == if j < i then x.kids[j] else if j == i then LeftHalf(x.kids[i], t)
                           else if j == i + 1 then RightHalf(x.kids[i], t) else x.kids[j - 1];
    }
  }

  lemma KidReplaced(x: Node, c: nat, kid: Node, t: nat, h: nat)
    requires h > 0 && Shaped(x, t, h) && c < |x.kids| && Shaped(kid, t, h - 1) && |kid.keys| >= t - 1
    ensures Shaped(x.(kids := x.kids[c := kid]), t, h)
  {
  }

  /** btree_insert_nonfull */
  function InsertNonfull(n: Node, k: int, t: nat, ghost h: nat): (r: Node)
    requires t >= 2 && Shaped(n, t, h) && |n.keys| < 2 * t - 1
    ensures Shaped(r, t, h) && |r.keys| >= |n.keys|
    ensures h == 0 ==> |r.keys| == |n.keys| + 1
    decreases h
  {
    var c := SlotFor(n.keys, k);
    if n.leaf then
      n.(keys := InsertAt(n.keys, c, k))
    else if |n.kids[c].keys| == 2 * t - 1 then
      SplitShaped(n, c, t, h);
      var x := SplitChild(n, c, t);
      var d := if k > x.keys[c] then c + 1 else c;
      var kid := InsertNonfull(x.kids[d], k, t, h - 1);
      KidReplaced(x, d, kid, t, h);
      x.(kids := x.kids[d := kid])
    else
      var kid := InsertNonfull(n.kids[c], k, t, h - 1);
      KidReplaced(n, c, kid, t, h);
      n.(kids := n.kids[c := kid])
  }

  /** The split of a full root under a new one, and the insertion below it. */
  function InsertSplit(top: Node, k: int, t: nat, ghost h: nat): (r: Node)
    requires t >= 2 && h > 0 && Shaped(top, t, h) && top.keys == [] && |top.kids[0].keys| == 2 * t - 1
    ensures Shaped(r, t, h) && |r.keys| == 1
  {
    SplitShaped(top, 0, t, h);
    var x := SplitChild(top, 0, t);
    var i := if x.keys[0] < k then 1 else 0;
    var kid := InsertNonfull(x.kids[i], k, t, h - 1);
    KidReplaced(x, i, kid, t, h);
    x.(kids := x.kids[i := kid])
  }

  /** btree_insert: only a full root makes the tree one level higher. */
  function Insert(root: Node, k: int, t: nat, ghost h: nat): (r: Node)
    requires t >= 2 && RootShaped(root, t, h)
    ensures RootShaped(r, t, if |root.keys| == 2 * t - 1 then h + 1 else h)
  {
    if |root.keys| == 2 * t - 1 then
      InsertSplit(Node(false, [], [root]), k, t, h + 1)
    else
      InsertNonfull(root, k, t, h)
  }

  // ---- what insertion does to the order ----

  lemma {:induction false} ShapedRegular(n: Node, t: nat, h: nat)
    requires Shaped(n, t, h)
    ensures Regular(n)
    decreases h
  {
    if h > 0 {
      forall i | 0 <= i < |n.kids|
        ensures Regular(n.kids[i])
      {
        ShapedRegular(n.kids[i], t, h - 1);
      }
    }
  }

  lemma {:induction false} HalvesOrder(y: Node, t: nat)
    requires t >= 1 && Regular(y) && |y.keys| == 2 * t - 1
    ensures Regular(LeftHalf(y, t)) && Regular(RightHalf(y, t))
    ensures Inorder(y) == Inorder(LeftHalf(y, t)) + [y.keys[t - 1]] + Inorder(RightHalf(y, t))
  {
    if y.leaf {
      assert y.keys == y.keys[..t - 1] + [y.keys[t - 1]] + y.keys[t..];
    } else {
      WeaveCut(y.keys, y.kids, t - 1);
    }
  }

  lemma BeforeSame(keys: seq<int>, kids: seq<Node>, keys': seq<int>, kids': seq<Node>, c: nat)
    requires |kids| == |keys| + 1 && |kids'| == |keys'| + 1 && c <= |keys| && c <= |keys'|
    requires (forall j :: 0 <= j < |kids| ==> Regular(kids[j])) && (forall j :: 0 <= j < |kids'| ==> Regular(kids'[j]))
    requires forall j :: 0 <= j < c ==> kids'[j] == kids[j] && keys'[j] == keys[j]
    ensures Before(keys', kids', c) == Before(keys, kids, c)
  {
    if c > 0 {
      assert keys'[..c - 1] == keys[..c - 1] && kids'[..c] == kids[..c];
    }
  }

  lemma AfterSame(keys: seq<int>, kids: seq<Node>, kids': seq<Node>, c: nat)
    requires |kids| == |kids'| == |keys| + 1 && c <= |keys|
    requires forall j :: 0 <= j < |kids| ==> Regular(kids[j]) && Regular(kids'[j]) && (j != c ==> kids'[j] == kids[j])
    ensures After(keys, kids', c) == After(keys, kids, c)
  {
    assert kids'[c + 1..] == kids[c + 1..];
  }

  /** The order when the child at c is another one. */
  lemma {:induction false} AroundSame(keys: seq<int>, kids: seq<Node>, kids': seq<Node>, c: nat)
    requires |kids| == |kids'| == |keys| + 1 && c <= |keys|
    requires forall j :: 0 <= j < |kids| ==> Regular(kids[j]) && Regular(kids'[j]) && (j != c ==> kids'[j] == kids[j])
    ensures Weave(keys, kids') == Before(keys, kids, c) + Inorder(kids'[c]) + After(keys, kids, c)
  {
    WeaveAround(keys, kids', c);
    BeforeSame(keys, kids, keys, kids', c);
    AfterSame(keys, kids, kids', c);
  }

  /** Splitting a child leaves the order as it was. */
  lemma {:induction false} SplitOrder(x: Node, i: nat, t: nat)
    requires t >= 1 && Regular(x) && !x.leaf && i < |x.kids| && |x.kids[i].keys| == 2 * t - 1
    requires !x.kids[i].leaf ==> |x.kids[i].kids| == 2 * t
    ensures Regular(SplitChild(x, i, t)) && Inorder(SplitChild(x, i, t)) == Inorder(x)
  {
    var y := x.kids[i];
    var m := y.keys[t - 1];
    var z, w := LeftHalf(y, t), RightHalf(y, t);
    var x' := SplitChild(x, i, t);
    HalvesOrder(y, t);
    forall j | 0 <= j < |x'.kids|
      ensures Regular(x'.kids[j])
    {
      assert x'.kids[j] == if j < i then x.kids[j] else if j == i then z else if j == i + 1 then w else x.kids[j - 1];
    }
    WeaveAround(x.keys, x.kids, i);
    WeaveAround(x'.keys, x'.kids, i);
    assert x'.kids[i] == z;
    BeforeSame(x.keys, x.kids, x'.keys, x'.kids, i);
    SplitTail(x, i, t);
    Regroup(Before(x.keys, x.kids, i), Inorder(z), [m], Inorder(w), After(x.keys, x.kids, i));
  }

  lemma Regroup(b: seq<int>, z: seq<int>, m: seq<int>, w: seq<int>, a: seq<int>)
    ensures b + (z + m + w) + a == b + z + (m + (w + a))
  {
    Assoc(b, z, m + (w + a));
    Assoc(z, m, w + a);
    Assoc(z + m, w, a);
    Assoc(b, z + m + w, a);
  }

  /** Behind the left half come the middle key, the right half, and what followed the child. */
  lemma {:induction false} SplitTail(x: Node, i: nat, t: nat)
    requires t >= 1 && Regular(x) && !x.leaf && i < |x.kids| && |x.kids[i].keys| == 2 * t - 1
    requires !x.kids[i].leaf ==> |x.kids[i].kids| == 2 * t
    requires Regular(RightHalf(x.kids[i], t))
    requires forall j :: 0 <= j < |SplitChild(x, i, t).kids| ==> Regular(SplitChild(x, i, t).kids[j])
    ensures var x' := SplitChild(x, i, t);
            After(x'.keys, x'.kids, i)
            == [x.kids[i].keys[t - 1]] + (Inorder(RightHalf(x.kids[i], t)) + After(x.keys, x.kids, i))
  {
    var x' := SplitChild(x, i, t);
    var w := RightHalf(x.kids[i], t);
    assert x'.keys[i + 1..] == x.keys[i..];
    var tail := x'.kids[i + 1..];
    assert tail == [w] + x.kids[i + 1..];
    assert tail[0] == w && tail[1..] == x.kids[i + 1..];
    if i < |x.keys| {
      assert x.keys[i..][0] == x.keys[i] && x.keys[i..][1..] == x.keys[i + 1..];
      assert Weave(x.keys[i..], tail) == Inorder(w) + [x.keys[i]] + Weave(x.keys[i + 1..], x.kids[i + 1..]);
      Assoc(Inorder(w), [x.keys[i]], Weave(x.keys[i + 1..], x.kids[i + 1..]));
    } else {
      assert x.keys[i..] == [];
      assert Weave([], tail) == Inorder(w);
      assert Inorder(w) + [] == Inorder(w);
    }
  }

  /** In a sorted woven sequence the keys bound what is before and after a child. */
  lemma {:induction false} AroundBounds(keys: seq<int>, kids: seq<Node>, c: nat, k: int)
    requires |kids| == |keys| + 1 && c <= |keys| && (forall j :: 0 <= j < |kids| ==> Regular(kids[j]))
    requires Sorted(Weave(keys, kids)) && (c > 0 ==> keys[c - 1] <= k) && (c < |keys| ==> k <= keys[c])
    ensures forall j :: 0 <= j < |Before(keys, kids, c)| ==> Before(keys, kids, c)[j] <= k
    ensures forall j :: 0 <= j < |After(keys, kids, c)| ==> k <= After(keys, kids, c)[j]
    ensures Sorted(Inorder(kids[c]))
  {
    WeaveAround(keys, kids, c);
    var b, m, a := Before(keys, kids, c), Inorder(kids[c]), After(keys, kids, c);
    SortedParts(b, m, a);
    if c > 0 {
      assert b[|b| - 1] == keys[c - 1];
    }
    if c < |keys| {
      assert a[0] == keys[c];
    }
  }

  lemma SortedParts(b: seq<int>, m: seq<int>, a: seq<int>)
    requires Sorted(b + m + a)
    ensures Sorted(b) && Sorted(m) && Sorted(a)
  {
    var w := b + m + a;
    assert forall i :: 0 <= i < |b| ==> b[i] == w[i];
    assert forall i :: 0 <= i < |m| ==> m[i] == w[i + |b|];
    assert forall i :: 0 <= i < |a| ==> a[i] == w[i + |b| + |m|];
  }

  /** Inserting below child c of a node, from what it does to the child. */
  lemma BelowChild(x: Node, c: nat, kid: Node, k: int)
    requires Regular(x) && !x.leaf && c < |x.kids| && Regular(kid) && Sorted(Inorder(x))
    requires (c > 0 ==> x.keys[c - 1] <= k) && (c < |x.keys| ==> k <= x.keys[c])
    requires Placed(Inorder(x.kids[c]), k, Inorder(kid))
    ensures Regular(x.(kids := x.kids[c := kid])) && Placed(Inorder(x), k, Inorder(x.(kids := x.kids[c := kid])))
  {
    AroundBounds(x.keys, x.kids, c, k);
    WeaveAround(x.keys, x.kids, c);
    AroundSame(x.keys, x.kids, x.kids[c := kid], c);
    PlacedWithin(Before(x.keys, x.kids, c), Inorder(x.kids[c]), After(x.keys, x.kids, c), k, Inorder(kid));
  }

  /** n' is n with k inserted in order. */
  ghost predicate Grown(n: Node, k: int, n': Node)
    requires Regular(n)
  {
    Regular(n') && Placed(Inorder(n), k, Inorder(n'))
  }

  /** The same after a split, in the half the key belongs to. */
  lemma {:induction false} BelowSplit(n: Node, c: nat, t: nat, d: nat, kid: Node, k: int)
    requires t >= 1 && Regular(n) && !n.leaf && Sorted(Inorder(n)) && c < |n.kids| && |n.kids[c].keys| == 2 * t - 1
    requires !n.kids[c].leaf ==> |n.kids[c].kids| == 2 * t
    requires var x := SplitChild(n, c, t);
             && d < |x.kids| && (d > 0 ==> x.keys[d - 1] <= k) && (d < |x.keys| ==> k <= x.keys[d])
             && Regular(x.kids[d]) && Grown(x.kids[d], k, kid)
    ensures var x := SplitChild(n, c, t); Grown(n, k, x.(kids := x.kids[d := kid]))
  {
    SplitOrder(n, c, t);
    BelowChild(SplitChild(n, c, t), d, kid, k);
  }

  /** The half chosen is sorted in itself. */
  lemma {:induction false} HalfSorted(n: Node, c: nat, t: nat, d: nat, k: int)
    requires t >= 1 && Regular(n) && !n.leaf && Sorted(Inorder(n)) && c < |n.kids| && |n.kids[c].keys| == 2 * t - 1
    requires !n.kids[c].leaf ==> |n.kids[c].kids| == 2 * t
    requires var x := SplitChild(n, c, t);
             d < |x.kids| && (d > 0 ==> x.keys[d - 1] <= k) && (d < |x.keys| ==> k <= x.keys[d])
    ensures var x := SplitChild(n, c, t); Regular(x.kids[d]) && Sorted(Inorder(x.kids[d]))
  {
    SplitOrder(n, c, t);
    var x := SplitChild(n, c, t);
    AroundBounds(x.keys, x.kids, d, k);
  }

  lemma {:induction false} NonfullOrder(n: Node, k: int, t: nat, h: nat)
    requires t >= 2 && Shaped(n, t, h) && |n.keys| < 2 * t - 1 && Regular(n) && Sorted(Inorder(n))
    ensures Grown(n, k, InsertNonfull(n, k, t, h))
    decreases h, 2
  {
    if n.leaf {
      LeafCase(n, k);
    } else if |n.kids[SlotFor(n.keys, k)].keys| == 2 * t - 1 {
      SplitBranch(n, k, t, h);
    } else {
      PlainCase(n, k, t, h, SlotFor(n.keys, k));
    }
  }

  lemma {:induction false} SplitBranch(n: Node, k: int, t: nat, h: nat)
    requires t >= 2 && h > 0 && Shaped(n, t, h) && |n.keys| < 2 * t - 1 && Regular(n) && Sorted(Inorder(n)) && !n.leaf
    requires |n.kids[SlotFor(n.keys, k)].keys| == 2 * t - 1
    ensures Grown(n, k, InsertNonfull(n, k, t, h))
    decreases h, 1
  {
    var c := SlotFor(n.keys, k);
    SplitShaped(n, c, t, h);
    SplitSlot(n, c, t, k);
    var x := SplitChild(n, c, t);
    var d := if k > x.keys[c] then c + 1 else c;
    SplitCase(n, k, t, h, c, d);
    NonfullIs(n, k, t, h, c, d);
  }

  lemma NonfullIs(n: Node, k: int, t: nat, h: nat, c: nat, d: nat)
    requires t >= 2 && h > 0 && Shaped(n, t, h) && |n.keys| < 2 * t - 1 && !n.leaf
    requires c == SlotFor(n.keys, k) && |n.kids[c].keys| == 2 * t - 1 && (!n.kids[c].leaf ==> |n.kids[c].kids| == 2 * t)
    requires var x := SplitChild(n, c, t);
             d == (if k > x.keys[c] then c + 1 else c) && Shaped(x.kids[d], t, h - 1) && |x.kids[d].keys| < 2 * t - 1
    ensures var x := SplitChild(n, c, t);
            InsertNonfull(n, k, t, h) == x.(kids := x.kids[d := InsertNonfull(x.kids[d], k, t, h - 1)])
  {
  }

  /** Child c has room, and the key goes below it. */
  lemma {:induction false} PlainCase(n: Node, k: int, t: nat, h: nat, c: nat)
    requires t >= 2 && h > 0 && Shaped(n, t, h) && Regular(n) && Sorted(Inorder(n)) && !n.leaf
    requires c < |n.kids| && Shaped(n.kids[c], t, h - 1) && |n.kids[c].keys| < 2 * t - 1
    requires (c > 0 ==> n.keys[c - 1] <= k) && (c < |n.keys| ==> k <= n.keys[c])
    ensures Grown(n, k, n.(kids := n.kids[c := InsertNonfull(n.kids[c], k, t, h - 1)]))
    decreases h, 0
  {
    AroundBounds(n.keys, n.kids, c, k);
    NonfullOrder(n.kids[c], k, t, h - 1);
    BelowChild(n, c, InsertNonfull(n.kids[c], k, t, h - 1), k);
  }

  lemma {:induction false} LeafCase(n: Node, k: int)
    requires n.leaf && Sorted(n.keys)
    ensures Grown(n, k, n.(keys := InsertAt(n.keys, SlotFor(n.keys, k), k)))
  {
    assert PlacedAt(n.keys, k, SlotFor(n.keys, k), InsertAt(n.keys, SlotFor(n.keys, k), k));
  }

  /** Child c is full and split, and the key goes below child d. */
  lemma {:induction false} SplitCase(n: Node, k: int, t: nat, h: nat, c: nat, d: nat)
    requires t >= 2 && h > 0 && Shaped(n, t, h) && |n.keys| < 2 * t - 1 && Regular(n) && Sorted(Inorder(n)) && !n.leaf
    requires c < |n.kids| && |n.kids[c].keys| == 2 * t - 1 && (!n.kids[c].leaf ==> |n.kids[c].kids| == 2 * t)
    requires var x := SplitChild(n, c, t);
             && Shaped(x, t, h) && d < |x.kids| && |x.kids[d].keys| < 2 * t - 1
             && (d > 0 ==> x.keys[d - 1] <= k) && (d < |x.keys| ==> k <= x.keys[d])
    ensures var x := SplitChild(n, c, t);
            Shaped(x.kids[d], t, h - 1) && Grown(n, k, x.(kids := x.kids[d := InsertNonfull(x.kids[d], k, t, h - 1)]))
    decreases h, 0
  {
    var x := SplitChild(n, c, t);
    HalfSorted(n, c, t, d, k);
    NonfullOrder(x.kids[d], k, t, h - 1);
    BelowSplit(n, c, t, d, InsertNonfull(x.kids[d], k, t, h - 1), k);
  }

  /** The child chosen after a split still lies between keys around k. */
  lemma {:induction false} SplitSlot(n: Node, c: nat, t: nat, k: int)
    requires t >= 1 && c == SlotFor(n.keys, k) && c < |n.kids| && |n.kids[c].keys| == 2 * t - 1
    requires !n.kids[c].leaf ==> |n.kids[c].kids| == 2 * t
    ensures var x := SplitChild(n, c, t); var d := if k > x.keys[c] then c + 1 else c;
            (d > 0 ==> x.keys[d - 1] <= k) && (d < |x.keys| ==> k <= x.keys[d])
  {
    var x := SplitChild(n, c, t);
    assert forall j :: 0 <= j < |x.keys| && j != c ==> x.keys[j] == n.keys[if j < c then j else j - 1];
  }

  lemma {:induction false} RootSplit(top: Node, k: int, t: nat, h: nat)
    requires t >= 2 && h > 0 && Shaped(top, t, h) && top.keys == [] && |top.kids[0].keys| == 2 * t - 1
    requires Regular(top) && Sorted(Inorder(top))
    ensures Grown(top, k, InsertSplit(top, k, t, h))
  {
    SplitShaped(top, 0, t, h);
    SplitCase(top, k, t, h, 0, if SplitChild(top, 0, t).keys[0] < k then 1 else 0);
  }

  lemma NewRoot(root: Node, t: nat, h: nat)
    requires Shaped(root, t, h) && Regular(root) && t >= 1
    ensures var top := Node(false, [], [root]); Shaped(top, t, h + 1) <==> |root.keys| >= t - 1
    ensures var top := Node(false, [], [root]); Regular(top) && Inorder(top) == Inorder(root)
  {
    var top := Node(false, [], [root]);
    assert top.kids[0] == root;
  }

  lemma {:induction false} InsertGrows(root: Node, k: int, t: nat, h: nat)
    requires t >= 2 && RootShaped(root, t, h) && Regular(root) && Sorted(Inorder(root))
    ensures Grown(root, k, Insert(root, k, t, h))
  {
    if |root.keys| == 2 * t - 1 {
      NewRoot(root, t, h);
      RootSplit(Node(false, [], [root]), k, t, h + 1);
    } else {
      NonfullOrder(root, k, t, h);
    }
  }

  /** btree_insert adds one occurrence of the key, in order, to a sorted tree, keeps all leaves at one
      depth and every node within its bounds. */
  lemma {:induction false} InsertCorrect(root: Node, k: int, t: nat, h: nat)
    requires t >= 2 && RootShaped(root, t, h) && Regular(root) && Sorted(Inorder(root))
    ensures var r := Insert(root, k, t, h);
            && RootShaped(r, t, if |root.keys| == 2 * t - 1 then h + 1 else h)
            && Regular(r) && Sorted(Inorder(r)) && multiset(Inorder(r)) == multiset(Inorder(root)) + multiset{k}
  {
    InsertGrows(root, k, t, h);
    PlacedSorted(Inorder(root), k, Inorder(Insert(root, k, t, h)));
  }

  // ---- whole runs ----

  /** The keys inserted one after another; the height is carried along. */
  function InsertAll(root: Node, ks: seq<int>, t: nat, h: nat): (r: (Node, nat))
    requires t >= 2 && RootShaped(root, t, h)
    ensures RootShaped(r.0, t, r.1)
    decreases |ks|
  {
    if ks == [] then (root, h)
    else InsertAll(Insert(root, ks[0], t, h), ks[1..], t, if |root.keys| == 2 * t - 1 then h + 1 else h)
  }

  /** The tree is in order and holds just these keys. */
  ghost predicate Held(r: Node, m: multiset<int>)
  {
    Regular(r) && Sorted(Inorder(r)) && multiset(Inorder(r)) == m
  }

  lemma FirstKey(ks: seq<int>)
    requires ks != []
    ensures multiset(ks) == multiset{ks[0]} + multiset(ks[1..])
  {
    assert ks == [ks[0]] + ks[1..];
  }

  /** After any insertions the tree holds what it held and the keys inserted, sorted. */
  lemma {:induction false} EveryRunHolds(root: Node, ks: seq<int>, t: nat, h: nat, m: multiset<int>)
    requires t >= 2 && RootShaped(root, t, h) && Held(root, m)
    ensures Held(InsertAll(root, ks, t, h).0, m + multiset(ks))
    decreases |ks|
  {
    if ks == [] {
      assert m + multiset(ks) == m;
    } else {
      FirstKey(ks);
      InsertCorrect(root, ks[0], t, h);
      var h1 := if |root.keys| == 2 * t - 1 then h + 1 else h;
      EveryRunHolds(Insert(root, ks[0], t, h), ks[1..], t, h1, m + multiset{ks[0]});
      assert m + multiset{ks[0]} + multiset(ks[1..]) == m + multiset(ks);
    }
  }
}
