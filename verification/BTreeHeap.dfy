/** The B-tree in memory: nodes with key and child arrays, linked by pointers and updated in place,
    proved to hold the values module BTree computes. */
module BTreeHeap {
  import opened BTree
  import opened BTreeNodes

  /** Which node sits where, and what it holds. */
  datatype Tree = Tree(node: BtreeNode, keys: seq<int>, kids: seq<Tree>)

  ghost function Value(b: Tree): (v: Node)
    ensures v.leaf == b.node.leaf && v.keys == b.keys && |v.kids| == |b.kids|
    ensures forall i :: 0 <= i < |b.kids| ==> v.kids[i] == Value(b.kids[i])
  {
    Node(b.node.leaf, b.keys, seq(|b.kids|, i requires 0 <= i < |b.kids| => Value(b.kids[i])))
  }

  /** A node and its arrays. */
  ghost function Parts(x: BtreeNode): set<object> { {x, x.keys, x.childrens} }

  /** Everything the tree is made of. */
  ghost function Elems(b: Tree): set<object>
    decreases b, |b.kids| + 1
  {
    Parts(b.node) + Below(b, |b.kids|)
  }

  ghost function Below(b: Tree, n: nat): set<object>
    requires n <= |b.kids|
    decreases b, n
  {
    if n == 0 then {} else Below(b, n - 1) + Elems(b.kids[n - 1])
  }

  /** No node or array is there twice. */
  ghost predicate Distinct(b: Tree)
  {
    && (forall i :: 0 <= i < |b.kids| ==> Parts(b.node) !! Elems(b.kids[i]) && Distinct(b.kids[i]))
    && (forall i, j {:trigger Disjoint(b.kids[i], b.kids[j])} ::
          0 <= i < j < |b.kids| ==> Disjoint(b.kids[i], b.kids[j]))
  }

  ghost predicate Disjoint(a: Tree, b: Tree) { Elems(a) !! Elems(b) }

  ghost function Roots(kids: seq<Tree>): (r: seq<BtreeNode?>)
    ensures |r| == |kids| && forall i :: 0 <= i < |kids| ==> r[i] == kids[i].node
  {
    seq(|kids|, i requires 0 <= i < |kids| => kids[i].node)
  }

  /** The node has these keys and children; the child pointers of a leaf do not count. */
  ghost predicate Has(x: BtreeNode, t: nat, keys: seq<int>, kids: seq<BtreeNode?>)
    reads Parts(x)
  {
    && x.Fits(t) && x.num == |keys| && x.Keys() == keys
    && if x.leaf then kids == [] else |kids| == |keys| + 1 && x.Kids() == kids
  }

  /** The nodes hold what b says. */
  ghost predicate Holds(b: Tree, t: nat)
    reads Elems(b)
  {
    && Has(b.node, t, b.keys, Roots(b.kids))
    && forall i :: 0 <= i < |b.kids| ==> KidIn(b, i) && Holds(b.kids[i], t)
  }

  /** What a child is made of, the tree is made of. */
  ghost predicate KidIn(b: Tree, i: nat)
    requires i < |b.kids|
  {
    Elems(b.kids[i]) <= Elems(b)
  }

  ghost predicate At(b: Tree, t: nat)
    reads Elems(b)
  {
    t >= 2 && Holds(b, t) && Distinct(b)
  }

  // ---- where a part is ----

  lemma {:induction false} InBelow(b: Tree, n: nat, j: nat, o: object)
    requires j < n <= |b.kids| && o in Elems(b.kids[j])
    ensures o in Below(b, n)
  {
    if j < n - 1 {
      InBelow(b, n - 1, j, o);
    }
  }

  lemma {:induction false} BelowAt(b: Tree, n: nat, o: object) returns (i: nat)
    requires n <= |b.kids| && o in Below(b, n)
    ensures i < n && o in Elems(b.kids[i])
  {
    if o in Elems(b.kids[n - 1]) {
      i := n - 1;
    } else {
      i := BelowAt(b, n - 1, o);
    }
  }

  lemma ElemAt(b: Tree, o: object) returns (i: nat)
    requires o in Elems(b) && o !in Parts(b.node)
    ensures i < |b.kids| && o in Elems(b.kids[i])
  {
    i := BelowAt(b, |b.kids|, o);
  }

  lemma {:induction false} InKid(b: Tree, j: nat, o: object)
    requires j < |b.kids| && o in Elems(b.kids[j])
    ensures o in Elems(b)
  {
    InBelow(b, |b.kids|, j, o);
  }

  lemma {:induction false} KidElems(b: Tree, i: nat)
    requires Distinct(b) && i < |b.kids|
    ensures Distinct(b.kids[i]) && Parts(b.node) !! Elems(b.kids[i]) && Elems(b.kids[i]) <= Elems(b)
  {
    forall o | o in Elems(b.kids[i])
      ensures o in Elems(b)
    {
      InKid(b, i, o);
    }
  }

  lemma {:induction false} KidsApart(b: Tree, i: nat, j: nat)
    requires Distinct(b) && i < |b.kids| && j < |b.kids| && i != j
    ensures Elems(b.kids[i]) !! Elems(b.kids[j])
  {
    assert if i < j then Disjoint(b.kids[i], b.kids[j]) else Disjoint(b.kids[j], b.kids[i]);
  }

  lemma {:induction false} InOneKid(y: Tree, i: nat, o: object)
    requires Distinct(y) && i < |y.kids| && o in Elems(y.kids[i])
    ensures o in Elems(y) && o !in Parts(y.node) && forall j :: 0 <= j < |y.kids| && j != i ==> o !in Elems(y.kids[j])
  {
    KidElems(y, i);
    forall j | 0 <= j < |y.kids| && j != i
      ensures o !in Elems(y.kids[j])
    {
      KidsApart(y, i, j);
    }
  }

  lemma {:induction false} PartsAllocated(b: Tree)
    ensures allocated(Elems(b))
    decreases b, |b.kids| + 1
  {
    BelowAllocated(b, |b.kids|);
  }

  lemma {:induction false} BelowAllocated(b: Tree, n: nat)
    requires n <= |b.kids|
    ensures allocated(Below(b, n))
    decreases b, n
  {
    if n > 0 {
      BelowAllocated(b, n - 1);
      PartsAllocated(b.kids[n - 1]);
    }
  }

  // ---- another subtree in the place of a child ----

  ghost function WithKid(b: Tree, c: nat, kid: Tree): Tree
    requires c < |b.kids|
  {
    b.(kids := b.kids[c := kid])
  }

  lemma {:induction false} WithKidValue(b: Tree, c: nat, kid: Tree)
    requires c < |b.kids|
    ensures Value(WithKid(b, c, kid)) == Value(b).(kids := Value(b).kids[c := Value(kid)])
  {
    assert Value(WithKid(b, c, kid)).kids == Value(b).kids[c := Value(kid)];
  }

  lemma {:induction false} WithKidDistinct(b: Tree, c: nat, kid: Tree)
    requires Distinct(b) && c < |b.kids| && Distinct(kid) && Elems(kid) !! (Elems(b) - Elems(b.kids[c]))
    ensures Distinct(WithKid(b, c, kid))
  {
    var b' := WithKid(b, c, kid);
    forall i | 0 <= i < |b.kids| && i != c
      ensures Elems(b.kids[i]) !! Elems(kid)
    {
      KidsApart(b, i, c);
      KidElems(b, i);
    }
    forall i, j | 0 <= i < j < |b.kids|
      ensures Disjoint(b'.kids[i], b'.kids[j])
    {
      if i != c && j != c {
        KidsApart(b, i, j);
      }
    }
    KidElems(b, c);
  }

  lemma {:induction false} WithKidIn(b: Tree, c: nat, kid: Tree, o: object)
    requires Distinct(b) && c < |b.kids|
    ensures o in Elems(WithKid(b, c, kid)) <==> o in Elems(b) - Elems(b.kids[c]) || o in Elems(kid)
  {
    var b' := WithKid(b, c, kid);
    KidElems(b, c);
    if o !in Parts(b.node) {
      if o in Elems(b') {
        var i := ElemAt(b', o);
        if i != c {
          KidsApart(b, i, c);
          InKid(b, i, o);
        }
      }
      if o in Elems(b) - Elems(b.kids[c]) {
        var i := ElemAt(b, o);
        InKid(b', i, o);
      }
      if o in Elems(kid) {
        InKid(b', c, o);
      }
    }
  }

  lemma {:induction false} WithKidElems(b: Tree, c: nat, kid: Tree)
    requires Distinct(b) && c < |b.kids|
    ensures Elems(WithKid(b, c, kid)) == Elems(b) - Elems(b.kids[c]) + Elems(kid)
  {
    var after, was := Elems(WithKid(b, c, kid)), Elems(b) - Elems(b.kids[c]) + Elems(kid);
    forall o | o in after
      ensures o in was
    {
      WithKidIn(b, c, kid, o);
    }
    forall o | o in was
      ensures o in after
    {
      WithKidIn(b, c, kid, o);
    }
  }

  // ---- a child split in two ----

  ghost predicate Full(y: Tree, t: nat)
  {
    t >= 1 && |y.keys| == 2 * t - 1 && |y.kids| == if y.node.leaf then 0 else 2 * t
  }

  ghost function Lower(y: Tree, t: nat): Tree
    requires Full(y, t)
  {
    Tree(y.node, y.keys[..t - 1], if y.node.leaf then [] else y.kids[..t])
  }

  ghost function Upper(y: Tree, t: nat, z: BtreeNode): Tree
    requires Full(y, t)
  {
    Tree(z, y.keys[t..], if y.node.leaf then [] else y.kids[t..])
  }

  ghost function Split(b: Tree, i: nat, t: nat, z: BtreeNode): (r: Tree)
    requires i < |b.kids| && i <= |b.keys| && Full(b.kids[i], t)
    ensures |r.kids| == |b.kids| + 1 && r.node == b.node
    ensures forall j :: 0 <= j < |r.kids| ==>
              r.kids[j] == if j < i then b.kids[j] else if j == i then Lower(b.kids[i], t)
                           else if j == i + 1 then Upper(b.kids[i], t, z) else b.kids[j - 1]
  {
    Tree(b.node, InsertAt(b.keys, i, b.kids[i].keys[t - 1]),
         b.kids[..i] + [Lower(b.kids[i], t), Upper(b.kids[i], t, z)] + b.kids[i + 1..])
  }

  lemma SplitRoots(b: Tree, i: nat, t: nat, z: BtreeNode)
    requires i < |b.kids| && i <= |b.keys| && Full(b.kids[i], t)
    ensures Roots(Split(b, i, t, z).kids) == InsertAt(Roots(b.kids), i + 1, z)
  {
    var r, w := Roots(Split(b, i, t, z).kids), InsertAt(Roots(b.kids), i + 1, z);
    forall j | 0 <= j < |r|
      ensures r[j] == w[j]
    {
      if j > i + 1 {
        assert w[j] == Roots(b.kids)[i + 1..][j - i - 2];
      }
    }
  }

  /** Split the tree, and its value is what btree_split_child makes of the value. */
  lemma {:induction false} SplitValue(b: Tree, i: nat, t: nat, z: BtreeNode)
    requires i < |b.kids| && i <= |b.keys| && Full(b.kids[i], t) && z.leaf == b.kids[i].node.leaf
    ensures Value(Split(b, i, t, z)) == SplitChild(Value(b), i, t)
  {
    var v, w := Value(Split(b, i, t, z)).kids, SplitChild(Value(b), i, t).kids;
    forall j | 0 <= j < |v|
      ensures v[j] == w[j]
    {
      SplitValueAt(b, i, t, z, j);
    }
  }

  lemma {:induction false} SplitValueAt(b: Tree, i: nat, t: nat, z: BtreeNode, j: nat)
    requires i < |b.kids| && i <= |b.keys| && Full(b.kids[i], t) && z.leaf == b.kids[i].node.leaf && j <= |b.kids|
    ensures Value(Split(b, i, t, z)).kids[j] == SplitChild(Value(b), i, t).kids[j]
  {
    if j == i || j == i + 1 {
      HalfValues(b.kids[i], t, z);
    }
    assert SplitChild(Value(b), i, t).kids[j]
        == if j < i then Value(b).kids[j] else if j == i then LeftHalf(Value(b).kids[i], t)
           else if j == i + 1 then RightHalf(Value(b).kids[i], t) else Value(b).kids[j - 1];
  }

  lemma {:induction false} HalfValues(y: Tree, t: nat, z: BtreeNode)
    requires Full(y, t) && z.leaf == y.node.leaf
    ensures Value(Lower(y, t)) == LeftHalf(Value(y), t) && Value(Upper(y, t, z)) == RightHalf(Value(y), t)
  {
    var v := Value(y);
    assert Value(Lower(y, t)).kids == LeftHalf(v, t).kids;
    assert Value(Upper(y, t, z)).kids == RightHalf(v, t).kids;
  }

  /** A node with some of the children of another. */
  ghost predicate SomeOf(y: Tree, l: Tree, from: nat)
  {
    from + |l.kids| <= |y.kids| && forall j :: 0 <= j < |l.kids| ==> l.kids[j] == y.kids[from + j]
  }

  lemma {:induction false} SomeKidsDistinct(y: Tree, l: Tree, from: nat)
    requires Distinct(y) && SomeOf(y, l, from) && (l.node == y.node || Parts(l.node) !! Elems(y))
    ensures Distinct(l)
  {
    forall j | 0 <= j < |l.kids|
      ensures Parts(l.node) !! Elems(l.kids[j]) && Distinct(l.kids[j])
    {
      KidElems(y, from + j);
    }
    forall i, j | 0 <= i < j < |l.kids|
      ensures Disjoint(l.kids[i], l.kids[j])
    {
      KidsApart(y, from + i, from + j);
    }
  }

  lemma {:induction false} SomeKidsElems(y: Tree, l: Tree, from: nat)
    requires SomeOf(y, l, from)
    ensures Elems(l) <= Elems(y) + Parts(l.node)
  {
    forall o | o in Elems(l) && o !in Parts(l.node)
      ensures o in Elems(y)
    {
      var j := ElemAt(l, o);
      InKid(y, from + j, o);
    }
  }

  lemma {:induction false} HalfElems(y: Tree, t: nat, z: BtreeNode)
    requires Full(y, t) && Distinct(y) && Parts(z) !! Elems(y)
    ensures Distinct(Lower(y, t)) && Distinct(Upper(y, t, z)) && Elems(Lower(y, t)) !! Elems(Upper(y, t, z))
    ensures Elems(Lower(y, t)) <= Elems(y) && Elems(Upper(y, t, z)) <= Elems(y) + Parts(z)
    ensures Elems(y) + Parts(z) <= Elems(Lower(y, t)) + Elems(Upper(y, t, z))
  {
    var l, u := Lower(y, t), Upper(y, t, z);
    HalvesDistinct(y, t, z);
    SomeKidsElems(y, l, 0);
    SomeKidsElems(y, u, if y.node.leaf then 0 else t);
    forall o | o in Elems(y) && o !in Parts(y.node)
      ensures o in Elems(l) || o in Elems(u)
    {
      var i := ElemAt(y, o);
      if i < t {
        InKid(l, i, o);
      } else {
        InKid(u, i - t, o);
      }
    }
    forall o | o in Elems(l)
      ensures o !in Elems(u)
    {
      LowerOnly(y, t, z, o);
    }
  }

  lemma {:induction false} HalvesDistinct(y: Tree, t: nat, z: BtreeNode)
    requires Full(y, t) && Distinct(y) && Parts(z) !! Elems(y)
    ensures Distinct(Lower(y, t)) && Distinct(Upper(y, t, z))
  {
    SomeKidsDistinct(y, Lower(y, t), 0);
    SomeKidsDistinct(y, Upper(y, t, z), if y.node.leaf then 0 else t);
  }

  lemma {:induction false} LowerOnly(y: Tree, t: nat, z: BtreeNode, o: object)
    requires Full(y, t) && Distinct(y) && Parts(z) !! Elems(y) && o in Elems(Lower(y, t)) && o in Elems(y)
    ensures o !in Elems(Upper(y, t, z))
  {
    var l, u := Lower(y, t), Upper(y, t, z);
    if o !in Parts(y.node) {
      var i := ElemAt(l, o);
      InOneKid(y, i, o);
    }
    if o in Elems(u) && o !in Parts(z) {
      var j := ElemAt(u, o);
      InOneKid(y, j + t, o);
    }
  }

  ghost predicate CanSplit(b: Tree, i: nat, t: nat, z: BtreeNode)
  {
    i < |b.kids| && i <= |b.keys| && Full(b.kids[i], t) && Distinct(b) && Parts(z) !! Elems(b)
  }

  /** The child a child of the split node comes from. */
  ghost function Source(j: nat, i: nat): nat { if j <= i then j else j - 1 }

  lemma SplitKid(b: Tree, i: nat, j: nat, t: nat, z: BtreeNode)
    requires CanSplit(b, i, t, z) && j <= |b.kids|
    ensures var kid := Split(b, i, t, z).kids[j];
            Distinct(kid) && Elems(kid) <= Elems(b.kids[Source(j, i)]) + (if j == i + 1 then Parts(z) else {})
  {
    KidElems(b, Source(j, i));
    if j == i || j == i + 1 {
      HalfElems(b.kids[i], t, z);
    }
  }

  lemma SplitDistinct(b: Tree, i: nat, t: nat, z: BtreeNode)
    requires CanSplit(b, i, t, z)
    ensures Distinct(Split(b, i, t, z))
  {
    var b' := Split(b, i, t, z);
    forall j | 0 <= j < |b'.kids|
      ensures Parts(b'.node) !! Elems(b'.kids[j]) && Distinct(b'.kids[j])
    {
      SplitKid(b, i, j, t, z);
      KidElems(b, Source(j, i));
    }
    forall j, l | 0 <= j < l < |b'.kids|
      ensures Disjoint(b'.kids[j], b'.kids[l])
    {
      SplitKidsApart(b, i, t, z, j, l);
    }
  }

  lemma SplitKidsApart(b: Tree, i: nat, t: nat, z: BtreeNode, j: nat, l: nat)
    requires CanSplit(b, i, t, z) && j < l <= |b.kids|
    ensures Elems(Split(b, i, t, z).kids[j]) !! Elems(Split(b, i, t, z).kids[l])
  {
    if j == i && l == i + 1 {
      KidElems(b, i);
      HalfElems(b.kids[i], t, z);
    } else {
      SplitKid(b, i, j, t, z);
      SplitKid(b, i, l, t, z);
      KidElems(b, Source(j, i));
      KidElems(b, Source(l, i));
      KidsApart(b, Source(j, i), Source(l, i));
    }
  }

  lemma {:induction false} SplitElems(b: Tree, i: nat, t: nat, z: BtreeNode)
    requires CanSplit(b, i, t, z)
    ensures Elems(Split(b, i, t, z)) == Elems(b) + Parts(z)
  {
    var b' := Split(b, i, t, z);
    forall o | o in Elems(b')
      ensures o in Elems(b) + Parts(z)
    {
      if o !in Parts(b.node) {
        var j := ElemAt(b', o);
        SplitKid(b, i, j, t, z);
        KidElems(b, Source(j, i));
      }
    }
    forall o | o in Elems(b) + Parts(z)
      ensures o in Elems(b')
    {
      SplitKeeps(b, i, t, z, o);
    }
  }

  lemma {:induction false} SplitKeeps(b: Tree, i: nat, t: nat, z: BtreeNode, o: object)
    requires CanSplit(b, i, t, z) && o in Elems(b) + Parts(z)
    ensures o in Elems(Split(b, i, t, z))
  {
    var b' := Split(b, i, t, z);
    if o !in Parts(b.node) {
      var j := i;
      if o !in Parts(z) {
        j := ElemAt(b, o);
      }
      if j == i {
        KidElems(b, i);
        HalfElems(b.kids[i], t, z);
        if o in Elems(b'.kids[i]) {
          InKid(b', i, o);
        } else {
          InKid(b', i + 1, o);
        }
      } else {
        InKid(b', if j < i then j else j + 1, o);
      }
    }
  }

  // ---- in memory ----

  lemma {:induction false} HoldsNode(b: Tree, t: nat)
    requires Has(b.node, t, b.keys, Roots(b.kids)) && forall i :: 0 <= i < |b.kids| ==> Holds(b.kids[i], t)
    ensures Holds(b, t)
  {
    forall i | 0 <= i < |b.kids|
      ensures KidIn(b, i)
    {
      forall o | o in Elems(b.kids[i])
        ensures o in Elems(b)
      {
        InKid(b, i, o);
      }
    }
  }

  lemma AtKid(b: Tree, c: nat, t: nat)
    requires At(b, t) && c < |b.kids|
    ensures At(b.kids[c], t)
  {
  }

  /** What can be read at a node. */
  lemma Look(b: Tree, t: nat)
    requires At(b, t)
    ensures Has(b.node, t, b.keys, Roots(b.kids)) && |b.keys| <= 2 * t - 1
    ensures |b.kids| == if b.node.leaf then 0 else |b.keys| + 1
  {
  }

  /** btree_split_child on two nodes. */
  method SplitNodes(x: BtreeNode, i: nat, t: nat, y: BtreeNode, ghost keys: seq<int>, ghost kids: seq<BtreeNode?>,
                    ghost ykeys: seq<int>, ghost ykids: seq<BtreeNode?>) returns (z: BtreeNode)
    requires t >= 1 && Has(x, t, keys, kids) && Has(y, t, ykeys, ykids) && !x.leaf && Parts(x) !! Parts(y)
    requires i < |kids| && kids[i] == y && |keys| < 2 * t - 1 && |ykeys| == 2 * t - 1
    modifies Parts(x), y
    ensures fresh(Parts(z)) && z.leaf == y.leaf
    ensures Has(x, t, InsertAt(keys, i, ykeys[t - 1]), InsertAt(kids, i + 1, z))
    ensures Has(y, t, ykeys[..t - 1], if y.leaf then [] else ykids[..t])
    ensures Has(z, t, ykeys[t..], if y.leaf then [] else ykids[t..])
  {
    assert x.Kids()[i] == x.childrens[i];
    z := SplitChildNode(x, i, t, y);
  }

  /** Another child shares nothing with what the split writes to. */
  lemma {:induction false} OtherKid(b: Tree, i: nat, j: nat)
    requires Distinct(b) && i < |b.kids| && j < |b.kids| && j != i
    ensures Elems(b.kids[j]) !! Parts(b.node) + Parts(b.kids[i].node)
  {
    KidElems(b, j);
    KidsApart(b, i, j);
  }

  lemma {:induction false} GrandKid(b: Tree, i: nat, j: nat)
    requires Distinct(b) && i < |b.kids| && j < |b.kids[i].kids|
    ensures Elems(b.kids[i].kids[j]) !! Parts(b.node) + Parts(b.kids[i].node)
  {
    KidElems(b, i);
    KidElems(b.kids[i], j);
  }

  /** What the split leaves as it was. */
  lemma {:induction false} Apart(b: Tree, i: nat)
    requires Distinct(b) && i < |b.kids|
    ensures forall j :: 0 <= j < |b.kids| && j != i ==> Elems(b.kids[j]) !! Parts(b.node) + Parts(b.kids[i].node)
    ensures forall j :: 0 <= j < |b.kids[i].kids| ==> Elems(b.kids[i].kids[j]) !! Parts(b.node) + Parts(b.kids[i].node)
  {
    forall j | 0 <= j < |b.kids| && j != i
      ensures Elems(b.kids[j]) !! Parts(b.node) + Parts(b.kids[i].node)
    {
      OtherKid(b, i, j);
    }
    forall j | 0 <= j < |b.kids[i].kids|
      ensures Elems(b.kids[i].kids[j]) !! Parts(b.node) + Parts(b.kids[i].node)
    {
      GrandKid(b, i, j);
    }
  }

  lemma {:induction false} HalvesHold(y: Tree, t: nat, z: BtreeNode)
    requires Full(y, t) && z.leaf == y.node.leaf && forall j :: 0 <= j < |y.kids| ==> Holds(y.kids[j], t)
    requires Has(y.node, t, y.keys[..t - 1], if y.node.leaf then [] else Roots(y.kids)[..t])
    requires Has(z, t, y.keys[t..], if y.node.leaf then [] else Roots(y.kids)[t..])
    ensures Holds(Lower(y, t), t) && Holds(Upper(y, t, z), t)
  {
    assert Roots(Lower(y, t).kids) == if y.node.leaf then [] else Roots(y.kids)[..t];
    assert Roots(Upper(y, t, z).kids) == if y.node.leaf then [] else Roots(y.kids)[t..];
    HoldsNode(Lower(y, t), t);
    HoldsNode(Upper(y, t, z), t);
  }

  lemma {:induction false} SplitHolds(b: Tree, i: nat, t: nat, z: BtreeNode)
    requires i < |b.kids| && i <= |b.keys| && Full(b.kids[i], t)
    requires Has(b.node, t, InsertAt(b.keys, i, b.kids[i].keys[t - 1]), InsertAt(Roots(b.kids), i + 1, z))
    requires Holds(Lower(b.kids[i], t), t) && Holds(Upper(b.kids[i], t, z), t)
    requires forall j :: 0 <= j < |b.kids| && j != i ==> Holds(b.kids[j], t)
    ensures Holds(Split(b, i, t, z), t)
  {
    SplitRoots(b, i, t, z);
    HoldsNode(Split(b, i, t, z), t);
  }

  /** Everything below the two nodes holds, and the nodes are apart from it. */
  ghost predicate Around(b: Tree, i: nat, t: nat)
    requires i < |b.kids|
    reads Elems(b) - (Parts(b.node) + Parts(b.kids[i].node))
  {
    && (forall j :: 0 <= j < |b.kids| && j != i ==>
          KidIn(b, j) && Elems(b.kids[j]) !! Parts(b.node) + Parts(b.kids[i].node) && Holds(b.kids[j], t))
    && KidIn(b, i)
    && (forall j :: 0 <= j < |b.kids[i].kids| ==>
          KidIn(b.kids[i], j) && Elems(b.kids[i].kids[j]) !! Parts(b.node) + Parts(b.kids[i].node)
          && Holds(b.kids[i].kids[j], t))
  }

  lemma AtAround(b: Tree, i: nat, t: nat)
    requires At(b, t) && i < |b.kids|
    ensures Around(b, i, t)
  {
    Apart(b, i);
    AtKid(b, i, t);
    Look(b.kids[i], t);
  }

  /** btree_split_child where everything around the two nodes holds. */
  method SplitIn(x: BtreeNode, i: nat, t: nat, y: BtreeNode, ghost b: Tree) returns (z: BtreeNode)
    requires t >= 1 && i < |b.kids| && Full(b.kids[i], t) && x == b.node && y == b.kids[i].node && Around(b, i, t)
    requires Has(x, t, b.keys, Roots(b.kids)) && Has(y, t, b.kids[i].keys, Roots(b.kids[i].kids))
    requires !x.leaf && Parts(x) !! Parts(y) && |b.keys| < 2 * t - 1
    modifies Parts(x), y
    ensures fresh(Parts(z)) && Holds(Split(b, i, t, z), t) && z.leaf == y.leaf
  {
    PartsAllocated(b);
    z := SplitNodes(x, i, t, y, b.keys, Roots(b.kids), b.kids[i].keys, Roots(b.kids[i].kids));
    AroundSplit(b, i, t, z);
  }

  lemma {:induction false} AroundSplit(b: Tree, i: nat, t: nat, z: BtreeNode)
    requires i < |b.kids| && i <= |b.keys| && Full(b.kids[i], t) && z.leaf == b.kids[i].node.leaf && Around(b, i, t)
    requires Has(b.node, t, InsertAt(b.keys, i, b.kids[i].keys[t - 1]), InsertAt(Roots(b.kids), i + 1, z))
    requires var y := b.kids[i];
             && Has(y.node, t, y.keys[..t - 1], if y.node.leaf then [] else Roots(y.kids)[..t])
             && Has(z, t, y.keys[t..], if y.node.leaf then [] else Roots(y.kids)[t..])
    ensures Holds(Split(b, i, t, z), t)
  {
    HalvesHold(b.kids[i], t, z);
    SplitHolds(b, i, t, z);
  }

  /** btree_split_child on the linked tree. */
  method SplitAt(x: BtreeNode, i: nat, t: nat, ghost b: Tree) returns (z: BtreeNode, ghost b': Tree)
    requires At(b, t) && x == b.node && i < |b.kids| && |b.keys| < 2 * t - 1 && Full(b.kids[i], t)
    modifies Parts(x), b.kids[i].node
    ensures At(b', t) && b'.node == x && Elems(b') == Elems(b) + Parts(z) && fresh(Parts(z))
    ensures Value(b') == SplitChild(Value(b), i, t)
  {
    ghost var y := b.kids[i];
    AtKid(b, i, t);
    Look(b, t);
    Look(y, t);
    KidElems(b, i);
    AtAround(b, i, t);
    assert x.Kids()[i] == Roots(b.kids)[i];
    PartsAllocated(b);
    z := SplitIn(x, i, t, x.childrens[i], b);
    b' := Split(b, i, t, z);
    SplitElems(b, i, t, z);
    SplitDistinct(b, i, t, z);
    SplitValue(b, i, t, z);
  }

  // ---- insertion ----

  ghost predicate CanGrow(v: Node, c: nat, t: nat, h: nat)
  {
    t >= 2 && h > 0 && c < |v.kids| && Shaped(v.kids[c], t, h - 1) && |v.kids[c].keys| < 2 * t - 1
  }

  /** The node with k inserted below child c, if that can be done. */
  ghost function KidGrown(v: Node, c: nat, k: int, t: nat, h: nat): Node
  {
    if CanGrow(v, c, t, h) then v.(kids := v.kids[c := BTree.InsertNonfull(v.kids[c], k, t, h - 1)]) else v
  }

  /** The tree but for child c. */
  ghost predicate Rest(b: Tree, c: nat, t: nat)
    requires c < |b.kids|
    reads Elems(b) - Elems(b.kids[c])
  {
    && Parts(b.node) !! Elems(b.kids[c]) && Has(b.node, t, b.keys, Roots(b.kids))
    && forall j :: 0 <= j < |b.kids| && j != c ==>
         KidIn(b, j) && Elems(b.kids[j]) !! Elems(b.kids[c]) && Holds(b.kids[j], t)
  }

  /** Going down to child c. */
  lemma {:induction false} Descend(b: Tree, c: nat, t: nat)
    requires At(b, t) && c < |b.kids|
    ensures At(b.kids[c], t) && Rest(b, c, t) && Elems(b.kids[c]) <= Elems(b)
    ensures c < b.node.childrens.Length && b.node.childrens[c] == b.kids[c].node
  {
    AtKid(b, c, t);
    Look(b, t);
    KidElems(b, c);
    assert b.node.Kids()[c] == Roots(b.kids)[c];
    forall j | 0 <= j < |b.kids| && j != c
      ensures KidIn(b, j) && Elems(b.kids[j]) !! Elems(b.kids[c])
    {
      KidElems(b, j);
      KidsApart(b, j, c);
    }
  }

  /** The tree is whole again once the child is and nothing else was touched. */
  lemma {:induction false} Reassembled(b: Tree, c: nat, kid: Tree, t: nat)
    requires c < |b.kids| && t >= 2 && Distinct(b) && Rest(b, c, t) && At(kid, t) && kid.node == b.kids[c].node
    requires Elems(kid) !! (Elems(b) - Elems(b.kids[c]))
    ensures At(WithKid(b, c, kid), t) && Elems(WithKid(b, c, kid)) == Elems(b) - Elems(b.kids[c]) + Elems(kid)
  {
    var b' := WithKid(b, c, kid);
    assert Roots(b'.kids) == Roots(b.kids);
    HoldsNode(b', t);
    WithKidElems(b, c, kid);
    WithKidDistinct(b, c, kid);
  }

  /** btree_insert_nonfull on child c, and the tree with the child as it is then. */
  method InsertBelow(x: BtreeNode, c: nat, k: int, t: nat, ghost b: Tree, ghost h: nat) returns (ghost b': Tree)
    requires At(b, t) && x == b.node && c < |b.kids| && CanGrow(Value(b), c, t, h)
    modifies Elems(b)
    ensures At(b', t) && b'.node == x && Elems(b) <= Elems(b')
            && (forall o :: o in Elems(b') ==> o in Elems(b) || fresh(o))
    ensures Value(b') == KidGrown(Value(b), c, k, t, h)
    decreases h, 0
  {
    ghost var kid := b.kids[c];
    Descend(b, c, t);
    PartsAllocated(b);
    ghost var kid' := InsertNonfullAt(x.childrens[c], k, t, kid, h - 1);
    Reassembled(b, c, kid', t);
    b' := WithKid(b, c, kid');
    WithKidValue(b, c, kid');
  }

  /** btree_insert_nonfull */
  method InsertNonfullAt(x: BtreeNode, k: int, t: nat, ghost b: Tree, ghost h: nat) returns (ghost b': Tree)
    requires At(b, t) && x == b.node && Shaped(Value(b), t, h) && |b.keys| < 2 * t - 1
    modifies Elems(b)
    ensures At(b', t) && b'.node == x && Elems(b) <= Elems(b')
            && (forall o :: o in Elems(b') ==> o in Elems(b) || fresh(o))
    ensures Value(b') == BTree.InsertNonfull(Value(b), k, t, h)
    decreases h, 3
  {
    if x.leaf {
      b' := InsertLeaf(x, k, t, b);
    } else {
      var c, full := FindChild(x, k, t, b, h);
      if full {
        b' := InsertSplitting(x, c, k, t, b, h);
      } else {
        NonfullPlain(Value(b), k, t, h, c);
        b' := InsertBelow(x, c, k, t, b, h);
      }
    }
  }

  /** The value-level steps of btree_insert_nonfull at an inner node. */
  lemma {:induction false} NonfullPlain(v: Node, k: int, t: nat, h: nat, c: nat)
    requires t >= 2 && Shaped(v, t, h) && |v.keys| < 2 * t - 1 && !v.leaf && c == SlotFor(v.keys, k)
    requires c < |v.kids| && |v.kids[c].keys| != 2 * t - 1
    ensures CanGrow(v, c, t, h) && BTree.InsertNonfull(v, k, t, h) == KidGrown(v, c, k, t, h)
  {
  }

  lemma {:induction false} NonfullSplit(v: Node, k: int, t: nat, h: nat, c: nat)
    requires t >= 2 && Shaped(v, t, h) && |v.keys| < 2 * t - 1 && !v.leaf && c == SlotFor(v.keys, k)
    requires c < |v.kids| && |v.kids[c].keys| == 2 * t - 1 && (!v.kids[c].leaf ==> |v.kids[c].kids| == 2 * t)
    ensures var x := SplitChild(v, c, t); var d := if k > x.keys[c] then c + 1 else c;
            CanGrow(x, d, t, h) && BTree.InsertNonfull(v, k, t, h) == KidGrown(x, d, k, t, h)
  {
    SplitShaped(v, c, t, h);
    var x := SplitChild(v, c, t);
    NonfullIs(v, k, t, h, c, if k > x.keys[c] then c + 1 else c);
  }

  /** Where the scan from the right stops. */
  method Scan(x: BtreeNode, k: int, t: nat, ghost b: Tree) returns (c: nat)
    requires At(b, t) && x == b.node
    ensures At(b, t) && c == SlotFor(b.keys, k)
  {
    Look(b, t);
    assert forall j :: 0 <= j < x.num ==> x.keys[j] == b.keys[j];
    var i: int := x.num - 1;
    while i >= 0 && x.keys[i] > k
      invariant -1 <= i < x.num && forall j :: i < j < x.num ==> b.keys[j] > k
    {
      i := i - 1;
    }
    c := i + 1;
    SlotIs(b.keys, c, k);
  }

  /** The child to go down to, and whether it must be split first. */
  method FindChild(x: BtreeNode, k: int, t: nat, ghost b: Tree, ghost h: nat) returns (c: nat, full: bool)
    requires At(b, t) && x == b.node && Shaped(Value(b), t, h) && !x.leaf
    ensures At(b, t) && c == SlotFor(b.keys, k) && c < |b.kids|
    ensures (full <==> |b.kids[c].keys| == 2 * t - 1) && (full ==> Full(b.kids[c], t))
  {
    c := Scan(x, k, t, b);
    Look(b, t);
    Descend(b, c, t);
    Look(b.kids[c], t);
    full := x.childrens[c].num == 2 * t - 1;
  }

  method InsertLeaf(x: BtreeNode, k: int, t: nat, ghost b: Tree) returns (ghost b': Tree)
    requires At(b, t) && x == b.node && x.leaf && |b.keys| < 2 * t - 1
    modifies Parts(x)
    ensures At(b', t) && b'.node == x && Elems(b') == Elems(b)
    ensures Value(b') == Value(b).(keys := InsertAt(b.keys, SlotFor(b.keys, k), k))
  {
    Look(b, t);
    InsertInLeaf(x, k);
    b' := Tree(x, InsertAt(b.keys, SlotFor(b.keys, k), k), []);
  }

  /** The half the key belongs below. */
  method ChooseHalf(x: BtreeNode, c: nat, k: int, t: nat, ghost b: Tree) returns (d: nat)
    requires At(b, t) && x == b.node && c < |b.keys|
    ensures At(b, t) && d == if k > b.keys[c] then c + 1 else c
  {
    Look(b, t);
    assert x.keys[c] == x.Keys()[c];
    d := if k > x.keys[c] then c + 1 else c;
  }

  /** The full child is split, and the key goes below one of the halves. */
  method InsertSplitting(x: BtreeNode, c: nat, k: int, t: nat, ghost b: Tree, ghost h: nat) returns (ghost b': Tree)
    requires At(b, t) && x == b.node && Shaped(Value(b), t, h) && |b.keys| < 2 * t - 1 && !x.leaf
    requires c == SlotFor(b.keys, k) && c < |b.kids| && Full(b.kids[c], t)
    modifies Elems(b)
    ensures At(b', t) && b'.node == x && Elems(b) <= Elems(b')
            && (forall o :: o in Elems(b') ==> o in Elems(b) || fresh(o))
    ensures Value(b') == BTree.InsertNonfull(Value(b), k, t, h)
    decreases h, 2
  {
    var d;
    ghost var b1;
    d, b1 := SplitFor(x, c, k, t, b, h);
    b' := InsertBelow(x, d, k, t, b1, h);
  }

  method SplitFor(x: BtreeNode, c: nat, k: int, t: nat, ghost b: Tree, ghost h: nat) returns (d: nat, ghost b1: Tree)
    requires At(b, t) && x == b.node && Shaped(Value(b), t, h) && |b.keys| < 2 * t - 1 && !x.leaf
    requires c == SlotFor(b.keys, k) && c < |b.kids| && Full(b.kids[c], t)
    modifies Parts(x), b.kids[c].node
    ensures At(b1, t) && b1.node == x && Elems(b) <= Elems(b1)
            && (forall o :: o in Elems(b1) ==> o in Elems(b) || fresh(o))
    ensures d < |b1.kids| && CanGrow(Value(b1), d, t, h)
    ensures BTree.InsertNonfull(Value(b), k, t, h) == KidGrown(Value(b1), d, k, t, h)
  {
    NonfullSplit(Value(b), k, t, h, c);
    ghost var z;
    z, b1 := SplitAt(x, c, t, b);
    d := ChooseHalf(x, c, k, t, b1);
  }

  // ---- the tree ----

  ghost function TopValue(v: Node): Node { Node(false, [], [v]) }

  ghost function Top(node: BtreeNode, b: Tree): Tree { Tree(node, [], [b]) }

  /** A new root above the old one. */
  method NewRoot(r: BtreeNode, t: nat, ghost b: Tree) returns (node: BtreeNode)
    requires At(b, t) && r == b.node
    ensures At(Top(node, b), t) && Elems(Top(node, b)) == Elems(b) + Parts(node) && fresh(Parts(node)) && !node.leaf
  {
    PartsAllocated(b);
    node := new BtreeNode(t, false);
    node.childrens[0] := r;
    TopElems(node, b);
    assert node.Kids() == [r] == Roots(Top(node, b).kids);
    assert Holds(b, t);
    HoldsNode(Top(node, b), t);
  }

  lemma {:induction false} TopElems(node: BtreeNode, b: Tree)
    requires Parts(node) !! Elems(b) && Distinct(b)
    ensures Elems(Top(node, b)) == Elems(b) + Parts(node) && Distinct(Top(node, b))
  {
    var top := Top(node, b);
    assert top.kids[0] == b;
    forall o | o in Elems(b)
      ensures o in Elems(top)
    {
      InKid(top, 0, o);
    }
    forall o | o in Elems(top) && o !in Parts(node)
      ensures o in Elems(b)
    {
      var i := ElemAt(top, o);
    }
  }

  lemma {:induction false} TopValueIs(node: BtreeNode, b: Tree)
    requires !node.leaf
    ensures Value(Top(node, b)) == TopValue(Value(b))
  {
    assert Value(Top(node, b)).kids == [Value(b)];
  }

  ghost predicate CanSplitRoot(v: Node, t: nat, h: nat)
  {
    t >= 2 && Shaped(v, t, h) && |v.keys| == 2 * t - 1
  }

  /** The value-level steps when the root is full. */
  ghost function RootGrown(v: Node, key: int, t: nat, h: nat): Node
  {
    if CanSplitRoot(v, t, h) then InsertSplit(TopValue(v), key, t, h + 1) else v
  }

  lemma SplitSteps(v: Node, key: int, t: nat, h: nat) returns (above: nat)
    requires CanSplitRoot(v, t, h)
    ensures !v.leaf ==> |v.kids| == 2 * t
    ensures var x := SplitChild(TopValue(v), 0, t); var d := if x.keys[0] < key then 1 else 0;
            CanGrow(x, d, t, above) && RootGrown(v, key, t, h) == KidGrown(x, d, key, t, above)
  {
    above := h + 1;
    assert TopValue(v).kids[0] == v;
    SplitShaped(TopValue(v), 0, t, h + 1);
  }

  /** The root is full: it is split below a new root, and the key goes below one of the halves. */
  method GrowRoot(r: BtreeNode, key: int, t: nat, ghost b: Tree, ghost h: nat) returns (node: BtreeNode, ghost b': Tree)
    requires At(b, t) && r == b.node && CanSplitRoot(Value(b), t, h)
    modifies Elems(b)
    ensures At(b', t) && node == b'.node && Elems(b) <= Elems(b')
            && (forall o :: o in Elems(b') ==> o in Elems(b) || fresh(o))
    ensures Value(b') == RootGrown(Value(b), key, t, h)
  {
    var i;
    ghost var b1, above;
    node, i, b1, above := SplitRootFor(r, key, t, b, h);
    b' := InsertBelow(node, i, key, t, b1, above);
  }

  method SplitRootFor(r: BtreeNode, key: int, t: nat, ghost b: Tree, ghost h: nat)
    returns (node: BtreeNode, i: nat, ghost b1: Tree, ghost above: nat)
    requires At(b, t) && r == b.node && CanSplitRoot(Value(b), t, h)
    modifies r
    ensures At(b1, t) && node == b1.node && Elems(b) <= Elems(b1)
            && (forall o :: o in Elems(b1) ==> o in Elems(b) || fresh(o))
    ensures i < |b1.kids| && CanGrow(Value(b1), i, t, above)
    ensures RootGrown(Value(b), key, t, h) == KidGrown(Value(b1), i, key, t, above)
  {
    node, b1 := SplitRoot(r, t, b);
    above := SplitSteps(Value(b), key, t, h);
    i := ChooseSide(node, key, t, b1);
  }

  method SplitRoot(r: BtreeNode, t: nat, ghost b: Tree) returns (node: BtreeNode, ghost b1: Tree)
    requires At(b, t) && r == b.node && |b.keys| == 2 * t - 1
    modifies r
    ensures At(b1, t) && node == b1.node && Elems(b) <= Elems(b1)
            && (forall o :: o in Elems(b1) ==> o in Elems(b) || fresh(o))
    ensures Full(b, t) && Value(b1) == SplitChild(TopValue(Value(b)), 0, t)
  {
    Look(b, t);
    node := NewRoot(r, t, b);
    ghost var top := Top(node, b);
    assert top.kids[0] == b;
    ghost var z;
    z, b1 := SplitAt(node, 0, t, top);
    TopValueIs(node, b);
  }

  method ChooseSide(x: BtreeNode, key: int, t: nat, ghost b: Tree) returns (i: nat)
    requires At(b, t) && x == b.node && b.keys != []
    ensures At(b, t) && i == if b.keys[0] < key then 1 else 0
  {
    Look(b, t);
    assert x.keys[0] == x.Keys()[0];
    i := if x.keys[0] < key then 1 else 0;
  }

  /** A B-tree of this degree and height with its keys in order. */
  ghost predicate Good(v: Node, t: nat, h: nat)
  {
    RootShaped(v, t, h) && Regular(v) && Sorted(Inorder(v))
  }

  lemma {:induction false} InsertIs(v: Node, key: int, t: nat, h: nat)
    requires t >= 2 && RootShaped(v, t, h)
    ensures |v.keys| == 2 * t - 1 ==> CanSplitRoot(v, t, h) && BTree.Insert(v, key, t, h) == RootGrown(v, key, t, h)
    ensures |v.keys| != 2 * t - 1 ==> BTree.Insert(v, key, t, h) == BTree.InsertNonfull(v, key, t, h)
  {
  }

  class Btree {
    const t: nat
    var root: BtreeNode
    ghost var tree: Tree
    ghost var height: nat

    ghost predicate Valid()
      reads this, Elems(tree)
    {
      this !in Elems(tree) && root == tree.node && At(tree, t) && Good(Value(tree), t, height)
    }

    /** The keys in order. */
    ghost function Keys(): seq<int>
      reads this
      requires Regular(Value(tree))
    {
      Inorder(Value(tree))
    }

    /** btree_create */
    constructor (t: nat)
      requires t >= 2
      ensures Valid() && this.t == t && Keys() == [] && height == 0
    {
      this.t := t;
      var x := new BtreeNode(t, true);
      root := x;
      tree := Tree(x, [], []);
      height := 0;
    }

    /** btree_insert: one occurrence of the key more, in order; every leaf stays at the same depth and
        every node within its bounds. */
    method Insert(key: int)
      requires Valid()
      modifies this, Elems(tree)
      ensures Valid() && Value(tree) == BTree.Insert(old(Value(tree)), key, t, old(height))
      ensures multiset(Keys()) == multiset(old(Keys())) + multiset{key}
      ensures height == old(height) || height == old(height) + 1
      ensures old(Elems(tree)) <= Elems(tree) && (forall o :: o in Elems(tree) ==> o in old(Elems(tree)) || fresh(o))
    {
      InsertCorrect(Value(tree), key, t, height);
      var node, b' := Grow(key);
      Install(node, b', if |tree.keys| == 2 * t - 1 then height + 1 else height);
    }

    method Grow(key: int) returns (node: BtreeNode, ghost b': Tree)
      requires Valid()
      modifies Elems(tree)
      ensures At(b', t) && node == b'.node && Value(b') == BTree.Insert(old(Value(tree)), key, t, height)
      ensures Elems(tree) <= Elems(b') && (forall o :: o in Elems(b') ==> o in Elems(tree) || fresh(o))
    {
      Look(tree, t);
      InsertIs(Value(tree), key, t, height);
      if root.num == 2 * t - 1 {
        node, b' := GrowRoot(root, key, t, tree, height);
      } else {
        node := root;
        b' := InsertNonfullAt(root, key, t, tree, height);
      }
    }

    method Install(node: BtreeNode, ghost b: Tree, ghost h: nat)
      requires At(b, t) && node == b.node && Good(Value(b), t, h) && this !in Elems(b)
      modifies this
      ensures Valid() && tree == b && height == h
    {
      root, tree, height := node, b, h;
    }
  }
}
