/** The steps of B-tree insertion that move keys and child pointers inside the arrays of single
    nodes, proved to be the ones module BTree composes. */
module BTreeNodes {
  import opened BTree

  class BtreeNode {
    const keys: array<int>
    const childrens: array<BtreeNode?>
    const leaf: bool
    var num: nat

    /** btree_create_node */
    constructor (t: nat, leaf: bool)
      requires t >= 1
      ensures Fits(t) && num == 0 && this.leaf == leaf && fresh(keys) && fresh(childrens)
    {
      keys := new int[2 * t - 1](_ => 0);
      childrens := new BtreeNode?[2 * t](_ => null);
      num := 0;
      this.leaf := leaf;
    }

    ghost predicate Fits(t: nat)
      reads this
    {
      keys.Length == 2 * t - 1 && childrens.Length == 2 * t && num <= 2 * t - 1
    }

    ghost function Keys(): seq<int>
      reads this, keys
      requires num <= keys.Length
    {
      keys[..num]
    }

    ghost function Kids(): seq<BtreeNode?>
      reads this, childrens
      requires num < childrens.Length
    {
      childrens[..num + 1]
    }
  }

  /** The place is determined by the keys around it. */
  lemma {:induction false} SlotIs(keys: seq<int>, c: nat, k: int)
    requires c <= |keys| && (forall j :: c <= j < |keys| ==> keys[j] > k) && (c > 0 ==> keys[c - 1] <= k)
    ensures SlotFor(keys, k) == c
  {
  }

  lemma InsertedIs(s: seq<int>, i: nat, v: int, r: seq<int>)
    requires i <= |s| && |r| == |s| + 1 && r[i] == v
    requires forall j :: 0 <= j < i ==> r[j] == s[j]
    requires forall j :: i < j < |r| ==> r[j] == s[j - 1]
    ensures r == InsertAt(s, i, v)
  {
    var w := InsertAt(s, i, v);
    forall j | 0 <= j < |r|
      ensures r[j] == w[j]
    {
      if j < i {
      } else if j == i {
      } else {
        assert w[j] == s[i..][j - i - 1];
      }
    }
  }

  /** Greater keys move up one place, k goes below them. */
  method InsertSorted(a: array<int>, n: nat, k: int) returns (ghost c: nat)
    requires n < a.Length
    modifies a
    ensures c <= n && a[..n + 1] == InsertAt(old(a[..n]), c, k)
    ensures (forall j :: c <= j < n ==> old(a[j]) > k) && (c > 0 ==> old(a[c - 1]) <= k)
  {
    ghost var was := a[..n];
    var i: int := n - 1;
    while i >= 0 && a[i] > k
      invariant -1 <= i < n
      invariant forall j :: 0 <= j <= i ==> a[j] == was[j]
      invariant forall j :: i + 1 < j <= n ==> a[j] == was[j - 1]
      invariant forall j :: i < j < n ==> was[j] > k
    {
      a[i + 1] := a[i];
      i := i - 1;
    }
    a[i + 1] := k;
    c := i + 1;
    InsertedIs(was, c, k, a[..n + 1]);
  }

  /** The leaf branch of btree_insert_nonfull. */
  method InsertInLeaf(x: BtreeNode, k: int)
    requires x.num < x.keys.Length
    modifies x`num, x.keys
    ensures x.num == old(x.num) + 1 && x.Keys() == InsertAt(old(x.Keys()), SlotFor(old(x.Keys()), k), k)
  {
    ghost var was := x.Keys();
    ghost var c := InsertSorted(x.keys, x.num, k);
    SlotIs(was, c, k);
    x.num := x.num + 1;
  }

  /** Put an element at place i of the first n, moving those from there on one place up, last first. */
  method InsertPlace<T>(a: array<T>, i: nat, n: nat, v: T)
    requires i <= n < a.Length
    modifies a
    ensures a[..n + 1] == InsertAt(old(a[..n]), i, v)
  {
    var j := n;
    while j > i
      invariant i <= j <= n
      invariant forall l :: 0 <= l <= j && l < n ==> a[l] == old(a[l])
      invariant forall l :: j <= l < n ==> a[l + 1] == old(a[l])
    {
      a[j] := a[j - 1];
      j := j - 1;
    }
    a[i] := v;
  }

  /** Copy n elements from place t of one array to the start of another. */
  method CopyFrom<T>(src: array<T>, t: nat, dst: array<T>, n: nat)
    requires src != dst && t + n <= src.Length && n <= dst.Length
    modifies dst
    ensures dst[..n] == src[t..t + n]
  {
    var j := 0;
    while j < n
      invariant 0 <= j <= n && dst[..j] == src[t..t + j]
    {
      dst[j] := src[j + t];
      j := j + 1;
    }
  }

  /** A new node takes the upper half of y, which keeps the lower one. */
  method UpperHalf(y: BtreeNode, t: nat) returns (z: BtreeNode)
    requires t >= 1 && y.Fits(t) && y.num == 2 * t - 1
    modifies y`num
    ensures fresh(z) && fresh(z.keys) && fresh(z.childrens) && y.Fits(t) && z.Fits(t) && z.leaf == y.leaf
    ensures y.num == t - 1 == z.num && y.Keys() == old(y.Keys())[..t - 1] && z.Keys() == old(y.Keys())[t..]
    ensures !y.leaf ==> y.Kids() == old(y.Kids())[..t] && z.Kids() == old(y.Kids())[t..]
  {
    ghost var ykeys, ykids := y.Keys(), y.Kids();
    z := new BtreeNode(t, y.leaf);
    z.num := t - 1;
    CopyFrom(y.keys, t, z.keys, t - 1);
    assert z.keys[..t - 1] == ykeys[t..];
    if !y.leaf {
      CopyFrom(y.childrens, t, z.childrens, t);
    }
    y.num := t - 1;
    assert ykeys[..t - 1] == y.Keys();
    assert !y.leaf ==> ykids[..t] == y.Kids() && ykids[t..] == z.Kids();
  }

  /** btree_split_child: the full child y at place i of x keeps its lower half, a new node z takes the
      upper one, and the key between goes up to x. */
  method SplitChildNode(x: BtreeNode, i: nat, t: nat, y: BtreeNode) returns (z: BtreeNode)
    requires t >= 1 && x.Fits(t) && i <= x.num < 2 * t - 1 && x.childrens[i] == y
    requires y != x && y.Fits(t) && y.num == 2 * t - 1 && y.keys != x.keys && y.childrens != x.childrens
    modifies x`num, x.keys, x.childrens, y`num
    ensures fresh(z) && fresh(z.keys) && fresh(z.childrens)
    ensures x.Fits(t) && y.Fits(t) && z.Fits(t) && x.num == old(x.num) + 1 && z.leaf == y.leaf
    ensures x.Keys() == InsertAt(old(x.Keys()), i, old(y.Keys())[t - 1])
    ensures x.Kids() == InsertAt(old(x.Kids()), i + 1, z) && x.Kids()[i] == y
    ensures y.Keys() == old(y.Keys())[..t - 1] && z.Keys() == old(y.Keys())[t..]
    ensures !y.leaf ==> y.Kids() == old(y.Kids())[..t] && z.Kids() == old(y.Kids())[t..]
  {
    z := UpperHalf(y, t);
    InsertPlace(x.childrens, i + 1, x.num + 1, z);
    InsertPlace(x.keys, i, x.num, y.keys[t - 1]);
    x.num := x.num + 1;
  }
}
