/** Red-black trees as values: the shapes ngx_rbtree.c moves between, the hole-in-context view
    its fix-up loops walk along, and the invariants each step restores. */
module RbShape {

  datatype Tree<T> = Leaf | N(red: bool, l: Tree<T>, v: T, r: Tree<T>)

  /** A tree with one subtree missing: the path from the hole up to the root. */
  datatype Ctx<T> = Top
                  | InL(red: bool, v: T, r: Tree<T>, up: Ctx<T>)
                  | InR(red: bool, l: Tree<T>, v: T, up: Ctx<T>)

  ghost function Plug<T>(c: Ctx<T>, t: Tree<T>): Tree<T>
  {
    match c
    case Top => t
    case InL(red, v, r, up) => Plug(up, N(red, t, v, r))
    case InR(red, l, v, up) => Plug(up, N(red, l, v, t))
  }

  /** Append a context below another: Plug(Compose(c, d), t) == Plug(c, Plug(d, t)). */
  ghost function Compose<T>(c: Ctx<T>, d: Ctx<T>): Ctx<T>
  {
    match d
    case Top => c
    case InL(red, v, r, up) => InL(red, v, r, Compose(c, up))
    case InR(red, l, v, up) => InR(red, l, v, Compose(c, up))
  }

  lemma {:induction false} PlugCompose<T>(c: Ctx<T>, d: Ctx<T>, t: Tree<T>)
    ensures Plug(Compose(c, d), t) == Plug(c, Plug(d, t))
    decreases d
  {
    match d
    case Top =>
    case InL(red, v, r, up) => PlugCompose(c, up, N(red, t, v, r));
    case InR(red, l, v, up) => PlugCompose(c, up, N(red, l, v, t));
  }

  // ---- contents ----

  ghost function Inorder<T>(t: Tree<T>): seq<T>
  {
    match t
    case Leaf => []
    case N(_, l, v, r) => Inorder(l) + [v] + Inorder(r)
  }

  ghost function Before<T>(c: Ctx<T>): seq<T>
  {
    match c
    case Top => []
    case InL(_, _, _, up) => Before(up)
    case InR(_, l, v, up) => Before(up) + Inorder(l) + [v]
  }

  ghost function After<T>(c: Ctx<T>): seq<T>
  {
    match c
    case Top => []
    case InL(_, v, r, up) => [v] + Inorder(r) + After(up)
    case InR(_, _, _, up) => After(up)
  }

  lemma {:induction false} PlugInorder<T>(c: Ctx<T>, t: Tree<T>)
    ensures Inorder(Plug(c, t)) == Before(c) + Inorder(t) + After(c)
    decreases c
  {
    match c
    case Top =>
    case InL(red, v, r, up) => PlugInorder(up, N(red, t, v, r));
    case InR(red, l, v, up) => PlugInorder(up, N(red, l, v, t));
  }

  ghost function Elems<T>(t: Tree<T>): set<T>
  {
    match t
    case Leaf => {}
    case N(_, l, v, r) => Elems(l) + {v} + Elems(r)
  }

  ghost function ElemsC<T>(c: Ctx<T>): set<T>
  {
    match c
    case Top => {}
    case InL(_, v, r, up) => {v} + Elems(r) + ElemsC(up)
    case InR(_, l, v, up) => {v} + Elems(l) + ElemsC(up)
  }

  ghost predicate Distinct<T>(t: Tree<T>)
  {
    match t
    case Leaf => true
    case N(_, l, v, r) => Distinct(l) && Distinct(r) && v !in Elems(l) && v !in Elems(r) && Elems(l) !! Elems(r)
  }

  ghost predicate DistinctC<T>(c: Ctx<T>)
  {
    match c
    case Top => true
    case InL(_, v, r, up) =>
      DistinctC(up) && Distinct(r) && v !in Elems(r) && v !in ElemsC(up) && Elems(r) !! ElemsC(up)
    case InR(_, l, v, up) =>
      DistinctC(up) && Distinct(l) && v !in Elems(l) && v !in ElemsC(up) && Elems(l) !! ElemsC(up)
  }

  ghost predicate Apart<T>(c: Ctx<T>, t: Tree<T>)
  {
    DistinctC(c) && Distinct(t) && Elems(t) !! ElemsC(c)
  }

  lemma {:induction false} PlugDistinct<T>(c: Ctx<T>, t: Tree<T>)
    ensures Elems(Plug(c, t)) == Elems(t) + ElemsC(c)
    ensures Distinct(Plug(c, t)) <==> Apart(c, t)
    decreases c
  {
    match c
    case Top =>
    case InL(red, v, r, up) => PlugDistinct(up, N(red, t, v, r));
    case InR(red, l, v, up) => PlugDistinct(up, N(red, l, v, t));
  }

  lemma {:induction false} ComposeElems<T>(c: Ctx<T>, d: Ctx<T>)
    ensures ElemsC(Compose(c, d)) == ElemsC(c) + ElemsC(d)
    ensures DistinctC(Compose(c, d)) <==> DistinctC(c) && DistinctC(d) && ElemsC(c) !! ElemsC(d)
    decreases d
  {
    match d
    case Top =>
    case InL(_, v, r, up) => ComposeElems(c, up);
    case InR(_, l, v, up) => ComposeElems(c, up);
  }

  lemma {:induction false} InorderElems<T>(t: Tree<T>)
    ensures forall x :: x in Inorder(t) <==> x in Elems(t)
  {
    match t
    case Leaf =>
    case N(_, l, v, r) =>
      InorderElems(l);
      InorderElems(r);
  }

  /** Every element sits somewhere: the context above it and the subtree it roots. */
  lemma {:induction false} Locate<T>(t: Tree<T>, x: T) returns (c: Ctx<T>, s: Tree<T>)
    requires x in Elems(t)
    ensures s.N? && s.v == x && t == Plug(c, s)
  {
    if x == t.v {
      c, s := Top, t;
    } else if x in Elems(t.l) {
      c, s := Locate(t.l, x);
      PlugCompose(InL(t.red, t.v, t.r, Top), c, s);
      c := Compose(InL(t.red, t.v, t.r, Top), c);
    } else {
      c, s := Locate(t.r, x);
      PlugCompose(InR(t.red, t.l, t.v, Top), c, s);
      c := Compose(InR(t.red, t.l, t.v, Top), c);
    }
  }

  // ---- colours ----

  ghost predicate IsRed<T>(t: Tree<T>) { t.N? && t.red }

  ghost function Paint<T>(t: Tree<T>, red: bool): Tree<T>
  {
    if t.Leaf? then t else N(red, t.l, t.v, t.r)
  }

  ghost function Blacken<T>(t: Tree<T>): Tree<T> { Paint(t, false) }

  /** No red node has a red child. */
  ghost predicate NoRedRed<T>(t: Tree<T>)
  {
    t.N? ==> NoRedRed(t.l) && NoRedRed(t.r) && (t.red ==> !IsRed(t.l) && !IsRed(t.r))
  }

  /** Black nodes on the leftmost path; on every path when Balanced. */
  ghost function Height<T>(t: Tree<T>): nat
  {
    match t
    case Leaf => 0
    case N(red, l, _, _) => Height(l) + if red then 0 else 1
  }

  ghost predicate Balanced<T>(t: Tree<T>)
  {
    t.N? ==> Balanced(t.l) && Balanced(t.r) && Height(t.l) == Height(t.r)
  }

  ghost predicate RedBlack<T>(t: Tree<T>)
  {
    !IsRed(t) && NoRedRed(t) && Balanced(t)
  }

  ghost predicate CtxRed<T>(c: Ctx<T>)
  {
    match c
    case Top => false
    case InL(red, _, _, _) => red
    case InR(red, _, _, _) => red
  }

  /** A balanced subtree of height h in the hole makes the whole balanced. */
  ghost predicate BalancedC<T>(c: Ctx<T>, h: nat)
  {
    match c
    case Top => true
    case InL(red, _, r, up) => Balanced(r) && Height(r) == h && BalancedC(up, if red then h else h + 1)
    case InR(red, l, _, up) => Balanced(l) && Height(l) == h && BalancedC(up, if red then h else h + 1)
  }

  /** A black subtree without red-red in the hole leaves the whole without red-red. */
  ghost predicate NoRedRedC<T>(c: Ctx<T>)
  {
    match c
    case Top => true
    case InL(red, _, r, up) => NoRedRed(r) && NoRedRedC(up) && (red ==> !IsRed(r) && !CtxRed(up))
    case InR(red, l, _, up) => NoRedRed(l) && NoRedRedC(up) && (red ==> !IsRed(l) && !CtxRed(up))
  }

  /** The root of the whole is black, wherever the hole is. */
  ghost predicate BlackRootC<T>(c: Ctx<T>)
  {
    match c
    case Top => true
    case InL(red, _, _, up) => if up.Top? then !red else BlackRootC(up)
    case InR(red, _, _, up) => if up.Top? then !red else BlackRootC(up)
  }

  lemma {:induction false} PlugBalanced<T>(c: Ctx<T>, t: Tree<T>)
    ensures Balanced(Plug(c, t)) <==> Balanced(t) && BalancedC(c, Height(t))
    decreases c
  {
    match c
    case Top =>
    case InL(red, v, r, up) => PlugBalanced(up, N(red, t, v, r));
    case InR(red, l, v, up) => PlugBalanced(up, N(red, l, v, t));
  }

  lemma {:induction false} PlugNoRedRed<T>(c: Ctx<T>, t: Tree<T>)
    ensures NoRedRed(Plug(c, t)) <==> NoRedRed(t) && NoRedRedC(c) && !(IsRed(t) && CtxRed(c))
    decreases c
  {
    match c
    case Top =>
    case InL(red, v, r, up) => PlugNoRedRed(up, N(red, t, v, r));
    case InR(red, l, v, up) => PlugNoRedRed(up, N(red, l, v, t));
  }

  lemma {:induction false} PlugRoot<T>(c: Ctx<T>, t: Tree<T>)
    requires !c.Top?
    ensures Plug(c, t).N? && (IsRed(Plug(c, t)) <==> !BlackRootC(c))
    decreases c
  {
    match c
    case InL(red, v, r, up) => if !up.Top? { PlugRoot(up, N(red, t, v, r)); }
    case InR(red, l, v, up) => if !up.Top? { PlugRoot(up, N(red, l, v, t)); }
  }

  // ---- insertion: t in the hole is red, and only it and its parent may both be red ----

  ghost predicate InsertState<T>(c: Ctx<T>, t: Tree<T>)
  {
    && IsRed(t) && NoRedRed(t) && Balanced(t)
    && NoRedRedC(c) && BalancedC(c, Height(t)) && BlackRootC(c)
  }

  /** The loop's exit: blackening the root gives a red-black tree. */
  lemma {:induction false} InsertDone<T>(c: Ctx<T>, t: Tree<T>)
    requires InsertState(c, t) && !CtxRed(c)
    ensures RedBlack(Blacken(Plug(c, t)))
    ensures !c.Top? ==> Blacken(Plug(c, t)) == Plug(c, t)
  {
    PlugBalanced(c, t);
    PlugNoRedRed(c, t);
    if !c.Top? {
      PlugRoot(c, t);
    }
  }

  /** A new red leaf starts the loop. */
  lemma {:induction false} InsertStart<T>(c: Ctx<T>, x: T)
    requires RedBlack(Plug(c, Leaf)) && !c.Top?
    ensures InsertState(c, N(true, Leaf, x, Leaf))
  {
    PlugBalanced(c, Leaf);
    PlugNoRedRed(c, Leaf);
    PlugRoot(c, Leaf);
  }

  ghost function Depth<T>(c: Ctx<T>): nat
  {
    match c
    case Top => 0
    case InL(_, _, _, up) => 1 + Depth(up)
    case InR(_, _, _, up) => 1 + Depth(up)
  }

  /** Below a red parent there is a black grandparent. */
  lemma {:induction false} RedParentHasUp<T>(c: Ctx<T>)
    requires CtxRed(c) && BlackRootC(c) && NoRedRedC(c)
    ensures !c.up.Top? && !CtxRed(c.up)
  {
  }

  ghost function Uncle<T>(c: Ctx<T>): Tree<T>
    requires !c.Top? && !c.up.Top?
  {
    if c.up.InL? then c.up.r else c.up.l
  }

  /** The colour and height facts about one step of the path, and about two. */
  lemma OpenOne<T>(c: Ctx<T>, h: nat)
    requires !c.Top? && NoRedRedC(c) && BalancedC(c, h) && BlackRootC(c)
    ensures NoRedRedC(c.up) && BalancedC(c.up, if c.red then h else h + 1) && BlackRootC(c.up)
    ensures c.InL? ==> NoRedRed(c.r) && Balanced(c.r) && Height(c.r) == h
    ensures c.InR? ==> NoRedRed(c.l) && Balanced(c.l) && Height(c.l) == h
  {
  }

  lemma OpenTwo<T>(c: Ctx<T>, h: nat)
    requires !c.Top? && !c.up.Top? && NoRedRedC(c) && BalancedC(c, h) && BlackRootC(c)
    ensures var h1 := if c.red then h else h + 1;
            NoRedRedC(c.up.up) && BalancedC(c.up.up, if c.up.red then h1 else h1 + 1) && BlackRootC(c.up.up)
            && NoRedRed(Uncle(c)) && Balanced(Uncle(c)) && Height(Uncle(c)) == h1
    ensures c.InL? ==> NoRedRed(c.r) && Balanced(c.r) && Height(c.r) == h
    ensures c.InR? ==> NoRedRed(c.l) && Balanced(c.l) && Height(c.l) == h
  {
    OpenOne(c, h);
    OpenOne(c.up, if c.red then h else h + 1);
  }

  lemma {:induction false} OpenTree<T>(t: Tree<T>)
    requires t.N? && NoRedRed(t) && Balanced(t)
    ensures NoRedRed(t.l) && NoRedRed(t.r) && Balanced(t.l) && Balanced(t.r) && Height(t.l) == Height(t.r)
    ensures Height(t) == Height(t.r) + if t.red then 0 else 1
  {
  }

  lemma {:induction false} NoRedRedBlackened<T>(t: Tree<T>)
    requires NoRedRed(t)
    ensures NoRedRed(Blacken(t))
  {
  }

  /** The subtree rooted at the hole's parent. */
  ghost function Parent<T>(c: Ctx<T>, t: Tree<T>): Tree<T>
    requires !c.Top?
  {
    match c
    case InL(red, v, r, up) => N(red, t, v, r)
    case InR(red, l, v, up) => N(red, l, v, t)
  }

  /** Red uncle: the colours of parent, uncle and grandparent flip and the problem moves up. */
  ghost function Recoloured<T>(c: Ctx<T>, t: Tree<T>): Tree<T>
    requires !c.Top? && !c.up.Top?
  {
    match c.up
    case InL(_, g, u, _) => N(true, Paint(Parent(c, t), false), g, Paint(u, false))
    case InR(_, u, g, _) => N(true, Paint(u, false), g, Paint(Parent(c, t), false))
  }

  lemma InsertRecolour<T>(c: Ctx<T>, t: Tree<T>)
    requires InsertState(c, t) && CtxRed(c) && !c.up.Top? && IsRed(Uncle(c))
    ensures InsertState(c.up.up, Recoloured(c, t))
  {
    OpenTwo(c, Height(t));
    var p := Paint(Parent(c, t), false);
    var u := Paint(Uncle(c), false);
    assert Balanced(Uncle(c)) && NoRedRed(Uncle(c));
    assert NoRedRed(p) && Balanced(p) && Height(p) == Height(t) + 1;
    assert NoRedRed(u) && Balanced(u) && Height(u) == Height(t) + 1;
  }

  /** A red node on the inner side of its red parent is rotated to the outer side. */
  ghost function Outward<T>(c: Ctx<T>, t: Tree<T>): (Ctx<T>, Tree<T>)
    requires !c.Top? && t.N?
  {
    match c
    case InR(red, l, v, up) => (InL(t.red, t.v, t.r, up), N(red, l, v, t.l))
    case InL(red, v, r, up) => (InR(t.red, t.l, t.v, up), N(red, t.r, v, r))
  }

  lemma InsertOutward<T>(c: Ctx<T>, t: Tree<T>)
    requires InsertState(c, t) && CtxRed(c) && !c.up.Top? && !IsRed(Uncle(c))
    requires c.up.InL? == c.InR?
    ensures var (c', t') := Outward(c, t); InsertState(c', t') && CtxRed(c') && c'.up == c.up && c'.InL? == c.up.InL?
  {
    OpenTwo(c, Height(t));
    assert Balanced(t.l) && Balanced(t.r) && NoRedRed(t.l) && NoRedRed(t.r);
  }

  /** Black uncle, outer side: parent and grandparent change colour and places. */
  ghost function Raised<T>(c: Ctx<T>): Ctx<T>
    requires !c.Top? && !c.up.Top? && c.InL? == c.up.InL?
  {
    match c
    case InL(_, p, r, InL(_, g, u, up)) => InL(false, p, N(true, r, g, u), up)
    case InR(_, l, p, InR(_, u, g, up)) => InR(false, N(true, u, g, l), p, up)
  }

  lemma InsertRaise<T>(c: Ctx<T>, t: Tree<T>)
    requires InsertState(c, t) && CtxRed(c) && !c.up.Top? && !IsRed(Uncle(c)) && c.InL? == c.up.InL?
    ensures InsertState(Raised(c), t) && !CtxRed(Raised(c))
  {
    OpenTwo(c, Height(t));
    match c
    case InL(_, p, r, InL(_, g, u, up)) =>
      var s := N(true, r, g, u);
      assert NoRedRed(s) && Balanced(s) && Height(s) == Height(t);
    case InR(_, l, p, InR(_, u, g, up)) =>
      var s := N(true, u, g, l);
      assert NoRedRed(s) && Balanced(s) && Height(s) == Height(t);
  }

  // ---- deletion: the subtree in the hole is one black node short ----

  ghost predicate DeleteState<T>(c: Ctx<T>, t: Tree<T>)
  {
    && NoRedRed(Blacken(t)) && Balanced(t)
    && NoRedRedC(c) && BlackRootC(c) && (!c.Top? ==> BalancedC(c, Height(t) + 1))
  }

  lemma {:induction false} DeleteDone<T>(c: Ctx<T>, t: Tree<T>)
    requires DeleteState(c, t) && (c.Top? || IsRed(t))
    ensures RedBlack(Plug(c, Blacken(t)))
  {
    PlugBalanced(c, Blacken(t));
    PlugNoRedRed(c, Blacken(t));
    if !c.Top? {
      PlugRoot(c, Blacken(t));
    }
  }

  ghost function Sibling<T>(c: Ctx<T>): Tree<T>
    requires !c.Top?
  {
    if c.InL? then c.r else c.l
  }

  /** A subtree one black node short has a sibling. */
  lemma SiblingExists<T>(c: Ctx<T>, t: Tree<T>)
    requires DeleteState(c, t) && !c.Top?
    ensures Sibling(c).N? && (IsRed(Sibling(c)) ==> !CtxRed(c) && Sibling(c).l.N? && Sibling(c).r.N?)
  {
  }

  /** Red sibling: rotate it above the parent, exchanging colours. */
  ghost function SiblingUp<T>(c: Ctx<T>): Ctx<T>
    requires !c.Top? && Sibling(c).N?
  {
    match c
    case InL(_, p, w, up) => InL(true, p, w.l, InL(false, w.v, w.r, up))
    case InR(_, w, p, up) => InR(true, w.r, p, InR(false, w.l, w.v, up))
  }

  lemma DeleteSiblingUp<T>(c: Ctx<T>, t: Tree<T>)
    requires DeleteState(c, t) && !c.Top? && !IsRed(t) && IsRed(Sibling(c))
    ensures DeleteState(SiblingUp(c), t) && Sibling(SiblingUp(c)).N? && !IsRed(Sibling(SiblingUp(c)))
  {
    OpenOne(c, Height(t) + 1);
    OpenTree(Sibling(c));
  }

  /** Black sibling with black children: redden it and move the shortage up. */
  ghost function Shifted<T>(c: Ctx<T>, t: Tree<T>): Tree<T>
    requires !c.Top?
  {
    match c
    case InL(red, p, w, _) => N(red, t, p, Paint(w, true))
    case InR(red, w, p, _) => N(red, Paint(w, true), p, t)
  }

  lemma DeleteShift<T>(c: Ctx<T>, t: Tree<T>)
    requires DeleteState(c, t) && !c.Top? && !IsRed(t) && Sibling(c).N? && !IsRed(Sibling(c))
    requires !IsRed(Sibling(c).l) && !IsRed(Sibling(c).r)
    ensures DeleteState(c.up, Shifted(c, t))
  {
    OpenOne(c, Height(t) + 1);
    OpenTree(Sibling(c));
    var w := Paint(Sibling(c), true);
    assert NoRedRed(w) && Balanced(w) && Height(w) == Height(t);
  }

  /** The sibling's outer child, and its inner one. */
  ghost function Outer<T>(c: Ctx<T>): Tree<T>
    requires !c.Top? && Sibling(c).N?
  {
    if c.InL? then c.r.r else c.l.l
  }

  ghost function Inner<T>(c: Ctx<T>): Tree<T>
    requires !c.Top? && Sibling(c).N?
  {
    if c.InL? then c.r.l else c.l.r
  }

  /** Black sibling with a red inner child only: rotate that child above the sibling. */
  ghost function InnerUp<T>(c: Ctx<T>): Ctx<T>
    requires !c.Top? && Sibling(c).N? && Inner(c).N?
  {
    match c
    case InL(red, p, w, up) => InL(red, p, N(false, w.l.l, w.l.v, N(true, w.l.r, w.v, w.r)), up)
    case InR(red, w, p, up) => InR(red, N(false, N(true, w.l, w.v, w.r.l), w.r.v, w.r.r), p, up)
  }

  lemma DeleteInnerUp<T>(c: Ctx<T>, t: Tree<T>)
    requires DeleteState(c, t) && !c.Top? && !IsRed(t) && Sibling(c).N? && !IsRed(Sibling(c))
    requires IsRed(Inner(c)) && !IsRed(Outer(c))
    ensures DeleteState(InnerUp(c), t) && Sibling(InnerUp(c)).N? && !IsRed(Sibling(InnerUp(c)))
            && IsRed(Outer(InnerUp(c)))
  {
    OpenOne(c, Height(t) + 1);
    OpenTree(Sibling(c));
    OpenTree(Inner(c));
    var w := Sibling(c);
    match c
    case InL(red, p, _, up) =>
      var s := N(true, w.l.r, w.v, w.r);
      assert NoRedRed(s) && Balanced(s) && Height(s) == Height(w.l.l);
    case InR(red, _, p, up) =>
      var s := N(true, w.l, w.v, w.r.l);
      assert NoRedRed(s) && Balanced(s) && Height(s) == Height(w.r.r);
  }

  /** Black sibling with a red outer child: the final rotation. */
  ghost function Settled<T>(c: Ctx<T>, t: Tree<T>): Tree<T>
    requires !c.Top? && Sibling(c).N?
  {
    match c
    case InL(red, p, w, _) => N(red, N(false, t, p, w.l), w.v, Paint(w.r, false))
    case InR(red, w, p, _) => N(red, Paint(w.l, false), w.v, N(false, w.r, p, t))
  }

  lemma DeleteSettle<T>(c: Ctx<T>, t: Tree<T>)
    requires DeleteState(c, t) && !c.Top? && !IsRed(t) && Sibling(c).N? && !IsRed(Sibling(c)) && IsRed(Outer(c))
    ensures DeleteState(Top, Plug(c.up, Settled(c, t)))
  {
    OpenOne(c, Height(t) + 1);
    OpenTree(Sibling(c));
    OpenTree(Outer(c));
    var w := Sibling(c);
    var inner := if c.InL? then N(false, t, c.v, w.l) else N(false, w.r, c.v, t);
    var outer := Paint(Outer(c), false);
    assert NoRedRed(inner) && Balanced(inner) && Height(inner) == Height(w);
    assert NoRedRed(outer) && Balanced(outer) && Height(outer) == Height(w);
    var s := Settled(c, t);
    assert NoRedRed(s) && Balanced(s);
    assert BalancedC(c.up, Height(s));
    PlugBalanced(c.up, s);
    PlugNoRedRed(c.up, s);
    NoRedRedBlackened(Plug(c.up, s));
  }

  // ---- no step changes the in-order sequence ----

  lemma InorderSteps<T>(c: Ctx<T>, t: Tree<T>)
    requires !c.Top?
    ensures !c.up.Top? ==> Inorder(Recoloured(c, t)) == Inorder(Parent(c.up, Parent(c, t)))
    ensures Inorder(Shifted(c, t)) == Inorder(Parent(c, t))
  {
  }

  lemma InorderSettled<T>(c: Ctx<T>, t: Tree<T>)
    requires !c.Top? && Sibling(c).N?
    ensures Inorder(Settled(c, t)) == Inorder(Parent(c, t))
  {
    match c
    case InL(red, p, w, _) =>
      assert Inorder(N(false, t, p, w.l)) == Inorder(t) + [p] + Inorder(w.l);
      assert Inorder(w) == Inorder(w.l) + [w.v] + Inorder(w.r);
      assert Inorder(Paint(w.r, false)) == Inorder(w.r);
    case InR(red, w, p, _) =>
      assert Inorder(N(false, w.r, p, t)) == Inorder(w.r) + [p] + Inorder(t);
      assert Inorder(w) == Inorder(w.l) + [w.v] + Inorder(w.r);
      assert Inorder(Paint(w.l, false)) == Inorder(w.l);
  }

  // ---- taking a node with at most one child out ----

  ghost predicate OnlyChild<T>(t: Tree<T>, x: Tree<T>)
  {
    t.N? && ((t.l.Leaf? && x == t.r) || (t.r.Leaf? && x == t.l))
  }

  lemma {:induction false} OnlyChildHeight<T>(t: Tree<T>, x: Tree<T>)
    requires NoRedRed(t) && Balanced(t) && OnlyChild(t, x)
    ensures NoRedRed(x) && Balanced(x) && Height(t) == Height(x) + (if t.red then 0 else 1)
    ensures t.red ==> !IsRed(x)
  {
  }

  /** What unlinking t's root in favour of its only child leaves: a red-black tree, or one that is a
      black node short at that place. */
  lemma {:induction false} SpliceColours<T>(c: Ctx<T>, t: Tree<T>, x: Tree<T>)
    requires RedBlack(Plug(c, t)) && OnlyChild(t, x)
    ensures c.Top? ==> RedBlack(Blacken(x))
    ensures !c.Top? && t.red ==> RedBlack(Plug(c, x))
    ensures !c.Top? && !t.red ==> DeleteState(c, x)
  {
    PlugBalanced(c, t);
    PlugNoRedRed(c, t);
    OnlyChildHeight(t, x);
    NoRedRedBlackened(x);
    if c.Top? {
      assert Balanced(Blacken(x));
    } else {
      PlugRoot(c, t);
      SplicedBelow(c, t, x);
    }
  }

  lemma {:induction false} SplicedBelow<T>(c: Ctx<T>, t: Tree<T>, x: Tree<T>)
    requires !c.Top? && BlackRootC(c) && NoRedRedC(c) && BalancedC(c, Height(t)) && NoRedRed(x) && Balanced(x) && t.N?
    requires Height(t) == Height(x) + (if t.red then 0 else 1) && (t.red ==> !IsRed(x)) && NoRedRed(Blacken(x))
    ensures t.red ==> RedBlack(Plug(c, x))
    ensures !t.red ==> DeleteState(c, x)
  {
    PlugRoot(c, x);
    PlugBalanced(c, x);
    PlugNoRedRed(c, x);
  }

  /** Colours and heights do not depend on which node sits at a place of the path. */
  lemma {:induction false} RenameOnPath<T>(red: bool, l: Tree<T>, v: T, v': T, c: Ctx<T>, d: Ctx<T>)
    ensures var c0 := Compose(InR(red, l, v, c), d); var c1 := Compose(InR(red, l, v', c), d);
            && !c0.Top? && !c1.Top? && CtxRed(c0) == CtxRed(c1) && NoRedRedC(c0) == NoRedRedC(c1)
            && BlackRootC(c0) == BlackRootC(c1) && (forall h: nat :: BalancedC(c0, h) == BalancedC(c1, h))
    decreases d
  {
    match d
    case Top =>
    case InL(_, _, _, up) => RenameOnPath(red, l, v, v', c, up);
    case InR(_, _, _, up) => RenameOnPath(red, l, v, v', c, up);
  }

  lemma {:induction false} RenamedState<T>(red: bool, l: Tree<T>, v: T, v': T, c: Ctx<T>, d: Ctx<T>, x: Tree<T>)
    ensures var c0 := Compose(InR(red, l, v, c), d); var c1 := Compose(InR(red, l, v', c), d);
            && (DeleteState(c0, x) ==> DeleteState(c1, x))
            && (RedBlack(Plug(c0, x)) ==> RedBlack(Plug(c1, x)))
  {
    RenameOnPath(red, l, v, v', c, d);
    var c0 := Compose(InR(red, l, v, c), d);
    var c1 := Compose(InR(red, l, v', c), d);
    PlugRoot(c0, x);
    PlugRoot(c1, x);
    PlugBalanced(c0, x);
    PlugBalanced(c1, x);
    PlugNoRedRed(c0, x);
    PlugNoRedRed(c1, x);
  }

  /** The path to the least node of a tree goes left only. */
  ghost predicate LeftOnly<T>(d: Ctx<T>)
  {
    d.Top? || (d.InL? && LeftOnly(d.up))
  }

  lemma {:induction false} LeftOnlyBefore<T>(d: Ctx<T>)
    requires LeftOnly(d)
    ensures Before(d) == []
    decreases d
  {
    if d.InL? { LeftOnlyBefore(d.up); }
  }
}
