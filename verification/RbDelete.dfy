/** ngx_rbtree_delete: a node is unlinked, the node that follows it takes its place when it has two
    children, and the fix-up loop restores the black heights. Also ngx_rbtree_min and
    ngx_rbtree_next. */
module RbDelete {
  import opened U32
  import opened RbShape
  import opened RbLinks
  import opened RbTree
  import opened Seqs

  // ---- points of view ----

  /** From the top of a subtree to a place deep inside it, and back. */
  lemma {:induction false} Descend(tree: Rbtree, c: Path, d: Path, m: Shape, rp: RbNode?)
    ensures tree.At(c, Plug(d, m), rp) <==> tree.At(Compose(c, d), m, rp)
    ensures Elems(Plug(d, m)) + ElemsC(c) == Elems(m) + ElemsC(Compose(c, d))
  {
    PlugCompose(c, d, m);
    tree.FromTop(c, Plug(d, m), rp);
    tree.FromTop(Compose(c, d), m, rp);
  }

  /** Which child pointers hold the sentinel. */
  lemma LookBelow(tree: Rbtree, c: Path, t: Shape, rp: RbNode?)
    requires tree.At(c, t, rp) && t.N?
    ensures t.v.left == Root(t.l, tree.sentinel) && (t.v.left == tree.sentinel <==> t.l.Leaf?)
    ensures t.v.right == Root(t.r, tree.sentinel) && (t.v.right == tree.sentinel <==> t.r.Leaf?)
  {
    tree.Look(c, t, rp);
  }

  /** ngx_rbtree_min: the leftmost node of a subtree. */
  method Min(tree: Rbtree, node0: RbNode, ghost c: Path, ghost t: Shape, ghost rp: RbNode?)
    returns (node: RbNode, ghost d: Path, ghost m: Shape)
    requires tree.At(c, t, rp) && t.N? && node0 == t.v
    ensures t == Plug(d, m) && m.N? && m.l.Leaf? && node == m.v && LeftOnly(d)
    ensures tree.At(Compose(c, d), m, rp) && tree.At(c, t, rp)
  {
    node, d, m := node0, Top, t;
    LookBelow(tree, c, t, rp);
    while node.left != tree.sentinel
      invariant t == Plug(d, m) && m.N? && node == m.v && LeftOnly(d) && tree.At(Compose(c, d), m, rp)
      invariant node.left == Root(m.l, tree.sentinel) && (node.left == tree.sentinel <==> m.l.Leaf?)
      decreases m
    {
      tree.MoveLeft(Compose(c, d), m, rp);
      node := node.left;
      d, m := InL(m.red, m.v, m.r, d), m.l;
      LookBelow(tree, Compose(c, d), m, rp);
    }
    Descend(tree, c, d, m, rp);
  }

  // ---- unlinking ----

  predicate Cleared(node: RbNode)
    reads node
  {
    node.left == null && node.right == null && node.parent == null && node.key == 0
  }

  method Clear(node: RbNode)
    modifies node`left, node`right, node`parent, node`key
    ensures Cleared(node)
  {
    node.left := null;
    node.right := null;
    node.parent := null;
    node.key := 0;
  }

  /** The parent pointer of the node in a hole, or of the sentinel when the hole is empty: what the
      fix-up loop climbs by. */
  ghost predicate Held(tree: Rbtree, c: Path, t: Shape)
    reads Root(t, tree.sentinel)
  {
    !c.Top? ==> Root(t, tree.sentinel).parent == c.v
  }

  /** subst's parent gets temp for a child in its place. */
  method Unhook(subst: RbNode, temp: RbNode, p: RbNode)
    requires subst.parent == p && (p.left == subst || p.right == subst)
    modifies p`left, p`right
    ensures if old(p.left) == subst then p.left == temp && p.right == old(p.right)
            else p.right == temp && p.left == old(p.left)
  {
    if subst == subst.parent.left {
      subst.parent.left := temp;
    } else {
      subst.parent.right := temp;
    }
  }

  /** node has at most one child and is not the root. */
  method DropNode(tree: Rbtree, node: RbNode, temp: RbNode, ghost c: Path, ghost t: Shape, ghost x: Shape,
                  ghost rp: RbNode?, ghost ns: set<RbNode>)
    requires tree.At(c, t, rp) && OnlyChild(t, x) && !c.Top? && node == t.v && temp == Root(x, tree.sentinel)
    requires ns == Elems(t) + ElemsC(c)
    modifies ns`left, ns`right, ns`parent, tree.sentinel`parent
    ensures tree.At(c, x, rp) && Held(tree, c, x) && Elems(x) + ElemsC(c) == ns - {node}
  {
    ghost var h := Snap(ns);
    tree.Look(c, t, rp);
    Unhook(node, temp, node.parent);
    temp.parent := node.parent;
    assert Elems(t) == Elems(x) + {node};
    SpliceWired(c, t, x, rp, tree.sentinel, h, Snap(ns - {node}));
    PlugTop(c, t, x, tree.sentinel);
  }

  ghost function CellOf(n: RbNode): Cell
    reads n
  {
    Cell(n.left, n.right, n.parent, n.red)
  }

  /** The pointers of a node with two children: subst, unlinked first, takes node's place. */
  method SwapPointers(tree: Rbtree, node: RbNode, subst: RbNode, temp: RbNode, p: RbNode, l: RbNode, r: RbNode,
                      pp: RbNode?)
    requires subst.parent == p && node.left == l && node.right == r && node.parent == pp
             && (node != tree.root ==> pp != null)
    requires l != tree.sentinel && r != tree.sentinel && temp !in {node, subst, p, l, r}
    requires node !in {subst, l, r} && l !in {subst, r, p} && subst != p
    requires if p == node then r == subst else r != subst && p.left == subst
    requires node != tree.root ==> pp !in {node, subst, p, l, r, temp}
    modifies tree`root, subst`left, subst`right, subst`parent, subst`red, p`left, p`right
    modifies temp`parent, l`parent, r`parent
    modifies (if node == tree.root then {} else {pp})`left, (if node == tree.root then {} else {pp})`right
    ensures CellOf(subst) == Cell(l, if r == subst then temp else r, pp, node.red)
    ensures CellOf(temp) == old(CellOf(temp)).(parent := if p == node then subst else p)
    ensures p != node ==> CellOf(p) == old(CellOf(p)).(left := temp, parent := if p == r then subst else old(p.parent))
    ensures CellOf(l) == old(CellOf(l)).(parent := subst)
    ensures r !in {subst, p} ==> CellOf(r) == old(CellOf(r)).(parent := subst)
    ensures tree.root == if node == old(tree.root) then subst else old(tree.root)
    ensures node != old(tree.root) ==>
              CellOf(pp) == if old(pp.left) == node then old(CellOf(pp)).(left := subst)
                            else old(CellOf(pp)).(right := subst)
  {
    Unhook(subst, temp, subst.parent);
    if subst.parent == node {
      temp.parent := subst;
    } else {
      temp.parent := subst.parent;
    }
    subst.left := node.left;
    subst.right := node.right;
    subst.parent := node.parent;
    subst.red := node.red;
    if node == tree.root {
      tree.root := subst;
    } else if node == node.parent.left {
      node.parent.left := subst;
    } else {
      node.parent.right := subst;
    }
    if subst.left != tree.sentinel {
      subst.left.parent := subst;
    }
    if subst.right != tree.sentinel {
      subst.right.parent := subst;
    }
  }

  /** The hole's parent when subst leaves: node itself, or the last step of d. */
  ghost function HoleParent(t: Shape, d: Path): RbNode
    requires t.N?
  {
    if d.Top? then t.v else d.v
  }

  /** The nodes SwapPointers works on, told apart. */
  ghost predicate Separate(c: Path, t: Shape, d: Path, m: Shape, s: RbNode)
    requires t.N? && t.l.N? && t.r.N? && m.N?
  {
    var node, subst, p, l, r := t.v, m.v, HoleParent(t, d), t.l.v, t.r.v;
    var temp := Root(m.r, s);
    && l != s && r != s && temp !in {node, subst, p, l, r}
    && node !in {subst, l, r} && l !in {subst, r, p} && subst != p
    && (p == node <==> d.Top?) && (r == subst <==> d.Top?) && (temp == s <==> m.r.Leaf?)
    && (!c.Top? ==> c.v !in {node, subst, p, l, r, temp})
  }

  ghost predicate SwapReady(tree: Rbtree, c: Path, t: Shape, d: Path, m: Shape)
    requires t.N? && t.l.N? && t.r.N? && m.N?
    reads tree, if c.Top? then {} else {c.v}
    reads HoleParent(t, d)
  {
    && Separate(c, t, d, m, tree.sentinel)
    && (!d.Top? ==> HoleParent(t, d).left == m.v) && (t.v == tree.root <==> c.Top?)
    && (!c.Top? ==> (c.v.left == t.v <==> c.InL?))
  }

  lemma {:induction false} GetSwapReady(tree: Rbtree, c: Path, t: Shape, d: Path, m: Shape, rp: RbNode?)
    requires tree.At(c, t, rp) && t.N? && t.l.N? && t.r == Plug(d, m) && m.N? && LeftOnly(d)
    ensures t.r.N? && SwapReady(tree, c, t, d, m)
    ensures m.v.parent == HoleParent(t, d) && t.v.left == t.l.v && t.v.right == t.r.v && t.v.parent == Up(c, rp)
    ensures tree.At(Compose(InR(t.red, t.l, t.v, c), d), m, rp)
  {
    var c0 := Compose(InR(t.red, t.l, t.v, c), d);
    Pieces(c, t, d, m, rp, tree.sentinel, Snap(Elems(t) + ElemsC(c)));
    tree.MoveRight(c, t, rp);
    Descend(tree, InR(t.red, t.l, t.v, c), d, m, rp);
    tree.Look(c0, m, rp);
    tree.Look(c, t, rp);
  }

  ghost predicate SwapInside(c: Path, t: Shape, d: Path, m: Shape, ns: set<RbNode>)
    requires t.N? && t.l.N? && t.r.N? && m.N?
  {
    && t.v in ns && t.l.v in ns && t.r.v in ns && m.v in ns && HoleParent(t, d) in ns
    && (m.r.N? ==> m.r.v in ns) && (!c.Top? ==> c.v in ns)
  }

  /** The cells after SwapPointers, node by node. */
  ghost predicate Swapped(c: Path, t: Shape, p: RbNode, y: RbNode, temp: RbNode, s: RbNode, h: Cells, h': Cells)
    requires t.N? && t.l.N? && t.r.N?
  {
    var l, r := t.l.v, t.r.v;
    && h'.Keys == h.Keys - {t.v} && t.v in h && y in h && p in h && l in h && r in h
    && (temp != s ==> temp in h) && (!c.Top? ==> c.v in h)
    && y in h' && l in h' && r in h' && (p != t.v ==> p in h') && (temp != s ==> temp in h') && (!c.Top? ==> c.v in h')
    && h'[y] == Cell(l, if r == y then temp else r, h[t.v].parent, h[t.v].red)
    && (p != t.v ==> h'[p] == Cell(temp, h[p].right, if p == r then y else h[p].parent, h[p].red))
    && (temp != s ==> h'[temp] == h[temp].(parent := if p == t.v then y else p))
    && h'[l] == h[l].(parent := y) && (r != y && r != p ==> h'[r] == h[r].(parent := y))
    && (!c.Top? ==> h'[c.v] == Hung(c, h[c.v], y))
    && Same(h.Keys - {t.v, y, p, l, r, temp} - Above(c), h, h')
  }

  method SwapCells(tree: Rbtree, node: RbNode, subst: RbNode, temp: RbNode, p: RbNode, ghost c: Path, ghost t: Shape,
                   ghost d: Path, ghost m: Shape, ghost ns: set<RbNode>)
    requires t.N? && t.l.N? && t.r.N? && m.N? && SwapReady(tree, c, t, d, m) && p == HoleParent(t, d)
    requires m.v.parent == p && t.v.left == t.l.v && t.v.right == t.r.v && (!c.Top? ==> t.v.parent == c.v)
    requires node == t.v && subst == m.v && temp == Root(m.r, tree.sentinel) && tree.sentinel !in ns
    requires SwapInside(c, t, d, m, ns)
    modifies tree`root, ns`left, ns`right, ns`parent, ns`red, tree.sentinel`parent
    ensures Swapped(c, t, p, subst, temp, tree.sentinel, old(Snap(ns)), Snap(ns - {node}))
    ensures tree.root == if c.Top? then subst else old(tree.root)
    ensures temp.parent == if p == node then subst else p
  {
    SwapPointers(tree, node, subst, temp, p, node.left, node.right, node.parent);
  }

  lemma {:induction false} SwappedReplaced(c: Path, t: Shape, d: Path, m: Shape, s: RbNode, h: Cells, h': Cells)
    requires t.N? && t.l.N? && t.r == Plug(d, m) && t.r.N? && m.N? && LeftOnly(d) && s !in h && Separate(c, t, d, m, s)
    requires Swapped(c, t, HoleParent(t, d), m.v, Root(m.r, s), s, h, h')
    requires t.v in h && h[t.v] == Cell(t.l.v, t.r.v, Up(c, h[t.v].parent), t.red)
    ensures var c0 := Compose(InR(t.red, t.l, t.v, c), d);
            !c0.Top? && c0.v in h && (m.r.N? ==> m.r.v in h) && c0.v != m.v
            && Replaced(c, N(t.red, t.l, t.v, Plug(d, m.r)), m.v, Unlinked(c0, m, m.r, s, h), h')
  {
    var c0 := Compose(InR(t.red, t.l, t.v, c), d);
    assert c0.v == HoleParent(t, d);
    var h1 := Unlinked(c0, m, m.r, s, h);
    if d.Top? {
    } else {
      PlugTop(d, m, m.r, s);
    }
  }

  /** node has two children: subst, the least node of its right subtree, takes its place. */
  method TakePlace(tree: Rbtree, node: RbNode, subst: RbNode, temp: RbNode, ghost c: Path, ghost t: Shape,
                   ghost d: Path, ghost m: Shape, ghost rp: RbNode?, ghost ns: set<RbNode>)
    requires tree.At(c, t, rp) && t.N? && t.l.N? && t.r == Plug(d, m) && m.N? && m.l.Leaf? && LeftOnly(d)
    requires node == t.v && subst == m.v && temp == Root(m.r, tree.sentinel) && ns == Elems(t) + ElemsC(c)
    modifies tree`root, ns`left, ns`right, ns`parent, ns`red, tree.sentinel`parent
    ensures var c1 := Compose(InR(t.red, t.l, subst, c), d);
            tree.At(c1, m.r, rp) && Held(tree, c1, m.r) && Elems(m.r) + ElemsC(c1) == ns - {node} && !c1.Top?
  {
    ghost var h := Snap(ns);
    GetSwapReady(tree, c, t, d, m, rp);
    SwapSites(tree, c, t, d, m, rp);
    SwapCells(tree, node, subst, temp, subst.parent, c, t, d, m, ns);
    TakenPlace(c, t, d, m, rp, tree.sentinel, h, Snap(ns - {node}));
  }

  lemma {:induction false} TakenPlace(c: Path, t: Shape, d: Path, m: Shape, rp: RbNode?, s: RbNode, h: Cells, h': Cells)
    requires Wired(c, t, rp, s, h) && t.N? && t.l.N? && t.r == Plug(d, m) && t.r.N? && m.N? && m.l.Leaf? && LeftOnly(d)
    requires Separate(c, t, d, m, s) && Swapped(c, t, HoleParent(t, d), m.v, Root(m.r, s), s, h, h')
    ensures var c1 := Compose(InR(t.red, t.l, m.v, c), d);
            && !c1.Top? && c1.v == (if d.Top? then m.v else d.v) && Wired(c1, m.r, rp, s, h')
            && Root(Plug(c1, m.r), s) == if c.Top? then m.v else Root(Plug(c, t), s)
  {
    SwappedReplaced(c, t, d, m, s, h, h');
    var c0 := Compose(InR(t.red, t.l, t.v, c), d);
    SwapWired(c, t, d, m, rp, s, h, Unlinked(c0, m, m.r, s, h), h');
    PlugCompose(InR(t.red, t.l, m.v, c), d, m.r);
    if !c.Top? { PlugTop(c, t, N(t.red, t.l, m.v, Plug(d, m.r)), s); }
  }

  lemma {:induction false} SwapSites(tree: Rbtree, c: Path, t: Shape, d: Path, m: Shape, rp: RbNode?)
    requires tree.At(c, t, rp) && t.N? && t.l.N? && t.r == Plug(d, m) && m.N? && LeftOnly(d)
    ensures t.r.N? && SwapInside(c, t, d, m, Elems(t) + ElemsC(c)) && tree.sentinel !in Elems(t) + ElemsC(c)
  {
    PlugDistinct(d, m);
  }

  // ---- the steps of the fix-up loop ----

  /** Red sibling: sibling black, parent red, and a rotation at the parent. */
  method SiblingUpL(tree: Rbtree, parent: RbNode, w: RbNode, ghost c: Path, ghost t: Shape, ghost rp: RbNode?,
                    ghost ns: set<RbNode>)
    requires tree.At(c, t, rp) && c.InL? && c.r.N? && parent == c.v && w == c.r.v && ns == Elems(t) + ElemsC(c)
    modifies tree`root, ns`left, ns`right, ns`parent, ns`red
    ensures tree.At(SiblingUp(c), t, rp) && ns == Elems(t) + ElemsC(SiblingUp(c))
  {
    ghost var wc := AtSiblingL(tree, c, t, rp);
    tree.SetColour(w, false, wc, c.r, rp);
    tree.MoveUp(wc, Paint(c.r, false), rp);
    tree.SetColour(parent, true, c.up, Parent(wc, Paint(c.r, false)), rp);
    ghost var p := Paint(Parent(wc, Paint(c.r, false)), true);
    RotElems(c.up, p);
    tree.LeftRotate(parent, c.up, p, rp);
    tree.MoveLeft(c.up, RotL(p), rp);
    tree.MoveLeft(SiblingUp(c).up, RotL(p).l, rp);
  }

  /** Black sibling with black children: sibling red. */
  method ShiftL(tree: Rbtree, w: RbNode, ghost c: Path, ghost t: Shape, ghost rp: RbNode?, ghost ns: set<RbNode>)
    requires tree.At(c, t, rp) && c.InL? && c.r.N? && w == c.r.v && ns == Elems(t) + ElemsC(c)
    modifies ns`red
    ensures tree.At(c.up, Shifted(c, t), rp) && ns == Elems(Shifted(c, t)) + ElemsC(c.up)
  {
    ghost var wc := AtSiblingL(tree, c, t, rp);
    tree.SetColour(w, true, wc, c.r, rp);
    tree.MoveUp(wc, Paint(c.r, true), rp);
  }

  /** Black sibling, its inner child red: that child black, sibling red, rotation at the sibling. */
  method InnerUpL(tree: Rbtree, w: RbNode, ghost c: Path, ghost t: Shape, ghost rp: RbNode?, ghost ns: set<RbNode>)
    requires tree.At(c, t, rp) && c.InL? && c.r.N? && c.r.l.N? && w == c.r.v && ns == Elems(t) + ElemsC(c)
    modifies tree`root, ns`left, ns`right, ns`parent, ns`red
    ensures tree.At(InnerUp(c), t, rp) && ns == Elems(t) + ElemsC(InnerUp(c))
  {
    ghost var wc := AtSiblingL(tree, c, t, rp);
    LookBelow(tree, wc, c.r, rp);
    tree.MoveLeft(wc, c.r, rp);
    ghost var ic := InL(c.r.red, c.r.v, c.r.r, wc);
    tree.SetColour(w.left, false, ic, c.r.l, rp);
    tree.MoveUp(ic, Paint(c.r.l, false), rp);
    tree.SetColour(w, true, wc, Parent(ic, Paint(c.r.l, false)), rp);
    ghost var s := Paint(Parent(ic, Paint(c.r.l, false)), true);
    RotElems(wc, s);
    tree.RightRotate(w, wc, s, rp);
    tree.MoveUp(wc, RotR(s), rp);
    tree.MoveLeft(c.up, Parent(wc, RotR(s)), rp);
  }

  /** Black sibling, its outer child red: sibling in the parent's colour, parent and outer child
      black, rotation at the parent. */
  method SettleL(tree: Rbtree, parent: RbNode, w: RbNode, ghost c: Path, ghost t: Shape, ghost rp: RbNode?,
                 ghost ns: set<RbNode>)
    requires tree.At(c, t, rp) && c.InL? && c.r.N? && c.r.r.N? && parent == c.v && w == c.r.v
             && ns == Elems(t) + ElemsC(c)
    modifies tree`root, ns`left, ns`right, ns`parent, ns`red
    ensures tree.At(c.up, Settled(c, t), rp) && ns == Elems(Settled(c, t)) + ElemsC(c.up)
  {
    tree.Look(c, t, rp);
    ghost var wc := AtSiblingL(tree, c, t, rp);
    ghost var s := Paint(c.r, c.red);
    tree.SetColour(w, parent.red, wc, c.r, rp);
    tree.MoveUp(wc, s, rp);
    tree.SetColour(parent, false, c.up, Parent(wc, s), rp);
    ghost var p := Paint(Parent(wc, s), false);
    tree.MoveRight(c.up, p, rp);
    SettleOuterL(tree, parent, w, InR(false, t, c.v, c.up), s, rp, ns);
  }

  method SettleOuterL(tree: Rbtree, parent: RbNode, w: RbNode, ghost wc: Path, ghost s: Shape, ghost rp: RbNode?,
                      ghost ns: set<RbNode>)
    requires tree.At(wc, s, rp) && wc.InR? && wc.v == parent && s.N? && w == s.v && s.r.N?
             && ns == Elems(s) + ElemsC(wc)
    modifies tree`root, ns`left, ns`right, ns`parent, ns`red
    ensures tree.At(wc.up, N(s.red, N(wc.red, wc.l, parent, s.l), w, Paint(s.r, false)), rp)
    ensures ns == Elems(N(s.red, N(wc.red, wc.l, parent, s.l), w, Paint(s.r, false))) + ElemsC(wc.up)
  {
    LookBelow(tree, wc, s, rp);
    tree.MoveRight(wc, s, rp);
    ghost var oc := InR(s.red, s.l, s.v, wc);
    tree.SetColour(w.right, false, oc, s.r, rp);
    tree.MoveUp(oc, Paint(s.r, false), rp);
    ghost var s1 := Parent(oc, Paint(s.r, false));
    tree.MoveUp(wc, s1, rp);
    ghost var p1 := Parent(wc, s1);
    RotElems(wc.up, p1);
    tree.LeftRotate(parent, wc.up, p1, rp);
  }

  lemma AtSiblingL(tree: Rbtree, c: Path, t: Shape, rp: RbNode?) returns (wc: Path)
    requires tree.At(c, t, rp) && c.InL?
    ensures wc == InR(c.red, t, c.v, c.up) && tree.At(wc, c.r, rp) && Elems(c.r) + ElemsC(wc) == Elems(t) + ElemsC(c)
  {
    tree.MoveUp(c, t, rp);
    tree.MoveRight(c.up, Parent(c, t), rp);
    wc := InR(c.red, t, c.v, c.up);
  }

  /** Red sibling: sibling black, parent red, and a rotation at the parent. */
  method SiblingUpR(tree: Rbtree, parent: RbNode, w: RbNode, ghost c: Path, ghost t: Shape, ghost rp: RbNode?,
                    ghost ns: set<RbNode>)
    requires tree.At(c, t, rp) && c.InR? && c.l.N? && parent == c.v && w == c.l.v && ns == Elems(t) + ElemsC(c)
    modifies tree`root, ns`left, ns`right, ns`parent, ns`red
    ensures tree.At(SiblingUp(c), t, rp) && ns == Elems(t) + ElemsC(SiblingUp(c))
  {
    ghost var wc := AtSiblingR(tree, c, t, rp);
    tree.SetColour(w, false, wc, c.l, rp);
    tree.MoveUp(wc, Paint(c.l, false), rp);
    tree.SetColour(parent, true, c.up, Parent(wc, Paint(c.l, false)), rp);
    ghost var p := Paint(Parent(wc, Paint(c.l, false)), true);
    RotElems(c.up, p);
    tree.RightRotate(parent, c.up, p, rp);
    tree.MoveRight(c.up, RotR(p), rp);
    tree.MoveRight(SiblingUp(c).up, RotR(p).r, rp);
  }

  /** Black sibling with black children: sibling red. */
  method ShiftR(tree: Rbtree, w: RbNode, ghost c: Path, ghost t: Shape, ghost rp: RbNode?, ghost ns: set<RbNode>)
    requires tree.At(c, t, rp) && c.InR? && c.l.N? && w == c.l.v && ns == Elems(t) + ElemsC(c)
    modifies ns`red
    ensures tree.At(c.up, Shifted(c, t), rp) && ns == Elems(Shifted(c, t)) + ElemsC(c.up)
  {
    ghost var wc := AtSiblingR(tree, c, t, rp);
    tree.SetColour(w, true, wc, c.l, rp);
    tree.MoveUp(wc, Paint(c.l, true), rp);
  }

  /** Black sibling, its inner child red: that child black, sibling red, rotation at the sibling. */
  method InnerUpR(tree: Rbtree, w: RbNode, ghost c: Path, ghost t: Shape, ghost rp: RbNode?, ghost ns: set<RbNode>)
    requires tree.At(c, t, rp) && c.InR? && c.l.N? && c.l.r.N? && w == c.l.v && ns == Elems(t) + ElemsC(c)
    modifies tree`root, ns`left, ns`right, ns`parent, ns`red
    ensures tree.At(InnerUp(c), t, rp) && ns == Elems(t) + ElemsC(InnerUp(c))
  {
    ghost var wc := AtSiblingR(tree, c, t, rp);
    LookBelow(tree, wc, c.l, rp);
    tree.MoveRight(wc, c.l, rp);
    ghost var ic := InR(c.l.red, c.l.l, c.l.v, wc);
    tree.SetColour(w.right, false, ic, c.l.r, rp);
    tree.MoveUp(ic, Paint(c.l.r, false), rp);
    tree.SetColour(w, true, wc, Parent(ic, Paint(c.l.r, false)), rp);
    ghost var s := Paint(Parent(ic, Paint(c.l.r, false)), true);
    RotElems(wc, s);
    tree.LeftRotate(w, wc, s, rp);
    tree.MoveUp(wc, RotL(s), rp);
    tree.MoveRight(c.up, Parent(wc, RotL(s)), rp);
  }

  /** Black sibling, its outer child red: sibling in the parent's colour, parent and outer child
      black, rotation at the parent. */
  method SettleR(tree: Rbtree, parent: RbNode, w: RbNode, ghost c: Path, ghost t: Shape, ghost rp: RbNode?,
                 ghost ns: set<RbNode>)
    requires tree.At(c, t, rp) && c.InR? && c.l.N? && c.l.l.N? && parent == c.v && w == c.l.v
             && ns == Elems(t) + ElemsC(c)
    modifies tree`root, ns`left, ns`right, ns`parent, ns`red
    ensures tree.At(c.up, Settled(c, t), rp) && ns == Elems(Settled(c, t)) + ElemsC(c.up)
  {
    tree.Look(c, t, rp);
    ghost var wc := AtSiblingR(tree, c, t, rp);
    ghost var s := Paint(c.l, c.red);
    tree.SetColour(w, parent.red, wc, c.l, rp);
    tree.MoveUp(wc, s, rp);
    tree.SetColour(parent, false, c.up, Parent(wc, s), rp);
    ghost var p := Paint(Parent(wc, s), false);
    tree.MoveLeft(c.up, p, rp);
    SettleOuterR(tree, parent, w, InL(false, c.v, t, c.up), s, rp, ns);
  }

  method SettleOuterR(tree: Rbtree, parent: RbNode, w: RbNode, ghost wc: Path, ghost s: Shape, ghost rp: RbNode?,
                      ghost ns: set<RbNode>)
    requires tree.At(wc, s, rp) && wc.InL? && wc.v == parent && s.N? && w == s.v && s.l.N?
             && ns == Elems(s) + ElemsC(wc)
    modifies tree`root, ns`left, ns`right, ns`parent, ns`red
    ensures tree.At(wc.up, N(s.red, Paint(s.l, false), w, N(wc.red, s.r, parent, wc.r)), rp)
    ensures ns == Elems(N(s.red, Paint(s.l, false), w, N(wc.red, s.r, parent, wc.r))) + ElemsC(wc.up)
  {
    LookBelow(tree, wc, s, rp);
    tree.MoveLeft(wc, s, rp);
    ghost var oc := InL(s.red, s.v, s.r, wc);
    tree.SetColour(w.left, false, oc, s.l, rp);
    tree.MoveUp(oc, Paint(s.l, false), rp);
    ghost var s1 := Parent(oc, Paint(s.l, false));
    tree.MoveUp(wc, s1, rp);
    ghost var p1 := Parent(wc, s1);
    RotElems(wc.up, p1);
    tree.RightRotate(parent, wc.up, p1, rp);
  }

  lemma AtSiblingR(tree: Rbtree, c: Path, t: Shape, rp: RbNode?) returns (wc: Path)
    requires tree.At(c, t, rp) && c.InR?
    ensures wc == InL(c.red, c.v, t, c.up) && tree.At(wc, c.l, rp) && Elems(c.l) + ElemsC(wc) == Elems(t) + ElemsC(c)
  {
    tree.MoveUp(c, t, rp);
    tree.MoveLeft(c.up, Parent(c, t), rp);
    wc := InL(c.red, c.v, t, c.up);
  }

  /** Between turns of the loop: the subtree at temp is one black node short, and temp's parent
      pointer leads up, also when temp is the sentinel. */
  ghost predicate Short(tree: Rbtree, c: Path, t: Shape, temp: RbNode, rp: RbNode?, ns: set<RbNode>)
    reads tree, tree.sentinel, ns, Elems(t), ElemsC(c), Root(t, tree.sentinel)
  {
    tree.At(c, t, rp) && DeleteState(c, t) && temp == Root(t, tree.sentinel) && Held(tree, c, t)
    && ns == Elems(t) + ElemsC(c)
  }

  /** What the loop reads at a black sibling. */
  lemma LookSibling(tree: Rbtree, c: Path, t: Shape, rp: RbNode?)
    requires tree.At(c, t, rp) && !c.Top? && Sibling(c).N?
    ensures var w := Sibling(c);
            && w.v.left == Root(w.l, tree.sentinel) && w.v.right == Root(w.r, tree.sentinel)
            && w.v.left.red == IsRed(w.l) && w.v.right.red == IsRed(w.r)
    ensures c.InL? ==> c.v.right == c.r.v
    ensures c.InR? ==> c.v.left == c.l.v
  {
    tree.Look(c, t, rp);
    var wc;
    if c.InL? {
      wc := AtSiblingL(tree, c, t, rp);
    } else {
      wc := AtSiblingR(tree, c, t, rp);
    }
    var w := Sibling(c);
    tree.Look(wc, w, rp);
    tree.MoveLeft(wc, w, rp);
    tree.Look(InL(w.red, w.v, w.r, wc), w.l, rp);
    tree.MoveRight(wc, w, rp);
    tree.Look(InR(w.red, w.l, w.v, wc), w.r, rp);
  }

  lemma {:induction false} SiblingUpOrder(c: Path, t: Shape)
    requires !c.Top? && Sibling(c).N?
    ensures Inorder(Plug(SiblingUp(c), t)) == Inorder(Plug(c, t))
  {
    RotInorder(Parent(c, t));
    PlugInorder(c.up, Parent(c, t));
    var c1 := SiblingUp(c);
    var p := Parent(c1, t);
    PlugInorder(c1.up.up, Parent(c1.up, p));
  }

  lemma {:induction false} ShiftOrder(c: Path, t: Shape)
    requires !c.Top?
    ensures Inorder(Plug(c.up, Shifted(c, t))) == Inorder(Plug(c, t))
  {
    InorderSteps(c, t);
    PlugInorder(c.up, Shifted(c, t));
    PlugInorder(c.up, Parent(c, t));
  }

  lemma {:induction false} InnerUpOrder(c: Path, t: Shape)
    requires !c.Top? && Sibling(c).N? && Inner(c).N?
    ensures Inorder(Plug(InnerUp(c), t)) == Inorder(Plug(c, t))
  {
    RotInorder(Sibling(c));
    PlugInorder(c, t);
    PlugInorder(InnerUp(c), t);
    assert Inorder(Sibling(InnerUp(c))) == Inorder(Sibling(c));
  }

  lemma {:induction false} SettledOrder(c: Path, t: Shape)
    requires !c.Top? && Sibling(c).N?
    ensures Inorder(Plug(c.up, Settled(c, t))) == Inorder(Plug(c, t))
  {
    InorderSettled(c, t);
    PlugInorder(c.up, Settled(c, t));
    PlugInorder(c.up, Parent(c, t));
  }

  /** The first part of a turn, temp a left child: get a black sibling. */
  method BlackSiblingL(tree: Rbtree, temp: RbNode, ghost c0: Path, ghost t: Shape, ghost rp: RbNode?,
                       ghost ns: set<RbNode>)
    returns (w: RbNode, ghost c: Path)
    requires Short(tree, c0, t, temp, rp, ns) && c0.InL? && !IsRed(t)
    modifies tree`root, ns`left, ns`right, ns`parent, ns`red
    ensures Short(tree, c, t, temp, rp, ns) && c.InL? && Sibling(c).N? && !IsRed(Sibling(c)) && w == Sibling(c).v
    ensures Inorder(Plug(c, t)) == Inorder(Plug(c0, t))
    ensures Depth(c) <= Depth(c0) + 1 && (Depth(c) > Depth(c0) ==> CtxRed(c))
  {
    c := c0;
    SiblingExists(c, t);
    tree.Look(c, t, rp);
    w := temp.parent.right;
    if w.red {
      DeleteSiblingUp(c, t);
      SiblingUpOrder(c, t);
      SiblingUpL(tree, temp.parent, w, c, t, rp, ns);
      c := SiblingUp(c);
      tree.Look(c, t, rp);
      w := temp.parent.right;
    }
  }

  /** The rest of the turn. */
  method RebalanceL(tree: Rbtree, temp0: RbNode, w0: RbNode, ghost c0: Path, ghost t0: Shape, ghost rp: RbNode?,
                    ghost ns: set<RbNode>)
    returns (temp: RbNode, ghost c: Path, ghost t: Shape)
    requires Short(tree, c0, t0, temp0, rp, ns) && c0.InL? && !IsRed(t0)
    requires Sibling(c0).N? && !IsRed(Sibling(c0)) && w0 == Sibling(c0).v
    modifies tree`root, ns`left, ns`right, ns`parent, ns`red
    ensures Short(tree, c, t, temp, rp, ns) && Inorder(Plug(c, t)) == Inorder(Plug(c0, t0))
    ensures c.Top? || (Depth(c) < Depth(c0) && (CtxRed(c0) ==> IsRed(t)))
  {
    temp, c, t := temp0, c0, t0;
    var w := w0;
    LookSibling(tree, c, t, rp);
    if !w.left.red && !w.right.red {
      DeleteShift(c, t);
      ShiftOrder(c, t);
      ShiftL(tree, w, c, t, rp, ns);
      t, c := Shifted(c, t), c.up;
      tree.Look(c, t, rp);
      temp := temp.parent;
    } else {
      if !w.right.red {
        DeleteInnerUp(c, t);
        InnerUpOrder(c, t);
        InnerUpL(tree, w, c, t, rp, ns);
        c := InnerUp(c);
        LookSibling(tree, c, t, rp);
        w := temp.parent.right;
      }
      DeleteSettle(c, t);
      SettledOrder(c, t);
      SettleL(tree, temp.parent, w, c, t, rp, ns);
      tree.FromTop(c.up, Settled(c, t), rp);
      t, c := Plug(c.up, Settled(c, t)), Top;
      tree.Look(c, t, rp);
      temp := tree.root;
    }
  }

  /** The first part of a turn, temp a right child: get a black sibling. */
  method BlackSiblingR(tree: Rbtree, temp: RbNode, ghost c0: Path, ghost t: Shape, ghost rp: RbNode?,
                       ghost ns: set<RbNode>)
    returns (w: RbNode, ghost c: Path)
    requires Short(tree, c0, t, temp, rp, ns) && c0.InR? && !IsRed(t)
    modifies tree`root, ns`left, ns`right, ns`parent, ns`red
    ensures Short(tree, c, t, temp, rp, ns) && c.InR? && Sibling(c).N? && !IsRed(Sibling(c)) && w == Sibling(c).v
    ensures Inorder(Plug(c, t)) == Inorder(Plug(c0, t))
    ensures Depth(c) <= Depth(c0) + 1 && (Depth(c) > Depth(c0) ==> CtxRed(c))
  {
    c := c0;
    SiblingExists(c, t);
    tree.Look(c, t, rp);
    w := temp.parent.left;
    if w.red {
      DeleteSiblingUp(c, t);
      SiblingUpOrder(c, t);
      SiblingUpR(tree, temp.parent, w, c, t, rp, ns);
      c := SiblingUp(c);
      tree.Look(c, t, rp);
      w := temp.parent.left;
    }
  }

  /** The rest of the turn. */
  method RebalanceR(tree: Rbtree, temp0: RbNode, w0: RbNode, ghost c0: Path, ghost t0: Shape, ghost rp: RbNode?,
                    ghost ns: set<RbNode>)
    returns (temp: RbNode, ghost c: Path, ghost t: Shape)
    requires Short(tree, c0, t0, temp0, rp, ns) && c0.InR? && !IsRed(t0)
    requires Sibling(c0).N? && !IsRed(Sibling(c0)) && w0 == Sibling(c0).v
    modifies tree`root, ns`left, ns`right, ns`parent, ns`red
    ensures Short(tree, c, t, temp, rp, ns) && Inorder(Plug(c, t)) == Inorder(Plug(c0, t0))
    ensures c.Top? || (Depth(c) < Depth(c0) && (CtxRed(c0) ==> IsRed(t)))
  {
    temp, c, t := temp0, c0, t0;
    var w := w0;
    LookSibling(tree, c, t, rp);
    if !w.left.red && !w.right.red {
      DeleteShift(c, t);
      ShiftOrder(c, t);
      ShiftR(tree, w, c, t, rp, ns);
      t, c := Shifted(c, t), c.up;
      tree.Look(c, t, rp);
      temp := temp.parent;
    } else {
      if !w.left.red {
        DeleteInnerUp(c, t);
        InnerUpOrder(c, t);
        InnerUpR(tree, w, c, t, rp, ns);
        c := InnerUp(c);
        LookSibling(tree, c, t, rp);
        w := temp.parent.left;
      }
      DeleteSettle(c, t);
      SettledOrder(c, t);
      SettleR(tree, temp.parent, w, c, t, rp, ns);
      tree.FromTop(c.up, Settled(c, t), rp);
      t, c := Plug(c.up, Settled(c, t)), Top;
      tree.Look(c, t, rp);
      temp := tree.root;
    }
  }

  /** One turn of the fix-up loop of ngx_rbtree_delete. */
  method FixOnce(tree: Rbtree, temp0: RbNode, ghost c0: Path, ghost t0: Shape, ghost rp: RbNode?, ghost ns: set<RbNode>)
    returns (temp: RbNode, ghost c: Path, ghost t: Shape)
    requires Short(tree, c0, t0, temp0, rp, ns) && !c0.Top? && !IsRed(t0)
    modifies tree`root, ns`left, ns`right, ns`parent, ns`red
    ensures Short(tree, c, t, temp, rp, ns) && Inorder(Plug(c, t)) == Inorder(Plug(c0, t0))
    ensures c.Top? || IsRed(t) || Depth(c) < Depth(c0)
  {
    tree.Look(c0, t0, rp);
    SiblingExists(c0, t0);
    var w;
    if temp0 == temp0.parent.left {
      w, c := BlackSiblingL(tree, temp0, c0, t0, rp, ns);
      temp, c, t := RebalanceL(tree, temp0, w, c, t0, rp, ns);
    } else {
      w, c := BlackSiblingR(tree, temp0, c0, t0, rp, ns);
      temp, c, t := RebalanceR(tree, temp0, w, c, t0, rp, ns);
    }
  }

  /** The guard of the loop. */
  method NeedsFix(tree: Rbtree, temp: RbNode, ghost c: Path, ghost t: Shape, ghost rp: RbNode?,
                  ghost ns: set<RbNode>) returns (go: bool)
    requires Short(tree, c, t, temp, rp, ns)
    ensures (go <==> !c.Top? && !IsRed(t)) && Short(tree, c, t, temp, rp, ns)
  {
    tree.Look(c, t, rp);
    go := temp != tree.root && !temp.red;
  }

  /** The fix-up loop of ngx_rbtree_delete. */
  method FixLoop(tree: Rbtree, temp0: RbNode, ghost c0: Path, ghost t0: Shape, ghost rp: RbNode?, ghost ns: set<RbNode>)
    returns (temp: RbNode, ghost c: Path, ghost t: Shape)
    requires Short(tree, c0, t0, temp0, rp, ns)
    modifies tree`root, ns`left, ns`right, ns`parent, ns`red
    ensures Short(tree, c, t, temp, rp, ns) && (c.Top? || IsRed(t)) && Inorder(Plug(c, t)) == Inorder(Plug(c0, t0))
  {
    temp, c, t := temp0, c0, t0;
    var go := NeedsFix(tree, temp, c, t, rp, ns);
    while go
      invariant Short(tree, c, t, temp, rp, ns) && Inorder(Plug(c, t)) == Inorder(Plug(c0, t0))
      invariant go <==> !c.Top? && !IsRed(t)
      decreases if c.Top? || IsRed(t) then 0 else 1 + Depth(c)
    {
      temp, c, t := FixOnce(tree, temp, c, t, rp, ns);
      go := NeedsFix(tree, temp, c, t, rp, ns);
    }
  }

  // ---- ngx_rbtree_delete ----

  /** o' is o without its element number i, which was v. */
  ghost predicate Removed<T>(o: seq<T>, i: nat, v: T, o': seq<T>)
  {
    i < |o| && o[i] == v && o' == o[..i] + o[i + 1..]
  }

  lemma RemovedAt<T>(a: seq<T>, v: T, b: seq<T>)
    ensures Removed(a + [v] + b, |a|, v, a + b)
  {
  }

  lemma RemovedWithin<T>(a: seq<T>, o: seq<T>, i: nat, v: T, o': seq<T>, b: seq<T>)
    requires Removed(o, i, v, o')
    ensures Removed(a + o + b, |a| + i, v, a + o' + b)
  {
    var w, w' := a + o + b, a + o' + b;
    assert w[|a| + i] == v;
    assert w[..|a| + i] == a + o[..i];
    assert w[|a| + i + 1..] == o[i + 1..] + b;
    assert w' == (a + o[..i]) + (o[i + 1..] + b);
  }

  lemma {:induction false} OnlyChildOrder(t: Shape, x: Shape)
    requires OnlyChild(t, x)
    ensures Removed(Inorder(t), |Inorder(t.l)|, t.v, Inorder(x))
  {
    RemovedAt(Inorder(t.l), t.v, Inorder(t.r));
    if t.l.Leaf? {
      assert Inorder<RbNode>(Leaf) + Inorder(x) == Inorder(x);
    } else {
      assert Inorder(x) + Inorder<RbNode>(Leaf) == Inorder(x);
    }
  }

  lemma RemovedBelow(c: Path, t: Shape, j: nat, v: RbNode, t': Shape) returns (i: nat)
    requires Removed(Inorder(t), j, v, Inorder(t'))
    ensures Removed(Inorder(Plug(c, t)), i, v, Inorder(Plug(c, t')))
  {
    PlugInorder(c, t);
    PlugInorder(c, t');
    RemovedWithin(Before(c), Inorder(t), j, v, Inorder(t'), After(c));
    i := |Before(c)| + j;
  }

  lemma DropOrder(c: Path, t: Shape, x: Shape) returns (i: nat)
    requires OnlyChild(t, x)
    ensures Removed(Inorder(Plug(c, t)), i, t.v, Inorder(Plug(c, x)))
  {
    OnlyChildOrder(t, x);
    i := RemovedBelow(c, t, |Inorder(t.l)|, t.v, x);
  }

  lemma TakeOrder(c: Path, t: Shape, d: Path, m: Shape) returns (i: nat)
    requires t.N? && t.r == Plug(d, m) && m.N? && m.l.Leaf? && LeftOnly(d)
    ensures Removed(Inorder(Plug(c, t)), i, t.v, Inorder(Plug(Compose(InR(t.red, t.l, m.v, c), d), m.r)))
  {
    PlugCompose(InR(t.red, t.l, m.v, c), d, m.r);
    var j := TakenOrder(t, d, m);
    i := RemovedBelow(c, t, j, t.v, N(t.red, t.l, m.v, Plug(d, m.r)));
  }

  lemma TakenOrder(t: Shape, d: Path, m: Shape) returns (j: nat)
    requires t.N? && t.r == Plug(d, m) && m.N? && m.l.Leaf? && LeftOnly(d)
    ensures Removed(Inorder(t), j, t.v, Inorder(N(t.red, t.l, m.v, Plug(d, m.r))))
  {
    LeastOrder(d, m);
    RemovedAt(Inorder(t.l), t.v, Inorder(t.r));
    Assoc(Inorder(t.l), [m.v], Inorder(Plug(d, m.r)));
    j := |Inorder(t.l)|;
  }

  lemma {:induction false} LeastOrder(d: Path, m: Shape)
    requires m.N? && m.l.Leaf? && LeftOnly(d)
    ensures Inorder(Plug(d, m)) == [m.v] + Inorder(Plug(d, m.r))
  {
    PlugInorder(d, m);
    PlugInorder(d, m.r);
    LeftOnlyBefore(d);
    assert Inorder(m) == [m.v] + Inorder(m.r);
    Assoc([m.v], Inorder(m.r), After(d));
  }

  lemma {:induction false} TakeColours(c: Path, t: Shape, d: Path, m: Shape)
    requires t.N? && t.r == Plug(d, m) && m.N? && m.l.Leaf? && RedBlack(Plug(c, t))
    ensures var c1 := Compose(InR(t.red, t.l, m.v, c), d);
            && (m.red ==> RedBlack(Plug(c1, m.r))) && (!m.red ==> DeleteState(c1, m.r))
  {
    var c0 := Compose(InR(t.red, t.l, t.v, c), d);
    PlugCompose(InR(t.red, t.l, t.v, c), d, m);
    RenameOnPath(t.red, t.l, t.v, m.v, c, d);
    SpliceColours(c0, m, m.r);
    RenamedState(t.red, t.l, t.v, m.v, c, d, m.r);
  }

  /** What is left to do once the node is unlinked. */
  ghost predicate Detached(tree: Rbtree, c: Path, x: Shape, temp: RbNode, red: bool, rp: RbNode?, ns: set<RbNode>)
    reads tree, tree.sentinel, ns, Elems(x), ElemsC(c), Root(x, tree.sentinel)
  {
    && tree.At(c, x, rp) && !c.Top? && temp == Root(x, tree.sentinel) && Held(tree, c, x) && ns == Elems(x) + ElemsC(c)
    && (red ==> RedBlack(Plug(c, x))) && (!red ==> DeleteState(c, x))
  }

  /** node has at most one child and is not the root. */
  method DetachOne(tree: Rbtree, node: RbNode, temp: RbNode, ghost c: Path, ghost t: Shape, ghost x: Shape,
                   ghost rp: RbNode?, ghost ns: set<RbNode>)
    returns (red: bool, ghost i: nat)
    requires tree.At(c, t, rp) && RedBlack(Plug(c, t)) && OnlyChild(t, x) && !c.Top? && node == t.v
    requires temp == Root(x, tree.sentinel) && ns == Elems(t) + ElemsC(c)
    modifies ns`left, ns`right, ns`parent, tree.sentinel`parent
    ensures Detached(tree, c, x, temp, red, rp, ns - {node})
    ensures Removed(Inorder(Plug(c, t)), i, node, Inorder(Plug(c, x)))
  {
    tree.Look(c, t, rp);
    SpliceColours(c, t, x);
    i := DropOrder(c, t, x);
    red := node.red;
    DropNode(tree, node, temp, c, t, x, rp, ns);
  }

  /** node has two children. */
  method DetachTwo(tree: Rbtree, node: RbNode, subst: RbNode, temp: RbNode, ghost c: Path, ghost t: Shape,
                   ghost d: Path, ghost m: Shape, ghost rp: RbNode?, ghost ns: set<RbNode>)
    returns (red: bool, ghost c1: Path, ghost i: nat)
    requires tree.At(c, t, rp) && RedBlack(Plug(c, t)) && t.N? && t.l.N? && t.r == Plug(d, m) && m.N? && m.l.Leaf?
             && LeftOnly(d)
    requires node == t.v && subst == m.v && temp == Root(m.r, tree.sentinel) && ns == Elems(t) + ElemsC(c)
    requires subst.red == m.red
    modifies tree`root, ns`left, ns`right, ns`parent, ns`red, tree.sentinel`parent
    ensures Detached(tree, c1, m.r, temp, red, rp, ns - {node})
    ensures Removed(Inorder(Plug(c, t)), i, node, Inorder(Plug(c1, m.r)))
  {
    TakeColours(c, t, d, m);
    i := TakeOrder(c, t, d, m);
    red := subst.red;
    c1 := Compose(InR(t.red, t.l, subst, c), d);
    TakePlace(tree, node, subst, temp, c, t, d, m, rp, ns);
  }

  /** node is the root and has at most one child. */
  method DropRoot(tree: Rbtree, node: RbNode, temp: RbNode, ghost t: Shape, ghost x: Shape, ghost rp: RbNode?,
                  ghost ns: set<RbNode>)
    requires tree.At(Top, t, rp) && RedBlack(t) && OnlyChild(t, x) && node == t.v && temp == Root(x, tree.sentinel)
    requires ns == Elems(t)
    modifies tree`root, tree`shape, temp`red, node`left, node`right, node`parent, node`key
    ensures tree.Valid() && Elems(tree.shape) == ns - {node} && tree.Order() == Inorder(x) && Cleared(node)
  {
    ghost var h := Snap(ns);
    SpliceColours(Top, t, x);
    tree.root := temp;
    temp.red := false;
    Clear(node);
    tree.shape := Blacken(x);
    RootSpliced(t, x, rp, tree.sentinel, h, Snap(ns - {node}));
    assert Elems(tree.shape) + ElemsC(Top) == ns - {node};
  }

  lemma {:induction false} RootSpliced(t: Shape, x: Shape, rp: RbNode?, s: RbNode, h: Cells, h': Cells)
    requires Wired(Top, t, rp, s, h) && OnlyChild(t, x) && h'.Keys == h.Keys - {t.v}
    requires x.N? ==> x.v in h && h'[x.v] == h[x.v].(red := false)
    requires Same(h.Keys - {t.v} - TopOf(x), h, h')
    ensures Wired(Top, Blacken(x), if x.N? then t.v else null, s, h')
    ensures x.N? ==> h'[x.v].parent == t.v
    ensures Elems(t) == Elems(x) + {t.v} && t.v !in Elems(x) && Elems(Blacken(x)) == Elems(x)
  {
    ReparentT(x, t.v, t.v, false, s, h, h');
  }

  /** The fix-up loop and the painting after it. */
  method Repair(tree: Rbtree, temp0: RbNode, ghost c0: Path, ghost t0: Shape, ghost rp: RbNode?, ghost ns: set<RbNode>)
    returns (ghost whole: Shape)
    requires Short(tree, c0, t0, temp0, rp, ns)
    modifies tree`root, ns`left, ns`right, ns`parent, ns`red, tree.sentinel`red
    ensures tree.At(Top, whole, if whole.N? then whole.v.parent else null) && Elems(whole) == ns
    ensures RedBlack(whole) && Inorder(whole) == Inorder(Plug(c0, t0))
  {
    var temp;
    ghost var c, t;
    temp, c, t := FixLoop(tree, temp0, c0, t0, rp, ns);
    DeleteDone(c, t);
    BlackenedOrder(c, t);
    PaintBlack(tree, temp, c, t, rp, ns);
    Adopt(tree, c, Blacken(t), rp);
    whole := Plug(c, Blacken(t));
  }

  lemma {:induction false} BlackenedOrder(c: Path, t: Shape)
    ensures Inorder(Plug(c, Blacken(t))) == Inorder(Plug(c, t))
  {
    PlugInorder(c, t);
    PlugInorder(c, Blacken(t));
  }

  /** The end of ngx_rbtree_delete: repair if a black node went missing. */
  method Finish(tree: Rbtree, temp: RbNode, red: bool, ghost c: Path, ghost x: Shape, ghost rp: RbNode?,
                ghost ns: set<RbNode>)
    requires Detached(tree, c, x, temp, red, rp, ns)
    modifies tree, ns`left, ns`right, ns`parent, ns`red, tree.sentinel`red
    ensures tree.Valid() && Elems(tree.shape) == ns && tree.Order() == Inorder(Plug(c, x))
  {
    ghost var whole := Plug(c, x);
    if red {
      Adopt(tree, c, x, rp);
    } else {
      whole := Repair(tree, temp, c, x, rp, ns);
    }
    Install(tree, whole);
  }

  ghost method Install(tree: Rbtree, whole: Shape)
    requires tree.At(Top, whole, if whole.N? then whole.v.parent else null) && RedBlack(whole)
    modifies tree`shape
    ensures tree.Valid() && tree.shape == whole
  {
    tree.shape := whole;
  }

  /** The tree seen from its root. */
  lemma {:induction false} Adopt(tree: Rbtree, c: Path, t: Shape, rp: RbNode?)
    requires tree.At(c, t, rp)
    ensures var w := Plug(c, t); tree.At(Top, w, if w.N? then w.v.parent else null) && Elems(w) == Elems(t) + ElemsC(c)
  {
    tree.FromTop(c, t, rp);
    tree.Look(Top, Plug(c, t), rp);
    assert Elems(Plug(c, t)) + ElemsC<RbNode>(Top) == Elems(Plug(c, t));
  }

  /** ngx_rbt_black(temp), where temp may be the sentinel. */
  method PaintBlack(tree: Rbtree, temp: RbNode, ghost c: Path, ghost t: Shape, ghost rp: RbNode?, ghost ns: set<RbNode>)
    requires tree.At(c, t, rp) && temp == Root(t, tree.sentinel) && ns == Elems(t) + ElemsC(c)
    modifies ns`red, tree.sentinel`red
    ensures tree.At(c, Blacken(t), rp) && ns == Elems(Blacken(t)) + ElemsC(c)
  {
    ghost var h := Snap(ns);
    temp.red := false;
    if t.N? {
      ReparentT(t, Up(c, rp), Up(c, rp), false, tree.sentinel, h, Snap(ns));
      KeepC(c, t.v, rp, tree.sentinel, h, Snap(ns));
      if !c.Top? { PlugTop(c, t, Blacken(t), tree.sentinel); }
    } else {
      assert Snap(ns) == h;
    }
  }

  /** The node to unlink and the child that moves up: node itself if it has at most one child, else
      the node that follows it. */
  method Choose(tree: Rbtree, node: RbNode, ghost c: Path, ghost t: Shape, ghost rp: RbNode?)
    returns (subst: RbNode, temp: RbNode, ghost d: Path, ghost m: Shape, ghost x: Shape)
    requires tree.At(c, t, rp) && t.N? && node == t.v
    ensures tree.At(c, t, rp) && Chosen(tree, node, subst, temp, t, d, m, x)
            && (subst == tree.root <==> c.Top? && subst == node)
  {
    d, m := Top, t;
    LookBelow(tree, c, t, rp);
    tree.Look(c, t, rp);
    if node.left == tree.sentinel {
      temp := node.right;
      subst := node;
      x := t.r;
    } else if node.right == tree.sentinel {
      temp := node.left;
      subst := node;
      x := t.l;
    } else {
      tree.MoveRight(c, t, rp);
      ghost var rc := InR(t.red, t.l, t.v, c);
      subst, d, m := Min(tree, node.right, rc, t.r, rp);
      tree.MoveUp(rc, t.r, rp);
      LookAtLeast(tree, c, t, d, m, rp);
      assert subst.left == tree.sentinel; // so the code's test for a left child always fails here
      temp := subst.right;
      x := m.r;
    }
  }

  lemma {:induction false} LookAtLeast(tree: Rbtree, c: Path, t: Shape, d: Path, m: Shape, rp: RbNode?)
    requires tree.At(c, t, rp) && t.N? && t.l.N? && t.r == Plug(d, m) && m.N? && m.l.Leaf? && LeftOnly(d)
    ensures m.v.left == tree.sentinel && m.v.right == Root(m.r, tree.sentinel) && m.v.red == m.red
    ensures m.v != t.v && m.v != tree.root
  {
    GetSwapReady(tree, c, t, d, m, rp);
    tree.Look(Compose(InR(t.red, t.l, t.v, c), d), m, rp);
  }

  ghost predicate Chosen(tree: Rbtree, node: RbNode, subst: RbNode, temp: RbNode, t: Shape, d: Path, m: Shape, x: Shape)
    reads subst
  {
    && t.N? && temp == Root(x, tree.sentinel)
    && (subst == node ==> OnlyChild(t, x))
    && (subst != node ==>
          && t.l.N? && t.r == Plug(d, m) && m.N? && m.l.Leaf? && LeftOnly(d)
          && subst == m.v && x == m.r && subst.red == m.red)
  }

  /** Clearing the node that left touches nothing in the tree. */
  method ClearDetached(tree: Rbtree, node: RbNode, temp: RbNode, red: bool, ghost c: Path, ghost x: Shape,
                       ghost rp: RbNode?, ghost ns: set<RbNode>)
    requires Detached(tree, c, x, temp, red, rp, ns) && node !in ns && node != tree.sentinel
    modifies node`left, node`right, node`parent, node`key
    ensures Cleared(node) && Detached(tree, c, x, temp, red, rp, ns)
  {
    ghost var h := Snap(ns);
    Clear(node);
    assert Snap(ns) == h;
  }

  /** subst, which is not the root, is unlinked and node is out of the tree. */
  method Detach(tree: Rbtree, node: RbNode, subst: RbNode, temp: RbNode, ghost c: Path, ghost t: Shape, ghost d: Path,
                ghost m: Shape, ghost x: Shape, ghost rp: RbNode?, ghost ns: set<RbNode>)
    returns (red: bool, ghost c1: Path, ghost i: nat)
    requires tree.At(c, t, rp) && RedBlack(Plug(c, t)) && Chosen(tree, node, subst, temp, t, d, m, x) && node == t.v
    requires (subst == node ==> !c.Top?) && ns == Elems(t) + ElemsC(c)
    modifies tree`root, ns`left, ns`right, ns`parent, ns`red, tree.sentinel`parent, node`key
    ensures Cleared(node) && Detached(tree, c1, x, temp, red, rp, ns - {node})
    ensures Removed(Inorder(Plug(c, t)), i, node, Inorder(Plug(c1, x)))
  {
    if subst == node {
      red, i := DetachOne(tree, node, temp, c, t, x, rp, ns);
      c1 := c;
    } else {
      red, c1, i := DetachTwo(tree, node, subst, temp, c, t, d, m, rp, ns);
    }
    ClearDetached(tree, node, temp, red, c1, x, rp, ns - {node});
  }

  /** ngx_rbtree_delete: node leaves the order, nothing else moves, and the tree stays red-black. */
  method Delete(tree: Rbtree, node: RbNode) returns (ghost i: nat)
    requires tree.Valid() && node in Elems(tree.shape)
    modifies tree, Elems(tree.shape)`left, Elems(tree.shape)`right, Elems(tree.shape)`parent, Elems(tree.shape)`red
    modifies tree.sentinel`parent, tree.sentinel`red, node`key
    ensures tree.Valid() && Elems(tree.shape) == old(Elems(tree.shape)) - {node}
    ensures Removed(old(tree.Order()), i, node, tree.Order()) && Cleared(node)
    ensures Removed(old(tree.Keys(tree.Order())), i, old(node.key), tree.Keys(tree.Order()))
    ensures StillSorted(tree, old(tree.Keys(tree.Order())), tree.Keys(tree.Order()))
  {
    ghost var order, ks := tree.Order(), tree.Keys(tree.Order());
    i := Remove(tree, node);
    InorderElems(tree.shape);
    KeysRemoved(tree, order, ks, i, node, tree.Order());
    RemovedSorted(tree, ks, i, ks[i], tree.Keys(tree.Order()));
  }

  /** If ks was sorted, in whatever half circle, ks' is. */
  ghost predicate StillSorted(tree: Rbtree, ks: seq<u32>, ks': seq<u32>)
  {
    forall base: u32 :: tree.SortedKeys(ks, base) ==> tree.SortedKeys(ks', base)
  }

  lemma KeysRemoved(tree: Rbtree, o: seq<RbNode>, ks: seq<u32>, i: nat, node: RbNode, o': seq<RbNode>)
    requires Removed(o, i, node, o') && node !in o' && |ks| == |o|
    requires forall j :: 0 <= j < |o| && o[j] != node ==> ks[j] == o[j].key
    ensures Removed(ks, i, ks[i], tree.Keys(o'))
  {
    forall j | 0 <= j < |o'|
      ensures o'[j].key == (ks[..i] + ks[i + 1..])[j]
    {
      assert o'[j] != node && o'[j] == o[if j < i then j else j + 1];
    }
  }

  /** Taking a key away leaves the rest sorted. */
  lemma RemovedSorted(tree: Rbtree, ks: seq<u32>, i: nat, k: u32, ks': seq<u32>)
    requires Removed(ks, i, k, ks')
    ensures StillSorted(tree, ks, ks')
  {
    forall base: u32 | tree.SortedKeys(ks, base)
      ensures tree.SortedKeys(ks', base)
    {
      assert ks == ks[..i] + [k] + ks[i + 1..];
      tree.SubSorted(ks[..i], [k], ks[i + 1..], base);
    }
  }

  method Remove(tree: Rbtree, node: RbNode) returns (ghost i: nat)
    requires tree.Valid() && node in Elems(tree.shape)
    modifies tree, Elems(tree.shape)`left, Elems(tree.shape)`right, Elems(tree.shape)`parent, Elems(tree.shape)`red
    modifies tree.sentinel`parent, tree.sentinel`red, node`key
    ensures tree.Valid() && Elems(tree.shape) == old(Elems(tree.shape)) - {node}
    ensures Removed(old(tree.Order()), i, node, tree.Order()) && Cleared(node)
  {
    ghost var ns, rp := Elems(tree.shape), tree.shape.v.parent;
    ghost var c, t, d, m, x, c1;
    c, t := Locate(tree.shape, node);
    tree.FromTop(c, t, rp);
    var subst, temp;
    subst, temp, d, m, x := Choose(tree, node, c, t, rp);
    if subst == tree.root {
      i := DropOrder(c, t, x);
      DropRoot(tree, node, temp, t, x, rp, ns);
      return;
    }
    var red;
    red, c1, i := Detach(tree, node, subst, temp, c, t, d, m, x, rp, ns);
    Finish(tree, temp, red, c1, x, rp, ns - {node});
  }

  // ---- ngx_rbtree_next ----

  /** ngx_rbtree_next: the node after node number i of the order, or null after the last. */
  method Next(tree: Rbtree, node0: RbNode, ghost i: nat) returns (next: RbNode?)
    requires tree.Valid() && i < |tree.Order()| && node0 == tree.Order()[i]
    ensures next == if i + 1 < |tree.Order()| then tree.Order()[i + 1] else null
  {
    InorderElems(tree.shape);
    ghost var rp := tree.shape.v.parent;
    ghost var c, t;
    c, t := Locate(tree.shape, node0);
    tree.FromTop(c, t, rp);
    PlugInorder(c, t);
    WhereInOrder(tree.shape, c, t, i);
    LookBelow(tree, c, t, rp);
    if node0.right != tree.sentinel {
      tree.MoveRight(c, t, rp);
      ghost var d, m;
      next, d, m := Min(tree, node0.right, InR(t.red, t.l, t.v, c), t.r, rp);
      LeastOrder(d, m);
      assert Inorder(t.r)[0] == next;
      return;
    }
    next := Climb(tree, node0, c, t, rp);
  }

  /** Nodes occur once in the order, so the place in the tree gives the number. */
  lemma {:induction false} WhereInOrder(whole: Shape, c: Path, t: Shape, i: nat)
    requires whole == Plug(c, t) && t.N? && Distinct(whole) && i < |Inorder(whole)| && Inorder(whole)[i] == t.v
    ensures var after := Inorder(t.r) + After(c);
            if after == [] then i + 1 == |Inorder(whole)|
            else i + 1 < |Inorder(whole)| && Inorder(whole)[i + 1] == after[0]
  {
    PlugInorder(c, t);
    Flatten(Inorder(whole), Before(c), Inorder(t.l), t.v, Inorder(t.r), After(c), Inorder(t.r) + After(c));
    DistinctOrder(whole, i, |Before(c)| + |Inorder(t.l)|);
  }

  lemma Flatten<T>(o: seq<T>, b: seq<T>, l: seq<T>, v: T, r: seq<T>, a: seq<T>, after: seq<T>)
    requires o == b + (l + [v] + r) + a && after == r + a
    ensures var i := |b| + |l|;
            && i < |o| && o[i] == v
            && (if after == [] then i + 1 == |o| else i + 1 < |o| && o[i + 1] == after[0])
  {
  }

  lemma {:induction false} DistinctOrder(t: Shape, i: nat, j: nat)
    requires Distinct(t) && i < |Inorder(t)| && j < |Inorder(t)| && Inorder(t)[i] == Inorder(t)[j]
    ensures i == j
  {
    var n := |Inorder(t.l)|;
    SideOf(t, i);
    SideOf(t, j);
    if i < n && j < n {
      DistinctOrder(t.l, i, j);
    } else if i > n && j > n {
      DistinctOrder(t.r, i - n - 1, j - n - 1);
    }
  }

  lemma {:induction false} SideOf(t: Shape, k: nat)
    requires t.N? && k < |Inorder(t)|
    ensures var n, x := |Inorder(t.l)|, Inorder(t)[k];
            && (k < n ==> x == Inorder(t.l)[k] && x in Elems(t.l))
            && (k == n ==> x == t.v)
            && (k > n ==> x == Inorder(t.r)[k - n - 1] && x in Elems(t.r))
  {
    var n := |Inorder(t.l)|;
    if k < n {
      InOrderHas(t.l, k);
    } else if k > n {
      InOrderHas(t.r, k - n - 1);
    }
  }

  lemma {:induction false} InOrderHas(t: Shape, k: nat)
    requires k < |Inorder(t)|
    ensures Inorder(t)[k] in Elems(t)
  {
    var n := |Inorder(t.l)|;
    if k < n {
      InOrderHas(t.l, k);
    } else if k > n {
      InOrderHas(t.r, k - n - 1);
    }
  }

  /** Without a right child the next node is the nearest one whose left subtree holds this one. */
  method Climb(tree: Rbtree, node0: RbNode, ghost c0: Path, ghost t0: Shape, ghost rp: RbNode?) returns (next: RbNode?)
    requires tree.At(c0, t0, rp) && t0.N? && node0 == t0.v
    ensures next == if After(c0) == [] then null else After(c0)[0]
  {
    var node := node0;
    ghost var c, t := c0, t0;
    while true
      invariant tree.At(c, t, rp) && t.N? && node == t.v && After(c) == After(c0)
      decreases c
    {
      tree.Look(c, t, rp);
      var parent := node.parent;
      if node == tree.root {
        return null;
      }
      if node == parent.left {
        return parent;
      }
      tree.MoveUp(c, t, rp);
      c, t := c.up, Parent(c, t);
      node := parent;
    }
  }
}
