/** Nodes with left, right and parent pointers that mirror a shape, and the rotations of
    ngx_rbtree.c. What the pointers of a set of nodes hold at one moment is taken as a map, so
    that the effect of pointer surgery on the shape is a fact about maps. */
module RbLinks {
  import opened U32
  import opened RbShape

  class RbNode {
    var key: u32
    var left: RbNode?
    var right: RbNode?
    var parent: RbNode?
    var red: bool

    constructor (key: u32)
      ensures this.key == key
    {
      this.key := key;
      left, right, parent, red := null, null, null, false;
    }
  }

  type Shape = Tree<RbNode>
  type Path = Ctx<RbNode>
  datatype Cell = Cell(left: RbNode?, right: RbNode?, parent: RbNode?, red: bool)
  type Cells = map<RbNode, Cell>

  ghost function Snap(ns: set<RbNode>): (h: Cells)
    reads ns
    ensures h.Keys == ns
  {
    map n | n in ns :: Cell(n.left, n.right, n.parent, n.red)
  }

  /** The node a child pointer to this subtree holds. */
  ghost function Root(t: Shape, s: RbNode): RbNode
  {
    if t.Leaf? then s else t.v
  }

  /** The parent of the hole; rp stands for whatever the root's parent pointer holds, which the
      code never follows. */
  ghost function Up(c: Path, rp: RbNode?): RbNode?
  {
    if c.Top? then rp else c.v
  }

  /** The pointers and colours in h are those of subtree t below p. */
  ghost predicate LinkedT(t: Shape, p: RbNode?, s: RbNode, h: Cells)
  {
    t.N? ==>
      && t.v in h && h[t.v] == Cell(Root(t.l, s), Root(t.r, s), p, t.red)
      && LinkedT(t.l, t.v, s, h) && LinkedT(t.r, t.v, s, h)
  }

  /** The nodes around a hole whose subtree is rooted at x. */
  ghost predicate LinkedC(c: Path, x: RbNode, rp: RbNode?, s: RbNode, h: Cells)
  {
    match c
    case Top => true
    case InL(red, v, r, up) =>
      v in h && h[v] == Cell(x, Root(r, s), Up(up, rp), red) && LinkedT(r, v, s, h) && LinkedC(up, v, rp, s, h)
    case InR(red, l, v, up) =>
      v in h && h[v] == Cell(Root(l, s), x, Up(up, rp), red) && LinkedT(l, v, s, h) && LinkedC(up, v, rp, s, h)
  }

  lemma {:induction false} PlugLinked(c: Path, t: Shape, rp: RbNode?, s: RbNode, h: Cells)
    ensures LinkedT(Plug(c, t), rp, s, h) <==> LinkedC(c, Root(t, s), rp, s, h) && LinkedT(t, Up(c, rp), s, h)
    decreases c
  {
    match c
    case Top =>
    case InL(red, v, r, up) => PlugLinked(up, N(red, t, v, r), rp, s, h);
    case InR(red, l, v, up) => PlugLinked(up, N(red, l, v, t), rp, s, h);
  }

  /** What is in the hole does not decide which node is the root, unless the hole is the root. */
  lemma {:induction false} PlugTop(c: Path, t: Shape, t': Shape, s: RbNode)
    requires !c.Top?
    ensures Plug(c, t).N? && Plug(c, t').N? && Root(Plug(c, t), s) == Root(Plug(c, t'), s)
    ensures Root(Plug(c, t), s) in ElemsC(c)
    decreases c
  {
    match c
    case InL(red, v, r, up) => if !up.Top? { PlugTop(up, N(red, t, v, r), N(red, t', v, r), s); }
    case InR(red, l, v, up) => if !up.Top? { PlugTop(up, N(red, l, v, t), N(red, l, v, t'), s); }
  }

  /** Two moments between which a set of nodes was left alone. */
  ghost predicate Same(ns: set<RbNode>, h: Cells, h': Cells)
  {
    forall n :: n in ns && n in h ==> n in h' && h'[n] == h[n]
  }

  lemma {:induction false} KeepT(t: Shape, p: RbNode?, s: RbNode, h: Cells, h': Cells)
    requires LinkedT(t, p, s, h) && Same(Elems(t), h, h')
    ensures LinkedT(t, p, s, h')
  {
    if t.N? {
      KeepT(t.l, t.v, s, h, h');
      KeepT(t.r, t.v, s, h, h');
    }
  }

  lemma {:induction false} KeepC(c: Path, x: RbNode, rp: RbNode?, s: RbNode, h: Cells, h': Cells)
    requires LinkedC(c, x, rp, s, h) && Same(ElemsC(c), h, h')
    ensures LinkedC(c, x, rp, s, h')
    decreases c
  {
    match c
    case Top =>
    case InL(_, v, r, up) =>
      KeepT(r, v, s, h, h');
      KeepC(up, v, rp, s, h, h');
    case InR(_, l, v, up) =>
      KeepT(l, v, s, h, h');
      KeepC(up, v, rp, s, h, h');
  }

  ghost function TopOf(t: Shape): set<RbNode>
  {
    if t.Leaf? then {} else {t.v}
  }

  /** A subtree whose root alone changed, to another parent and colour. */
  lemma {:induction false} ReparentT(t: Shape, p0: RbNode?, p: RbNode?, red: bool, s: RbNode, h: Cells, h': Cells)
    requires Distinct(t) && LinkedT(t, p0, s, h) && Same(Elems(t) - TopOf(t), h, h')
    requires t.N? ==> t.v in h' && h'[t.v] == h[t.v].(parent := p, red := red)
    ensures LinkedT(Paint(t, red), p, s, h')
  {
    if t.N? {
      KeepT(t.l, t.v, s, h, h');
      KeepT(t.r, t.v, s, h, h');
    }
  }

  /** The node whose child pointer leads into the hole. */
  ghost function Above(c: Path): set<RbNode>
  {
    if c.Top? then {} else {c.v}
  }

  /** Its cell once that pointer leads to x'. */
  ghost function Hung(c: Path, cell: Cell, x': RbNode): Cell
    requires !c.Top?
  {
    if c.InL? then cell.(left := x') else cell.(right := x')
  }

  lemma {:induction false} RehangC(c: Path, x: RbNode, x': RbNode, rp: RbNode?, s: RbNode, h: Cells, h': Cells)
    requires DistinctC(c) && LinkedC(c, x, rp, s, h) && Same(ElemsC(c) - Above(c), h, h')
    requires !c.Top? ==> c.v in h' && h'[c.v] == Hung(c, h[c.v], x')
    ensures LinkedC(c, x', rp, s, h')
  {
    match c
    case Top =>
    case InL(_, v, r, up) =>
      KeepT(r, v, s, h, h');
      KeepC(up, v, rp, s, h, h');
    case InR(_, l, v, up) =>
      KeepT(l, v, s, h, h');
      KeepC(up, v, rp, s, h, h');
  }

  // ---- rotations on shapes ----

  ghost function RotL(t: Shape): Shape
    requires t.N? && t.r.N?
  {
    N(t.r.red, N(t.red, t.l, t.v, t.r.l), t.r.v, t.r.r)
  }

  ghost function RotR(t: Shape): Shape
    requires t.N? && t.l.N?
  {
    N(t.l.red, t.l.l, t.l.v, N(t.red, t.l.r, t.v, t.r))
  }

  /** The cells of every node after ngx_rbtree_left_rotate, from those before it. */
  ghost predicate LeftRotated(c: Path, t: Shape, s: RbNode, h: Cells, h': Cells)
    requires t.N? && t.r.N?
  {
    var x := t.v; var y := t.r.v; var b := t.r.l;
    && h'.Keys == h.Keys && {x, y} + TopOf(b) + Above(c) <= h.Keys
    && Same(h.Keys - {x, y} - TopOf(b) - Above(c), h, h')
    && h'[x] == h[x].(right := Root(b, s), parent := y)
    && h'[y] == h[y].(left := x, parent := h[x].parent)
    && (b.N? ==> h'[b.v] == h[b.v].(parent := x))
    && (!c.Top? ==> h'[c.v] == Hung(c, h[c.v], y))
  }

  ghost predicate RightRotated(c: Path, t: Shape, s: RbNode, h: Cells, h': Cells)
    requires t.N? && t.l.N?
  {
    var x := t.v; var y := t.l.v; var b := t.l.r;
    && h'.Keys == h.Keys && {x, y} + TopOf(b) + Above(c) <= h.Keys
    && Same(h.Keys - {x, y} - TopOf(b) - Above(c), h, h')
    && h'[x] == h[x].(left := Root(b, s), parent := y)
    && h'[y] == h[y].(right := x, parent := h[x].parent)
    && (b.N? ==> h'[b.v] == h[b.v].(parent := x))
    && (!c.Top? ==> h'[c.v] == Hung(c, h[c.v], y))
  }

  /** t sits in the hole of c, and h links them accordingly. */
  ghost predicate Wired(c: Path, t: Shape, rp: RbNode?, s: RbNode, h: Cells)
  {
    && Apart(c, t) && s !in Elems(t) && s !in ElemsC(c)
    && h.Keys == Elems(t) + ElemsC(c)
    && LinkedC(c, Root(t, s), rp, s, h) && LinkedT(t, Up(c, rp), s, h)
  }

  lemma {:induction false} RotElems(c: Path, t: Shape)
    requires t.N? && Apart(c, t)
    ensures t.r.N? ==> Elems(RotL(t)) == Elems(t) && Apart(c, RotL(t))
    ensures t.l.N? ==> Elems(RotR(t)) == Elems(t) && Apart(c, RotR(t))
  {
    if t.r.N? {
      var x' := N(t.red, t.l, t.v, t.r.l);
      assert Distinct(t.r) && Elems(x') == Elems(t.l) + {t.v} + Elems(t.r.l) && Distinct(x');
    }
    if t.l.N? {
      var x' := N(t.red, t.l.r, t.v, t.r);
      assert Distinct(t.l) && Elems(x') == Elems(t.l.r) + {t.v} + Elems(t.r) && Distinct(x');
    }
  }

  lemma {:induction false} LeftRotatedLinked(c: Path, t: Shape, p: RbNode?, s: RbNode, h: Cells, h': Cells)
    requires t.N? && t.r.N? && Apart(c, t) && LinkedT(t, p, s, h) && LeftRotated(c, t, s, h, h')
    ensures LinkedT(RotL(t), p, s, h')
  {
    var x := t.v; var y := t.r.v; var b := t.r.l;
    assert LinkedT(t.r, x, s, h) && Distinct(t.r);
    KeepT(t.l, x, s, h, h');
    KeepT(t.r.r, y, s, h, h');
    ReparentT(b, y, x, b.N? && b.red, s, h, h');
    assert LinkedT(N(t.red, t.l, x, b), y, s, h');
  }

  lemma LeftRotatedWired(c: Path, t: Shape, rp: RbNode?, s: RbNode, h: Cells, h': Cells)
    requires t.N? && t.r.N? && Wired(c, t, rp, s, h) && LeftRotated(c, t, s, h, h')
    ensures Wired(c, RotL(t), rp, s, h')
  {
    RotElems(c, t);
    LeftRotatedLinked(c, t, Up(c, rp), s, h, h');
    assert Distinct(t.r);
    RehangC(c, t.v, t.r.v, rp, s, h, h');
  }

  lemma {:induction false} RightRotatedLinked(c: Path, t: Shape, p: RbNode?, s: RbNode, h: Cells, h': Cells)
    requires t.N? && t.l.N? && Apart(c, t) && LinkedT(t, p, s, h) && RightRotated(c, t, s, h, h')
    ensures LinkedT(RotR(t), p, s, h')
  {
    var x := t.v; var y := t.l.v; var b := t.l.r;
    assert LinkedT(t.l, x, s, h) && Distinct(t.l);
    KeepT(t.r, x, s, h, h');
    KeepT(t.l.l, y, s, h, h');
    ReparentT(b, y, x, b.N? && b.red, s, h, h');
    assert LinkedT(N(t.red, b, x, t.r), y, s, h');
  }

  lemma RightRotatedWired(c: Path, t: Shape, rp: RbNode?, s: RbNode, h: Cells, h': Cells)
    requires t.N? && t.l.N? && Wired(c, t, rp, s, h) && RightRotated(c, t, s, h, h')
    ensures Wired(c, RotR(t), rp, s, h')
  {
    RotElems(c, t);
    RightRotatedLinked(c, t, Up(c, rp), s, h, h');
    assert Distinct(t.l);
    RehangC(c, t.v, t.l.v, rp, s, h, h');
  }

  lemma {:induction false} RotInorder(t: Shape)
    requires t.N?
    ensures t.r.N? ==> Inorder(RotL(t)) == Inorder(t)
    ensures t.l.N? ==> Inorder(RotR(t)) == Inorder(t)
  {
    if t.r.N? {
      Regroup(Inorder(t.l), t.v, Inorder(t.r.l), t.r.v, Inorder(t.r.r));
    }
    if t.l.N? {
      Regroup(Inorder(t.l.l), t.l.v, Inorder(t.l.r), t.v, Inorder(t.r));
    }
  }

  lemma Regroup(a: seq<RbNode>, x: RbNode, b: seq<RbNode>, y: RbNode, c: seq<RbNode>)
    ensures (a + [x] + b) + [y] + c == a + [x] + (b + [y] + c)
  {
  }

  /** A new red leaf hung into an empty hole. */
  lemma GraftWired(c: Path, x: RbNode, rp: RbNode?, s: RbNode, h: Cells, h': Cells)
    requires Wired(c, Leaf, rp, s, h) && !c.Top? && x !in h && x != s
    requires h'.Keys == h.Keys + {x} && h'[x] == Cell(s, s, c.v, true)
    requires c.v in h && h'[c.v] == Hung(c, h[c.v], x) && Same(h.Keys - {c.v}, h, h')
    ensures Wired(c, N(true, Leaf, x, Leaf), rp, s, h')
  {
    RehangC(c, s, x, rp, s, h, h');
  }

  /** The root of t unlinked in favour of its only child. */
  lemma SpliceWired(c: Path, t: Shape, x: Shape, rp: RbNode?, s: RbNode, h: Cells, h': Cells)
    requires Wired(c, t, rp, s, h) && OnlyChild(t, x) && !c.Top?
    requires h'.Keys == h.Keys - {t.v} && c.v in h && h'[c.v] == Hung(c, h[c.v], Root(x, s))
    requires x.N? ==> x.v in h && h'[x.v] == h[x.v].(parent := c.v)
    requires Same(h.Keys - {t.v, c.v} - TopOf(x), h, h')
    ensures Wired(c, x, rp, s, h')
  {
    assert Elems(t) == Elems(x) + {t.v};
    RehangC(c, t.v, Root(x, s), rp, s, h, h');
    ReparentT(x, t.v, c.v, x.N? && x.red, s, h, h');
  }

  /** Another node put in the place of t's root. */
  lemma ReplaceWired(c: Path, t: Shape, y: RbNode, rp: RbNode?, s: RbNode, h: Cells, h': Cells)
    requires Wired(c, t, rp, s, h) && t.N? && y !in h && y != s
    requires h'.Keys == h.Keys - {t.v} + {y} && t.v in h && h'[y] == h[t.v]
    requires !c.Top? ==> c.v in h && h'[c.v] == Hung(c, h[c.v], y)
    requires t.l.N? ==> t.l.v in h && h'[t.l.v] == h[t.l.v].(parent := y)
    requires t.r.N? ==> t.r.v in h && h'[t.r.v] == h[t.r.v].(parent := y)
    requires Same(h.Keys - {t.v} - Above(c) - TopOf(t.l) - TopOf(t.r), h, h')
    ensures Wired(c, N(t.red, t.l, y, t.r), rp, s, h')
  {
    ReplaceElems(c, t, y);
    RehangC(c, t.v, y, rp, s, h, h');
    ReplaceLinked(t, y, Up(c, rp), s, h, h');
  }

  lemma {:induction false} ReplaceElems(c: Path, t: Shape, y: RbNode)
    requires t.N? && Apart(c, t) && y !in Elems(t) + ElemsC(c)
    ensures var t' := N(t.red, t.l, y, t.r);
            Elems(t') == Elems(t) - {t.v} + {y} && Apart(c, t')
  {
  }

  lemma {:induction false} ReplaceLinked(t: Shape, y: RbNode, p: RbNode?, s: RbNode, h: Cells, h': Cells)
    requires t.N? && Distinct(t) && LinkedT(t, p, s, h) && y !in Elems(t) && y in h' && h'[y] == h[t.v]
    requires t.l.N? ==> t.l.v in h && t.l.v in h' && h'[t.l.v] == h[t.l.v].(parent := y)
    requires t.r.N? ==> t.r.v in h && t.r.v in h' && h'[t.r.v] == h[t.r.v].(parent := y)
    requires Same(Elems(t) - {t.v} - TopOf(t.l) - TopOf(t.r), h, h')
    ensures LinkedT(N(t.red, t.l, y, t.r), p, s, h')
  {
    ReparentT(t.l, t.v, y, t.l.N? && t.l.red, s, h, h');
    ReparentT(t.r, t.v, y, t.r.N? && t.r.red, s, h, h');
  }

  /** The same cells, seen from the top of a subtree and from a place inside it. */
  lemma {:induction false} WiredDescend(c: Path, d: Path, m: Shape, rp: RbNode?, s: RbNode, h: Cells)
    ensures Wired(c, Plug(d, m), rp, s, h) <==> Wired(Compose(c, d), m, rp, s, h)
  {
    PlugCompose(c, d, m);
    WiredTop(c, Plug(d, m), rp, s, h);
    WiredTop(Compose(c, d), m, rp, s, h);
  }

  lemma {:induction false} WiredTop(c: Path, t: Shape, rp: RbNode?, s: RbNode, h: Cells)
    ensures Wired(c, t, rp, s, h) <==> Wired(Top, Plug(c, t), rp, s, h)
  {
    PlugDistinct(c, t);
    PlugLinked(c, t, rp, s, h);
    assert Elems(Plug(c, t)) + ElemsC<RbNode>(Top) == Elems(t) + ElemsC(c);
  }

  /** Where the pieces that change places in a deletion are: node with two children roots t, and
      subst, the least node of its right subtree, roots m below d. */
  lemma {:induction false} Pieces(c: Path, t: Shape, d: Path, m: Shape, rp: RbNode?, s: RbNode, h: Cells)
    requires Wired(c, t, rp, s, h) && t.N? && t.l.N? && t.r == Plug(d, m) && m.N? && LeftOnly(d)
    ensures Wired(Compose(InR(t.red, t.l, t.v, c), d), m, rp, s, h)
    ensures t.r.N? && (d.Top? ==> t.r.v == m.v) && (!d.Top? ==> t.r.v in ElemsC(d) && d.v in ElemsC(d))
    ensures ElemsC(d) + Elems(m) == Elems(t.r) && ElemsC(d) !! Elems(m)
    ensures {t.v} !! Elems(t.r) && {t.v} !! Elems(t.l) && Elems(t.l) !! Elems(t.r) && {s} !! h.Keys
    ensures !c.Top? ==> c.v in ElemsC(c)
  {
    WiredDescend(c, InR(t.red, t.l, t.v, Top), t.r, rp, s, h);
    assert Compose(c, InR(t.red, t.l, t.v, Top)) == InR(t.red, t.l, t.v, c);
    WiredDescend(InR(t.red, t.l, t.v, c), d, m, rp, s, h);
    PiecesBelow(t, d, m, s);
  }

  lemma {:induction false} PiecesBelow(t: Shape, d: Path, m: Shape, s: RbNode)
    requires t.N? && Distinct(t) && t.r == Plug(d, m) && m.N?
    ensures t.r.N? && (d.Top? ==> t.r.v == m.v) && (!d.Top? ==> t.r.v in ElemsC(d) && d.v in ElemsC(d))
    ensures ElemsC(d) + Elems(m) == Elems(t.r) && ElemsC(d) !! Elems(m)
    ensures {t.v} !! Elems(t.r) && {t.v} !! Elems(t.l) && Elems(t.l) !! Elems(t.r)
  {
    PlugDistinct(d, m);
    if !d.Top? {
      PlugTop(d, m, m, s);
    }
  }

  /** The cells halfway: subst unlinked from its place, node still in its own. */
  ghost function Unlinked(c: Path, m: Shape, x: Shape, s: RbNode, h: Cells): (h1: Cells)
    requires !c.Top? && m.N? && c.v in h.Keys && (x.N? ==> x.v in h.Keys) && c.v != m.v
    ensures h1.Keys == h.Keys - {m.v}
  {
    map n | n in h.Keys - {m.v} ::
      if n == c.v then Hung(c, h[n], Root(x, s)) else if x.N? && n == x.v then h[n].(parent := c.v) else h[n]
  }

  /** The cells after subst took node's place, from those halfway. */
  ghost predicate Replaced(c: Path, t: Shape, y: RbNode, h: Cells, h': Cells)
    requires t.N?
  {
    && h'.Keys == h.Keys - {t.v} + {y} && t.v in h && h'[y] == h[t.v]
    && (!c.Top? ==> c.v in h && c.v in h' && h'[c.v] == Hung(c, h[c.v], y))
    && (t.l.N? ==> t.l.v in h && t.l.v in h' && h'[t.l.v] == h[t.l.v].(parent := y))
    && (t.r.N? ==> t.r.v in h && t.r.v in h' && h'[t.r.v] == h[t.r.v].(parent := y))
    && Same(h.Keys - {t.v} - Above(c) - TopOf(t.l) - TopOf(t.r), h, h')
  }

  /** Both halves together. */
  lemma {:induction false} SwapWired(c: Path, t: Shape, d: Path, m: Shape, rp: RbNode?, s: RbNode, h: Cells,
                                     h1: Cells, h': Cells)
    requires Wired(c, t, rp, s, h) && t.N? && t.l.N? && t.r == Plug(d, m) && m.N? && m.l.Leaf? && LeftOnly(d)
    requires var c0 := Compose(InR(t.red, t.l, t.v, c), d);
             !c0.Top? && c0.v in h.Keys && (m.r.N? ==> m.r.v in h.Keys) && c0.v != m.v
             && h1 == Unlinked(c0, m, m.r, s, h)
    requires Replaced(c, N(t.red, t.l, t.v, Plug(d, m.r)), m.v, h1, h')
    ensures Wired(Compose(InR(t.red, t.l, m.v, c), d), m.r, rp, s, h')
    ensures Wired(c, N(t.red, t.l, m.v, Plug(d, m.r)), rp, s, h')
  {
    var x := m.r;
    var c0 := Compose(InR(t.red, t.l, t.v, c), d);
    Pieces(c, t, d, m, rp, s, h);
    SpliceWired(c0, m, x, rp, s, h, h1);
    WiredDescend(InR(t.red, t.l, t.v, c), d, x, rp, s, h1);
    WiredDescend(c, InR(t.red, t.l, t.v, Top), Plug(d, x), rp, s, h1);
    var t1 := N(t.red, t.l, t.v, Plug(d, x));
    assert Wired(c, t1, rp, s, h1);
    ReplaceWired(c, t1, m.v, rp, s, h1, h');
    WiredDescend(c, InR(t.red, t.l, m.v, Top), Plug(d, x), rp, s, h');
    WiredDescend(InR(t.red, t.l, m.v, c), d, x, rp, s, h');
  }
}
