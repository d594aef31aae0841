/** ngx_rbtree: insertion and deletion with their fix-up loops over parent pointers, used as a
    timer queue. Ghost parameters name the position of a node: the path above it and the subtree
    it roots. */
module RbTree {
  import opened U32
  import opened RbShape
  import opened RbLinks
  import opened Seqs

  class Rbtree {
    var root: RbNode
    const sentinel: RbNode
    const timer: bool
    ghost var shape: Shape

    /** ngx_rbtree_init; the sentinel is painted black. */
    constructor (s: RbNode, timer: bool)
      modifies s
      ensures Valid() && shape == Leaf && sentinel == s && this.timer == timer
    {
      s.red := false;
      root, sentinel, this.timer := s, s, timer;
      shape := Leaf;
    }

    /** The whole tree is t in the hole of c, and every pointer and colour says so. */
    ghost predicate At(c: Path, t: Shape, rp: RbNode?)
      reads `root, sentinel`red, Elems(t), ElemsC(c)
    {
      && !sentinel.red && root == Root(Plug(c, t), sentinel)
      && Wired(c, t, rp, sentinel, Snap(Elems(t) + ElemsC(c)))
    }

    /** Parent links agree with child links everywhere below the root. The root's own parent
        pointer is arbitrary: deleting a root with one child leaves it dangling. */
    ghost predicate Linked()
      reads this, sentinel, Elems(shape)
    {
      At(Top, shape, if shape.N? then shape.v.parent else null)
    }

    ghost predicate Valid()
      reads this, sentinel, Elems(shape)
    {
      Linked() && RedBlack(shape)
    }

    /** The nodes in order. */
    ghost function Order(): seq<RbNode>
      reads this
    {
      Inorder(shape)
    }

    // ---- moving the point of view ----

    lemma {:induction false} MoveUp(c: Path, t: Shape, rp: RbNode?)
      requires At(c, t, rp) && !c.Top?
      ensures At(c.up, Parent(c, t), rp)
      ensures Elems(Parent(c, t)) + ElemsC(c.up) == Elems(t) + ElemsC(c)
    {
      assert Elems(Parent(c, t)) + ElemsC(c.up) == Elems(t) + ElemsC(c);
    }

    lemma {:induction false} MoveLeft(c: Path, t: Shape, rp: RbNode?)
      requires At(c, t, rp) && t.N?
      ensures At(InL(t.red, t.v, t.r, c), t.l, rp)
      ensures Elems(t.l) + ElemsC(InL(t.red, t.v, t.r, c)) == Elems(t) + ElemsC(c)
    {
      assert Elems(t.l) + ElemsC(InL(t.red, t.v, t.r, c)) == Elems(t) + ElemsC(c);
    }

    lemma {:induction false} MoveRight(c: Path, t: Shape, rp: RbNode?)
      requires At(c, t, rp) && t.N?
      ensures At(InR(t.red, t.l, t.v, c), t.r, rp)
      ensures Elems(t.r) + ElemsC(InR(t.red, t.l, t.v, c)) == Elems(t) + ElemsC(c)
    {
      assert Elems(t.r) + ElemsC(InR(t.red, t.l, t.v, c)) == Elems(t) + ElemsC(c);
    }

    /** What can be read at a position. */
    lemma Look(c: Path, t: Shape, rp: RbNode?)
      requires At(c, t, rp)
      ensures t.N? ==> t.v.left == Root(t.l, sentinel) && t.v.right == Root(t.r, sentinel) && t.v.red == t.red
                       && t.v.parent == Up(c, rp) && t.v != sentinel
      ensures Root(t, sentinel) == root <==> c.Top?
      ensures Root(t, sentinel).red == IsRed(t)
      ensures !c.Top? ==> c.v != sentinel && c.v.red == c.red && c.v.parent == Up(c.up, rp)
      ensures c.InL? ==> c.v.left == Root(t, sentinel) && c.v.right == Root(c.r, sentinel)
      ensures c.InR? ==> c.v.left == Root(c.l, sentinel) && c.v.right == Root(t, sentinel)
      ensures c.InR? && (t.N? || c.l.N?) ==> Root(c.l, sentinel) != Root(t, sentinel)
      ensures c.InL? && t.N? ==> Root(c.r, sentinel) != t.v
    {
      if !c.Top? {
        PlugTop(c, t, t, sentinel);
      }
    }

    // ---- single steps ----

    /** ngx_rbt_red / ngx_rbt_black on the node at a position. */
    method SetColour(node: RbNode, red: bool, ghost c: Path, ghost t: Shape, ghost rp: RbNode?)
      requires At(c, t, rp) && t.N? && node == t.v
      modifies node`red
      ensures At(c, Paint(t, red), rp)
    {
      ghost var ns := Elems(t) + ElemsC(c);
      ghost var h := Snap(ns);
      node.red := red;
      ghost var h' := Snap(ns);
      ReparentT(t, Up(c, rp), Up(c, rp), red, sentinel, h, h');
      KeepC(c, t.v, rp, sentinel, h, h');
      if !c.Top? { PlugTop(c, t, Paint(t, red), sentinel); }
    }

    /** The pointers of ngx_rbtree_left_rotate: node's right child temp takes node's place, which
        was the root or one of parent's children. */
    method LeftPointers(node: RbNode, temp: RbNode, b: RbNode, parent: RbNode?)
      requires node.right == temp && temp.left == b && node.parent == parent && (node != root ==> parent != null)
      requires node != temp && b != node && b != temp && node != sentinel && temp != sentinel
      requires node != root ==> parent != node && parent != temp && parent != b
      modifies this`root, node`right, node`parent, temp`left, temp`parent, (if b == sentinel then {} else {b})`parent
      modifies (if node == root then {} else {parent})`left, (if node == root then {} else {parent})`right
      ensures node.right == b && node.parent == temp && temp.left == node && temp.parent == parent
      ensures b != sentinel ==> b.parent == node
      ensures root == if node == old(root) then temp else old(root)
      ensures node != old(root) ==>
                (if old(parent.left) == node then parent.left == temp && parent.right == old(parent.right)
                 else parent.left == old(parent.left) && parent.right == temp)
    {
      node.right := temp.left;
      if temp.left != sentinel {
        temp.left.parent := node;
      }
      temp.parent := node.parent;
      if node == root {
        root := temp;
      } else if node == node.parent.left {
        node.parent.left := temp;
      } else {
        node.parent.right := temp;
      }
      temp.left := node;
      node.parent := temp;
    }

    /** The pointers of ngx_rbtree_right_rotate. */
    method RightPointers(node: RbNode, temp: RbNode, b: RbNode, parent: RbNode?)
      requires node.left == temp && temp.right == b && node.parent == parent && (node != root ==> parent != null)
      requires node != temp && b != node && b != temp && node != sentinel && temp != sentinel
      requires node != root ==> parent != node && parent != temp && parent != b
      modifies this`root, node`left, node`parent, temp`right, temp`parent, (if b == sentinel then {} else {b})`parent
      modifies (if node == root then {} else {parent})`left, (if node == root then {} else {parent})`right
      ensures node.left == b && node.parent == temp && temp.right == node && temp.parent == parent
      ensures b != sentinel ==> b.parent == node
      ensures root == if node == old(root) then temp else old(root)
      ensures node != old(root) ==>
                (if old(parent.right) == node then parent.right == temp && parent.left == old(parent.left)
                 else parent.right == old(parent.right) && parent.left == temp)
    {
      node.left := temp.right;
      if temp.right != sentinel {
        temp.right.parent := node;
      }
      temp.parent := node.parent;
      if node == root {
        root := temp;
      } else if node == node.parent.right {
        node.parent.right := temp;
      } else {
        node.parent.left := temp;
      }
      temp.right := node;
      node.parent := temp;
    }

    /** The four nodes a left rotation touches, told apart. */
    lemma {:induction false} LeftReady(c: Path, t: Shape, rp: RbNode?)
      requires At(c, t, rp) && t.N? && t.r.N?
      ensures t.v.right == t.r.v && t.r.v.left == Root(t.r.l, sentinel) && t.v.parent == Up(c, rp)
      ensures Spread(c, t.v, t.r.v, t.r.l)
      ensures {t.v, t.r.v} + TopOf(t.r.l) + Above(c) <= Elems(t) + ElemsC(c)
    {
      Look(c, t, rp);
      MoveRight(c, t, rp);
      Look(InR(t.red, t.l, t.v, c), t.r, rp);
    }

    lemma {:induction false} RightReady(c: Path, t: Shape, rp: RbNode?)
      requires At(c, t, rp) && t.N? && t.l.N?
      ensures t.v.left == t.l.v && t.l.v.right == Root(t.l.r, sentinel) && t.v.parent == Up(c, rp)
      ensures Spread(c, t.v, t.l.v, t.l.r)
      ensures {t.v, t.l.v} + TopOf(t.l.r) + Above(c) <= Elems(t) + ElemsC(c)
    {
      Look(c, t, rp);
      MoveLeft(c, t, rp);
      Look(InL(t.red, t.v, t.r, c), t.l, rp);
    }

    ghost predicate Spread(c: Path, x: RbNode, y: RbNode, b: Shape)
      reads this, Above(c)
    {
      var m := Root(b, sentinel);
      && x != y && x != sentinel && y != sentinel && m != x && m != y && (m == sentinel <==> b.Leaf?)
      && (x == root <==> c.Top?)
      && (!c.Top? ==> c.v != x && c.v != y && c.v != m)
      && (c.InL? ==> c.v.left == x && c.v.right != x) && (c.InR? ==> c.v.left != x && c.v.right == x)
    }

    /** ngx_rbtree_left_rotate. */
    method LeftRotate(node: RbNode, ghost c: Path, ghost t: Shape, ghost rp: RbNode?)
      requires At(c, t, rp) && t.N? && t.r.N? && node == t.v
      modifies this`root, (Elems(t) + ElemsC(c))`left, (Elems(t) + ElemsC(c))`right, (Elems(t) + ElemsC(c))`parent
      ensures At(c, RotL(t), rp)
    {
      ghost var h := Snap(Elems(t) + ElemsC(c));
      LeftReady(c, t, rp);
      TurnLeft(node, c, t, Elems(t) + ElemsC(c));
      LeftRotatedWired(c, t, rp, sentinel, h, Snap(Elems(t) + ElemsC(c)));
      RotElems(c, t);
      if !c.Top? { PlugTop(c, t, RotL(t), sentinel); }
    }

    method TurnLeft(node: RbNode, ghost c: Path, ghost t: Shape, ghost ns: set<RbNode>)
      requires t.N? && t.r.N? && node == t.v && Spread(c, t.v, t.r.v, t.r.l)
      requires t.v.right == t.r.v && t.r.v.left == Root(t.r.l, sentinel) && (!c.Top? ==> t.v.parent == c.v)
      requires {t.v, t.r.v} + TopOf(t.r.l) + Above(c) <= ns
      modifies this`root, ns`left, ns`right, ns`parent
      ensures LeftRotated(c, t, sentinel, old(Snap(ns)), Snap(ns))
      ensures root == if c.Top? then t.r.v else old(root)
    {
      LeftPointers(node, node.right, node.right.left, node.parent);
    }

    /** ngx_rbtree_right_rotate. */
    method RightRotate(node: RbNode, ghost c: Path, ghost t: Shape, ghost rp: RbNode?)
      requires At(c, t, rp) && t.N? && t.l.N? && node == t.v
      modifies this`root, (Elems(t) + ElemsC(c))`left, (Elems(t) + ElemsC(c))`right, (Elems(t) + ElemsC(c))`parent
      ensures At(c, RotR(t), rp)
    {
      ghost var h := Snap(Elems(t) + ElemsC(c));
      RightReady(c, t, rp);
      TurnRight(node, c, t, Elems(t) + ElemsC(c));
      RightRotatedWired(c, t, rp, sentinel, h, Snap(Elems(t) + ElemsC(c)));
      RotElems(c, t);
      if !c.Top? { PlugTop(c, t, RotR(t), sentinel); }
    }

    method TurnRight(node: RbNode, ghost c: Path, ghost t: Shape, ghost ns: set<RbNode>)
      requires t.N? && t.l.N? && node == t.v && Spread(c, t.v, t.l.v, t.l.r)
      requires t.v.left == t.l.v && t.l.v.right == Root(t.l.r, sentinel) && (!c.Top? ==> t.v.parent == c.v)
      requires {t.v, t.l.v} + TopOf(t.l.r) + Above(c) <= ns
      modifies this`root, ns`left, ns`right, ns`parent
      ensures RightRotated(c, t, sentinel, old(Snap(ns)), Snap(ns))
      ensures root == if c.Top? then t.l.v else old(root)
    {
      RightPointers(node, node.left, node.left.right, node.parent);
    }

    /** The same tree seen from its root, and from anywhere in it. */
    lemma {:induction false} FromTop(c: Path, t: Shape, rp: RbNode?)
      ensures At(c, t, rp) <==> At(Top, Plug(c, t), rp)
      ensures Elems(Plug(c, t)) + ElemsC(Top) == Elems(t) + ElemsC(c)
    {
      PlugDistinct(c, t);
      assert Elems(Plug(c, t)) + ElemsC<RbNode>(Top) == Elems(t) + ElemsC(c);
      PlugLinked(c, t, rp, sentinel, Snap(Elems(t) + ElemsC(c)));
      assert Up(Top, rp) == rp;
    }

    // ---- insertion ----

    /** Red uncle: parent and uncle turn black and the grandparent red. */
    method Recolour(parent: RbNode, uncle: RbNode, grand: RbNode, ghost c: Path, ghost t: Shape, ghost rp: RbNode?)
      requires !c.Top? && !c.up.Top? && At(c.up, Parent(c, t), rp) && t.N? && parent == c.v && grand == c.up.v
      requires Uncle(c).N? && uncle == Uncle(c).v
      modifies (Elems(Parent(c, t)) + ElemsC(c.up))`red
      ensures At(c.up.up, Recoloured(c, t), rp)
      ensures Elems(Recoloured(c, t)) + ElemsC(c.up.up) == Elems(Parent(c, t)) + ElemsC(c.up)
    {
      SetColour(parent, false, c.up, Parent(c, t), rp);
      ghost var p := Paint(Parent(c, t), false);
      ghost var g := GoToUncle(c, p, rp);
      ghost var gc := if c.up.InL? then InR(g.red, p, g.v, c.up.up) else InL(g.red, g.v, p, c.up.up);
      SetColour(uncle, false, gc, Uncle(c), rp);
      ghost var u := Paint(Uncle(c), false);
      MoveUp(gc, u, rp);
      SetColour(grand, true, c.up.up, Parent(gc, u), rp);
    }

    lemma GoToUncle(c: Path, p: Shape, rp: RbNode?) returns (g: Shape)
      requires !c.Top? && !c.up.Top? && p.N? && At(c.up, p, rp)
      ensures g == Parent(c.up, p)
      ensures c.up.InL? ==> At(InR(g.red, p, g.v, c.up.up), Uncle(c), rp)
      ensures c.up.InR? ==> At(InL(g.red, g.v, p, c.up.up), Uncle(c), rp)
      ensures Elems(g) + ElemsC(c.up.up) == Elems(p) + ElemsC(c.up)
    {
      MoveUp(c.up, p, rp);
      g := Parent(c.up, p);
      if c.up.InL? {
        MoveRight(c.up.up, g, rp);
      } else {
        MoveLeft(c.up.up, g, rp);
      }
    }

    /** Black uncle, node an inner (right) child: rotate its parent, which becomes the outer child. */
    method TurnOutwardL(parent: RbNode, ghost c: Path, ghost t: Shape, ghost rp: RbNode?)
      requires c.InR? && At(c.up, Parent(c, t), rp) && t.N? && parent == c.v
      modifies this`root
      modifies (Elems(Parent(c, t)) + ElemsC(c.up))`left, (Elems(Parent(c, t)) + ElemsC(c.up))`right,
               (Elems(Parent(c, t)) + ElemsC(c.up))`parent
      ensures At(Outward(c, t).0, Outward(c, t).1, rp)
      ensures Elems(Outward(c, t).1) + ElemsC(Outward(c, t).0) == Elems(Parent(c, t)) + ElemsC(c.up)
    {
      ghost var p := Parent(c, t);
      RotElems(c.up, p);
      LeftRotate(parent, c.up, p, rp);
      MoveLeft(c.up, RotL(p), rp);
    }

    method TurnOutwardR(parent: RbNode, ghost c: Path, ghost t: Shape, ghost rp: RbNode?)
      requires c.InL? && At(c.up, Parent(c, t), rp) && t.N? && parent == c.v
      modifies this`root
      modifies (Elems(Parent(c, t)) + ElemsC(c.up))`left, (Elems(Parent(c, t)) + ElemsC(c.up))`right,
               (Elems(Parent(c, t)) + ElemsC(c.up))`parent
      ensures At(Outward(c, t).0, Outward(c, t).1, rp)
      ensures Elems(Outward(c, t).1) + ElemsC(Outward(c, t).0) == Elems(Parent(c, t)) + ElemsC(c.up)
    {
      ghost var p := Parent(c, t);
      RotElems(c.up, p);
      RightRotate(parent, c.up, p, rp);
      MoveRight(c.up, RotR(p), rp);
    }

    /** Black uncle, node an outer (left) child: parent black, grandparent red, rotate it. */
    method RaiseL(parent: RbNode, grand: RbNode, ghost c: Path, ghost t: Shape, ghost rp: RbNode?)
      requires c.InL? && c.up.InL? && At(c.up, Parent(c, t), rp) && t.N? && parent == c.v && grand == c.up.v
      modifies this`root, (Elems(Parent(c, t)) + ElemsC(c.up))`left, (Elems(Parent(c, t)) + ElemsC(c.up))`right
      modifies (Elems(Parent(c, t)) + ElemsC(c.up))`parent, (Elems(Parent(c, t)) + ElemsC(c.up))`red
      ensures At(Raised(c), t, rp)
      ensures Elems(t) + ElemsC(Raised(c)) == Elems(Parent(c, t)) + ElemsC(c.up)
    {
      SetColour(parent, false, c.up, Parent(c, t), rp);
      ghost var p := Paint(Parent(c, t), false);
      MoveUp(c.up, p, rp);
      ghost var g := Paint(Parent(c.up, p), true);
      SetColour(grand, true, c.up.up, Parent(c.up, p), rp);
      RotElems(c.up.up, g);
      RightRotate(grand, c.up.up, g, rp);
      MoveLeft(c.up.up, RotR(g), rp);
    }

    method RaiseR(parent: RbNode, grand: RbNode, ghost c: Path, ghost t: Shape, ghost rp: RbNode?)
      requires c.InR? && c.up.InR? && At(c.up, Parent(c, t), rp) && t.N? && parent == c.v && grand == c.up.v
      modifies this`root, (Elems(Parent(c, t)) + ElemsC(c.up))`left, (Elems(Parent(c, t)) + ElemsC(c.up))`right
      modifies (Elems(Parent(c, t)) + ElemsC(c.up))`parent, (Elems(Parent(c, t)) + ElemsC(c.up))`red
      ensures At(Raised(c), t, rp)
      ensures Elems(t) + ElemsC(Raised(c)) == Elems(Parent(c, t)) + ElemsC(c.up)
    {
      SetColour(parent, false, c.up, Parent(c, t), rp);
      ghost var p := Paint(Parent(c, t), false);
      MoveUp(c.up, p, rp);
      ghost var g := Paint(Parent(c.up, p), true);
      SetColour(grand, true, c.up.up, Parent(c.up, p), rp);
      RotElems(c.up.up, g);
      LeftRotate(grand, c.up.up, g, rp);
      MoveRight(c.up.up, RotL(g), rp);
    }

    /** What the fix-up loop reads around a node below a red parent. */
    lemma {:induction false} LookFamily(c: Path, t: Shape, rp: RbNode?)
      requires At(c, t, rp) && t.N? && !c.Top? && !c.up.Top?
      ensures At(c.up, Parent(c, t), rp) && Elems(Parent(c, t)) + ElemsC(c.up) == Elems(t) + ElemsC(c)
      ensures t.v.parent == c.v && c.v.parent == c.up.v && t.v != root && c.v != sentinel && c.up.v != sentinel
      ensures c.InL? ==> c.v.left == t.v && c.v.right != t.v
      ensures c.InR? ==> c.v.right == t.v && c.v.left != t.v
      ensures c.up.InL? ==> c.up.v.left == c.v && c.up.v.right == Root(Uncle(c), sentinel)
      ensures c.up.InR? ==> c.up.v.right == c.v && c.up.v.left == Root(Uncle(c), sentinel) && c.up.v.left != c.v
      ensures Root(Uncle(c), sentinel).red == IsRed(Uncle(c))
    {
      Look(c, t, rp);
      MoveUp(c, t, rp);
      Look(c.up, Parent(c, t), rp);
      var g := GoToUncle(c, Parent(c, t), rp);
      Look(if c.up.InL? then InR(g.red, Parent(c, t), g.v, c.up.up)
          else InL(g.red, g.v, Parent(c, t), c.up.up), Uncle(c), rp);
    }

    /** One turn of the fix-up loop of ngx_rbtree_insert, parent a left child. */
    method FixLeft(node0: RbNode, ghost c0: Path, ghost t0: Shape, ghost rp: RbNode?)
      returns (node: RbNode, ghost c: Path, ghost t: Shape)
      requires At(c0, t0, rp) && InsertState(c0, t0) && node0 == t0.v && CtxRed(c0) && !c0.up.Top? && c0.up.InL?
      modifies this`root, (Elems(t0) + ElemsC(c0))`left, (Elems(t0) + ElemsC(c0))`right
      modifies (Elems(t0) + ElemsC(c0))`parent, (Elems(t0) + ElemsC(c0))`red
      ensures At(c, t, rp) && InsertState(c, t) && node == t.v
      ensures Elems(t) + ElemsC(c) == Elems(t0) + ElemsC(c0)
      ensures Inorder(Plug(c, t)) == Inorder(Plug(c0, t0))
      ensures CtxRed(c) ==> Depth(c) < Depth(c0)
    {
      LookFamily(c0, t0, rp);
      node, c, t := node0, c0, t0;
      var temp := node.parent.parent.right;
      if temp.red {
        InsertRecolour(c, t);
        RecolourOrder(c, t);
        Recolour(node.parent, temp, node.parent.parent, c, t, rp);
        t, c := Recoloured(c, t), c.up.up;
        node := node.parent.parent;
      } else {
        if node == node.parent.right {
          InsertOutward(c, t);
          OutwardOrder(c, t);
          node := node.parent;
          TurnOutwardL(node, c, t, rp);
          c, t := Outward(c, t).0, Outward(c, t).1;
          LookFamily(c, t, rp);
        }
        InsertRaise(c, t);
        RaisedOrder(c, t);
        RaiseL(node.parent, node.parent.parent, c, t, rp);
        c := Raised(c);
      }
    }

    /** One turn of the fix-up loop of ngx_rbtree_insert, parent a right child. */
    method FixRight(node0: RbNode, ghost c0: Path, ghost t0: Shape, ghost rp: RbNode?)
      returns (node: RbNode, ghost c: Path, ghost t: Shape)
      requires At(c0, t0, rp) && InsertState(c0, t0) && node0 == t0.v && CtxRed(c0) && !c0.up.Top? && c0.up.InR?
      modifies this`root, (Elems(t0) + ElemsC(c0))`left, (Elems(t0) + ElemsC(c0))`right
      modifies (Elems(t0) + ElemsC(c0))`parent, (Elems(t0) + ElemsC(c0))`red
      ensures At(c, t, rp) && InsertState(c, t) && node == t.v
      ensures Elems(t) + ElemsC(c) == Elems(t0) + ElemsC(c0)
      ensures Inorder(Plug(c, t)) == Inorder(Plug(c0, t0))
      ensures CtxRed(c) ==> Depth(c) < Depth(c0)
    {
      LookFamily(c0, t0, rp);
      node, c, t := node0, c0, t0;
      var temp := node.parent.parent.left;
      if temp.red {
        InsertRecolour(c, t);
        RecolourOrder(c, t);
        Recolour(node.parent, temp, node.parent.parent, c, t, rp);
        t, c := Recoloured(c, t), c.up.up;
        node := node.parent.parent;
      } else {
        if node == node.parent.left {
          InsertOutward(c, t);
          OutwardOrder(c, t);
          node := node.parent;
          TurnOutwardR(node, c, t, rp);
          c, t := Outward(c, t).0, Outward(c, t).1;
          LookFamily(c, t, rp);
        }
        InsertRaise(c, t);
        RaisedOrder(c, t);
        RaiseR(node.parent, node.parent.parent, c, t, rp);
        c := Raised(c);
      }
    }

    /** The guard of the fix-up loop: node is not the root and its parent is red. */
    method NeedsFix(node: RbNode, ghost c: Path, ghost t: Shape, ghost rp: RbNode?) returns (go: bool)
      requires At(c, t, rp) && t.N? && node == t.v
      ensures (go <==> CtxRed(c)) && At(c, t, rp)
    {
      Look(c, t, rp);
      go := node != root && node.parent.red;
    }

    /** One turn of the fix-up loop of ngx_rbtree_insert. */
    method FixOnce(node0: RbNode, ghost c0: Path, ghost t0: Shape, ghost rp: RbNode?, ghost ns: set<RbNode>)
      returns (node: RbNode, ghost c: Path, ghost t: Shape)
      requires At(c0, t0, rp) && InsertState(c0, t0) && node0 == t0.v && CtxRed(c0) && ns == Elems(t0) + ElemsC(c0)
      modifies this`root, ns`left, ns`right, ns`parent, ns`red
      ensures At(c, t, rp) && InsertState(c, t) && node == t.v && ns == Elems(t) + ElemsC(c)
      ensures Inorder(Plug(c, t)) == Inorder(Plug(c0, t0))
      ensures CtxRed(c) ==> Depth(c) < Depth(c0)
    {
      RedParentHasUp(c0);
      LookFamily(c0, t0, rp);
      if node0.parent == node0.parent.parent.left {
        node, c, t := FixLeft(node0, c0, t0, rp);
      } else {
        node, c, t := FixRight(node0, c0, t0, rp);
      }
    }

    /** The fix-up loop of ngx_rbtree_insert. */
    method FixLoop(node0: RbNode, ghost c0: Path, ghost t0: Shape, ghost rp: RbNode?, ghost ns: set<RbNode>)
      returns (ghost c: Path, ghost t: Shape)
      requires At(c0, t0, rp) && InsertState(c0, t0) && node0 == t0.v && ns == Elems(t0) + ElemsC(c0)
      modifies this`root, ns`left, ns`right, ns`parent, ns`red
      ensures At(c, t, rp) && InsertState(c, t) && !CtxRed(c) && ns == Elems(t) + ElemsC(c)
      ensures Inorder(Plug(c, t)) == Inorder(Plug(c0, t0))
    {
      c, t := c0, t0;
      var node := node0;
      var go := NeedsFix(node, c, t, rp);
      while go
        invariant At(c, t, rp)
        invariant InsertState(c, t) && node == t.v && ns == Elems(t) + ElemsC(c)
        invariant Inorder(Plug(c, t)) == Inorder(Plug(c0, t0))
        invariant go <==> CtxRed(c)
        decreases if CtxRed(c) then 1 + Depth(c) else 0
      {
        node, c, t := FixOnce(node, c, t, rp, ns);
        go := NeedsFix(node, c, t, rp);
      }
    }

    /** The rest of ngx_rbtree_insert once the new leaf is linked in. */
    method InsertFixup(node: RbNode, ghost c0: Path, ghost t0: Shape, ghost rp: RbNode?, ghost ns: set<RbNode>)
      requires At(c0, t0, rp) && InsertState(c0, t0) && node == t0.v && ns == Elems(t0) + ElemsC(c0)
      modifies this, ns`left, ns`right, ns`parent, ns`red
      ensures Valid() && Elems(shape) == ns && Order() == Inorder(Plug(c0, t0))
    {
      ghost var c, t;
      c, t := FixLoop(node, c0, t0, rp, ns);
      BlackenRoot(c, t, rp);
    }

    /** ngx_rbt_black(*root), after which the tree is whole again. */
    method BlackenRoot(ghost c: Path, ghost t: Shape, ghost rp: RbNode?)
      requires At(c, t, rp) && InsertState(c, t) && !CtxRed(c)
      modifies this`shape, (Elems(t) + ElemsC(c))`red
      ensures Valid() && Elems(shape) == Elems(t) + ElemsC(c) && Order() == Inorder(Plug(c, t))
    {
      ghost var whole := WholeTop(c, t, rp);
      SetColour(root, false, Top, whole, rp);
      shape := Blacken(whole);
      Look(Top, shape, rp);
    }

    lemma WholeTop(c: Path, t: Shape, rp: RbNode?) returns (whole: Shape)
      requires At(c, t, rp) && InsertState(c, t) && !CtxRed(c)
      ensures At(Top, whole, rp) && whole == Plug(c, t) && whole.N? && root == whole.v
      ensures RedBlack(Blacken(whole)) && Inorder(Blacken(whole)) == Inorder(whole)
      ensures Elems(Blacken(whole)) == Elems(whole) == Elems(t) + ElemsC(c)
    {
      InsertDone(c, t);
      FromTop(c, t, rp);
      whole := Plug(c, t);
      Look(Top, whole, rp);
      if !c.Top? { PlugRoot(c, t); }
    }

    /** key order of the tree: unsigned, or the signed 32-bit difference for timers. */
    predicate Less(a: u32, b: u32)
    {
      if timer then Diff(a, b) < 0 else a < b
    }

    /** A new node with this key belongs in the hole, as far as the path's own keys tell. */
    ghost predicate PathOk(c: Path, key: u32)
      reads ElemsC(c)
    {
      match c
      case Top => true
      case InL(_, v, _, up) => Less(key, v.key) && PathOk(up, key)
      case InR(_, _, v, up) => !Less(key, v.key) && PathOk(up, key)
    }

    /** ngx_rbtree_insert_value and ngx_rbtree_insert_timer_value: walk down to an empty place. */
    method FindPlace(key: u32, ghost rp: RbNode?) returns (temp: RbNode, ghost c: Path)
      requires At(Top, shape, rp) && shape.N?
      ensures At(c, Leaf, rp) && Plug(c, Leaf) == shape && !c.Top? && temp == c.v && PathOk(c, key)
      ensures c.InL? <==> Less(key, temp.key)
      ensures temp in Elems(shape) && (if Less(key, temp.key) then temp.left else temp.right) == sentinel
      ensures ElemsC(c) == Elems(shape)
    {
      temp := root;
      c := Top;
      ghost var t := shape;
      Look(c, t, rp);
      while true
        invariant At(c, t, rp) && t.N? && temp == t.v && Plug(c, t) == shape && PathOk(c, key)
        invariant Elems(t) + ElemsC(c) == Elems(shape)
        decreases t
      {
        Look(c, t, rp);
        var p;
        if Less(key, temp.key) {
          p := temp.left;
          MoveLeft(c, t, rp);
          c, t := InL(t.red, t.v, t.r, c), t.l;
        } else {
          p := temp.right;
          MoveRight(c, t, rp);
          c, t := InR(t.red, t.l, t.v, c), t.r;
        }
        Look(c, t, rp);
        if p == sentinel {
          break;
        }
        temp := p;
      }
      assert t == Leaf;
      assert Elems(t) + ElemsC(c) == ElemsC(c);
    }

    /** ngx_rbtree_insert: node is added at some place i of the order, nothing else moves, the tree
        stays red-black, and a sorted order stays sorted. */
    method Insert(node: RbNode) returns (ghost i: nat)
      requires Valid() && node !in Elems(shape) && node != sentinel
      modifies this, Elems(shape)`left, Elems(shape)`right, Elems(shape)`parent, Elems(shape)`red
      modifies node`left, node`right, node`parent, node`red
      ensures Valid() && Elems(shape) == old(Elems(shape)) + {node}
      ensures i <= |old(Order())| && Order() == old(Order())[..i] + [node] + old(Order())[i..]
      ensures Keys(Order()) == old(Keys(Order()))[..i] + [node.key] + old(Keys(Order()))[i..]
      ensures StaySorted(old(Keys(Order())), node.key, Keys(Order()))
    {
      ghost var rp := if shape.N? then shape.v.parent else null;
      ghost var order, ks := Order(), Keys(Order());
      Look(Top, shape, rp);
      if root == sentinel {
        InsertFirst(node);
        i := 0;
      } else {
        ghost var o;
        i, o := InsertRest(node, rp);
        assert Keys(order) == ks;
        KeysInserted(order, i, node);
      }
    }

    method InsertRest(node: RbNode, ghost rp: RbNode?) returns (ghost i: nat, ghost o: seq<RbNode>)
      requires At(Top, shape, rp) && RedBlack(shape) && shape.N? && node !in Elems(shape) && node != sentinel
      modifies this, Elems(shape)`left, Elems(shape)`right, Elems(shape)`parent, Elems(shape)`red
      modifies node`left, node`right, node`parent, node`red
      ensures Valid() && Elems(shape) == old(Elems(shape)) + {node} && Order() == o
      ensures i <= |old(Order())| && o == old(Order())[..i] + [node] + old(Order())[i..]
      ensures StaySorted(old(Keys(Order())), node.key, old(Keys(Order()))[..i] + [node.key] + old(Keys(Order()))[i..])
    {
      var temp;
      ghost var c;
      ghost var ks := Keys(Order());
      temp, c := FindPlace(node.key, rp);
      assert Keys(Order()) == ks;
      i, o := PlaceInOrder(c, node);
      InsertBelow(node, temp, c, rp, Elems(shape), o);
    }

    /** Where in the order the place is, and that the keys are sorted with the new one there. */
    lemma PlaceInOrder(c: Path, node: RbNode) returns (i: nat, o: seq<RbNode>)
      requires Plug(c, Leaf) == shape && PathOk(c, node.key)
      ensures i <= |Order()| && o == Order()[..i] + [node] + Order()[i..] && o == Before(c) + [node] + After(c)
      ensures StaySorted(Keys(Order()), node.key, Keys(Order())[..i] + [node.key] + Keys(Order())[i..])
    {
      PlugInorder(c, Leaf);
      assert Order() == Before(c) + After(c);
      PlaceSorts(c, node);
      i := |Before(c)|;
      o := Before(c) + [node] + After(c);
      assert Keys(o) == Keys(Order())[..i] + [node.key] + Keys(Order())[i..];
    }

    method InsertFirst(node: RbNode)
      requires Valid() && shape == Leaf && node != sentinel
      modifies this, node`left, node`right, node`parent, node`red
      ensures Valid() && shape == N(false, Leaf, node, Leaf)
    {
      node.parent := null;
      node.left := sentinel;
      node.right := sentinel;
      node.red := false;
      root := node;
      shape := N(false, Leaf, node, Leaf);
      assert Snap(Elems(shape) + ElemsC(Top)) == map[node := Cell(sentinel, sentinel, null, false)];
      assert LinkedT(Leaf, node, sentinel, Snap(Elems(shape) + ElemsC(Top)));
    }

    /** Link the new node below temp and rebalance; o is the order the tree is to have. */
    method InsertBelow(node: RbNode, temp: RbNode, ghost c: Path, ghost rp: RbNode?, ghost ns: set<RbNode>,
                       ghost o: seq<RbNode>)
      requires At(c, Leaf, rp) && RedBlack(Plug(c, Leaf)) && !c.Top? && temp == c.v && ns == ElemsC(c)
      requires (c.InL? <==> Less(node.key, temp.key)) && node !in ns && node != sentinel
      requires o == Before(c) + [node] + After(c)
      modifies this, ns`left, ns`right, ns`parent, ns`red
      modifies node`left, node`right, node`parent, node`red
      ensures Valid() && Elems(shape) == ns + {node} && Order() == o
    {
      Attach(node, temp, c, rp);
      ghost var t := N(true, Leaf, node, Leaf);
      InsertStart(c, node);
      PlugInorder(c, t);
      assert Inorder(t) == [node];
      InsertFixup(node, c, t, rp, ns + {node});
    }

    /** Link the new red node into the empty place below temp. */
    method Attach(node: RbNode, temp: RbNode, ghost c: Path, ghost rp: RbNode?)
      requires At(c, Leaf, rp) && !c.Top? && temp == c.v && (c.InL? <==> Less(node.key, temp.key))
      requires node !in ElemsC(c) && node != sentinel
      modifies temp`left, temp`right, node`left, node`right, node`parent, node`red
      ensures At(c, N(true, Leaf, node, Leaf), rp)
      ensures Elems(N(true, Leaf, node, Leaf)) + ElemsC(c) == ElemsC(c) + {node}
    {
      ghost var ns := Elems<RbNode>(Leaf) + ElemsC(c);
      ghost var h := Snap(ns);
      if Less(node.key, temp.key) {
        temp.left := node;
      } else {
        temp.right := node;
      }
      node.parent := temp;
      node.left := sentinel;
      node.right := sentinel;
      node.red := true;
      ghost var t := N(true, Leaf, node, Leaf);
      assert Elems(t) + ElemsC(c) == ns + {node};
      GraftWired(c, node, rp, sentinel, h, Snap(ns + {node}));
      PlugTop(c, Leaf, t, sentinel);
    }

    // ---- order ----

    /** For a timer queue: the key lies in the half of the 32-bit circle that starts at base. */
    predicate InHalf(key: u32, base: u32)
    {
      timer ==> Sub(key, base) < HALF
    }

    function Rank(key: u32, base: u32): int
    {
      if timer then Sub(key, base) else key
    }

    lemma LessIsRank(a: u32, b: u32, base: u32)
      requires InHalf(a, base) && InHalf(b, base)
      ensures Less(a, b) <==> Rank(a, base) < Rank(b, base)
    {
    }

    ghost function Keys(o: seq<RbNode>): (ks: seq<u32>)
      reads o
      ensures |ks| == |o| && forall i :: 0 <= i < |o| ==> ks[i] == o[i].key
    {
      seq(|o|, i requires 0 <= i < |o| reads o => o[i].key)
    }

    lemma KeysInserted(o: seq<RbNode>, i: nat, node: RbNode)
      requires i <= |o|
      ensures Keys(o[..i] + [node] + o[i..]) == Keys(o)[..i] + [node.key] + Keys(o)[i..]
    {
    }

    /** Keys in order, with respect to the comparison the tree was created with. */
    ghost predicate SortedKeys(ks: seq<u32>, base: u32)
    {
      && (forall i :: 0 <= i < |ks| ==> InHalf(ks[i], base))
      && (forall i, j :: 0 <= i < j < |ks| ==> !Less(ks[j], ks[i]))
    }

    /** If ks was sorted and key fits the half circle it was sorted in, ks' is sorted. */
    ghost predicate StaySorted(ks: seq<u32>, key: u32, ks': seq<u32>)
    {
      forall base: u32 :: SortedKeys(ks, base) && InHalf(key, base) ==> SortedKeys(ks', base)
    }

    /** The place found by the walk is the right one: nothing before it is greater than the key,
        everything after it is. */
    lemma {:induction false} PathSorts(c: Path, key: u32, base: u32)
      requires PathOk(c, key) && InHalf(key, base) && SortedKeys(Keys(Before(c)) + Keys(After(c)), base)
      ensures forall i :: 0 <= i < |Before(c)| ==> !Less(key, Before(c)[i].key)
      ensures forall i :: 0 <= i < |After(c)| ==> Less(key, After(c)[i].key)
      decreases c
    {
      match c
      case Top =>
      case InL(_, v, r, up) =>
        var m := Keys([v] + Inorder(r));
        assert Keys(After(c)) == m + Keys(After(up));
        Assoc(Keys(Before(up)), m, Keys(After(up)));
        SubSorted(Keys(Before(up)), m, Keys(After(up)), base);
        PathSorts(up, key, base);
        assert m[0] == v.key;
        FirstIsLeast(m, key, base);
        assert After(c) == ([v] + Inorder(r)) + After(up);
      case InR(_, l, v, up) =>
        var m := Keys(Inorder(l) + [v]);
        assert Keys(Before(c)) == Keys(Before(up)) + m by {
          assert Before(c) == Before(up) + (Inorder(l) + [v]);
        }
        SubSorted(Keys(Before(up)), m, Keys(After(up)), base);
        PathSorts(up, key, base);
        assert m[|m| - 1] == v.key;
        LastIsGreatest(m, key, base);
        assert Before(c) == Before(up) + (Inorder(l) + [v]);
    }

    lemma FirstIsLeast(m: seq<u32>, key: u32, base: u32)
      requires m != [] && SortedKeys(m, base) && InHalf(key, base) && Less(key, m[0])
      ensures forall i :: 0 <= i < |m| ==> Less(key, m[i])
    {
      forall i | 0 <= i < |m|
        ensures Less(key, m[i])
      {
        LessIsRank(key, m[0], base);
        LessIsRank(m[i], m[0], base);
        LessIsRank(key, m[i], base);
      }
    }

    lemma LastIsGreatest(m: seq<u32>, key: u32, base: u32)
      requires m != [] && SortedKeys(m, base) && InHalf(key, base) && !Less(key, m[|m| - 1])
      ensures forall i :: 0 <= i < |m| ==> !Less(key, m[i])
    {
      var n := |m| - 1;
      forall i | 0 <= i < |m|
        ensures !Less(key, m[i])
      {
        LessIsRank(key, m[n], base);
        LessIsRank(m[n], m[i], base);
        LessIsRank(key, m[i], base);
      }
    }

    lemma SubSorted(a: seq<u32>, m: seq<u32>, b: seq<u32>, base: u32)
      requires SortedKeys(a + m + b, base)
      ensures SortedKeys(a + b, base) && SortedKeys(m, base)
    {
      var o := a + m + b;
      assert forall i :: 0 <= i < |a + b| ==> (a + b)[i] == o[if i < |a| then i else i + |m|];
      assert forall i :: 0 <= i < |m| ==> m[i] == o[i + |a|];
    }

    lemma {:induction false} PlaceSorts(c: Path, node: RbNode)
      requires PathOk(c, node.key)
      ensures StaySorted(Keys(Before(c) + After(c)), node.key, Keys(Before(c) + [node] + After(c)))
    {
      var a, b := Keys(Before(c)), Keys(After(c));
      assert Keys(Before(c) + After(c)) == a + b;
      assert Keys(Before(c) + [node] + After(c)) == a + [node.key] + b;
      forall base: u32 | SortedKeys(a + b, base) && InHalf(node.key, base)
        ensures SortedKeys(a + [node.key] + b, base)
      {
        PathSorts(c, node.key, base);
        JoinSorted(a, node.key, b, base);
      }
    }

    lemma JoinSorted(a: seq<u32>, k: u32, b: seq<u32>, base: u32)
      requires SortedKeys(a + b, base) && InHalf(k, base)
      requires forall i :: 0 <= i < |a| ==> !Less(k, a[i])
      requires forall i :: 0 <= i < |b| ==> Less(k, b[i])
      ensures SortedKeys(a + [k] + b, base)
    {
      var o := a + b;
      var o' := a + [k] + b;
      forall i | 0 <= i < |o'|
        ensures o'[i] == (if i < |a| then o[i] else if i == |a| then k else o[i - 1]) && InHalf(o'[i], base)
      {
        if i > |a| { assert o'[i] == o[i - 1]; }
      }
      forall i, j | 0 <= i < j < |o'|
        ensures !Less(o'[j], o'[i])
      {
        if i == |a| {
          assert o'[j] == b[j - |a| - 1];
          LessIsRank(k, o'[j], base);
          LessIsRank(o'[j], k, base);
        } else if j == |a| {
          assert o'[i] == a[i];
        } else {
          var i', j' := if i < |a| then i else i - 1, if j < |a| then j else j - 1;
          assert o'[i] == o[i'] && o'[j] == o[j'];
        }
      }
    }
  }

  lemma {:induction false} RecolourOrder(c: Path, t: Shape)
    requires !c.Top? && !c.up.Top?
    ensures Inorder(Plug(c.up.up, Recoloured(c, t))) == Inorder(Plug(c, t))
  {
    InorderSteps(c, t);
    PlugInorder(c.up.up, Recoloured(c, t));
    PlugInorder(c.up.up, Parent(c.up, Parent(c, t)));
  }

  lemma {:induction false} OutwardOrder(c: Path, t: Shape)
    requires !c.Top? && t.N?
    ensures var (c', t') := Outward(c, t); Inorder(Plug(c', t')) == Inorder(Plug(c, t)) && Depth(c') == Depth(c)
  {
    var (c', t') := Outward(c, t);
    RotInorder(Parent(c, t));
    PlugInorder(c.up, Parent(c, t));
    PlugInorder(c.up, Parent(c', t'));
  }

  lemma {:induction false} RaisedOrder(c: Path, t: Shape)
    requires !c.Top? && !c.up.Top? && c.InL? == c.up.InL?
    ensures Inorder(Plug(Raised(c), t)) == Inorder(Plug(c, t))
  {
    var g := Parent(c.up, Parent(c, t));
    RotInorder(g);
    PlugInorder(c.up.up, g);
    PlugInorder(c.up.up, Parent(Raised(c), t));
    var red := Parent(Raised(c), t);
    match c
    case InL(_, p, r, InL(_, v, u, _)) =>
      assert Inorder(N(true, r, v, u)) == Inorder(r) + [v] + Inorder(u);
    case InR(_, l, p, InR(_, u, v, _)) =>
      assert Inorder(N(true, u, v, l)) == Inorder(u) + [v] + Inorder(l);
  }
}
