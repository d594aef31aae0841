/** The timer queue on the red-black tree: timers are added under the time they expire at, the
    nearest one is looked up, and those that have expired are fired and deleted. */
module RbTimer {
  import opened U32
  import opened RbShape
  import opened RbLinks
  import opened RbTree
  import opened RbDelete
  import opened Seqs

  // ---- expiry times as values ----

  /** Expiry times in the order of the tree: cyclically ascending, in the half circle from base. */
  ghost predicate Ascending(ks: seq<u32>, base: u32)
  {
    && (forall i :: 0 <= i < |ks| ==> Sub(ks[i], base) < HALF)
    && (forall i, j :: 0 <= i < j < |ks| ==> Diff(ks[j], ks[i]) >= 0)
  }

  lemma TreeAscending(tree: Rbtree, ks: seq<u32>, base: u32)
    requires tree.timer
    ensures tree.SortedKeys(ks, base) <==> Ascending(ks, base)
  {
  }

  /** The time has come, or has passed by less than half the circle. */
  predicate Due(key: u32, now: u32)
  {
    Diff(key, now) <= 0
  }

  /** How many timers the loop of expire_timer takes off the front. */
  function Lead(ks: seq<u32>, now: u32): (n: nat)
    ensures n <= |ks| && (forall i :: 0 <= i < n ==> ks[i] <= now) && (n < |ks| ==> ks[n] > now)
  {
    if ks == [] || ks[0] > now then 0 else 1 + Lead(ks[1..], now)
  }

  /** The comparison of plain numbers in expire_timer agrees with time: before the clock wraps some
      timer that has not wrapped either is still to come, or none has wrapped; after it has, no
      timer from before is left. */
  ghost predicate SameLap(ks: seq<u32>, now: u32, base: u32)
  {
    if now >= base then (forall i :: 0 <= i < |ks| ==> ks[i] >= base) || (exists i :: 0 <= i < |ks| && ks[i] > now)
    else forall i :: 0 <= i < |ks| ==> ks[i] < base
  }

  /** expire_timer fires exactly the timers that are due if and only if no wrap of the clock lies
      between them and now: it compares unsigned times where the tree compares signed differences. */
  lemma {:induction false} ExpireExact(ks: seq<u32>, now: u32, base: u32)
    requires Ascending(ks, base) && Sub(now, base) < HALF
    ensures (forall i :: 0 <= i < |ks| ==> (i < Lead(ks, now) <==> Due(ks[i], now))) <==> SameLap(ks, now, base)
  {
  }

  /** In particular when the clock does not wrap between base and now + 2^31. */
  lemma {:induction false} NoWrapIsExact(ks: seq<u32>, now: u32, base: u32)
    requires Ascending(ks, base) && Sub(now, base) < HALF && base + HALF <= M
    ensures forall i :: 0 <= i < |ks| ==> (i < Lead(ks, now) <==> Due(ks[i], now))
  {
    ExpireExact(ks, now, base);
  }

  /** Concretely: a timer set to expire 16 ms before the clock wraps is due when the clock reads 5,
      and is not fired then nor at any later reading below its own. */
  lemma {:induction false} LateTimer(now: u32)
    requires now < 0xffff_fff0
    ensures Ascending([0xffff_fff0], 0xffff_fff0) && Due(0xffff_fff0, 5) && Lead([0xffff_fff0], now) == 0
  {
  }

  /** And one set to expire 21 ms later, just after the wrap, is fired at once. */
  lemma EarlyTimer()
    ensures Ascending([5], 0xffff_fff0) && Diff(5, 0xffff_fff0) == 21 && Lead([5], 0xffff_fff0) == 1
  {
    assert Lead([5], 0xffff_fff0) == 1 + Lead([5][1..], 0xffff_fff0);
  }

  /** The milliseconds until a timer expires. */
  function Wait(key: u32, now: u32): int
  {
    Max(Diff(key, now), 0)
  }

  lemma NearestIsSoonest(ks: seq<u32>, now: u32, base: u32)
    requires Ascending(ks, base) && Sub(now, base) < HALF && ks != []
    ensures forall i :: 0 <= i < |ks| ==> Wait(ks[0], now) <= Wait(ks[i], now)
    ensures Wait(ks[0], now) == 0 <==> exists i :: 0 <= i < |ks| && Due(ks[i], now)
  {
    assert forall i :: 0 < i < |ks| ==> Diff(ks[i], ks[0]) >= 0;
  }

  // ---- the code ----

  /** ngx_rbtree_min of the whole tree. */
  method Least(tree: Rbtree) returns (node: RbNode)
    requires tree.Valid() && tree.shape.N?
    ensures tree.Valid() && tree.Keys(tree.Order()) == old(tree.Keys(tree.Order()))
    ensures tree.Order() != [] && node == tree.Order()[0] && node in Elems(tree.shape)
  {
    ghost var d, m;
    ghost var ks := tree.Keys(tree.Order());
    InorderElems(tree.shape);
    node, d, m := RbDelete.Min(tree, tree.root, Top, tree.shape, tree.shape.v.parent);
    LeastOrder(d, m);
    assert tree.Order()[0] in tree.Order();
    assert tree.Keys(tree.Order()) == ks;
  }

  /** ngx_rbtree_delete of the first timer. */
  method DeleteLeast(tree: Rbtree, node: RbNode)
    requires tree.Valid() && tree.Order() != [] && node == tree.Order()[0] && node in Elems(tree.shape)
    modifies tree, Elems(tree.shape), tree.sentinel`parent, tree.sentinel`red
    ensures tree.Valid() && Elems(tree.shape) == old(Elems(tree.shape)) - {node}
    ensures tree.Order() == old(tree.Order())[1..]
    ensures tree.Keys(tree.Order()) == old(tree.Keys(tree.Order()))[1..]
  {
    ghost var shape := tree.shape;
    ghost var i := Delete(tree, node);
    DistinctOrder(shape, i, 0);
  }

  /** find_nearest_expire_timer: how long the caller may wait, -1 without timers. */
  method FindNearest(tree: Rbtree, now: u32) returns (wait: int)
    requires tree.Valid()
    ensures wait == if tree.Order() == [] then -1 else Wait(tree.Keys(tree.Order())[0], now)
  {
    tree.Look(Top, tree.shape, if tree.shape.N? then tree.shape.v.parent else null);
    if tree.root == tree.sentinel {
      return -1;
    }
    var node := Least(tree);
    var diff := Diff(node.key, now);
    wait := if diff > 0 then diff else 0;
  }

  /** The first timer was taken off, or none because its time is a greater number than now. */
  ghost predicate Took(order: seq<RbNode>, ks: seq<u32>, now: u32, node: RbNode?, order': seq<RbNode>, ks': seq<u32>)
    requires |ks| == |order|
  {
    if ks == [] || ks[0] > now then node == null && order' == order && ks' == ks
    else node == order[0] && order' == order[1..] && ks' == ks[1..]
  }

  /** What is left of a set of timers when some have fired. */
  function Without(all: set<RbNode>, fired: seq<RbNode>): (r: set<RbNode>)
    ensures r <= all
  {
    if fired == [] then all else Without(all, fired[..|fired| - 1]) - {fired[|fired| - 1]}
  }

  function Just(node: RbNode?): set<RbNode>
  {
    if node == null then {} else {node}
  }

  /** One turn of expire_timer: the first timer unless its time is a greater number than now. */
  method TakeFirst(tree: Rbtree, now: u32) returns (node: RbNode?)
    requires tree.Valid()
    modifies tree, Elems(tree.shape), tree.sentinel`parent, tree.sentinel`red
    ensures tree.Valid() && Elems(tree.shape) == old(Elems(tree.shape)) - Just(node)
    ensures Took(old(tree.Order()), old(tree.Keys(tree.Order())), now, node, tree.Order(), tree.Keys(tree.Order()))
  {
    tree.Look(Top, tree.shape, if tree.shape.N? then tree.shape.v.parent else null);
    if tree.root == tree.sentinel {
      return null;
    }
    node := Least(tree);
    if node.key > now {
      return null;
    }
    DeleteLeast(tree, node);
  }

  /** expire_timer: the first timers in order are fired and deleted, up to the first whose time is
      a greater number than now. */
  method ExpireTimers(tree: Rbtree, now: u32) returns (fired: seq<RbNode>)
    requires tree.Valid()
    modifies tree, Elems(tree.shape), tree.sentinel`parent, tree.sentinel`red
    ensures tree.Valid() && Elems(tree.shape) == Without(old(Elems(tree.shape)), fired)
    ensures var n := Lead(old(tree.Keys(tree.Order())), now);
            && fired == old(tree.Order())[..n] && tree.Order() == old(tree.Order())[n..]
            && tree.Keys(tree.Order()) == old(tree.Keys(tree.Order()))[n..]
  {
    fired := [];
    ghost var order, ks, ns := tree.Order(), tree.Keys(tree.Order()), Elems(tree.shape);
    var node := First(tree, now);
    while node != null
      invariant Progress(tree, ns, order, ks, now, fired, node) && Elems(tree.shape) <= ns && |fired| <= |order|
      decreases |order| - |fired|
    {
      fired, node := Fire(tree, now, fired, node, ns, order, ks);
    }
    FireEnd(order, ks, now, fired, tree.Order(), tree.Keys(tree.Order()));
  }

  method First(tree: Rbtree, now: u32) returns (node: RbNode?)
    requires tree.Valid()
    modifies tree, Elems(tree.shape), tree.sentinel`parent, tree.sentinel`red
    ensures Progress(tree, old(Elems(tree.shape)), old(tree.Order()), old(tree.Keys(tree.Order())), now, [], node)
    ensures Elems(tree.shape) <= old(Elems(tree.shape))
  {
    ghost var order, ks := tree.Order(), tree.Keys(tree.Order());
    node := TakeFirst(tree, now);
    FireStart(order, ks, now, node, tree.Order(), tree.Keys(tree.Order()));
  }

  /** The timer taken off fires, and the next one is looked for. */
  method Fire(tree: Rbtree, now: u32, fired0: seq<RbNode>, last: RbNode, ghost ns: set<RbNode>,
              ghost order: seq<RbNode>, ghost ks: seq<u32>)
    returns (fired: seq<RbNode>, node: RbNode?)
    requires Progress(tree, ns, order, ks, now, fired0, last)
    modifies tree, Elems(tree.shape), tree.sentinel`parent, tree.sentinel`red
    ensures Progress(tree, ns, order, ks, now, fired, node) && Elems(tree.shape) <= old(Elems(tree.shape))
    ensures |fired| == |fired0| + 1 <= |order|
  {
    ghost var order', ks' := tree.Order(), tree.Keys(tree.Order());
    fired := fired0 + [last];
    assert fired[..|fired| - 1] == fired0;
    node := TakeFirst(tree, now);
    FireNext(order, ks, now, fired0, last, order', ks', node, tree.Order(), tree.Keys(tree.Order()));
  }

  ghost predicate Progress(tree: Rbtree, ns: set<RbNode>, order: seq<RbNode>, ks: seq<u32>, now: u32,
                           fired: seq<RbNode>, node: RbNode?)
    reads tree, tree.sentinel, Elems(tree.shape), tree.Order()
  {
    && tree.Valid() && Elems(tree.shape) == Without(ns, fired) - Just(node)
    && Firing(order, ks, now, fired, node, tree.Order(), tree.Keys(tree.Order()))
  }

  lemma {:induction false} FireEnd(order: seq<RbNode>, ks: seq<u32>, now: u32, fired: seq<RbNode>,
                                   order': seq<RbNode>, ks': seq<u32>)
    requires Firing(order, ks, now, fired, null, order', ks')
    ensures var n := Lead(ks, now); n <= |order| && fired == order[..n] && order' == order[n..] && ks' == ks[n..]
  {
  }

  lemma FireStart(order: seq<RbNode>, ks: seq<u32>, now: u32, node: RbNode?, order': seq<RbNode>, ks': seq<u32>)
    requires |ks| == |order| && Took(order, ks, now, node, order', ks')
    ensures Firing(order, ks, now, [], node, order', ks')
  {
  }

  lemma FireNext(order: seq<RbNode>, ks: seq<u32>, now: u32, fired: seq<RbNode>, last: RbNode, order': seq<RbNode>,
                 ks': seq<u32>, node: RbNode?, order'': seq<RbNode>, ks'': seq<u32>)
    requires Firing(order, ks, now, fired, last, order', ks') && Took(order', ks', now, node, order'', ks'')
    ensures Firing(order, ks, now, fired + [last], node, order'', ks'')
  {
  }

  /** How far expire_timer has come: these have fired, node is next if there is one. */
  ghost predicate Firing(order: seq<RbNode>, ks: seq<u32>, now: u32, fired: seq<RbNode>, node: RbNode?,
                         order': seq<RbNode>, ks': seq<u32>)
  {
    var n := |fired| + if node == null then 0 else 1;
    && |ks| == |order| && n <= |order| && order' == order[n..] && ks' == ks[n..]
    && order[..n] == (if node == null then fired else fired + [node])
    && Lead(ks, now) == n + (if node == null then 0 else Lead(ks', now))
  }

  /** add_timer on a new entry. */
  method AddTimer(tree: Rbtree, node: RbNode, msec: u32, now: u32)
    requires tree.Valid() && node !in Elems(tree.shape) && node != tree.sentinel
    modifies tree, Elems(tree.shape), node
    ensures tree.Valid() && Elems(tree.shape) == old(Elems(tree.shape)) + {node}
    ensures tree.StaySorted(old(tree.Keys(tree.Order())), Add(msec, now), tree.Keys(tree.Order()))
  {
    ghost var ks := tree.Keys(tree.Order());
    InorderElems(tree.shape);
    node.key := Add(msec, now);
    assert tree.Keys(tree.Order()) == ks;
    ghost var i := tree.Insert(node);
  }

  // ---- any run ----

  /** What a caller does with its timers; entries come from a pool. */
  datatype Action = Start(node: RbNode, msec: u32, now: u32) | Stop(node: RbNode) | Expire(now: u32)

  /** The timers are in the order of time, and pending says which they are. */
  ghost predicate InOrder(tree: Rbtree, pending: set<RbNode>, base: u32)
    reads tree, tree.sentinel, Elems(tree.shape), tree.Order()
  {
    tree.Valid() && tree.timer && pending == Elems(tree.shape) && Ascending(tree.Keys(tree.Order()), base)
  }

  method Act(tree: Rbtree, a: Action, pending: set<RbNode>, ghost base: u32) returns (pending': set<RbNode>)
    requires InOrder(tree, pending, base) && (!a.Expire? ==> a.node != tree.sentinel)
    requires a.Start? ==> Sub(Add(a.msec, a.now), base) < HALF
    modifies tree, pending, tree.sentinel, if a.Expire? then {} else {a.node}
    ensures InOrder(tree, pending', base) && pending' <= pending + if a.Start? then {a.node} else {}
  {
    pending' := pending;
    ghost var ks := tree.Keys(tree.Order());
    TreeAscending(tree, ks, base);
    match a
    case Start(node, msec, now) =>
      if node !in pending {
        AddTimer(tree, node, msec, now);
        pending' := pending + {node};
      }
    case Stop(node) =>
      if node in pending {
        ghost var j := Delete(tree, node);
        pending' := pending - {node};
      }
    case Expire(now) =>
      var fired := ExpireTimers(tree, now);
      pending' := Without(pending, fired);
      RestAscending(ks, Lead(ks, now), base);
    TreeAscending(tree, tree.Keys(tree.Order()), base);
  }

  lemma RestAscending(ks: seq<u32>, n: nat, base: u32)
    requires Ascending(ks, base) && n <= |ks|
    ensures Ascending(ks[n..], base)
  {
  }

  /** In any run of starts, stops and expiries the tree stays red-black and linked, and as long as
      every expiry time lies in one half circle the timers are in the order of time: so what
      ExpireExact and NearestIsSoonest say applies at each moment. Starting a timer that is
      pending, or stopping one that is not, is left out of the run. */
  method RunTimers(tree: Rbtree, actions: seq<Action>, ghost pool: set<RbNode>, ghost base: u32)
    returns (pending: set<RbNode>)
    requires tree.Valid() && tree.timer && tree.shape.Leaf? && tree.sentinel !in pool
    requires forall a :: a in actions && !a.Expire? ==> a.node in pool
    requires forall a :: a in actions && a.Start? ==> Sub(Add(a.msec, a.now), base) < HALF
    modifies tree, pool, tree.sentinel
    ensures InOrder(tree, pending, base) && pending <= pool
  {
    pending := {};
    for i := 0 to |actions|
      invariant InOrder(tree, pending, base) && pending <= pool
    {
      assert actions[i] in actions;
      pending := Act(tree, actions[i], pending, base);
    }
  }
}
