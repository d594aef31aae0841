/** The chained hash table: chains of entries in an array whose size is a power of two, rehashed
    into a table twice as large when there are as many entries as chains. */
module Dict {
  import opened Bits
  import opened Options
  import opened U32

  const INITIAL_SIZE: nat := 4

  datatype Entry<K, V> = Entry(key: K, val: V)

  type Chain<K, V> = seq<Entry<K, V>>

  // ---- tables as values ----

  /** The value of the first entry with the key. */
  function Find<K(==), V>(c: Chain<K, V>, k: K): Option<V>
  {
    if c == [] then None else if c[0].key == k then Some(c[0].val) else Find(c[1..], k)
  }

  ghost predicate Unique<K, V>(c: Chain<K, V>)
  {
    forall i, j :: 0 <= i < j < |c| ==> c[i].key != c[j].key
  }

  /** The index of a hash: h & sizemask. */
  function Index(h: nat, size: nat): (i: nat)
    requires size > 0
  {
    And(h, size - 1)
  }

  lemma {:induction false} AndBelow(a: nat, b: nat)
    ensures And(a, b) <= a && And(a, b) <= b
    decreases a
  {
    if a != 0 && b != 0 {
      AndBelow(a / 2, b / 2);
    }
  }

  lemma IndexBelow(h: nat, size: nat)
    requires size > 0
    ensures Index(h, size) < size && Index(h, size) <= h
  {
    AndBelow(h, size - 1);
  }

  lemma IndexMod(h: nat, size: nat)
    requires Power(size)
    ensures size > 0 && Index(h, size) == h % size
  {
    var k: nat :| size == Pow2(k);
    MaskIsMod(h, k);
  }

  /** The number of chains that a new key finds: the table is made, or doubled, when it is full. */
  function Grown(size: nat, used: nat): (n: nat)
    ensures n > 0
  {
    if size == 0 then INITIAL_SIZE else if used == size then 2 * size else size
  }

  datatype Outcome = Added | Refused | Stray

  /** The least power of two of at least size chains, and at least 4. */
  ghost predicate LeastPower(i: nat, size: nat)
  {
    && i >= size && i >= INITIAL_SIZE && Power(i)
    && forall p: nat :: Power(p) && p >= size && p >= INITIAL_SIZE ==> i <= p
  }

  /** What becomes of a new key whose chain's number is h once it is cut to an int: -1 stands for a key
      that is there, and any other negative one is an index before the array. */
  function Placing(h: nat): (r: Outcome)
    ensures h < M ==> r == if Signed(h) >= 0 then Added else if Signed(h) == -1 then Refused else Stray
  {
    if h < HALF then Added else if h == M - 1 then Refused else Stray
  }

  lemma PowerGap(p: nat, q: nat)
    requires Power(p) && Power(q) && p < q
    ensures 2 * p <= q
  {
    var i: nat, j: nat :| p == Pow2(i) && q == Pow2(j);
    if i < j {
      Pow2Less(i, j);
    } else if i > j {
      Pow2Less(j, i);
    }
  }

  lemma Pow31()
    ensures Pow2(31) == HALF
  {
    assert Pow2(8) == 0x100;
    assert Pow2(16) == 0x1_0000;
    assert Pow2(24) == 0x100_0000;
  }

  lemma PowerLimit(n: nat)
    requires Power(n)
    ensures n < HALF ==> 2 * n <= HALF
    ensures n > HALF ==> n >= M
  {
    Pow31();
    assert Power(HALF);
    if n < HALF {
      PowerGap(n, HALF);
    } else if n > HALF {
      PowerGap(HALF, n);
    }
  }

  lemma GrownPower(size: nat, used: nat)
    requires size == 0 || Power(size)
    ensures Power(Grown(size, used))
    ensures Grown(size, used) <= HALF <==> size < HALF || (size == HALF && used != HALF)
  {
    assert Pow2(2) == INITIAL_SIZE;
    if size > 0 {
      DoublePower(size);
      PowerLimit(size);
    }
  }

  /** Every new key is placed if and only if the table is left with no more than 2^31 chains. */
  lemma ChainLimit(size: nat, used: nat)
    requires size == 0 || Power(size)
    ensures (forall h: u32 :: Placing(Index(h, Grown(size, used))).Added?)
            <==> size < HALF || (size == HALF && used != HALF)
  {
    var n := Grown(size, used);
    GrownPower(size, used);
    forall h: u32
      ensures Index(h, n) < n && Index(h, n) <= h
    {
      IndexBelow(h, n);
    }
    if n > HALF {
      PowerLimit(n);
      IndexMod(M - 1, n);
      Small(M - 1, n);
      assert !Placing(Index(M - 1, n)).Added?;
    }
  }

  lemma Small(x: nat, m: nat)
    requires x < m
    ensures x % m == x
  {
  }

  /** Every entry is in the chain its hash points at, and no key is there twice. */
  ghost predicate Placed<K(!new), V>(table: seq<Chain<K, V>>, hash: K -> u32)
  {
    forall b :: 0 <= b < |table| ==>
      Unique(table[b]) && forall j :: 0 <= j < |table[b]| ==> Index(hash(table[b][j].key), |table|) == b
  }

  ghost function Count<K, V>(table: seq<Chain<K, V>>): nat
  {
    if table == [] then 0 else |table[0]| + Count(table[1..])
  }

  /** What dictFind finds. */
  ghost function Lookup<K(!new), V>(table: seq<Chain<K, V>>, hash: K -> u32, k: K): Option<V>
  {
    if table == [] then None else
      IndexBelow(hash(k), |table|);
      Find(table[Index(hash(k), |table|)], k)
  }

  lemma {:induction false} FindNone<K, V>(c: Chain<K, V>, k: K)
    ensures Find(c, k) == None <==> forall j :: 0 <= j < |c| ==> c[j].key != k
  {
    if c != [] {
      FindNone(c[1..], k);
      assert forall j :: 0 < j < |c| ==> c[j] == c[1..][j - 1];
    }
  }

  lemma {:induction false} CountReplaced<K, V>(table: seq<Chain<K, V>>, b: nat, c: Chain<K, V>)
    requires b < |table|
    ensures Count(table[b := c]) == Count(table) - |table[b]| + |c|
  {
    if b > 0 {
      assert table[b := c][1..] == table[1..][b - 1 := c];
      CountReplaced(table[1..], b - 1, c);
    } else {
      assert table[b := c][1..] == table[1..];
    }
  }

  lemma {:induction false} CountNone<K, V>(table: seq<Chain<K, V>>)
    ensures Count(table) == 0 <==> forall b :: 0 <= b < |table| ==> table[b] == []
  {
    if table != [] {
      CountNone(table[1..]);
      assert forall b :: 0 < b < |table| ==> table[b] == table[1..][b - 1];
    }
  }

  /** Linking a new entry in front of its chain. */
  ghost function Pushed<K(!new), V>(table: seq<Chain<K, V>>, hash: K -> u32, e: Entry<K, V>): (r: seq<Chain<K, V>>)
    requires table != []
    ensures |r| == |table|
  {
    IndexBelow(hash(e.key), |table|);
    var b := Index(hash(e.key), |table|);
    table[b := [e] + table[b]]
  }

  lemma {:induction false} PushedIs<K(!new), V>(table: seq<Chain<K, V>>, hash: K -> u32, e: Entry<K, V>)
    requires table != [] && Placed(table, hash) && Lookup(table, hash, e.key) == None
    ensures Placed(Pushed(table, hash, e), hash) && Count(Pushed(table, hash, e)) == Count(table) + 1
    ensures forall k :: Lookup(Pushed(table, hash, e), hash, k)
                        == if k == e.key then Some(e.val) else Lookup(table, hash, k)
  {
    IndexBelow(hash(e.key), |table|);
    var b := Index(hash(e.key), |table|);
    var c := [e] + table[b];
    CountReplaced(table, b, c);
    FindNone(table[b], e.key);
    forall k
      ensures Find(c, k) == if k == e.key then Some(e.val) else Find(table[b], k)
    {
      assert c[1..] == table[b];
    }
    forall k
      ensures Lookup(Pushed(table, hash, e), hash, k) == if k == e.key then Some(e.val) else Lookup(table, hash, k)
    {
      IndexBelow(hash(k), |table|);
    }
  }

  /** Taking the j-th entry out of chain b. */
  lemma {:induction false} Unlinked<K(!new), V>(table: seq<Chain<K, V>>, hash: K -> u32, b: nat, j: nat)
    requires b < |table| && j < |table[b]| && Placed(table, hash)
    ensures var t' := table[b := table[b][..j] + table[b][j + 1..]];
            && Placed(t', hash) && Count(t') == Count(table) - 1
            && forall k :: Lookup(t', hash, k) == if k == table[b][j].key then None else Lookup(table, hash, k)
  {
    var c, c' := table[b], table[b][..j] + table[b][j + 1..];
    var t' := table[b := c'];
    CountReplaced(table, b, c');
    assert forall i :: 0 <= i < |c'| ==> c'[i] == c[if i < j then i else i + 1];
    forall k
      ensures Lookup(t', hash, k) == if k == c[j].key then None else Lookup(table, hash, k)
    {
      IndexBelow(hash(k), |table|);
      if Index(hash(k), |table|) == b {
        if k == c[j].key {
          FindNone(c', k);
        } else {
          FindWithout(c, j, k);
        }
      }
    }
  }

  lemma {:induction false} FindWithout<K, V>(c: Chain<K, V>, j: nat, k: K)
    requires j < |c| && k != c[j].key
    ensures Find(c[..j] + c[j + 1..], k) == Find(c, k)
    decreases j
  {
    var c' := c[..j] + c[j + 1..];
    if j == 0 {
      assert c' == c[1..];
    } else {
      assert c'[1..] == c[1..][..j - 1] + c[1..][j..];
      FindWithout(c[1..], j - 1, k);
    }
  }

  /** Giving the j-th entry of chain b another value. */
  lemma {:induction false} Revalued<K(!new), V>(table: seq<Chain<K, V>>, hash: K -> u32, b: nat, j: nat, v: V)
    requires b < |table| && j < |table[b]| && Placed(table, hash)
    ensures var t' := table[b := table[b][j := Entry(table[b][j].key, v)]];
            && Placed(t', hash) && Count(t') == Count(table)
            && forall k :: Lookup(t', hash, k) == if k == table[b][j].key then Some(v) else Lookup(table, hash, k)
  {
    var c := table[b];
    var c' := c[j := Entry(c[j].key, v)];
    var t' := table[b := c'];
    CountReplaced(table, b, c');
    forall k
      ensures Lookup(t', hash, k) == if k == c[j].key then Some(v) else Lookup(table, hash, k)
    {
      IndexBelow(hash(k), |table|);
      FindRevalued(c, j, v, k);
      assert Index(hash(c[j].key), |table|) == b;
    }
  }

  lemma {:induction false} FindRevalued<K, V>(c: Chain<K, V>, j: nat, v: V, k: K)
    requires j < |c| && Unique(c)
    ensures Find(c[j := Entry(c[j].key, v)], k) == if k == c[j].key then Some(v) else Find(c, k)
    decreases j
  {
    var c' := c[j := Entry(c[j].key, v)];
    if j == 0 {
      assert c'[1..] == c[1..];
    } else {
      assert c'[1..] == c[1..][j - 1 := Entry(c[j].key, v)];
      FindRevalued(c[1..], j - 1, v, k);
    }
  }

  // ---- rehashing ----

  /** What the old table still holds while it is emptied: nothing before chain i, he in chain i. */
  ghost function Left<K(!new), V>(src: seq<Chain<K, V>>, hash: K -> u32, i: nat, he: Chain<K, V>, k: K): Option<V>
    requires i <= |src|
  {
    if src == [] then None else
      IndexBelow(hash(k), |src|);
      var b := Index(hash(k), |src|);
      if b < i then None else if b == i then Find(he, k) else Find(src[b], k)
  }

  /** Old and new table together still hold what the old one did, nothing twice. */
  ghost predicate Moving<K(!new), V>(src: seq<Chain<K, V>>, dst: seq<Chain<K, V>>, hash: K -> u32, i: nat,
                                     he: Chain<K, V>)
    requires i <= |src|
  {
    forall k :: Lookup(src, hash, k)
                == (if Lookup(dst, hash, k).Some? then Lookup(dst, hash, k) else Left(src, hash, i, he, k))
                && (Lookup(dst, hash, k).Some? ==> Left(src, hash, i, he, k) == None)
  }

  lemma {:induction false} MoveOne<K(!new), V>(src: seq<Chain<K, V>>, dst: seq<Chain<K, V>>, hash: K -> u32, i: nat,
                                               he: Chain<K, V>)
    requires i < |src| && dst != [] && Placed(src, hash) && Placed(dst, hash) && Moving(src, dst, hash, i, he)
    requires he != [] && |he| <= |src[i]| && he == src[i][|src[i]| - |he|..]
    ensures Placed(Pushed(dst, hash, he[0]), hash) && Count(Pushed(dst, hash, he[0])) == Count(dst) + 1
    ensures Moving(src, Pushed(dst, hash, he[0]), hash, i, he[1..])
  {
    var e := he[0];
    assert e == src[i][|src[i]| - |he|];
    IndexBelow(hash(e.key), |src|);
    assert Left(src, hash, i, he, e.key) == Some(e.val);
    assert Lookup(dst, hash, e.key) == None;
    PushedIs(dst, hash, e);
    assert Unique(he);
    FindNone(he[1..], e.key);
    forall k
      ensures Left(src, hash, i, he[1..], k) == if k == e.key then None else Left(src, hash, i, he, k)
    {
      IndexBelow(hash(k), |src|);
    }
  }

  lemma NextChain<K(!new), V>(src: seq<Chain<K, V>>, dst: seq<Chain<K, V>>, hash: K -> u32, i: nat)
    requires i < |src| && Moving(src, dst, hash, i, [])
    ensures Moving(src, dst, hash, i + 1, if i + 1 < |src| then src[i + 1] else [])
  {
    var he := if i + 1 < |src| then src[i + 1] else [];
    forall k
      ensures Left(src, hash, i + 1, he, k) == Left(src, hash, i, [], k)
    {
      IndexBelow(hash(k), |src|);
    }
  }

  /** Nothing is left when the old table's remaining chains are empty. */
  lemma AllMoved<K(!new), V>(src: seq<Chain<K, V>>, dst: seq<Chain<K, V>>, hash: K -> u32, i: nat)
    requires i <= |src| && Count(src[i..]) == 0 && Moving(src, dst, hash, i, if i < |src| then src[i] else [])
    ensures forall k :: Lookup(dst, hash, k) == Lookup(src, hash, k)
  {
    CountNone(src[i..]);
    var he := if i < |src| then src[i] else [];
    assert i < |src| ==> src[i..][0] == src[i];
    forall k
      ensures Left(src, hash, i, he, k) == None
    {
      if src != [] {
        IndexBelow(hash(k), |src|);
        var b := Index(hash(k), |src|);
        if b >= i { assert src[i..][b - i] == src[b]; }
      }
    }
  }

  // ---- a table as a map ----

  /** The entries of the chains from the i-th on, chain after chain. */
  function Tail<K, V>(table: seq<Chain<K, V>>, i: nat): Chain<K, V>
    decreases |table| - i
  {
    if i < |table| then table[i] + Tail(table, i + 1) else []
  }

  /** All entries. */
  function Flat<K, V>(table: seq<Chain<K, V>>): Chain<K, V>
  {
    Tail(table, 0)
  }

  lemma {:induction false} TailCount<K, V>(table: seq<Chain<K, V>>, i: nat)
    requires i <= |table|
    ensures |Tail(table, i)| == Count(table[i..])
    decreases |table| - i
  {
    if i < |table| {
      TailCount(table, i + 1);
      assert table[i..][1..] == table[i + 1..];
    }
  }

  lemma {:induction false} TailUnique<K(!new), V>(table: seq<Chain<K, V>>, hash: K -> u32, i: nat)
    requires Placed(table, hash) && table != []
    ensures forall j :: 0 <= j < |Tail(table, i)| ==> Index(hash(Tail(table, i)[j].key), |table|) >= i
    ensures Unique(Tail(table, i))
    decreases |table| - i
  {
    if i < |table| {
      TailUnique(table, hash, i + 1);
      UniqueConcat(table[i], Tail(table, i + 1), hash, i, |table|);
    }
  }

  lemma UniqueConcat<K(!new), V>(a: Chain<K, V>, b: Chain<K, V>, hash: K -> u32, base: nat, size: nat)
    requires size > 0 && Unique(a) && Unique(b)
    requires forall j :: 0 <= j < |a| ==> Index(hash(a[j].key), size) == base
    requires forall j :: 0 <= j < |b| ==> Index(hash(b[j].key), size) > base
    ensures Unique(a + b)
    ensures forall j :: 0 <= j < |a + b| ==> Index(hash((a + b)[j].key), size) >= base
  {
    var c := a + b;
    forall i, j | 0 <= i < j < |c|
      ensures c[i].key != c[j].key
    {
      assert c[i] == if i < |a| then a[i] else b[i - |a|];
      assert c[j] == if j < |a| then a[j] else b[j - |a|];
    }
  }

  /** Where lookup finds a key, among all the entries. */
  lemma {:induction false} FindTail<K(!new), V>(table: seq<Chain<K, V>>, hash: K -> u32, i: nat, k: K)
    requires table != [] && Placed(table, hash) && Index(hash(k), |table|) < |table|
    ensures Find(Tail(table, i), k) ==
            if Index(hash(k), |table|) >= i then Find(table[Index(hash(k), |table|)], k) else None
    decreases |table| - i
  {
    if i < |table| {
      FindTail(table, hash, i + 1, k);
      FindConcat(table[i], Tail(table, i + 1), k);
      FindNone(table[i], k);
    }
  }

  lemma {:induction false} FindConcat<K, V>(a: Chain<K, V>, b: Chain<K, V>, k: K)
    ensures Find(a + b, k) == if Find(a, k).Some? then Find(a, k) else Find(b, k)
  {
    if a == [] {
      assert a + b == b;
    } else {
      assert (a + b)[1..] == a[1..] + b;
      FindConcat(a[1..], b, k);
    }
  }

  ghost function AsMap<K, V>(c: Chain<K, V>): map<K, V>
  {
    if c == [] then map[] else AsMap(c[1..])[c[0].key := c[0].val]
  }

  lemma {:induction false} AsMapIs<K(!new), V>(c: Chain<K, V>)
    requires Unique(c)
    ensures |AsMap(c)| == |c|
    ensures forall k :: Find(c, k) == if k in AsMap(c) then Some(AsMap(c)[k]) else None
  {
    if c != [] {
      assert forall j :: 0 < j < |c| ==> c[j] == c[1..][j - 1];
      AsMapIs(c[1..]);
      FindNone(c[1..], c[0].key);
    }
  }

  /** A table is a map: no key occurs twice among its entries, there are as many of them as the map
      has keys, and lookup finds what the map says. */
  lemma {:induction false} TableIsMap<K(!new), V>(table: seq<Chain<K, V>>, hash: K -> u32)
    requires Placed(table, hash)
    ensures Unique(Flat(table)) && |AsMap(Flat(table))| == |Flat(table)| == Count(table)
    ensures forall k :: Lookup(table, hash, k) == Find(Flat(table), k)
                        == if k in AsMap(Flat(table)) then Some(AsMap(Flat(table))[k]) else None
  {
    if table != [] {
      TailUnique(table, hash, 0);
    }
    TailCount(table, 0);
    assert table[0..] == table;
    AsMapIs(Flat(table));
    forall k
      ensures Lookup(table, hash, k) == Find(Flat(table), k)
    {
      LookupFlat(table, hash, k);
    }
  }

  lemma LookupFlat<K(!new), V>(table: seq<Chain<K, V>>, hash: K -> u32, k: K)
    requires Placed(table, hash)
    ensures Lookup(table, hash, k) == Find(Flat(table), k)
  {
    if table != [] {
      IndexBelow(hash(k), |table|);
      FindTail(table, hash, 0, k);
    }
  }

  // ---- the code ----

  class Table<K(!new, ==), V> {
    const hash: K -> u32
    var table: array<Chain<K, V>>
    var used: nat

    ghost predicate Valid()
      reads this, table
    {
      && Placed(table[..], hash) && used == Count(table[..])
      && (table.Length == 0 || (table.Length >= INITIAL_SIZE && Power(table.Length)))
    }

    /** What dictFind finds. */
    ghost function Get(k: K): Option<V>
      reads this, table
    {
      Lookup(table[..], hash, k)
    }

    /** The map the table stands for. */
    ghost function Contents(): map<K, V>
      reads this, table
    {
      AsMap(Flat(table[..]))
    }

    lemma Entries()
      requires Valid()
      ensures Unique(Flat(table[..])) && |Flat(table[..])| == used && AllHomed(table[..], hash)
    {
      TableIsMap(table[..], hash);
    }

    lemma Known()
      requires Valid()
      ensures |Contents()| == used && Unique(Flat(table[..]))
      ensures forall k :: Get(k) == if k in Contents() then Some(Contents()[k]) else None
    {
      TableIsMap(table[..], hash);
    }

    lemma Pinned(m: map<K, V>)
      requires Valid() && forall k :: Get(k) == if k in m then Some(m[k]) else None
      ensures Contents() == m
    {
      Known();
      assert forall k :: Get(k).Some? <==> k in Contents();
      forall k | k in m
        ensures k in Contents() && Contents()[k] == m[k]
      {
        assert Get(k) == Some(m[k]);
      }
      forall k | k in Contents()
        ensures k in m
      {
        assert Get(k).Some?;
      }
    }

    /** dictCreate */
    constructor (hash: K -> u32)
      ensures Valid() && fresh(table) && this.hash == hash && used == 0 && forall k :: Get(k) == None
    {
      this.hash := hash;
      table := new Chain<K, V>[0];
      used := 0;
    }

    /** dictHashKey(ht, key) & ht->sizemask */
    method Bucket(key: K, size: nat) returns (h: nat)
      requires size > 0
      ensures h == Index(hash(key), size) && h < size
    {
      IndexBelow(hash(key), size);
      h := And(hash(key), size - 1);
    }

    /** dictExpand: every key keeps its value, and its closing assertion, that no entry is left
        behind, holds. */
    method Expand(size: nat) returns (ok: bool)
      requires Valid() && size > 0
      modifies this
      ensures Valid() && used == old(used) && (ok <==> old(used) <= size)
      ensures forall k :: Get(k) == old(Get(k))
      ensures if ok then fresh(table) && LeastPower(table.Length, size) else table == old(table)
    {
      if used > size {
        return false;
      }
      var realsize := NextPower(size);
      var n := new Chain<K, V>[realsize](_ => []);
      ghost var src := table[..];
      var all := used;
      EmptyTable(src, n[..], hash);
      var i := 0;
      while i < table.Length && used > 0
        invariant i <= |src| && table[..] == src && n.Length == realsize && fresh(n)
        invariant Placed(n[..], hash) && Moving(src, n[..], hash, i, if i < |src| then src[i] else [])
        invariant used == Count(src[i..]) && Count(n[..]) + used == all
      {
        assert src[i..][0] == src[i] && src[i..][1..] == src[i + 1..];
        MoveChain(n, i, src);
        NextChain(src, n[..], hash, i);
        i := i + 1;
      }
      if i == |src| {
        assert src[i..] == [];
      }
      assert used == 0;
      AllMoved(src, n[..], hash, i);
      table := n;
      used := all;
      ok := true;
    }

    /** The loop over one chain. */
    method MoveChain(n: array<Chain<K, V>>, i: nat, ghost src: seq<Chain<K, V>>)
      requires n != table && n.Length > 0 && i < table.Length && src == table[..] && Placed(src, hash)
      requires Placed(n[..], hash) && Moving(src, n[..], hash, i, src[i]) && used >= |src[i]|
      modifies this`used, n
      ensures Placed(n[..], hash) && Moving(src, n[..], hash, i, [])
      ensures used == old(used) - |src[i]| && Count(n[..]) == Count(old(n[..])) + |src[i]|
    {
      var he := table[i];
      while he != []
        invariant |he| <= |src[i]| && he == src[i][|src[i]| - |he|..]
        invariant Placed(n[..], hash) && Moving(src, n[..], hash, i, he)
        invariant used == old(used) - (|src[i]| - |he|) && Count(n[..]) == Count(old(n[..])) + (|src[i]| - |he|)
        decreases |he|
      {
        MoveOne(src, n[..], hash, i, he);
        ghost var was := n[..];
        var h := Bucket(he[0].key, n.Length);
        n[h] := [he[0]] + n[h];
        assert n[..] == Pushed(was, hash, he[0]);
        used := used - 1;
        he := he[1..];
      }
    }

    lemma {:induction false} EmptyTable(src: seq<Chain<K, V>>, dst: seq<Chain<K, V>>, h: K -> u32)
      requires forall b :: 0 <= b < |dst| ==> dst[b] == []
      ensures Placed(dst, h) && Count(dst) == 0 && Moving(src, dst, h, 0, if 0 < |src| then src[0] else [])
    {
      CountNone(dst);
      assert src[0..] == src;
      forall k
        ensures Lookup(dst, h, k) == None
      {
        if dst != [] { IndexBelow(h(k), |dst|); }
      }
    }

    /** _dictNextPower */
    method NextPower(size: nat) returns (i: nat)
      requires size > 0
      ensures LeastPower(i, size)
    {
      i := INITIAL_SIZE;
      assert i == Pow2(2);
      while i < size
        invariant i >= INITIAL_SIZE && Power(i)
        invariant forall p: nat :: Power(p) && p >= size && p >= INITIAL_SIZE ==> i <= p
        decreases size - i
      {
        forall p: nat | Power(p) && p >= size
          ensures 2 * i <= p
        {
          PowerGap(i, p);
        }
        DoublePower(i);
        i := i * 2;
      }
    }

    /** _dictExpandIfNeeded; it never fails. */
    method ExpandIfNeeded() returns (ok: bool)
      requires Valid()
      modifies this
      ensures ok && Valid() && used == old(used) && (table == old(table) || fresh(table))
      ensures table.Length == Grown(old(table.Length), used) > 0
      ensures forall k :: Get(k) == old(Get(k))
    {
      if table.Length == 0 {
        CountNone(table[..]);
        assert Pow2(2) == INITIAL_SIZE && Power(INITIAL_SIZE);
        ok := Expand(INITIAL_SIZE);
      } else if used == table.Length {
        DoublePower(table.Length);
        ok := Expand(table.Length * 2);
      } else {
        ok := true;
      }
    }

    /** Search a chain: the place of the key, or -1. */
    method Search(h: nat, key: K) returns (j: int)
      requires h < table.Length
      ensures -1 <= j < |table[h]|
      ensures j == -1 ==> Find(table[h], key) == None
      ensures j >= 0 ==> table[h][j].key == key && Find(table[h], key) == Some(table[h][j].val)
    {
      var he := table[h];
      j := 0;
      while he != []
        invariant 0 <= j <= |table[h]| && he == table[h][j..] && Find(he, key) == Find(table[h], key)
        decreases |he|
      {
        if he[0].key == key {
          return;
        }
        he := he[1..];
        j := j + 1;
      }
      j := -1;
    }

    /** The number of the chain a new key will have, as an unsigned int. */
    ghost function Home(key: K): (h: u32)
      reads this, table
    {
      var n := Grown(table.Length, used);
      IndexBelow(hash(key), n);
      Index(hash(key), n)
    }

    /** _dictKeyIndex: the chain for a new key, cut to an int, or -1 if the key is there. */
    method KeyIndex(key: K) returns (index: int)
      requires Valid()
      modifies this
      ensures Valid() && used == old(used) && (table == old(table) || fresh(table))
      ensures table.Length == Grown(old(table.Length), used) > 0
      ensures forall k :: Get(k) == old(Get(k))
      ensures index == if old(Get(key)).Some? then -1 else Signed(old(Home(key)))
      ensures index >= 0 ==> index < table.Length && index == Index(hash(key), table.Length) == old(Home(key))
    {
      var ok := ExpandIfNeeded();
      var h := Bucket(key, table.Length);
      var j := Search(h, key);
      index := if j != -1 then -1 else Signed(h);
    }

    /** dictAdd. Stray: it would write before the array. */
    method Add(key: K, val: V) returns (r: Outcome)
      requires Valid()
      modifies this, table
      ensures Valid() && (table == old(table) || fresh(table))
      ensures r == if old(Get(key)).Some? then Refused else Placing(old(Home(key)))
      ensures used == old(used) + (if r.Added? then 1 else 0)
      ensures forall k :: Get(k) == if r.Added? && k == key then Some(val) else old(Get(k))
      ensures Contents() == if r.Added? then old(Contents())[key := val] else old(Contents())
    {
      ghost var m := Contents();
      Known();
      var index := KeyIndex(key);
      if index < 0 {
        Pinned(m);
        return if index == -1 then Refused else Stray;
      }
      ghost var was: seq<Chain<K, V>> := table[..];
      PushedIs(was, hash, Entry(key, val));
      table[index] := [Entry(key, val)] + table[index];
      assert table[..] == Pushed(was, hash, Entry(key, val));
      used := used + 1;
      Pinned(m[key := val]);
      r := Added;
    }

    /** dictFind */
    method FindEntry(key: K) returns (r: Option<V>)
      requires Valid()
      ensures r == Get(key)
    {
      if table.Length == 0 {
        return None;
      }
      var h := Bucket(key, table.Length);
      var j := Search(h, key);
      r := if j == -1 then None else Some(table[h][j].val);
    }

    /** dictReplace; added tells that the key is new. Undefined: dictAdd strays, or refuses a key that
        dictFind does not find either. */
    method Replace(key: K, val: V) returns (added: bool, undefined: bool)
      requires Valid()
      modifies this, table
      ensures undefined <==> old(Get(key)) == None && old(Home(key)) >= HALF
      ensures !undefined ==> Valid() && (added <==> old(Get(key)) == None)
      ensures !undefined ==> used == old(used) + (if added then 1 else 0)
      ensures !undefined ==> Contents() == old(Contents())[key := val]
    {
      var r := Add(key, val);
      added := r.Added?;
      var entry := FindEntry(key);
      undefined := !added && (r.Stray? || entry.None?);
      if !added && !undefined {
        SetVal(key, val);
      }
    }

    /** The entry of a key that is there gets another value. */
    method SetVal(key: K, val: V)
      requires Valid() && Get(key).Some?
      modifies table
      ensures Valid() && Contents() == old(Contents())[key := val]
    {
      ghost var m := Contents();
      Known();
      var h := Bucket(key, table.Length);
      var j := Search(h, key);
      Revalued(table[..], hash, h, j, val);
      ghost var was: seq<Chain<K, V>> := table[..];
      table[h] := table[h][j := Entry(table[h][j].key, val)];
      assert table[..] == was[h := was[h][j := Entry<K, V>.Entry(was[h][j].key, val)]];
      Pinned(m[key := val]);
    }

    /** dictDelete */
    method Delete(key: K) returns (ok: bool)
      requires Valid()
      modifies this`used, table
      ensures Valid() && (ok <==> old(Get(key)).Some?)
      ensures used == old(used) - (if ok then 1 else 0) && Contents() == old(Contents()) - {key}
      ensures forall b :: 0 <= b < table.Length && b != Index(hash(key), table.Length) ==> table[b] == old(table[b])
    {
      Known();
      if table.Length == 0 {
        return false;
      }
      var h := Bucket(key, table.Length);
      var j := Search(h, key);
      if j == -1 {
        return false;
      }
      Unlink(h, j);
      ok := true;
    }

    /** Entry j of chain h is unlinked. */
    method Unlink(h: nat, j: nat)
      requires Valid() && h < table.Length && j < |table[h]|
      modifies this`used, table
      ensures Valid() && used == old(used) - 1 && Contents() == old(Contents()) - {old(table[h][j].key)}
      ensures forall b :: 0 <= b < table.Length && b != h ==> table[b] == old(table[b])
    {
      ghost var m, key := Contents(), table[h][j].key;
      Known();
      Unlinked(table[..], hash, h, j);
      ghost var was: seq<Chain<K, V>> := table[..];
      table[h] := table[h][..j] + table[h][j + 1..];
      assert table[..] == was[h := was[h][..j] + was[h][j + 1..]];
      used := used - 1;
      Pinned(m - {key});
    }
  }

  // ---- iteration ----

  /** All these entries belong in chain number b. */
  ghost predicate Homed<K(!new), V>(c: Chain<K, V>, hash: K -> u32, size: nat, b: int)
  {
    size > 0 && forall j :: 0 <= j < |c| ==> Index(hash(c[j].key), size) == b
  }

  ghost predicate AllHomed<K(!new), V>(table: seq<Chain<K, V>>, hash: K -> u32)
  {
    forall b :: 0 <= b < |table| ==> Homed(table[b], hash, |table|, b)
  }

  lemma HomedTail<K(!new), V>(c: Chain<K, V>, hash: K -> u32, size: nat, b: int)
    requires Homed(c, hash, size, b) && c != []
    ensures Homed(c[1..], hash, size, b)
  {
  }

  lemma {:induction false} SameTail<K, V>(s: seq<Chain<K, V>>, t: seq<Chain<K, V>>, i: nat)
    requires |s| == |t| && forall b :: i <= b < |s| ==> s[b] == t[b]
    ensures Tail(s, i) == Tail(t, i)
    decreases |s| - i
  {
    if i < |s| { SameTail(s, t, i + 1); }
  }

  lemma Split<K, V>(c: Chain<K, V>, t: Chain<K, V>)
    ensures c == [] ==> c + t == t
    ensures c != [] ==> c + t != [] && (c + t)[0] == c[0] && (c + t)[1..] == c[1..] + t
  {
  }

  /** An iteration that has seen some entries, holds one more or none, and has the rest before it. */
  ghost predicate Walking<T>(seen: seq<T>, next: Option<T>, rest: seq<T>, all: seq<T>)
  {
    if next.Some? then seen + [next.value] + rest == all else seen == all && rest == []
  }

  /** What a call of dictNext does to it. */
  lemma WalkOn<T>(seen: seq<T>, rest: seq<T>, all: seq<T>)
    requires seen + rest == all
    ensures rest == [] ==> Walking(seen, None, rest, all)
    ensures rest != [] ==> Walking(seen, Some(rest[0]), rest[1..], all) && |seen| < |all|
  {
    if rest != [] {
      assert [rest[0]] + rest[1..] == rest;
      assert seen + [rest[0]] + rest[1..] == seen + ([rest[0]] + rest[1..]);
    }
  }

  /** The chains that an iterator walks over: it compares its index with the size cut to an int. */
  ghost function Scanned<K, V>(table: seq<Chain<K, V>>): (r: seq<Chain<K, V>>)
    ensures |r| == Max(0, Signed(|table|)) <= |table|
    ensures forall b :: 0 <= b < |r| ==> r[b] == table[b]
  {
    SignedBelow(|table|);
    table[..Max(0, Signed(|table|))]
  }

  lemma SignedBelow(n: nat)
    ensures Signed(n) <= n
  {
  }

  /** Of a table of a power of two they are all the chains below 2^31 chains, and none from there on. */
  lemma ScannedIs<K, V>(table: seq<Chain<K, V>>)
    requires table == [] || Power(|table|)
    ensures Scanned(table) == if |table| < HALF then table else []
  {
    if |table| >= HALF {
      Pow31();
      var k: nat :| |table| == Pow2(k);
      if k < 31 {
        Pow2Less(k, 31);
      } else {
        PowerMod32(k);
      }
    }
  }

  /** Cut to 32 bits, the powers of two from 2^31 on leave the sign bit or nothing. */
  lemma {:induction false} PowerMod32(k: nat)
    requires k >= 31
    ensures Pow2(k) % M == if k == 31 then HALF else 0
    decreases k
  {
    Pow31();
    if k > 31 {
      PowerMod32(k - 1);
      var half := Pow2(k - 1);
      assert Pow2(k) == 2 * half;
      ModIs(Pow2(k), M, if k == 32 then 1 else 2 * (half / M), 0);
    }
  }

  /** dictIterator; entry and nextEntry are the chain from there on, empty for NULL. */
  class Iterator<K(!new, ==), V> {
    const ht: Table<K, V>
    var index: int
    var entry: Chain<K, V>
    var nextEntry: Chain<K, V>

    /** dictGetIterator */
    constructor (ht: Table<K, V>)
      ensures this.ht == ht && Sane() && Remaining() == Flat(Scanned(ht.table[..]))
    {
      this.ht := ht;
      index, entry, nextEntry := -1, [], [];
    }

    ghost predicate Sane()
      reads this, ht
    {
      -1 <= index && (entry != [] ==> 0 <= index < ht.table.Length && Homed(nextEntry, ht.hash, ht.table.Length, index))
    }

    /** The entries not returned yet, if the table stays as it is. */
    ghost function Remaining(): Chain<K, V>
      requires Sane()
      reads this, ht, ht.table
    {
      if entry == [] then Tail(Scanned(ht.table[..]), index + 1) else nextEntry + Tail(Scanned(ht.table[..]), index + 1)
    }

    /** The next entry of the chain, or the first of the next chain; not ok past the last chain. */
    method Advance() returns (ok: bool)
      requires Sane() && AllHomed(ht.table[..], ht.hash)
      modifies this
      ensures ok ==> (entry == [] ==> Sane()) && 0 <= index < ht.table.Length && index >= old(index)
      ensures ok ==> Homed(entry, ht.hash, ht.table.Length, index)
      ensures ok ==> if entry == [] then Remaining() == old(Remaining())
                     else entry + Tail(Scanned(ht.table[..]), index + 1) == old(Remaining())
      ensures ok && index == old(index) ==> old(entry) != [] && entry == old(nextEntry)
      ensures !ok ==> Sane() && old(Remaining()) == [] && Remaining() == []
    {
      ghost var t := Scanned(ht.table[..]);
      if entry == [] {
        index := index + 1;
        if index >= Signed(ht.table.Length) {
          return false;
        }
        entry := ht.table[index];
      } else {
        entry := nextEntry;
      }
      Split(entry, Tail(t, index + 1));
      ok := true;
    }

    /** The entry is returned; its successor in the chain is saved for the next call. */
    method Save(ghost all: Chain<K, V>) returns (e: Entry<K, V>)
      requires 0 <= index < ht.table.Length && entry != [] && Homed(entry, ht.hash, ht.table.Length, index)
      requires entry + Tail(Scanned(ht.table[..]), index + 1) == all
      modifies this`nextEntry
      ensures Sane() && all != [] && e == all[0] && e == entry[0] && Remaining() == all[1..]
      ensures Homed(entry, ht.hash, ht.table.Length, index)
    {
      Split(entry, Tail(Scanned(ht.table[..]), index + 1));
      HomedTail(entry, ht.hash, ht.table.Length, index);
      nextEntry := entry[1..];
      e := entry[0];
    }

    /** dictNext */
    method Next() returns (r: Option<Entry<K, V>>)
      requires Sane() && AllHomed(ht.table[..], ht.hash)
      modifies this
      ensures Sane()
      ensures if old(Remaining()) == [] then r == None && Remaining() == []
              else r == Some(old(Remaining())[0]) && Remaining() == old(Remaining())[1..]
      ensures r.Some? ==> entry != [] && r.value == entry[0] && Homed(entry, ht.hash, ht.table.Length, index)
    {
      ghost var all := Remaining();
      while true
        invariant Sane() && Remaining() == all
        decreases ht.table.Length - index, entry != []
      {
        var ok := Advance();
        if !ok {
          return None;
        }
        if entry != [] {
          var e := Save(all);
          return Some(e);
        }
      }
    }

    /** The caller may delete the entry it was given before it asks for the next: the iterator
        still returns the others, which are still in the table. */
    method NextThenDelete() returns (r: Option<Entry<K, V>>)
      requires Sane() && ht.Valid()
      modifies this, ht`used, ht.table
      ensures Sane() && ht.Valid()
      ensures if old(Remaining()) == [] then r == None && Remaining() == [] && ht.Contents() == old(ht.Contents())
              else r == Some(old(Remaining())[0]) && Remaining() == old(Remaining())[1..]
                   && ht.Contents() == old(ht.Contents()) - {old(Remaining())[0].key}
    {
      ht.Entries();
      r := Next();
      if r.None? {
        return;
      }
      DeleteCurrent();
    }

    /** Deleting the entry just returned changes nothing of what is to come. */
    method DeleteCurrent()
      requires Sane() && ht.Valid() && entry != [] && Homed(entry, ht.hash, ht.table.Length, index)
      modifies ht`used, ht.table
      ensures Sane() && ht.Valid() && Remaining() == old(Remaining())
      ensures ht.Contents() == old(ht.Contents()) - {entry[0].key}
    {
      ghost var was: seq<Chain<K, V>> := ht.table[..];
      var _ := ht.Delete(entry[0].key);
      SameTail(Scanned(was), Scanned(ht.table[..]), index + 1);
    }
  }

  /** The loop around dictNext. */
  method VisitRest<K(!new, ==), V>(it: Iterator<K, V>) returns (seen: Chain<K, V>)
    requires it.Sane() && AllHomed(it.ht.table[..], it.ht.hash)
    modifies it
    ensures seen == old(it.Remaining())
  {
    seen := [];
    ghost var all := it.Remaining();
    WalkOn(seen, it.Remaining(), all);
    var de := it.Next();
    while de.Some?
      invariant it.Sane() && Walking(seen, de, it.Remaining(), all)
      decreases |all| - |seen|
    {
      seen := seen + [de.value];
      WalkOn(seen, it.Remaining(), all);
      de := it.Next();
    }
  }

  /** Callbacks run for every entry: below 2^31 chains the iteration visits the entries of the map,
      each once; from there on it visits none. */
  method VisitAll<K(!new, ==), V>(ht: Table<K, V>) returns (seen: Chain<K, V>)
    requires ht.Valid()
    ensures seen == if ht.table.Length < HALF then Flat(ht.table[..]) else []
    ensures ht.table.Length < HALF ==> Unique(seen) && |seen| == ht.used && AsMap(seen) == ht.Contents()
  {
    var it := new Iterator(ht);
    ht.Entries();
    ScannedIs(ht.table[..]);
    seen := VisitRest(it);
  }
}
