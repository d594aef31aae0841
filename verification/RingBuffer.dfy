/** The byte ring buffer with free-running 32-bit positions. Its capacity is a power of two, so that
    masking a position is taking its remainder and stays right when the position wraps. */
module RingBuffer {
  import opened Bits
  import opened U32

  type Bytes = seq<byte>

  // ---- positions ----

  lemma ModAdd(a: int, b: int, m: int)
    requires m > 0
    ensures (a % m + b) % m == (a + b) % m
  {
    var q := (a % m + b) / m;
    var r := (a % m + b) % m;
    assert a + b == m * (a / m + q) + r;
    ModIs(a + b, m, a / m + q, r);
  }

  /** A capacity: a power of two that divides 2^32. */
  ghost predicate Capacity(size: int)
  {
    size > 1 && exists k: nat :: k <= 31 && size == Pow2(k)
  }

  lemma {:induction false} Divides(k: nat, n: nat) returns (c: nat)
    requires k <= n
    ensures Pow2(n) == Pow2(k) * c
    decreases n
  {
    if k == n {
      c := 1;
    } else {
      c := Divides(k, n - 1);
      assert 2 * (Pow2(k) * c) == Pow2(k) * (2 * c);
      c := 2 * c;
    }
  }

  /** The wrap of a 32-bit position does not move its slot. */
  lemma WrapSlot(pos: u32, n: u32, size: int)
    requires Capacity(size)
    ensures Add(pos, n) % size == (pos + n) % size
  {
    var k: nat :| k <= 31 && size == Pow2(k);
    var c := Divides(k, 32);
    Pow2At32();
    if pos + n >= M {
      AddRounds(pos + n - M, c, size);
    }
  }

  lemma AddRounds(a: int, c: int, m: int)
    requires m > 0
    ensures (a + m * c) % m == a % m
  {
    assert a + m * c == m * (a / m + c) + a % m;
    ModIs(a + m * c, m, a / m + c, a % m);
  }

  lemma Pow2At32()
    ensures Pow2(32) == M
  {
    assert Pow2(8) == 256;
    assert Pow2(16) == 65536;
    assert Pow2(24) == 0x100_0000;
  }

  /** Positions less than a capacity apart have different slots. */
  lemma Apart(a: int, b: int, size: int)
    requires size > 0 && a < b < a + size
    ensures a % size != b % size
  {
    var d := b / size - a / size;
    assert b - a == size * d + (b % size - a % size);
    Multiples(size, d);
  }

  // ---- the buffer ----

  /** roundup_power_of_two */
  method RoundUp(num0: u32) returns (r: nat)
    requires num0 <= HALF
    ensures num0 == 0 ==> r == 2
    ensures num0 > 0 ==> exists i: nat :: i <= 32 && r == Pow2(i) && r <= 2 * num0 && num0 < r
  {
    var num := num0;
    if num == 0 {
      return 2;
    }
    var i := 0;
    Pow2At32();
    assert num0 < Pow2(32);
    while num != 0
      invariant 0 <= i <= 32 && num >= 0
      invariant num == 0 ==> i > 0 && Pow2(i - 1) <= num0 < Pow2(i)
      invariant num != 0 ==> num * Pow2(i) <= num0 < (num + 1) * Pow2(i)
      decreases num
    {
      Halve(num, Pow2(i), num0);
      if i == 32 {
        Scale(num, Pow2(32));
      }
      num := num / 2;
      i := i + 1;
    }
    r := Pow2(i);
  }

  lemma Halve(num: int, p: int, n: int)
    requires num > 0 && p > 0 && num * p <= n < (num + 1) * p
    ensures num / 2 == 0 ==> p <= n < 2 * p
    ensures (num / 2) * (2 * p) <= n < (num / 2 + 1) * (2 * p)
  {
    var h := num / 2;
    if num % 2 == 0 {
      assert num * p == h * (2 * p) && (num + 1) * p == h * (2 * p) + p;
    } else {
      assert num == 2 * h + 1;
      assert num * p == h * (2 * p) + p && (num + 1) * p == (h + 1) * (2 * p);
    }
  }

  lemma Scale(num: int, p: int)
    requires num >= 1 && p > 0
    ensures num * p >= p
  {
  }

  predicate IsPowerOfTwo(num: nat)
  {
    num >= 2 && And(num, num - 1) == 0
  }

  /** The least power of two that holds sz bytes, and at least 2. */
  ghost predicate LeastCapacity(size: nat, sz: nat)
  {
    && Capacity(size) && size >= sz
    && forall j: nat :: Pow2(j) >= 2 && Pow2(j) >= sz ==> size <= Pow2(j)
  }

  lemma PowerIsLeast(sz: nat)
    requires IsPowerOfTwo(sz) && sz <= HALF
    ensures LeastCapacity(sz, sz)
  {
    AndSelfLess(sz);
    var k: nat :| sz == Pow2(k);
    Below32(k);
  }

  lemma {:induction false} Below32(k: nat)
    requires Pow2(k) < M
    ensures k <= 31
  {
    Pow2At32();
    Pow2Mono(32, k);
  }

  lemma {:induction false} Pow2Mono(i: nat, j: nat)
    ensures i <= j ==> Pow2(i) <= Pow2(j)
  {
    if i < j { Pow2Less(i, j); }
  }

  lemma {:induction false} Ordered(j: nat, i: nat)
    ensures 2 * Pow2(j) <= Pow2(i) || Pow2(i) <= Pow2(j)
  {
    if j < i { Pow2Less(j, i); }
    if i < j { Pow2Less(i, j); }
  }

  lemma {:induction false} RoundedIsLeast(sz: nat, r: nat, i: nat)
    requires 1 <= sz < HALF && !IsPowerOfTwo(sz) && r == Pow2(i) && sz < r <= 2 * sz
    ensures LeastCapacity(r, sz)
  {
    Below32(i);
    AndSelfLess(sz);
    forall j: nat | Pow2(j) >= 2 && Pow2(j) >= sz
      ensures r <= Pow2(j)
    {
      assert sz >= 2 ==> sz != Pow2(j);
      Ordered(j, i);
    }
  }

  /** The capacity rb_init chooses. */
  method ChooseSize(sz: u32) returns (n: nat)
    requires sz <= HALF
    ensures LeastCapacity(n, sz) && n < M
  {
    n := sz;
    if IsPowerOfTwo(n) {
      PowerIsLeast(n);
      return;
    }
    NoPowerIsLess(sz);
    n := RoundUp(sz);
    if sz == 0 {
      TwoIsLeast();
    } else {
      var i: nat :| i <= 32 && n == Pow2(i) && n <= 2 * sz && sz < n;
      RoundedIsLeast(sz, n, i);
    }
  }

  lemma NoPowerIsLess(sz: nat)
    requires sz <= HALF && !IsPowerOfTwo(sz)
    ensures sz < HALF
  {
    Pow2At32();
    assert Pow2(32) == 2 * Pow2(31);
    if sz > 0 {
      AndSelfLess(sz);
      assert sz == Pow2(31) ==> Power(sz);
    }
  }

  lemma TwoIsLeast()
    ensures LeastCapacity(2, 0)
  {
    assert Pow2(1) == 2;
  }

  /** The slot of the byte n places after a position. */
  function Slot(pos: int, n: int, size: int): (i: int)
    requires size > 0
    ensures 0 <= i < size
  {
    (pos + n) % size
  }

  lemma SlotFrom(pos: int, n: int, j: int, size: int)
    requires size > 0
    ensures Slot(Slot(pos, n, size), j, size) == Slot(pos, n + j, size)
  {
    ModAdd(pos + n, j, size);
  }

  lemma SlotNear(w: nat, j: nat, size: int)
    requires w < size && j <= size
    ensures Slot(w, j, size) == if w + j < size then w + j else w + j - size
  {
    if w + j >= size {
      AddRounds(w + j - size, 1, size);
    }
  }

  /** Slots less than a capacity apart differ. */
  lemma SlotsApart(pos: int, i: int, j: int, size: int)
    requires size > 0 && i < j < i + size
    ensures Slot(pos, i, size) != Slot(pos, j, size)
  {
    Apart(pos + i, pos + j, size);
  }

  class Ring {
    var buf: array<byte>
    var size: u32
    var writePos: u32
    var readPos: u32

    /** rb_len */
    function Len(): u32
      reads this
    {
      Sub(writePos, readPos)
    }

    ghost predicate Valid()
      reads this
    {
      Capacity(size) && buf.Length == size && Len() <= size
    }

    /** The bytes written and not read, oldest first. */
    ghost function Contents(): (s: Bytes)
      reads this, buf
      requires Valid()
      ensures |s| == Len() && forall i :: 0 <= i < |s| ==> s[i] == buf[Slot(readPos, i, size)]
    {
      seq(Len(), i requires 0 <= i < Len() reads this, buf requires Valid() => buf[Slot(readPos, i, size)])
    }

    /** rb_init */
    constructor (sz: u32)
      requires sz <= HALF
      ensures Valid() && Contents() == [] && LeastCapacity(size, sz) && fresh(buf)
    {
      var n := ChooseSize(sz);
      buf := new byte[n](_ => 0);
      size := n;
      writePos, readPos := 0, 0;
    }

    /** pos & (size - 1) */
    method Masked(pos: u32) returns (i: nat)
      requires Valid()
      ensures i == And(pos, size - 1) && i == Slot(pos, 0, size)
    {
      ghost var k: nat :| k <= 31 && size == Pow2(k);
      MaskIsMod(pos, k);
      i := And(pos, size - 1);
    }

    /** rb_remain */
    method Remain() returns (n: u32)
      requires Valid()
      ensures n == size - Len()
    {
      n := Add(Sub(size, writePos), readPos);
    }

    /** The two memcpy calls of rb_write. */
    method CopyIn(w: nat, data: Bytes)
      requires Valid() && w < size && |data| <= size
      modifies buf
      ensures forall j :: 0 <= j < |data| ==> buf[Slot(w, j, size)] == data[j]
      ensures forall x ::
                0 <= x < size && (forall j :: 0 <= j < |data| ==> x != Slot(w, j, size)) ==> buf[x] == old(buf[x])
    {
      var i := Min(|data|, size - w);
      forall j | 0 <= j < i {
        buf[w + j] := data[j];
      }
      forall j | 0 <= j < |data| - i {
        buf[j] := data[i + j];
      }
      forall j | 0 <= j < |data|
        ensures Slot(w, j, size) == if j < i then w + j else j - i
      {
        SlotNear(w, j, size);
      }
      forall x | 0 <= x < size && (forall j :: 0 <= j < |data| ==> x != Slot(w, j, size))
        ensures buf[x] == old(buf[x])
      {
        Untouched(w, |data|, i, size, x);
      }
    }

    /** A slot no byte goes to lies outside both copied stretches. */
    lemma Untouched(w: nat, n: nat, i: nat, size: int, x: nat)
      requires w < size && n <= size && i == Min(n, size - w) && x < size
      requires forall j :: 0 <= j < n ==> x != Slot(w, j, size)
      ensures !(w <= x < w + i) && !(x < n - i)
    {
      if w <= x < w + i {
        SlotNear(w, x - w, size);
      }
      if x < n - i {
        SlotNear(w, x + i, size);
      }
    }

    /** The copies put the data behind what was there. */
    method Store(w: nat, data: Bytes)
      requires Valid() && w == Slot(writePos, 0, size) && |data| <= size - Len()
      modifies buf
      ensures forall i :: 0 <= i < Len() ==> buf[Slot(readPos, i, size)] == old(buf[Slot(readPos, i, size)])
      ensures forall i :: Len() <= i < Len() + |data| ==> buf[Slot(readPos, i, size)] == data[i - Len()]
    {
      WriteSlots(w, |data|);
      CopyIn(w, data);
      forall i | Len() <= i < Len() + |data|
        ensures buf[Slot(readPos, i, size)] == data[i - Len()]
      {
        assert Slot(w, i - Len(), size) == Slot(readPos, Len() + (i - Len()), size);
      }
    }

    /** rb_write: all or nothing. */
    method Write(data: Bytes) returns (n: u32)
      requires Valid() && |data| < M
      modifies this`writePos, buf
      ensures Valid() && size == old(size) && buf == old(buf)
      ensures if |data| <= size - old(Len()) then n == |data| && Contents() == old(Contents()) + data
              else n == 0 && Contents() == old(Contents())
    {
      var room := Remain();
      if |data| > room {
        return 0;
      }
      ghost var was, len := Contents(), Len();
      var w := Masked(writePos);
      Store(w, data);
      writePos := Add(writePos, |data|);
      n := |data|;
      Appended(was, data);
    }

    /** The writing slots continue the reading ones and do not meet them. */
    lemma WriteSlots(w: nat, n: nat)
      requires Valid() && w == Slot(writePos, 0, size) && n <= size - Len()
      ensures forall j :: 0 <= j < n ==> Slot(w, j, size) == Slot(readPos, Len() + j, size)
      ensures forall i, j :: 0 <= i < Len() && 0 <= j < n ==> Slot(readPos, i, size) != Slot(w, j, size)
    {
      var len := Len();
      WrapSlot(readPos, len, size);
      assert w == Slot(readPos, len, size);
      forall j | 0 <= j < n
        ensures Slot(w, j, size) == Slot(readPos, len + j, size)
      {
        SlotFrom(readPos, len, j, size);
      }
      forall i, j | 0 <= i < len && 0 <= j < n
        ensures Slot(readPos, i, size) != Slot(w, j, size)
      {
        SlotsApart(readPos, i, len + j, size);
        SlotFrom(readPos, len, j, size);
      }
    }

    lemma Appended(was: Bytes, data: Bytes)
      requires Valid() && Len() == |was| + |data|
      requires forall i :: 0 <= i < |was| ==> buf[Slot(readPos, i, size)] == was[i]
      requires forall i :: |was| <= i < |was| + |data| ==> buf[Slot(readPos, i, size)] == data[i - |was|]
      ensures Contents() == was + data
    {
      forall i | 0 <= i < Len()
        ensures Contents()[i] == (was + data)[i]
      {
      }
    }

    /** The two memcpy calls of rb_read. */
    method CopyOut(r: nat, sz: nat) returns (out: Bytes)
      requires Valid() && r < size && sz <= size
      ensures |out| == sz && forall j :: 0 <= j < sz ==> out[j] == buf[Slot(r, j, size)]
    {
      var i := Min(sz, size - r);
      out := buf[r..r + i] + buf[..sz - i];
      forall j | 0 <= j < sz
        ensures Slot(r, j, size) == if j < i then r + j else j - i
      {
        SlotNear(r, j, size);
      }
    }

    /** rb_read: as many bytes as there are, up to sz. */
    method Read(sz0: u32) returns (n: u32, out: Bytes)
      requires Valid()
      modifies this`readPos
      ensures Valid() && size == old(size) && buf == old(buf)
      ensures n == Min(sz0, old(Len())) && out == old(Contents())[..n] && Contents() == old(Contents())[n..]
    {
      if readPos == writePos {
        return 0, [];
      }
      ghost var was, from := Contents(), readPos;
      var sz := Min(sz0, Len());
      var r := Masked(readPos);
      out := CopyOut(r, sz);
      forall j | 0 <= j < sz
        ensures out[j] == was[j]
      {
        SlotFrom(readPos, 0, j, size);
      }
      readPos := Add(readPos, sz);
      n := sz;
      ReadSlots(from, sz, readPos, size);
      assert Contents() == was[n..];
    }

    lemma ReadSlots(from: u32, sz: u32, to: u32, size: int)
      requires Capacity(size) && to == Add(from, sz)
      ensures forall i: int :: Slot(to, i, size) == Slot(from, sz + i, size)
    {
      WrapSlot(from, sz, size);
      forall i: int
        ensures Slot(to, i, size) == Slot(from, sz + i, size)
      {
        ModAdd(to, i, size);
        ModAdd(from + sz, i, size);
      }
    }
  }
}
