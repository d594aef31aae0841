/** Bitwise and, powers of two and remainders of unbounded unsigned numbers. */
module Bits {
  /** Bitwise and of two unsigned numbers. */
  function And(a: nat, b: nat): (r: nat)
    decreases a
  {
    if a == 0 || b == 0 then 0 else 2 * And(a / 2, b / 2) + (a % 2) * (b % 2)
  }

  function Pow2(k: nat): (p: nat)
    ensures p >= 1
  {
    if k == 0 then 1 else 2 * Pow2(k - 1)
  }

  lemma {:induction false} Pow2Less(i: nat, j: nat)
    requires i < j
    ensures 2 * Pow2(i) <= Pow2(j)
    decreases j
  {
    if i < j - 1 {
      Pow2Less(i, j - 1);
    }
  }

  ghost predicate Power(n: nat) { exists k: nat :: n == Pow2(k) }

  lemma DoublePower(h: nat)
    requires h >= 1
    ensures Power(2 * h) <==> Power(h)
    ensures !Power(2 * h + 1)
  {
    if Power(h) {
      var k: nat :| h == Pow2(k);
      assert 2 * h == Pow2(k + 1);
    }
    if Power(2 * h) {
      var k: nat :| 2 * h == Pow2(k);
      assert h == Pow2(k - 1);
    }
    forall k: nat
      ensures 2 * h + 1 != Pow2(k)
    {
      if k > 0 { assert Pow2(k) == 2 * Pow2(k - 1); }
    }
  }

  /** The test of is_power_of_two. */
  lemma {:induction false} AndSelfLess(n: nat)
    requires n >= 1
    ensures And(n, n - 1) == 0 <==> Power(n)
    decreases n
  {
    var h := n / 2;
    if n == 1 {
      assert n == Pow2(0);
    } else if n % 2 == 1 {
      AndSelf(h);
      assert (n - 1) / 2 == h;
      DoublePower(h);
    } else {
      AndSelfLess(h);
      assert (n - 1) / 2 == h - 1;
      DoublePower(h);
    }
  }

  lemma {:induction false} AndSelf(n: nat)
    ensures And(n, n) == n
  {
    if n > 0 {
      AndSelf(n / 2);
    }
  }

  /** The number made of the k lowest bits. */
  function LowBits(a: nat, k: nat): nat
  {
    if k == 0 then 0 else 2 * LowBits(a / 2, k - 1) + a % 2
  }

  lemma {:induction false} LowBitsIsMod(a: nat, k: nat)
    ensures LowBits(a, k) == a % Pow2(k)
    decreases k
  {
    if k > 0 {
      LowBitsIsMod(a / 2, k - 1);
      HalfMod(a, Pow2(k - 1));
    }
  }

  lemma {:induction false} MaskIsLowBits(a: nat, k: nat)
    ensures And(a, Pow2(k) - 1) == LowBits(a, k)
    decreases k
  {
    if k > 0 {
      MaskIsLowBits(a / 2, k - 1);
      if a > 0 {
        AndOdd(a, Pow2(k - 1) - 1);
      } else {
        assert LowBits(0 / 2, k - 1) == And(0, Pow2(k - 1) - 1);
      }
    }
  }

  /** Masking with one less than a power of two is the remainder. */
  lemma MaskIsMod(a: nat, k: nat)
    ensures And(a, Pow2(k) - 1) == a % Pow2(k)
  {
    MaskIsLowBits(a, k);
    LowBitsIsMod(a, k);
  }

  lemma {:induction false} AndOdd(a: nat, m: nat)
    requires a > 0
    ensures And(a, 2 * m + 1) == 2 * And(a / 2, m) + a % 2
  {
    assert (2 * m + 1) / 2 == m && (2 * m + 1) % 2 == 1;
  }

  lemma HalfMod(a: nat, p: nat)
    requires p > 0
    ensures a % (2 * p) == 2 * ((a / 2) % p) + a % 2
  {
    var q := (a / 2) / p;
    var r := (a / 2) % p;
    assert a == (2 * p) * q + (2 * r + a % 2) by {
      assert a == 2 * (q * p + r) + a % 2;
    }
    ModIs(a, 2 * p, q, 2 * r + a % 2);
  }

  lemma ModIs(a: int, m: int, q: int, r: int)
    requires m > 0 && a == m * q + r && 0 <= r < m
    ensures a % m == r
  {
    var d := q - a / m;
    assert m * d == a % m - r;
    Multiples(m, d);
  }

  lemma Multiples(m: int, d: int)
    requires m > 0
    ensures d >= 1 ==> m * d >= m
    ensures d <= -1 ==> m * d <= -m
  {
  }
}
