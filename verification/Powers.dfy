/** Powers of two, shifts, and remainders. */
module Powers {

  function Pow2(n: nat): (p: nat)
    ensures 1 <= p
  {
    if n == 0 then 1 else 2 * Pow2(n - 1)
  }

  /** k << n. */
  function Doubled(k: nat, n: nat): nat { if n == 0 then k else 2 * Doubled(k, n - 1) }

  lemma Pow2Small()
    ensures Pow2(0) == 1 && Pow2(1) == 2 && Pow2(2) == 4 && Pow2(3) == 8 && Pow2(4) == 16
    ensures Pow2(5) == 32 && Pow2(6) == 64 && Pow2(7) == 128 && Pow2(8) == 256
  {
  }

  lemma Pow2Values()
    ensures Pow2(2) == 4 && Pow2(6) == 64 && Pow2(7) == 128 && Pow2(26) == 0x400_0000
    ensures Pow2(28) == 0x1000_0000 && Pow2(30) == 0x4000_0000 && Pow2(31) == 0x8000_0000 && Pow2(32) == 0x1_0000_0000
  {
    Pow2Small();
    assert Pow2(10) == 1024;
    assert Pow2(14) == 0x4000;
    assert Pow2(18) == 0x4_0000;
    assert Pow2(22) == 0x40_0000;
  }

  lemma {:induction false} Pow2Add(m: nat, n: nat)
    ensures Pow2(m + n) == Pow2(m) * Pow2(n)
  {
    if m != 0 {
      Pow2Add(m - 1, n);
      Regroup(2, Pow2(m - 1), Pow2(n));
    }
  }

  lemma {:induction false} Pow2Mono(m: nat, n: nat)
    requires m <= n
    ensures Pow2(m) <= Pow2(n)
    decreases n
  {
    if m < n {
      Pow2Mono(m, n - 1);
    }
  }

  lemma PowPositive(k: nat)
    ensures 1 <= Pow2(k)
  {
  }

  lemma {:induction false} DoubledIsTimes(k: nat, n: nat)
    ensures Doubled(k, n) == k * Pow2(n)
  {
    if n != 0 {
      DoubledIsTimes(k, n - 1);
      Regroup(2, k, Pow2(n - 1));
      Regroup(k, 2, Pow2(n - 1));
    }
  }

  lemma {:induction false} DoubledMono(a: nat, b: nat, n: nat)
    requires a <= b
    ensures Doubled(a, n) <= Doubled(b, n)
    ensures a < b ==> Doubled(a, n) < Doubled(b, n)
  {
    if n != 0 {
      DoubledMono(a, b, n - 1);
    }
  }

  lemma {:induction false} DoubledGrows(k: nat, m: nat, n: nat)
    requires m <= n
    ensures Doubled(k, m) <= Doubled(k, n)
    decreases n
  {
    if m < n {
      DoubledGrows(k, m, n - 1);
    }
  }

  lemma {:induction false} DoubledAbove(k: nat, n: nat)
    ensures k <= Doubled(k, n) && (1 <= n ==> 2 * k <= Doubled(k, n))
    ensures 1 <= k ==> Pow2(n) <= Doubled(k, n)
  {
    if n != 0 {
      DoubledAbove(k, n - 1);
    }
  }

  lemma {:induction false} DoubledTwice(k: nat, m: nat, n: nat)
    ensures Doubled(Doubled(k, m), n) == Doubled(k, m + n)
  {
    if n != 0 {
      DoubledTwice(k, m, n - 1);
    }
  }

  lemma {:induction false} DoubledSum(a: nat, b: nat, n: nat)
    ensures Doubled(a + b, n) == Doubled(a, n) + Doubled(b, n)
  {
    if n != 0 {
      DoubledSum(a, b, n - 1);
    }
  }

  lemma {:induction false} DoubledShift(k: nat, n: nat)
    ensures Doubled(2 * k, n) == 2 * Doubled(k, n) == Doubled(k, n + 1)
  {
    if n != 0 {
      DoubledShift(k, n - 1);
    }
  }

  // ---------- Quotients and remainders ----------

  lemma Regroup(a: nat, b: nat, c: nat)
    ensures (a * b) * c == a * (b * c) == b * (a * c)
  {
  }

  lemma Quotient(x: nat, m: nat)
    requires 0 < m
    ensures x == x / m * m + x % m && x % m <= m - 1
  {
  }

  lemma DivBelow(x: nat, b: nat, c: nat)
    requires 0 < c && x < b * c
    ensures x / c < b
  {
  }

  lemma CancelAtMost(a: nat, b: nat, p: nat)
    requires 1 <= p && a * p <= b * p
    ensures a <= b
  {
    var d := a - b;
    assert d * p == a * p - b * p;
    assert d > 0 ==> d * p >= 1;
  }

  lemma ModOfSum(q: nat, m: nat, x: nat)
    requires x < m
    ensures (q * m + x) % m == x && (q * m + x) / m == q
  {
    var y := q * m + x;
    var d := y / m - q;
    assert y == m * (y / m) + y % m;
    assert m * (y / m) - q * m == m * d;
  }

  lemma Distribute(a: nat, b: nat, p: nat)
    ensures (a + b) * p == a * p + b * p
  {
  }

  lemma TimesMono(a: nat, b: nat, p: nat)
    requires a <= b
    ensures p * a <= p * b
  {
  }

  lemma TimesOut(h: nat, b: nat, l: nat, a: nat)
    ensures (h * b + l) * a == h * (a * b) + l * a
  {
    Regroup(h, b, a);
  }

  lemma BelowProduct(l: nat, b: nat, r: nat, a: nat)
    requires l < b && r < a
    ensures l * a + r < a * b
  {
    assert (l + 1) * a <= b * a;
  }

  lemma DivDiv(v: nat, a: nat, b: nat)
    requires 1 <= a && 1 <= b
    ensures v / (a * b) == v / a / b
  {
    Quotient(v, a);
    Quotient(v / a, b);
    var h, l, r := v / a / b, v / a % b, v % a;
    assert v == (h * b + l) * a + r;
    TimesOut(h, b, l, a);
    BelowProduct(l, b, r, a);
    ModOfSum(h, a * b, l * a + r);
  }

  lemma HalfOfQuotient(b: nat, m: nat)
    requires 0 < m
    ensures b / m == 2 * (b / (2 * m)) + b / m % 2
  {
    DivDiv(b, m, 2);
  }
}
