/** The error correction bytes of a CD sector (ECMA-130, Annex A): a Reed-Solomon product code over GF(256), with the
    polynomial 0x11d. */
module CdEcc {

  // ---------- The field ----------

  /** The sum of field elements. */
  function Add(x: bv8, y: bv8): bv8 { x ^ y }

  /** Twice a field element: the table ecclow. */
  function Twice(x: bv8): bv8 { (x << 1) ^ (x >> 7) ^ ((x >> 7) << 2) ^ ((x >> 7) << 3) ^ ((x >> 7) << 4) }

  /** y if bit i of x is set, and 0 otherwise. */
  function Bit(x: bv8, i: bv8, y: bv8): bv8
    requires i < 8
  {
    y & (0 - ((x >> i) & 1))
  }

  /** A third of it: the table ecchigh. */
  function Third(x: bv8): bv8 {
    Bit(x, 0, 0xf4) ^ Bit(x, 1, 0xf5) ^ Bit(x, 2, 0xf7) ^ Bit(x, 3, 0xf3) ^ Bit(x, 4, 0xfb) ^ Bit(x, 5, 0xeb) ^ Bit(x, 6, 0xcb) ^ Bit(x, 7, 0x8b)
  }

  /** Multiplication by x modulo x^8 + x^4 + x^3 + x^2 + 1: what falls out at the top comes back as 0x1d. */
  lemma TwiceIs(x: bv8)
    ensures Twice(x) == if x < 0x80 then x + x else Add((x - 0x80) + (x - 0x80), 0x1d)
  {
  }

  lemma TwiceLinear(x: bv8, y: bv8)
    ensures Twice(Add(x, y)) == Add(Twice(x), Twice(y))
  {
  }

  lemma TwiceInjective(x: bv8, y: bv8)
    requires Twice(x) == Twice(y)
    ensures x == y
  {
  }

  /** The third is the one number of which it is the third. */
  lemma ThirdIs(x: bv8, y: bv8)
    ensures Third(x) == y <==> Add(Twice(y), y) == x
  {
  }

  function Times(x: bv8, k: nat): bv8 { if k == 0 then x else Twice(Times(x, k - 1)) }

  function Times8(x: bv8): bv8 { Twice(Twice(Twice(Twice(Twice(Twice(Twice(Twice(x)))))))) }

  lemma {:induction false} TimesSum(x: bv8, j: nat, k: nat)
    ensures Times(Times(x, j), k) == Times(x, j + k)
    decreases k
  {
    if k != 0 {
      TimesSum(x, j, k - 1);
    }
  }

  lemma {:induction false} TimesInjective(x: bv8, y: bv8, k: nat)
    requires Times(x, k) == Times(y, k)
    ensures x == y
  {
    if k != 0 {
      TwiceInjective(Times(x, k - 1), Times(y, k - 1));
      TimesInjective(x, y, k - 1);
    }
  }

  lemma TimesUpToEight(x: bv8)
    ensures Times(x, 1) == Twice(x) && Times(x, 2) == Twice(Twice(x)) && Times(x, 3) == Twice(Twice(Twice(x)))
    ensures Times(x, 4) == Twice(Twice(Twice(Twice(x)))) && Times(x, 5) == Twice(Twice(Twice(Twice(Twice(x)))))
    ensures Times(x, 6) == Twice(Twice(Twice(Twice(Twice(Twice(x)))))) && Times(x, 7) == Twice(Twice(Twice(Twice(Twice(Twice(Twice(x)))))))
    ensures Times(x, 8) == Twice(Twice(Twice(Twice(Twice(Twice(Twice(Twice(x))))))))
  {
    hide Twice;
    assert Times(x, 0) == x;
    assert Times(x, 1) == Twice(Times(x, 0));
    assert Times(x, 2) == Twice(Times(x, 1));
    assert Times(x, 3) == Twice(Times(x, 2));
    assert Times(x, 4) == Twice(Times(x, 3));
    assert Times(x, 5) == Twice(Times(x, 4));
    assert Times(x, 6) == Twice(Times(x, 5));
    assert Times(x, 7) == Twice(Times(x, 6));
    assert Times(x, 8) == Twice(Times(x, 7));
  }

  lemma NextEight(x: bv8, k: nat)
    ensures Times(x, 0) == x && Times(x, k + 8) == Times8(Times(x, k))
  {
    hide Twice;
    TimesUpToEight(Times(x, k));
    TimesSum(x, k, 8);
  }

  /** None of the next four, or eight, doublings of y is x. */
  predicate FourDiffer(x: bv8, y: bv8) {
    x != Twice(y) && x != Twice(Twice(y)) && x != Twice(Twice(Twice(y))) && x != Twice(Twice(Twice(Twice(y))))
  }

  predicate EightDiffer(x: bv8, y: bv8) { FourDiffer(x, y) && FourDiffer(x, Twice(Twice(Twice(Twice(y))))) }

  lemma NoCycle0(x: bv8)
    requires x != 0
    ensures EightDiffer(x, x)
  {
  }

  lemma NoCycle1(x: bv8)
    requires x != 0
    ensures EightDiffer(x, Times8(x))
  {
  }

  lemma NoCycle2(x: bv8)
    requires x != 0
    ensures EightDiffer(x, Times8(Times8(x)))
  {
  }

  lemma NoCycle3(x: bv8)
    requires x != 0
    ensures EightDiffer(x, Times8(Times8(Times8(x))))
  {
  }

  lemma NoCycle4(x: bv8)
    requires x != 0
    ensures EightDiffer(x, Times8(Times8(Times8(Times8(x)))))
  {
  }

  lemma NoCycle5(x: bv8)
    requires x != 0
    ensures FourDiffer(x, Times8(Times8(Times8(Times8(Times8(x))))))
  {
  }

  /** Doubling up to 44 times does not lead back. */
  lemma NoShortCycle(x: bv8, k: nat)
    requires x != 0 && 1 <= k <= 44
    ensures Times(x, k) != x
  {
    hide Twice, Times, Times8;
    var base := (k - 1) / 8 * 8;
    assert base in {0, 8, 16, 24, 32, 40};
    NextEight(x, 0);
    NextEight(x, 8);
    NextEight(x, 16);
    NextEight(x, 24);
    NextEight(x, 32);
    NoCycle0(x);
    NoCycle1(x);
    NoCycle2(x);
    NoCycle3(x);
    NoCycle4(x);
    NoCycle5(x);
    assert FourDiffer(x, Times(x, base)) && (k <= 40 ==> EightDiffer(x, Times(x, base)));
    TimesUpToEight(Times(x, base));
    NextEight(x, base);
    TimesSum(x, base, k - base);
  }

  // ---------- Code words ----------

  lemma AddGroups(a: bv8, b: bv8, c: bv8)
    ensures Add(Add(a, b), c) == Add(a, Add(b, c))
    ensures Add(Add(a, b), c) == Add(Add(a, c), b)
  {
  }

  lemma AddUnits(a: bv8)
    ensures Add(a, 0) == a && Add(0, a) == a && Add(a, a) == 0
  {
  }

  lemma AddBack(a: bv8, b: bv8)
    ensures Add(a, Add(a, b)) == b
    ensures Add(a, b) == 0 <==> a == b
  {
  }

  lemma AddFacts(a: bv8, b: bv8, c: bv8)
    ensures Add(Add(a, b), c) == Add(a, Add(b, c)) == Add(Add(a, c), b)
    ensures Add(a, 0) == a && Add(0, a) == a && Add(a, a) == 0 && Add(a, Add(a, b)) == b
    ensures Add(a, b) == 0 <==> a == b
  {
    hide Add;
    AddGroups(a, b, c);
    AddUnits(a);
    AddBack(a, b);
  }

  /** The value of the polynomial with these coefficients at 2, the last one being the constant term. */
  function Eval(c: seq<bv8>): bv8 {
    if c == [] then 0 else Add(Twice(Eval(c[..|c| - 1])), c[|c| - 1])
  }

  /** And its value at 1. */
  function Sum(c: seq<bv8>): bv8 {
    if c == [] then 0 else Add(Sum(c[..|c| - 1]), c[|c| - 1])
  }

  /** A code word of the Reed-Solomon code: both parity equations hold. */
  predicate IsWord(c: seq<bv8>) { Sum(c) == 0 && Eval(c) == 0 }

  /** The two bytes that complete `d`, as ecc_compute_bytes computes them. */
  function Parity(d: seq<bv8>): (bv8, bv8) {
    var p := Third(Add(Twice(Twice(Eval(d))), Sum(d)));
    (p, Add(Sum(d), p))
  }

  lemma SumAppend(c: seq<bv8>, b: bv8)
    ensures Sum(c + [b]) == Add(Sum(c), b) && Eval(c + [b]) == Add(Twice(Eval(c)), b)
  {
    hide Add, Twice;
    assert (c + [b])[..|c|] == c;
  }

  /** Both equations, solved for the two parity bytes. */
  lemma Solved(s: bv8, e: bv8, t: bv8, p: bv8, q: bv8)
    ensures Add(Add(s, p), q) == 0 && Add(Add(e, t), q) == 0 <==> q == Add(s, p) && Add(t, p) == Add(e, s)
  {
    hide Add;
    AddBack(Add(s, p), q);
    AddBack(Add(e, t), q);
    SidesChanged(e, t, s, p);
  }

  lemma SidesChanged(e: bv8, t: bv8, s: bv8, p: bv8)
    ensures Add(e, t) == Add(s, p) <==> Add(t, p) == Add(e, s)
  {
    hide Add;
    AddBack(Add(e, t), Add(s, p));
    AddBack(Add(t, p), Add(e, s));
    Shuffled(e, t, s, p);
  }

  lemma Shuffled(e: bv8, t: bv8, s: bv8, p: bv8)
    ensures Add(Add(e, t), Add(s, p)) == Add(Add(t, p), Add(e, s))
  {
  }

  /** They are the only two that make it a code word. */
  lemma ParityCompletes(d: seq<bv8>, p: bv8, q: bv8)
    ensures IsWord(d + [p, q]) <==> (p, q) == Parity(d)
  {
    hide Twice, Third, Add, Sum, Eval;
    assert d + [p, q] == (d + [p]) + [q];
    SumAppend(d, p);
    SumAppend(d + [p], q);
    TwiceLinear(Twice(Eval(d)), p);
    Solved(Sum(d), Twice(Twice(Eval(d))), Twice(p), p, q);
    ThirdIs(Add(Twice(Twice(Eval(d))), Sum(d)), p);
  }

  lemma WordUnfolds(c: seq<bv8>)
    requires c != []
    ensures Sum(c) == Add(Sum(c[..|c| - 1]), c[|c| - 1]) && Eval(c) == Add(Twice(Eval(c[..|c| - 1])), c[|c| - 1])
  {
    hide Add, Twice;
  }

  lemma TimesUnfolds(x: bv8, k: nat)
    ensures Times(x, k + 1) == Twice(Times(x, k)) && Times(x, 0) == x
  {
    hide Twice;
  }

  /** What an error of e at place i does to the two values. */
  lemma {:induction false} ErrorAt(c: seq<bv8>, i: nat, e: bv8)
    requires i < |c|
    ensures Sum(c[i := Add(c[i], e)]) == Add(Sum(c), e)
    ensures Eval(c[i := Add(c[i], e)]) == Add(Eval(c), Times(e, |c| - 1 - i))
    decreases |c|
  {
    hide Twice, Add, Sum, Eval, Times;
    var n := |c| - 1;
    var c' := c[i := Add(c[i], e)];
    WordUnfolds(c);
    WordUnfolds(c');
    if i == n {
      assert c'[..n] == c[..n];
      TimesUnfolds(e, 0);
      AddFacts(Sum(c[..n]), c[n], e);
      AddFacts(Twice(Eval(c[..n])), c[n], e);
    } else {
      assert c'[..n] == c[..n][i := Add(c[i], e)];
      ErrorAt(c[..n], i, e);
      TwiceLinear(Eval(c[..n]), Times(e, n - 1 - i));
      TimesUnfolds(e, n - 1 - i);
      AddFacts(Sum(c[..n]), c[n], e);
      AddFacts(Twice(Eval(c[..n])), c[n], Times(e, n - i));
    }
  }

  /** Two errors cannot cancel in both equations. */
  lemma NoTwoCancel(e: bv8, j: nat, k: nat)
    requires e != 0 && k < j <= k + 44
    ensures Times(e, j) != Times(e, k)
  {
    hide Times;
    if Times(e, j) == Times(e, k) {
      TimesSum(e, j - k, k);
      TimesInjective(Times(e, j - k), e, k);
      NoShortCycle(e, j - k);
    }
  }

  lemma NotCancelled(e: bv8, j: nat, k: nat)
    requires e != 0 && j != k && j <= 44 && k <= 44
    ensures Times(e, j) != Times(e, k)
  {
    hide Times;
    if k < j {
      NoTwoCancel(e, j, k);
    } else {
      NoTwoCancel(e, k, j);
    }
  }

  lemma NotZero(e: bv8, k: nat)
    requires Times(e, k) == 0
    ensures e == 0
  {
    ZeroTimes(k);
    TimesInjective(e, 0, k);
  }

  lemma ZeroTimes(k: nat)
    ensures Times(0, k) == 0
  {
  }

  /** Any change of one or two bytes of a code word is detected. */
  lemma TwoErrorsDetected(c: seq<bv8>, c': seq<bv8>, i: nat, j: nat)
    requires IsWord(c) && |c| == |c'| <= 45 && i < |c| && j < |c| && c != c'
    requires forall k :: 0 <= k < |c| && k != i && k != j ==> c[k] == c'[k]
    ensures !IsWord(c')
  {
    hide Sum, Eval, Times, Add;
    var e, f := Add(c[i], c'[i]), Add(c[j], c'[j]);
    var a, b := |c| - 1 - i, |c| - 1 - j;
    AddFacts(c[i], c'[i], 0);
    AddFacts(c[j], c'[j], 0);
    var d := c[i := Add(c[i], e)];
    ErrorAt(c, i, e);
    AddFacts(e, f, 0);
    AddFacts(Times(e, a), Times(f, b), 0);
    if i == j || e == 0 {
      OneError(c, c', if e == 0 then j else i);
    } else {
      assert c' == d[j := Add(d[j], f)];
      ErrorAt(d, j, f);
      if e == f {
        NotCancelled(e, a, b);
      }
    }
  }

  lemma OneError(c: seq<bv8>, c': seq<bv8>, i: nat)
    requires IsWord(c) && |c| == |c'| && i < |c| && c != c'
    requires forall k :: 0 <= k < |c| && k != i ==> c[k] == c'[k]
    ensures !IsWord(c')
  {
    hide Sum, Eval, Times, Add;
    var e := Add(c[i], c'[i]);
    AddFacts(c[i], c'[i], 0);
    assert c' == c[i := Add(c[i], e)];
    ErrorAt(c, i, e);
    AddFacts(e, 0, 0);
  }
}
