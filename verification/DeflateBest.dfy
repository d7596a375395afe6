/** A code for the symbols that occur, seen from the whole alphabet: what it costs, and that none is better. */
module DeflateBest {
  import opened CodeCosts
  import opened CodeLengths
  import opened DeflateJoins
  import opened DeflateSort
  import opened DeflateTies
  import opened Powers

  // ---------- The symbols that occur ----------

  ghost predicate SymsDiffer(s: seq<SymFreq>) { forall i, k :: 0 <= i < k < |s| ==> s[i].sym != s[k].sym }

  /** Symbols of an alphabet of n. */
  ghost predicate SymsBelow(s: seq<SymFreq>, n: nat) { forall i :: 0 <= i < |s| ==> s[i].sym < n }

  ghost predicate Present(s: seq<SymFreq>, x: nat) { exists i :: 0 <= i < |s| && s[i].sym == x }

  /** s has all symbols that occur, with how often they do. */
  ghost predicate AllSymbols(counts: seq<nat>, s: seq<SymFreq>) {
    && SymsBelow(s, |counts|) && SymsDiffer(s)
    && (forall i :: 0 <= i < |s| ==> s[i].key == counts[s[i].sym] > 0)
    && (forall x :: 0 <= x < |counts| && counts[x] > 0 ==> Present(s, x))
  }

  /** The lengths of these symbols. */
  function LengthsOf(l: seq<nat>, s: seq<SymFreq>): (r: seq<nat>)
    requires SymsBelow(s, |l|)
    ensures |r| == |s| && forall i :: 0 <= i < |s| ==> r[i] == l[s[i].sym]
  {
    seq(|s|, i requires 0 <= i < |s| => l[s[i].sym])
  }

  /** How much of 2^m codes of m bits the symbols that occur take. */
  function SpaceFor(counts: seq<nat>, l: seq<nat>, m: nat): nat
    requires |l| == |counts|
  {
    if l == [] then 0
    else
      var n := |l| - 1;
      SpaceFor(counts[..n], l[..n], m) + if counts[n] > 0 && l[n] <= m then Pow2(m - l[n]) else 0
  }

  /** Lengths of codes for the symbols that occur, no code the beginning of another. */
  ghost predicate FeasibleFor(counts: seq<nat>, l: seq<nat>, m: nat) {
    |l| == |counts| && (forall x :: 0 <= x < |l| && counts[x] > 0 ==> l[x] <= m) && SpaceFor(counts, l, m) <= Pow2(m)
  }

  /** No code for the symbols that occur makes the text shorter. */
  ghost predicate BestFor(counts: seq<nat>, sizes: seq<nat>) {
    && |sizes| == |counts|
    && forall l: seq<nat>, m: nat :: FeasibleFor(counts, l, m) ==> Cost(counts, sizes) <= Cost(counts, l)
  }

  // ---------- One symbol less ----------

  lemma {:induction false} CostForget(w: seq<nat>, l: seq<nat>, x: nat)
    requires |w| == |l| && x < |w|
    ensures Cost(w, l) == Cost(w[x := 0], l) + w[x] * l[x]
    decreases |l|
  {
    var n := |l| - 1;
    if x == n {
      assert w[x := 0][..n] == w[..n];
    } else {
      assert w[x := 0][..n] == w[..n][x := 0];
      CostForget(w[..n], l[..n], x);
    }
  }

  lemma {:induction false} SpaceForget(w: seq<nat>, l: seq<nat>, m: nat, x: nat)
    requires |w| == |l| && x < |w| && w[x] > 0
    ensures SpaceFor(w, l, m) == SpaceFor(w[x := 0], l, m) + if l[x] <= m then Pow2(m - l[x]) else 0
    decreases |l|
  {
    hide Pow2;
    var n := |l| - 1;
    if x == n {
      assert w[x := 0][..n] == w[..n];
    } else {
      assert w[x := 0][..n] == w[..n][x := 0];
      SpaceForget(w[..n], l[..n], m, x);
    }
  }

  lemma OneForgotten(counts: seq<nat>, s: seq<SymFreq>)
    requires AllSymbols(counts, s) && s != []
    ensures s[|s| - 1].sym < |counts| && AllSymbols(counts[s[|s| - 1].sym := 0], s[..|s| - 1])
  {
    var n := |s| - 1;
    var x := s[n].sym;
    forall y | 0 <= y < |counts| && y != x && Present(s, y)
      ensures Present(s[..n], y)
    {
      var i :| 0 <= i < |s| && s[i].sym == y;
      assert s[..n][i].sym == y;
    }
  }

  lemma {:induction false} NothingToCode(counts: seq<nat>, l: seq<nat>, m: nat)
    requires |l| == |counts| && forall x :: 0 <= x < |counts| ==> counts[x] == 0
    ensures Cost(counts, l) == 0 && SpaceFor(counts, l, m) == 0
    decreases |l|
  {
    if l != [] {
      NothingToCode(counts[..|l| - 1], l[..|l| - 1], m);
    }
  }

  /** Cost and space are those of the symbols that occur, in whatever order. */
  lemma {:induction false} Gathered(counts: seq<nat>, s: seq<SymFreq>, l: seq<nat>, m: nat)
    requires AllSymbols(counts, s) && |l| == |counts|
    ensures Cost(counts, l) == Cost(Keys(s), LengthsOf(l, s)) && SpaceFor(counts, l, m) == Space(LengthsOf(l, s), m)
    decreases |s|
  {
    hide Pow2, Cost, Space, SpaceFor, AllSymbols;
    SymbolsAre(counts, s);
    if s == [] {
      NothingToCode(counts, l, m);
      NoneToCode(m);
    } else {
      var n := |s| - 1;
      var x := s[n].sym;
      OneForgotten(counts, s);
      Gathered(counts[x := 0], s[..n], l, m);
      CostForget(counts, l, x);
      SpaceForget(counts, l, m, x);
      assert Keys(s)[..n] == Keys(s[..n]) && LengthsOf(l, s)[..n] == LengthsOf(l, s[..n]);
      LastOne(Keys(s), LengthsOf(l, s), m);
    }
  }

  lemma SymbolsAre(counts: seq<nat>, s: seq<SymFreq>)
    requires AllSymbols(counts, s)
    ensures SymsBelow(s, |counts|) && SymsDiffer(s)
    ensures s == [] ==> forall x :: 0 <= x < |counts| ==> counts[x] == 0
    ensures s != [] ==> s[|s| - 1].key == counts[s[|s| - 1].sym] > 0
  {
    if s == [] {
      forall x | 0 <= x < |counts|
        ensures counts[x] == 0
      {
        assert !Present(s, x);
      }
    }
  }

  lemma NoneToCode(m: nat)
    ensures Cost([], []) == 0 && Space([], m) == 0
  {
  }

  lemma LastOne(w: seq<nat>, l: seq<nat>, m: nat)
    requires |w| == |l| > 0
    ensures Cost(w, l) == Cost(w[..|l| - 1], l[..|l| - 1]) + w[|l| - 1] * l[|l| - 1]
    ensures Space(l, m) == Space(l[..|l| - 1], m) + if l[|l| - 1] <= m then Pow2(m - l[|l| - 1]) else 0
  {
    hide Pow2;
  }

  // ---------- Lengths in descending order ----------

  ghost predicate Descending(a: seq<nat>) { forall i, k :: 0 <= i <= k < |a| ==> a[k] <= a[i] }

  lemma {:induction false} HistoOfSome(a: seq<nat>, k: nat)
    requires k < |a|
    ensures 1 <= Histo(a, a[k])
    decreases |a|
  {
    if k < |a| - 1 {
      HistoOfSome(a[..|a| - 1], k);
    }
  }

  lemma {:induction false} SomeOfHisto(a: seq<nat>, l: nat) returns (k: nat)
    requires 1 <= Histo(a, l)
    ensures k < |a| && a[k] == l
    decreases |a|
  {
    if a[|a| - 1] == l {
      k := |a| - 1;
    } else {
      k := SomeOfHisto(a[..|a| - 1], l);
    }
  }

  lemma NoneSuch(a: seq<nat>, l: nat)
    requires forall i :: 0 <= i < |a| ==> a[i] != l
    ensures Histo(a, l) == 0
  {
    hide Histo;
    if 1 <= Histo(a, l) {
      var k := SomeOfHisto(a, l);
    }
  }

  lemma {:induction false} HistoUpdate(d: seq<nat>, k: nat, v: nat, l: nat)
    requires k < |d|
    ensures Histo(d[k := v], l) + (if d[k] == l then 1 else 0) == Histo(d, l) + if v == l then 1 else 0
    decreases |d|
  {
    var n := |d| - 1;
    if k == n {
      assert d[k := v][..n] == d[..n];
    } else {
      assert d[k := v][..n] == d[..n][k := v];
      HistoUpdate(d[..n], k, v, l);
    }
  }

  /** Lengths in descending order are known once it is known how many there are of each. */
  lemma {:induction false} SameLengths(a: seq<nat>, b: seq<nat>)
    requires |a| == |b| && Descending(a) && Descending(b) && forall l :: 0 <= l ==> Histo(a, l) == Histo(b, l)
    ensures a == b
    decreases |a|
  {
    hide Histo;
    if a != [] {
      var n := |a| - 1;
      HistoOfSome(a, n);
      HistoOfSome(b, n);
      var i := SomeOfHisto(b, a[n]);
      var k := SomeOfHisto(a, b[n]);
      assert a[n] == b[n];
      forall l | 0 <= l
        ensures Histo(a[..n], l) == Histo(b[..n], l)
      {
        HistoLast(a, l);
        HistoLast(b, l);
      }
      SameLengths(a[..n], b[..n]);
      assert a == a[..n] + [a[n]] && b == b[..n] + [b[n]];
    }
  }

  lemma HistoLast(a: seq<nat>, l: nat)
    requires a != []
    ensures Histo(a, l) == Histo(a[..|a| - 1], l) + if a[|a| - 1] == l then 1 else 0
  {
  }

  /** Where only these symbols have lengths, they have as many of each as there are. */
  lemma {:induction false} TakenHisto(sizes: seq<nat>, s: seq<SymFreq>, l: nat)
    requires SymsBelow(s, |sizes|) && SymsDiffer(s) && 1 <= l
    requires forall x :: 0 <= x < |sizes| && sizes[x] > 0 ==> Present(s, x)
    ensures Histo(LengthsOf(sizes, s), l) == Histo(sizes, l)
    decreases |s|
  {
    hide Histo;
    if s == [] {
      forall x | 0 <= x < |sizes|
        ensures sizes[x] == 0
      {
        assert !Present(s, x);
      }
      NoneSuch(sizes, l);
      NoneSuch([], l);
    } else {
      var n := |s| - 1;
      var x := s[n].sym;
      StillPresent(sizes, s);
      TakenHisto(sizes[x := 0], s[..n], l);
      HistoUpdate(sizes, x, 0, l);
      assert LengthsOf(sizes, s)[..n] == LengthsOf(sizes[x := 0], s[..n]);
      HistoLast(LengthsOf(sizes, s), l);
    }
  }

  lemma StillPresent(sizes: seq<nat>, s: seq<SymFreq>)
    requires s != [] && SymsBelow(s, |sizes|) && forall x :: 0 <= x < |sizes| && sizes[x] > 0 ==> Present(s, x)
    ensures var sizes' := sizes[s[|s| - 1].sym := 0];
            forall x :: 0 <= x < |sizes'| && sizes'[x] > 0 ==> Present(s[..|s| - 1], x)
  {
    var n := |s| - 1;
    forall y | 0 <= y < |sizes| && y != s[n].sym && sizes[y] > 0
      ensures Present(s[..n], y)
    {
      var i :| 0 <= i < |s| && s[i].sym == y;
      assert s[..n][i].sym == y;
    }
  }

  // ---------- None is better ----------

  /** A code that is best for the weights alone is best for the alphabet. */
  lemma BestOfAll(counts: seq<nat>, s: seq<SymFreq>, sizes: seq<nat>)
    requires AllSymbols(counts, s) && |sizes| == |counts| && Cheapest(Keys(s), LengthsOf(sizes, s))
    ensures BestFor(counts, sizes)
  {
    hide Cost, Space, Pow2, SpaceFor;
    forall l: seq<nat>, m: nat | FeasibleFor(counts, l, m)
      ensures Cost(counts, sizes) <= Cost(counts, l)
    {
      Gathered(counts, s, l, m);
      Gathered(counts, s, sizes, m);
      assert Feasible(LengthsOf(l, s), m);
    }
  }

  // ---------- The least bits ----------

  /** 1 for the symbols that occur. */
  function Occurs(counts: seq<nat>): (r: seq<nat>)
    ensures |r| == |counts| && forall x :: 0 <= x < |counts| ==> r[x] == if counts[x] > 0 then 1 else 0
  {
    seq(|counts|, x requires 0 <= x < |counts| => if counts[x] > 0 then 1 else 0)
  }

  function Once(s: seq<SymFreq>): (r: seq<SymFreq>)
    ensures |r| == |s| && forall i :: 0 <= i < |s| ==> r[i] == SymFreq(1, s[i].sym)
  {
    seq(|s|, i requires 0 <= i < |s| => SymFreq(1, s[i].sym))
  }

  /** The bits that the codes of the symbols that occur have together. */
  function CodeBits(counts: seq<nat>, l: seq<nat>): nat
    requires |l| == |counts|
  {
    Cost(Occurs(counts), l)
  }

  /** Of the codes for the symbols that occur that make the text as short, none has less bits. */
  ghost predicate FlattestFor(counts: seq<nat>, sizes: seq<nat>) {
    && |sizes| == |counts|
    && forall l: seq<nat>, m: nat :: FeasibleFor(counts, l, m) && Cost(counts, l) <= Cost(counts, sizes) ==>
         CodeBits(counts, sizes) <= CodeBits(counts, l)
  }

  lemma {:induction false} CostOnce(w: seq<nat>, l: seq<nat>)
    requires |w| == |l| && forall i :: 0 <= i < |w| ==> w[i] == 1
    ensures Cost(w, l) == Sum(l)
    decreases |l|
  {
    hide Sum;
    SumLast(l);
    if l != [] {
      CostOnce(w[..|l| - 1], l[..|l| - 1]);
    }
  }

  lemma OnceAll(counts: seq<nat>, s: seq<SymFreq>)
    requires AllSymbols(counts, s)
    ensures AllSymbols(Occurs(counts), Once(s))
  {
    forall x | 0 <= x < |counts| && counts[x] > 0
      ensures Present(Once(s), x)
    {
      var i :| 0 <= i < |s| && s[i].sym == x;
      assert Once(s)[i].sym == x;
    }
  }

  /** The bits are the sum of the lengths. */
  lemma BitsGathered(counts: seq<nat>, s: seq<SymFreq>, l: seq<nat>)
    requires AllSymbols(counts, s) && |l| == |counts|
    ensures SymsBelow(s, |l|) && CodeBits(counts, l) == Sum(LengthsOf(l, s))
  {
    hide Cost, Sum, Pow2, SpaceFor, Space, Present;
    OnceAll(counts, s);
    Gathered(Occurs(counts), Once(s), l, 0);
    assert LengthsOf(l, Once(s)) == LengthsOf(l, s);
    CostOnce(Keys(Once(s)), LengthsOf(l, s));
  }

  lemma FlattestOfAll(counts: seq<nat>, s: seq<SymFreq>, sizes: seq<nat>)
    requires AllSymbols(counts, s) && |sizes| == |counts| && Flattest(Keys(s), LengthsOf(sizes, s))
    ensures FlattestFor(counts, sizes)
  {
    hide Cost, Space, Pow2, SpaceFor, CodeBits, Sum;
    forall l: seq<nat>, m: nat | FeasibleFor(counts, l, m) && Cost(counts, l) <= Cost(counts, sizes)
      ensures CodeBits(counts, sizes) <= CodeBits(counts, l)
    {
      Gathered(counts, s, l, m);
      Gathered(counts, s, sizes, m);
      BitsGathered(counts, s, l);
      BitsGathered(counts, s, sizes);
      assert Feasible(LengthsOf(l, s), m);
    }
  }
}
