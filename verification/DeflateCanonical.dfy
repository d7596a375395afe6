/** The two rules for the codes of DEFLATE (section 3.2.2 of RFC 1951): they are met, and no other codes meet them. */
module DeflateCanonical {
  import opened CodeLengths
  import opened CodeOrder
  import opened DeflateCodes
  import opened Powers

  /** Numbers for the symbols that count up within each length; the first of all is 0, and the first of a length is one more
      than the last of the length before it, with zeros added. */
  ghost predicate Canonical(sizes: seq<nat>, v: seq<nat>) {
    && |v| == |sizes|
    && (forall j :: 0 <= j < |sizes| && FirstShortest(sizes, j) ==> v[j] == 0)
    && (forall i, j :: 0 <= i < |sizes| && 0 <= j < |sizes| && NextAlike(sizes, i, j) ==> v[j] == v[i] + 1)
    && (forall i, j :: 0 <= i < |sizes| && 0 <= j < |sizes| && NextLonger(sizes, i, j) ==>
          v[j] == (v[i] + 1) * Pow2(sizes[j] - sizes[i]))
  }

  // ---------- No other numbers ----------

  lemma {:induction false} Determined(sizes: seq<nat>, v: seq<nat>, w: seq<nat>, j: nat)
    requires Canonical(sizes, v) && Canonical(sizes, w) && j < |sizes| && 1 <= sizes[j]
    ensures v[j] == w[j]
    decreases sizes[j], j
  {
    hide NextAlike, NextLonger, FirstShortest, Pow2;
    OneBefore(sizes, j);
    if FirstShortest(sizes, j) {
    } else if FirstAlike(sizes, j) {
      NoneNearer(sizes, j);
      var i := PreviousShorter(sizes, j, sizes[j] - 1);
      IsShorter(sizes, i, j);
      Determined(sizes, v, w, i);
    } else {
      var i := PreviousAlike(sizes, j, j);
      IsBefore(sizes, i, j);
      Determined(sizes, v, w, i);
    }
  }

  lemma NoneNearer(sizes: seq<nat>, j: nat)
    requires j < |sizes| && 1 <= sizes[j]
    ensures NoneWithin(sizes, sizes[j] - 1, sizes[j])
  {
  }

  lemma IsShorter(sizes: seq<nat>, i: nat, j: nat)
    requires NextLonger(sizes, i, j)
    ensures i < |sizes| && 1 <= sizes[i] < sizes[j]
  {
  }

  // ---------- These numbers ----------

  /** The codes, as numbers; symbols without a code get 0. */
  function Codes(sizes: seq<nat>): (v: seq<nat>)
    ensures |v| == |sizes| && forall i :: 0 <= i < |sizes| && 1 <= sizes[i] ==> v[i] == Code(sizes, i)
  {
    seq(|sizes|, i requires 0 <= i < |sizes| => if sizes[i] == 0 then 0 else Code(sizes, i))
  }

  lemma {:induction false} FirstIsNone(sizes: seq<nat>, l: nat)
    requires 1 <= l && NoneWithin(sizes, 0, l)
    ensures First(sizes, l) == 0
    decreases l
  {
    hide Histo;
    if l > 1 {
      FirstIsNone(sizes, l - 1);
      NoneSoFar(sizes, |sizes|, l - 1);
      assert sizes[..|sizes|] == sizes;
    }
  }

  /** Where no lengths are between, only zeros are added. */
  lemma {:induction false} FirstAfter(sizes: seq<nat>, l: nat, m: nat)
    requires 1 <= l < m && NoneWithin(sizes, l, m)
    ensures First(sizes, m) == (First(sizes, l) + Histo(sizes, l)) * Pow2(m - l)
    decreases m
  {
    hide Histo, Pow2;
    Pow2Small();
    if m > l + 1 {
      FirstAfter(sizes, l, m - 1);
      NoneSoFar(sizes, |sizes|, m - 1);
      assert sizes[..|sizes|] == sizes;
      Doubling(First(sizes, l) + Histo(sizes, l), m - l);
    }
  }

  lemma Doubling(a: nat, k: nat)
    requires 1 <= k
    ensures 2 * (a * Pow2(k - 1)) == a * Pow2(k)
  {
    Regroup(2, a, Pow2(k - 1));
    Regroup(a, 2, Pow2(k - 1));
  }

  lemma CodesCanonical(sizes: seq<nat>)
    ensures Canonical(sizes, Codes(sizes))
  {
    hide First, Rank, Pow2, Histo, NextAlike, FirstShortest, NoneWithin, FirstAlike, LastAlike;
    var v := Codes(sizes);
    forall j | 0 <= j < |sizes| && FirstShortest(sizes, j)
      ensures v[j] == 0
    {
      FirstCode(sizes, j);
    }
    forall i, j | 0 <= i < |sizes| && 0 <= j < |sizes| && NextAlike(sizes, i, j)
      ensures v[j] == v[i] + 1
    {
      IsBefore(sizes, i, j);
      NextRank(sizes, i, j);
    }
    forall i, j | 0 <= i < |sizes| && 0 <= j < |sizes| && NextLonger(sizes, i, j)
      ensures v[j] == (v[i] + 1) * Pow2(sizes[j] - sizes[i])
    {
      LongerCode(sizes, i, j);
    }
  }

  lemma FirstCode(sizes: seq<nat>, j: nat)
    requires FirstShortest(sizes, j)
    ensures 1 <= sizes[j] && Code(sizes, j) == 0
  {
    FirstIsNone(sizes, sizes[j]);
    NoneSoFar(sizes, j, sizes[j]);
  }

  lemma LongerCode(sizes: seq<nat>, i: nat, j: nat)
    requires NextLonger(sizes, i, j)
    ensures i < |sizes| && j < |sizes| && 1 <= sizes[i] < sizes[j]
    ensures Code(sizes, j) == (Code(sizes, i) + 1) * Pow2(sizes[j] - sizes[i])
  {
    hide Histo, First;
    LastRank(sizes, i);
    NoneSoFar(sizes, j, sizes[j]);
    FirstAfter(sizes, sizes[i], sizes[j]);
  }

  /** The numbers that meet the rules are just these. */
  lemma OnlyTheCodes(sizes: seq<nat>, v: seq<nat>)
    requires |v| == |sizes|
    ensures Canonical(sizes, v) <==> forall i :: 0 <= i < |sizes| && 1 <= sizes[i] ==> v[i] == Code(sizes, i)
  {
    hide Code, Pow2, NextAlike, NextLonger, FirstShortest, Canonical;
    CodesCanonical(sizes);
    if Canonical(sizes, v) {
      forall i | 0 <= i < |sizes| && 1 <= sizes[i]
        ensures v[i] == Code(sizes, i)
      {
        Determined(sizes, v, Codes(sizes), i);
      }
    } else if forall i :: 0 <= i < |sizes| && 1 <= sizes[i] ==> v[i] == Code(sizes, i) {
      SameCanonical(sizes, v, Codes(sizes));
    }
  }

  /** Symbols without a code do not matter. */
  lemma SameCanonical(sizes: seq<nat>, v: seq<nat>, w: seq<nat>)
    requires |v| == |w| == |sizes| && Canonical(sizes, w) && forall i :: 0 <= i < |sizes| && 1 <= sizes[i] ==> v[i] == w[i]
    ensures Canonical(sizes, v)
  {
    hide NoneWithin, Pow2, NextAlike, FirstAlike, LastAlike;
    forall i, j | 0 <= i < |sizes| && 0 <= j < |sizes| && NextAlike(sizes, i, j)
      ensures v[j] == v[i] + 1
    {
      IsBefore(sizes, i, j);
    }
    forall i, j | 0 <= i < |sizes| && 0 <= j < |sizes| && NextLonger(sizes, i, j)
      ensures v[j] == (v[i] + 1) * Pow2(sizes[j] - sizes[i])
    {
      IsShorter(sizes, i, j);
    }
    forall j | 0 <= j < |sizes| && FirstShortest(sizes, j)
      ensures v[j] == 0
    {
      IsFirst(sizes, j);
    }
  }

  lemma IsFirst(sizes: seq<nat>, j: nat)
    requires FirstAlike(sizes, j)
    ensures j < |sizes| && 1 <= sizes[j]
  {
  }

  // ---------- As bits ----------

  /** The bits of a code are those of its number, highest first. */
  lemma PathValue(sizes: seq<nat>, i: nat)
    requires Fits(sizes) && i < |sizes| && 1 <= sizes[i] <= 15
    ensures Value(Path(sizes, i)) == Code(sizes, i)
  {
    hide First, Histo, Pow2, Bits, Fits, Rank, Value;
    CodeBound(sizes, i);
    ValueBits(Path(sizes, i));
    BitsInjective(Value(Path(sizes, i)), Code(sizes, i), sizes[i]);
  }

  /** They differ first at k, where a has a 0. */
  predicate BeforeAt(a: seq<Bit>, b: seq<Bit>, k: nat) { k < |a| && k < |b| && a[..k] == b[..k] && a[k] < b[k] }

  /** a comes before b in the lexicographic order, and is not its beginning. */
  ghost predicate Before(a: seq<Bit>, b: seq<Bit>) { exists k: nat :: BeforeAt(a, b, k) }

  lemma {:induction false} BitsOrder(c: nat, d: nat, n: nat)
    requires c < d < Pow2(n)
    ensures Before(Bits(c, n), Bits(d, n))
    decreases n
  {
    if n > 0 {
      var a, b := Bits(c / 2, n - 1), Bits(d / 2, n - 1);
      if c / 2 < d / 2 {
        BitsOrder(c / 2, d / 2, n - 1);
        var k: nat :| BeforeAt(a, b, k);
        assert (a + [c % 2])[..k] == a[..k] && (b + [d % 2])[..k] == b[..k];
        assert BeforeAt(Bits(c, n), Bits(d, n), k);
      } else {
        assert (a + [c % 2])[..n - 1] == a && (b + [d % 2])[..n - 1] == b;
        assert BeforeAt(Bits(c, n), Bits(d, n), n - 1);
      }
    }
  }

  /** What comes before a beginning comes before the whole. */
  lemma BeforeWhole(a: seq<Bit>, b: seq<Bit>, m: nat)
    requires m <= |b| && Before(a, b[..m])
    ensures Before(a, b)
  {
    var k: nat :| BeforeAt(a, b[..m], k);
    assert b[..m][..k] == b[..k];
    assert BeforeAt(a, b, k);
  }

  /** Shorter codes come before longer ones, and codes of one length are in the order of the symbols. */
  lemma CodesInOrder(sizes: seq<nat>, i: nat, j: nat)
    requires Fits(sizes) && i < |sizes| && j < |sizes| && 1 <= sizes[i] <= sizes[j] <= 15 && (sizes[i] == sizes[j] ==> i < j)
    ensures Before(Path(sizes, i), Path(sizes, j))
  {
    hide First, Histo, Pow2, Bits, Fits, Rank, Before;
    var m, n := sizes[i], sizes[j];
    var c, d := Code(sizes, i), Code(sizes, j);
    CodeBound(sizes, i);
    CodeBound(sizes, j);
    if m == n {
      RanksDiffer(sizes, i, j);
      BitsOrder(c, d, n);
    } else {
      var k := n - m;
      FirstBehind(sizes, m, k);
      PowPositive(k);
      QuotientAbove(d, First(sizes, m) + Histo(sizes, m), Pow2(k));
      Pow2Add(m, k);
      DivBelow(d, Pow2(m), Pow2(k));
      BitsOrder(c, d / Pow2(k), m);
      BitsPart(d, m, n);
      BeforeWhole(Bits(c, m), Bits(d, n), m);
    }
  }
}
