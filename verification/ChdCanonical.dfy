/** The rules for the codes of CHD, from the longest length down: they are met, and no other codes meet them. */
module ChdCanonical {
  import opened ChdHuffman
  import opened CodeLengths
  import opened CodeOrder
  import opened Powers

  /** Numbers for the symbols that count up within each length; the first of the longest is 0, and the first of a length is
      one more than the last of the length before it, without the zeros at its end. */
  ghost predicate Canonical(lens: seq<nat>, v: seq<nat>) {
    && |v| == |lens|
    && (forall j :: 0 <= j < |lens| && FirstLongest(lens, j) ==> v[j] == 0)
    && (forall i, j :: 0 <= i < |lens| && 0 <= j < |lens| && NextAlike(lens, i, j) ==> v[j] == v[i] + 1)
    && (forall i, j :: 0 <= i < |lens| && 0 <= j < |lens| && NextShorter(lens, i, j) ==> v[j] * Pow2(lens[i] - lens[j]) == v[i] + 1)
  }

  // ---------- No other numbers ----------

  lemma {:induction false} Determined(lens: seq<nat>, v: seq<nat>, w: seq<nat>, max: nat, j: nat)
    requires Canonical(lens, v) && Canonical(lens, w) && j < |lens| && 1 <= lens[j] && forall k :: 0 <= k < |lens| ==> lens[k] <= max
    ensures v[j] == w[j]
    decreases max - lens[j], j
  {
    hide NextAlike, FirstAlike, LastAlike, NoneWithin, FirstLongest, Pow2;
    OneBefore(lens, j);
    if FirstLongest(lens, j) {
    } else if FirstAlike(lens, j) {
      NoneNearer(lens, j);
      var i := PreviousLonger(lens, j, lens[j] + 1, max);
      IsLonger(lens, i, j);
      Determined(lens, v, w, max, i);
      SameFactor(v[j], w[j], Pow2(lens[i] - lens[j]), v[i] + 1);
    } else {
      var i := PreviousAlike(lens, j, j);
      IsBefore(lens, i, j);
      Determined(lens, v, w, max, i);
    }
  }

  lemma SameFactor(a: nat, b: nat, p: nat, x: nat)
    requires 1 <= p && a * p == x && b * p == x
    ensures a == b
  {
    CancelAtMost(a, b, p);
    CancelAtMost(b, a, p);
  }

  lemma NoneNearer(lens: seq<nat>, j: nat)
    requires j < |lens| && 1 <= lens[j]
    ensures NoneWithin(lens, lens[j], lens[j] + 1)
  {
  }

  lemma IsLonger(lens: seq<nat>, i: nat, j: nat)
    requires NextShorter(lens, i, j)
    ensures i < |lens| && j < |lens| && 1 <= lens[j] < lens[i] && 1 <= Pow2(lens[i] - lens[j])
  {
  }

  // ---------- These numbers ----------

  /** The codes; symbols without a code get 0. */
  function Codes(lens: seq<nat>): (v: seq<nat>)
    requires forall i :: 0 <= i < |lens| ==> lens[i] <= 32
    ensures |v| == |lens| && forall i :: 0 <= i < |lens| && 1 <= lens[i] ==> v[i] == Code(lens, i)
  {
    seq(|lens|, i requires 0 <= i < |lens| => if lens[i] == 0 then 0 else Code(lens, i))
  }

  lemma {:induction false} StartIsNone(lens: seq<nat>, l: nat)
    requires l <= 32 && forall k :: 0 <= k < |lens| ==> lens[k] <= l
    ensures Start(lens, l) == 0
  {
    StartOfLongest(lens, l);
  }

  /** Where no lengths are between, codes only lose zeros. */
  lemma {:induction false} StartAfter(lens: seq<nat>, l: nat, m: nat)
    requires 1 <= m < l <= 32 && NoneWithin(lens, m, l) && Even(lens)
    ensures Start(lens, m) * Pow2(l - m) == End(lens, l)
    decreases l - m
  {
    hide Histo, Pow2;
    Pow2Small();
    if m + 1 < l {
      StartAfter(lens, l, m + 1);
      NoneSoFar(lens, |lens|, m + 1);
      assert lens[..|lens|] == lens;
      Doubling(Start(lens, m), l - m);
    }
  }

  lemma Doubling(a: nat, k: nat)
    requires 1 <= k
    ensures (2 * a) * Pow2(k - 1) == a * Pow2(k)
  {
    Regroup(2, a, Pow2(k - 1));
    Regroup(a, 2, Pow2(k - 1));
  }

  lemma CodesCanonical(lens: seq<nat>)
    requires Accepted(lens, 32)
    ensures Canonical(lens, Codes(lens))
  {
    hide Start, End, Rank, Pow2, Histo, NextAlike, FirstLongest, NoneWithin, FirstAlike, LastAlike, Even;
    var v := Codes(lens);
    forall j | 0 <= j < |lens| && FirstLongest(lens, j)
      ensures v[j] == 0
    {
      FirstCode(lens, j);
    }
    forall i, j | 0 <= i < |lens| && 0 <= j < |lens| && NextAlike(lens, i, j)
      ensures v[j] == v[i] + 1
    {
      IsBefore(lens, i, j);
      NextRank(lens, i, j);
    }
    forall i, j | 0 <= i < |lens| && 0 <= j < |lens| && NextShorter(lens, i, j)
      ensures v[j] * Pow2(lens[i] - lens[j]) == v[i] + 1
    {
      ShorterCode(lens, i, j);
    }
  }

  lemma FirstCode(lens: seq<nat>, j: nat)
    requires FirstLongest(lens, j) && lens[j] <= 32
    ensures 1 <= lens[j] && Code(lens, j) == 0
  {
    hide Start, Histo;
    StartIsNone(lens, lens[j]);
    NoneSoFar(lens, j, lens[j]);
  }

  lemma ShorterCode(lens: seq<nat>, i: nat, j: nat)
    requires NextShorter(lens, i, j) && Accepted(lens, 32)
    ensures i < |lens| && j < |lens| && 1 <= lens[j] < lens[i] <= 32
    ensures Code(lens, j) * Pow2(lens[i] - lens[j]) == Code(lens, i) + 1
  {
    hide Histo, Start, Even;
    LastRank(lens, i);
    NoneSoFar(lens, j, lens[j]);
    StartAfter(lens, lens[i], lens[j]);
  }

  /** The numbers that meet the rules are just these, for all lengths that are accepted. */
  lemma OnlyTheCodes(lens: seq<nat>, v: seq<nat>)
    requires Accepted(lens, 32) && |v| == |lens|
    ensures Canonical(lens, v) <==> forall i :: 0 <= i < |lens| && 1 <= lens[i] ==> v[i] == Code(lens, i)
  {
    hide Code, Pow2, NextAlike, NextShorter, FirstLongest, Canonical, Even;
    CodesCanonical(lens);
    if Canonical(lens, v) {
      forall i | 0 <= i < |lens| && 1 <= lens[i]
        ensures v[i] == Code(lens, i)
      {
        Determined(lens, v, Codes(lens), 32, i);
      }
    } else if forall i :: 0 <= i < |lens| && 1 <= lens[i] ==> v[i] == Code(lens, i) {
      SameCanonical(lens, v, Codes(lens));
    }
  }

  /** Symbols without a code do not matter. */
  lemma SameCanonical(lens: seq<nat>, v: seq<nat>, w: seq<nat>)
    requires |v| == |w| == |lens| && Canonical(lens, w) && forall i :: 0 <= i < |lens| && 1 <= lens[i] ==> v[i] == w[i]
    ensures Canonical(lens, v)
  {
    hide NoneWithin, Pow2;
  }
}
