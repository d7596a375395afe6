/** Which symbol's code comes next, in the order of lengths and then of symbols. */
module CodeOrder {
  import opened CodeLengths

  /** j is the next symbol after i with a code of the same length. */
  ghost predicate NextAlike(lens: seq<nat>, i: nat, j: nat) {
    i < j < |lens| && 1 <= lens[i] == lens[j] && forall k :: i < k < j ==> lens[k] != lens[i]
  }

  /** The first symbol, and the last, with a code of its length. */
  ghost predicate FirstAlike(lens: seq<nat>, j: nat) { j < |lens| && 1 <= lens[j] && forall k :: 0 <= k < j ==> lens[k] != lens[j] }

  ghost predicate LastAlike(lens: seq<nat>, i: nat) { i < |lens| && 1 <= lens[i] && forall k :: i < k < |lens| ==> lens[k] != lens[i] }

  ghost predicate NoneWithin(lens: seq<nat>, l: nat, m: nat) { forall k :: 0 <= k < |lens| ==> !(l < lens[k] < m) }

  /** j is the first symbol with a code of the next greater length that i, the last of its own, leads to. */
  ghost predicate NextLonger(lens: seq<nat>, i: nat, j: nat) {
    LastAlike(lens, i) && FirstAlike(lens, j) && lens[i] < lens[j] && NoneWithin(lens, lens[i], lens[j])
  }

  ghost predicate NextShorter(lens: seq<nat>, i: nat, j: nat) {
    LastAlike(lens, i) && FirstAlike(lens, j) && lens[j] < lens[i] && NoneWithin(lens, lens[j], lens[i])
  }

  /** The first symbol of all, shortest first or longest first. */
  ghost predicate FirstShortest(lens: seq<nat>, j: nat) { FirstAlike(lens, j) && NoneWithin(lens, 0, lens[j]) }

  ghost predicate FirstLongest(lens: seq<nat>, j: nat) { FirstAlike(lens, j) && forall k :: 0 <= k < |lens| ==> lens[k] <= lens[j] }

  // ---------- Every symbol but the first comes next after some other ----------

  lemma {:induction false} PreviousAlike(lens: seq<nat>, j: nat, n: nat) returns (i: nat)
    requires n <= j < |lens| && 1 <= lens[j] && (exists k :: 0 <= k < n && lens[k] == lens[j]) && forall k :: n <= k < j ==> lens[k] != lens[j]
    ensures NextAlike(lens, i, j)
    decreases n
  {
    if lens[n - 1] == lens[j] {
      i := n - 1;
    } else {
      i := PreviousAlike(lens, j, n - 1);
    }
  }

  lemma {:induction false} LastOfLength(lens: seq<nat>, l: nat, n: nat) returns (i: nat)
    requires 1 <= l && n <= |lens| && (exists k :: 0 <= k < n && lens[k] == l) && forall k :: n <= k < |lens| ==> lens[k] != l
    ensures LastAlike(lens, i) && lens[i] == l
    decreases n
  {
    if lens[n - 1] == l {
      i := n - 1;
    } else {
      i := LastOfLength(lens, l, n - 1);
    }
  }

  lemma {:induction false} PreviousShorter(lens: seq<nat>, j: nat, l: nat) returns (i: nat)
    requires FirstAlike(lens, j) && l < lens[j] && NoneWithin(lens, l, lens[j])
    requires !FirstShortest(lens, j)
    ensures NextLonger(lens, i, j)
    decreases l
  {
    if l >= 1 && exists k :: 0 <= k < |lens| && lens[k] == l {
      i := LastOfLength(lens, l, |lens|);
    } else {
      assert 1 <= l;
      i := PreviousShorter(lens, j, l - 1);
    }
  }

  lemma {:induction false} PreviousLonger(lens: seq<nat>, j: nat, l: nat, max: nat) returns (i: nat)
    requires FirstAlike(lens, j) && lens[j] < l && NoneWithin(lens, lens[j], l) && forall k :: 0 <= k < |lens| ==> lens[k] <= max
    requires !FirstLongest(lens, j)
    ensures NextShorter(lens, i, j)
    decreases max + 1 - l
  {
    if exists k :: 0 <= k < |lens| && lens[k] == l {
      i := LastOfLength(lens, l, |lens|);
    } else {
      assert l <= max;
      i := PreviousLonger(lens, j, l + 1, max);
    }
  }

  lemma OneBefore(lens: seq<nat>, j: nat)
    requires j < |lens| && 1 <= lens[j]
    ensures FirstAlike(lens, j) || exists k :: 0 <= k < j && lens[k] == lens[j]
  {
  }

  lemma IsBefore(lens: seq<nat>, i: nat, j: nat)
    requires NextAlike(lens, i, j)
    ensures i < j < |lens| && 1 <= lens[i] == lens[j]
  {
  }

  // ---------- Ranks ----------

  lemma {:induction false} NoneSoFar(lens: seq<nat>, n: nat, l: nat)
    requires n <= |lens| && forall k :: 0 <= k < n ==> lens[k] != l
    ensures Histo(lens[..n], l) == 0
    decreases n
  {
    if n == 0 {
      assert lens[..0] == [];
    } else {
      NoneSoFar(lens, n - 1, l);
      HistoNext(lens, n - 1, l);
    }
  }

  lemma {:induction false} NoMore(lens: seq<nat>, m: nat, n: nat, l: nat)
    requires m <= n <= |lens| && forall k :: m <= k < n ==> lens[k] != l
    ensures Histo(lens[..n], l) == Histo(lens[..m], l)
    decreases n
  {
    if m < n {
      NoMore(lens, m, n - 1, l);
      HistoNext(lens, n - 1, l);
    }
  }

  lemma NextRank(lens: seq<nat>, i: nat, j: nat)
    requires NextAlike(lens, i, j)
    ensures Rank(lens, j) == Rank(lens, i) + 1
  {
    hide Histo;
    HistoNext(lens, i, lens[i]);
    NoMore(lens, i + 1, j, lens[i]);
  }

  lemma LastRank(lens: seq<nat>, i: nat)
    requires LastAlike(lens, i)
    ensures Rank(lens, i) + 1 == Histo(lens, lens[i])
  {
    hide Histo;
    HistoNext(lens, i, lens[i]);
    NoMore(lens, i + 1, |lens|, lens[i]);
    assert lens[..|lens|] == lens;
  }
}
