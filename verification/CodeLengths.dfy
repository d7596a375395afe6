/** Symbols counted by the lengths of their codes. */
module CodeLengths {
  import opened Powers

  /** The same length several times. */
  function Copies(v: nat, count: nat): (r: seq<nat>)
    ensures |r| == count && forall i :: 0 <= i < count ==> r[i] == v
  {
    if count == 0 then [] else Copies(v, count - 1) + [v]
  }

  /** How many symbols have this code length. */
  function Histo(lens: seq<nat>, l: nat): nat {
    if lens == [] then 0 else Histo(lens[..|lens| - 1], l) + if lens[|lens| - 1] == l then 1 else 0
  }

  /** How many symbols before i have its length. */
  function Rank(lens: seq<nat>, i: nat): nat
    requires i < |lens|
  {
    Histo(lens[..i], lens[i])
  }

  lemma HistoNext(lens: seq<nat>, i: nat, l: nat)
    requires i < |lens|
    ensures Histo(lens[..i + 1], l) == Histo(lens[..i], l) + if lens[i] == l then 1 else 0
  {
    assert lens[..i + 1][..i] == lens[..i];
  }

  lemma {:induction false} HistoGrows(lens: seq<nat>, i: nat, j: nat, l: nat)
    requires i <= j <= |lens|
    ensures Histo(lens[..i], l) <= Histo(lens[..j], l)
    decreases j
  {
    if i < j {
      HistoGrows(lens, i, j - 1, l);
      HistoNext(lens, j - 1, l);
    }
  }

  /** Symbols of one length have different ranks, below the number of them. */
  lemma RanksDiffer(lens: seq<nat>, i: nat, j: nat)
    requires i < |lens| && j < |lens| && lens[i] == lens[j]
    ensures Rank(lens, i) < Histo(lens, lens[i])
    ensures i < j ==> Rank(lens, i) < Rank(lens, j)
  {
    HistoNext(lens, i, lens[i]);
    HistoGrows(lens, i + 1, |lens|, lens[i]);
    assert lens[..|lens|] == lens;
    if i < j {
      HistoGrows(lens, i + 1, j, lens[i]);
    }
  }

  /** And every rank below it is some symbol's. */
  lemma {:induction false} SymbolOfRank(lens: seq<nat>, l: nat, r: nat) returns (i: nat)
    requires r < Histo(lens, l)
    ensures i < |lens| && lens[i] == l && Rank(lens, i) == r
    decreases |lens|
  {
    var n := |lens| - 1;
    if lens[n] == l && Histo(lens[..n], l) == r {
      i := n;
    } else {
      i := SymbolOfRank(lens[..n], l, r);
      assert lens[..n][..i] == lens[..i];
    }
  }

  lemma HistoAppend(lens: seq<nat>, x: nat, l: nat)
    ensures Histo(lens + [x], l) == Histo(lens, l) + if x == l then 1 else 0
  {
    assert (lens + [x])[..|lens|] == lens;
  }

  lemma {:induction false} NoneOf(lens: seq<nat>, maxbits: nat, l: nat)
    requires maxbits < l && forall i :: 0 <= i < |lens| ==> lens[i] <= maxbits
    ensures Histo(lens, l) == 0
    decreases |lens|
  {
    if lens != [] {
      NoneOf(lens[..|lens| - 1], maxbits, l);
    }
  }

  lemma HistoOfNone(lens: seq<nat>)
    ensures forall l :: Histo(lens[..0], l) == 0
  {
    assert lens[..0] == [];
  }

  /** The sum of 2^(maxbits - length) over all symbols that have a code. */
  function Kraft(lens: seq<nat>, maxbits: nat): nat {
    if lens == [] then 0
    else Kraft(lens[..|lens| - 1], maxbits) + Share(lens[|lens| - 1], maxbits)
  }

  function Share(l: nat, maxbits: nat): nat { if 1 <= l <= maxbits then Pow2(maxbits - l) else 0 }

  /** How many are not 0: symbols that occur, or that have a code. */
  function Used(s: seq<nat>): nat { if s == [] then 0 else Used(s[..|s| - 1]) + if s[|s| - 1] > 0 then 1 else 0 }
}
