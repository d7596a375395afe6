/** How probabilities adapt: always towards the bit just coded, by a thirty-second of the way, and just to the values from
    31 to 2017. */
module Adaptation {
  import opened BitModel
  import opened Powers
  import opened RangeEncoder

  /** A zero raises the probability of a zero and a one lowers it, as long as there is a thirty-second of the way left. */
  lemma TowardsTheBit(p: int)
    requires IsProb(p)
    ensures p <= Adapt(p, 0) && (p < Adapt(p, 0) <==> p < 2017)
    ensures Adapt(p, 1) <= p && (Adapt(p, 1) < p <==> 31 < p)
  {
  }

  /** How far: 32 steps of this size would not go beyond the end of the scale, and 32 of one more would. */
  lemma AThirtySecond(p: int)
    requires IsProb(p)
    ensures var up := Adapt(p, 0) - p; p + 32 * up <= 2048 < p + 32 * (up + 1)
    ensures var down := p - Adapt(p, 1); 0 <= p - 32 * down < 32
  {
  }

  /** The part of the range that a bit has. */
  function PartOf(range: nat, p: nat, bit: int): int { if bit == 0 then Bound(range, p) else range - Bound(range, p) }

  /** The bit just coded gets no smaller a part of the same range the next time. */
  lemma NoSmallerPart(range: nat, p: int, bit: int)
    requires IsProb(p) && IsBit(bit)
    ensures PartOf(range, p, bit) <= PartOf(range, Adapt(p, bit), bit)
  {
    TowardsTheBit(p);
    TimesMono(p, Adapt(p, 0), range / 2048);
    TimesMono(Adapt(p, 1), p, range / 2048);
  }

  /** A fresh probability divides the range evenly. */
  lemma FreshIsEven(range: nat)
    ensures 0 <= PartOf(range, PROB_INIT, 1) - PartOf(range, PROB_INIT, 0) < 2048
  {
  }

  // ---------- The probabilities that are reached ----------

  /** After these bits. */
  function Adapted(p: int, bits: seq<int>): int
    decreases |bits|
  {
    if bits == [] then p else Adapt(Adapted(p, bits[..|bits| - 1]), bits[|bits| - 1])
  }

  function Repeated(bit: int, n: nat): (s: seq<int>)
    ensures |s| == n && forall i :: 0 <= i < n ==> s[i] == bit
  {
    seq(n, _ => bit)
  }

  lemma AdaptedNext(p: int, bits: seq<int>, bit: int)
    ensures Adapted(p, bits + [bit]) == Adapt(Adapted(p, bits), bit)
  {
    assert (bits + [bit])[..|bits|] == bits;
  }

  lemma {:induction false} AdaptedProb(p: int, bits: seq<int>)
    requires IsProb(p)
    ensures IsProb(Adapted(p, bits))
    decreases |bits|
  {
    if bits != [] {
      AdaptedProb(p, bits[..|bits| - 1]);
    }
  }

  /** Zeros end at 2017 and ones at 31. */
  lemma {:induction false} Ends(p: int, n: nat)
    requires IsProb(p)
    ensures p + n <= Adapted(p, Repeated(0, n)) || Adapted(p, Repeated(0, n)) == 2017
    ensures Adapted(p, Repeated(1, n)) <= p - n || Adapted(p, Repeated(1, n)) == 31
    decreases n
  {
    AdaptedProb(p, Repeated(0, n));
    AdaptedProb(p, Repeated(1, n));
    if n > 0 {
      Ends(p, n - 1);
      AdaptedProb(p, Repeated(0, n - 1));
      AdaptedProb(p, Repeated(1, n - 1));
      assert Repeated(0, n)[..n - 1] == Repeated(0, n - 1) && Repeated(1, n)[..n - 1] == Repeated(1, n - 1);
      TowardsTheBit(Adapted(p, Repeated(0, n - 1)));
      TowardsTheBit(Adapted(p, Repeated(1, n - 1)));
    }
  }

  /** Reached from a fresh probability by some bits. */
  ghost predicate Reached(q: int) { exists bits: seq<int> :: AllBits(bits) && Adapted(PROB_INIT, bits) == q }

  ghost predicate AllBits(bits: seq<int>) { forall i :: 0 <= i < |bits| ==> IsBit(bits[i]) }

  lemma ReachedNext(q: int, bit: int)
    requires Reached(q) && IsBit(bit)
    ensures Reached(Adapt(q, bit))
  {
    var bits: seq<int> :| AllBits(bits) && Adapted(PROB_INIT, bits) == q;
    AdaptedNext(PROB_INIT, bits, bit);
    assert AllBits(bits + [bit]);
  }

  /** Zeros from a fresh probability reach the upper end, and ones the lower one. */
  lemma EndsReached()
    ensures Adapted(PROB_INIT, Repeated(0, 2000)) == 2017 && Adapted(PROB_INIT, Repeated(1, 2000)) == 31
    ensures Reached(2017) && Reached(31)
  {
    Ends(PROB_INIT, 2000);
    AdaptedProb(PROB_INIT, Repeated(0, 2000));
    AdaptedProb(PROB_INIT, Repeated(1, 2000));
    assert AllBits(Repeated(0, 2000)) && AllBits(Repeated(1, 2000));
  }

  /** From the upper end a one leads to 1954; zeros go from there by twos, and then by ones. */
  lemma {:induction false} UpFrom(q: int, r: int)
    requires 1953 <= q <= r <= 2017 && Reached(q) && (q < 1985 ==> (r - q) % 2 == 0 || 1986 <= r)
    ensures Reached(r)
    decreases r - q
  {
    hide Reached, Adapt;
    if q < r {
      StepUp(q);
      ReachedNext(q, 0);
      UpFrom(Adapt(q, 0), r);
    }
  }

  lemma StepUp(q: int)
    requires 1953 <= q < 2017
    ensures Adapt(q, 0) == if q < 1985 then q + 2 else q + 1
  {
  }

  lemma TopReached(r: int)
    requires 1953 <= r <= 2017
    ensures Reached(r)
  {
    hide Reached, Adapted, Repeated;
    EndsReached();
    ReachedNext(2017, 1);
    assert Adapt(2017, 1) == 1954;
    if r % 2 == 0 || 1986 <= r {
      if r >= 1954 {
        UpFrom(1954, r);
      }
    } else {
      UpFrom(1954, 2016);
      ReachedNext(2016, 1);
      assert Adapt(2016, 1) == 1953;
      UpFrom(1953, r);
    }
  }

  /** Every value below is one step down from a greater one. */
  lemma {:induction false} EveryReached(r: int)
    requires IsProb(r)
    ensures Reached(r)
    decreases 2017 - r
  {
    if r >= 1953 {
      TopReached(r);
    } else {
      var q := r + r / 31;
      StepDown(r, q);
      EveryReached(q);
      ReachedNext(q, 1);
    }
  }

  lemma StepDown(r: int, q: int)
    requires 31 <= r <= 1954 && q == r + r / 31
    ensures r < q <= 2017 && Adapt(q, 1) == r
  {
  }

  /** The probabilities that adaptation reaches are those from 31 to 2017. */
  lemma ReachedIsProb(q: int)
    ensures Reached(q) <==> IsProb(q)
  {
    if Reached(q) {
      var bits: seq<int> :| AllBits(bits) && Adapted(PROB_INIT, bits) == q;
      AdaptedProb(PROB_INIT, bits);
    }
    if IsProb(q) {
      EveryReached(q);
    }
  }
}
