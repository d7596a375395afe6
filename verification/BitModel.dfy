/** The adaptive bit model shared by the two sides of the range coder. */
module BitModel {
  import opened Powers

  const PROB_INIT: nat := 1024

  /** A probability that adaptation can reach. */
  predicate IsProb(p: int) { 31 <= p <= 2017 }

  predicate IsBit(b: int) { 0 <= b <= 1 }

  /** The branching update of a probability after coding `bit`. */
  function Adapt(p: int, bit: int): (q: int)
    ensures IsProb(p) ==> IsProb(q)
  {
    if bit == 0 then p + (2048 - p) / 32 else p - p / 32
  }

  predicate AllProbs(probs: seq<int>) { forall i :: 0 <= i < |probs| ==> IsProb(probs[i]) }

  /** Both parts of a normalised range split at a reachable probability are at least 2^16. */
  lemma SplitBounds(range: int, p: int)
    requires 0x100_0000 <= range < 0x1_0000_0000 && IsProb(p)
    ensures 0x1_0000 <= (range / 2048) * p <= range - 0x1_0000
  {
    var q := range / 2048;
    TimesMono(31, p, q);
    TimesMono(p, 2017, q);
    assert 2048 * q <= range;
  }
}
