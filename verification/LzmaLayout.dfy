/** Where the encoder keeps its probabilities, and how that corresponds to the decoder's flat table. */
module LzmaLayout {
  import opened LzmaSyntax

  // The probability fields of the encoder's structure in the order of their declaration, then litProbs.
  const ENC_ALIGN: nat := 0
  const ENC_IS_REP: nat := 16
  const ENC_IS_REP_G0: nat := 28
  const ENC_IS_REP_G1: nat := 40
  const ENC_IS_REP_G2: nat := 52
  const ENC_IS_MATCH: nat := 64
  const ENC_IS_REP0_LONG: nat := 256
  const ENC_POS_SLOT: nat := 448
  const ENC_SPEC: nat := 704
  const ENC_LEN: nat := 832
  const ENC_REP_LEN: nat := 1344
  const ENC_LITERAL: nat := 1856

  /** The widths of the levels of a reverse bit tree. */
  predicate IsWidth(w: nat) { w == 1 || w == 2 || w == 4 || w == 8 || w == 16 }

  /** The encoder numbers the nodes of a reverse bit tree by the bits in the order they are coded; the
      decoder adds each bit at its own weight. This takes the decoder's number to the encoder's. */
  function Mirror(t: nat, w: nat): (m: nat)
    requires IsWidth(w) && w <= t < 2 * w
    ensures w <= m < 2 * w
  {
    if w == 1 then 1
    else
      var h := w / 2;
      if t - w < h then 2 * Mirror(t - h, h) else 2 * Mirror(t - 2 * h, h) + 1
  }

  function Unmirror(m: nat, w: nat): (t: nat)
    requires IsWidth(w) && w <= m < 2 * w
    ensures w <= t < 2 * w
  {
    if w == 1 then 1
    else
      var h := w / 2;
      Unmirror(m / 2, h) + h + (if m % 2 == 0 then 0 else h)
  }

  lemma {:induction false} MirrorUndone(t: nat, w: nat)
    requires IsWidth(w) && w <= t < 2 * w
    ensures Unmirror(Mirror(t, w), w) == t
  {
    hide Mirror, Unmirror;
    if w == 1 {
      MirrorRoot();
    } else {
      var h := w / 2;
      var parent := if t - w < h then t - h else t - 2 * h;
      MirrorUndone(parent, h);
      MirrorUnfolds(t, w, h);
      UnmirrorUnfolds(Mirror(parent, h), t - w >= h, h);
    }
  }

  lemma MirrorRoot()
    ensures Mirror(1, 1) == 1 && Unmirror(1, 1) == 1
  {
  }

  lemma MirrorUnfolds(t: nat, w: nat, h: nat)
    requires IsWidth(w) && w == 2 * h && w <= t < 2 * w
    ensures IsWidth(h)
    ensures Mirror(t, w) == if t - w < h then 2 * Mirror(t - h, h) else 2 * Mirror(t - 2 * h, h) + 1
  {
  }

  lemma UnmirrorUnfolds(m: nat, odd: bool, h: nat)
    requires IsWidth(h) && IsWidth(2 * h) && h <= m < 2 * h
    ensures Unmirror(if odd then 2 * m + 1 else 2 * m, 2 * h) == Unmirror(m, h) + h + (if odd then h else 0)
  {
  }

  /** Following one more bit down a reverse tree, in both numberings. */
  lemma MirrorStep(t: nat, w: nat, bit: nat)
    requires IsWidth(w) && w < 16 && w <= t < 2 * w && bit <= 1
    ensures Mirror(if bit == 0 then t + w else t + 2 * w, 2 * w) == 2 * Mirror(t, w) + bit
  {
  }

  /** The largest level width that is at most t. */
  function Top(t: nat): (w: nat)
    requires 1 <= t < 32
    ensures IsWidth(w) && w <= t < 2 * w
  {
    if t < 2 then 1 else if t < 4 then 2 else if t < 8 then 4 else if t < 16 then 8 else 16
  }

  /** The smallest distance of the slot that distance i belongs to, for i from 4 to 127. */
  function SpecBase(i: nat): nat {
    if i < 6 then 4 else if i < 8 then 6 else if i < 12 then 8 else if i < 16 then 12
    else if i < 24 then 16 else if i < 32 then 24 else if i < 48 then 32 else if i < 64 then 48
    else if i < 96 then 64 else 96
  }

  /** Places of the decoder's table that the decoder can reach. */
  predicate Used(i: nat) {
    && (i < IS_REP0_LONG ==> 4 <= i && SpecBase(i) < i)
    && (IS_REP0_LONG <= i < REP_LEN ==> (i - IS_REP0_LONG) % 16 < 12)
    && (IS_MATCH <= i < ALIGN ==> (i - IS_MATCH) % 16 < 12)
    && i != ALIGN
  }

  /** The place in the encoder of the probability that the decoder keeps at i. */
  function EncOf(i: nat): nat
    requires Used(i)
  {
    if i < IS_REP0_LONG then var t := i - SpecBase(i); ENC_SPEC + SpecBase(i) + Mirror(t, Top(t))
    else if i < REP_LEN then ENC_IS_REP0_LONG + (i - IS_REP0_LONG) % 16 * 16 + (i - IS_REP0_LONG) / 16
    else if i < MATCH_LEN then ENC_REP_LEN + (i - REP_LEN)
    else if i < IS_MATCH then ENC_LEN + (i - MATCH_LEN)
    else if i < ALIGN then ENC_IS_MATCH + (i - IS_MATCH) % 16 * 16 + (i - IS_MATCH) / 16
    else if i < IS_REP then var t := i - ALIGN; ENC_ALIGN + Mirror(t, Top(t))
    else if i < IS_REP_G0 then ENC_IS_REP + (i - IS_REP)
    else if i < IS_REP_G1 then ENC_IS_REP_G0 + (i - IS_REP_G0)
    else if i < IS_REP_G2 then ENC_IS_REP_G1 + (i - IS_REP_G1)
    else if i < POS_SLOT then ENC_IS_REP_G2 + (i - IS_REP_G2)
    else if i < LITERAL then ENC_POS_SLOT + (i - POS_SLOT)
    else ENC_LITERAL + (i - LITERAL)
  }

  /** The decoder's place for an encoder place. */
  function DecOf(j: nat): int {
    if j == 0 then ALIGN
    else if j < ENC_IS_REP then ALIGN + Unmirror(j, Top(j))
    else if j < ENC_IS_REP_G0 then IS_REP + (j - ENC_IS_REP)
    else if j < ENC_IS_REP_G1 then IS_REP_G0 + (j - ENC_IS_REP_G0)
    else if j < ENC_IS_REP_G2 then IS_REP_G1 + (j - ENC_IS_REP_G1)
    else if j < ENC_IS_MATCH then IS_REP_G2 + (j - ENC_IS_REP_G2)
    else if j < ENC_IS_REP0_LONG then IS_MATCH + (j - ENC_IS_MATCH) % 16 * 16 + (j - ENC_IS_MATCH) / 16
    else if j < ENC_POS_SLOT then IS_REP0_LONG + (j - ENC_IS_REP0_LONG) % 16 * 16 + (j - ENC_IS_REP0_LONG) / 16
    else if j < ENC_SPEC then POS_SLOT + (j - ENC_POS_SLOT)
    else if j < ENC_LEN then
      var i := j - ENC_SPEC;
      if i < 4 || SpecBase(i) == i then i else SpecBase(i) + Unmirror(i - SpecBase(i), Top(i - SpecBase(i)))
    else if j < ENC_REP_LEN then MATCH_LEN + (j - ENC_LEN)
    else if j < ENC_LITERAL then REP_LEN + (j - ENC_REP_LEN)
    else LITERAL + (j - ENC_LITERAL)
  }

  /** The tree that a node of a reverse tree belongs to. */
  lemma SpecSizes(base: nat, t: nat, w: nat, left: nat)
    requires SpecOk(base, t, w, left)
    ensures IsWidth(w) && w <= t < 2 * w && 1 <= left && (left > 1 ==> w < 16)
    ensures 4 <= base && 1 <= t && base + t < IS_REP0_LONG && SpecBase(base + t) == base && Top(t) == w
  {
  }

  lemma SpecRoundTrip(i: nat)
    requires i < IS_REP0_LONG && Used(i)
    ensures ENC_SPEC + 4 < EncOf(i) < ENC_LEN && DecOf(EncOf(i)) == i
  {
    hide Mirror, Unmirror, Top, SpecBase;
    SpecTree(i, 1);
    var t := i - SpecBase(i);
    MirrorInTree(t);
    SpecTree(i, Mirror(t, Top(t)));
  }

  /** A place belongs to the tree of its slot, and any node of that tree to the same slot. */
  lemma SpecTree(i: nat, m: nat)
    requires 4 <= i < IS_REP0_LONG && SpecBase(i) < i
    ensures 4 <= SpecBase(i) && 1 <= i - SpecBase(i) < 32
    ensures 1 <= m < 2 * Top(i - SpecBase(i)) ==> SpecBase(SpecBase(i) + m) == SpecBase(i) && SpecBase(i) + m < 128
  {
  }

  lemma MirrorInTree(t: nat)
    requires 1 <= t < 32
    ensures var m := Mirror(t, Top(t));
            1 <= m < 2 * Top(t) && m < 32 && Top(m) == Top(t) && Unmirror(m, Top(m)) == t
  {
    MirrorUndone(t, Top(t));
  }

  lemma TransposeRoundTrip(k: nat)
    requires k < 256 && k % 16 < 12
    ensures var j := k % 16 * 16 + k / 16; j < 192 && j % 16 * 16 + j / 16 == k
  {
    var j := k % 16 * 16 + k / 16;
    assert j % 16 == k / 16 && j / 16 == k % 16;
  }

  /** The correspondence between the two layouts is one-to-one. */
  lemma LayoutRoundTrip(i: nat)
    requires Used(i)
    ensures DecOf(EncOf(i)) == i
    ensures LITERAL <= i ==> EncOf(i) == i - 128
    ensures i < LITERAL ==> EncOf(i) < ENC_LITERAL
  {
    hide Mirror, Unmirror, Top, SpecBase;
    if i < IS_REP0_LONG {
      SpecRoundTrip(i);
    } else if i < REP_LEN {
      TransposeRoundTrip(i - IS_REP0_LONG);
    } else if IS_MATCH <= i < ALIGN {
      TransposeRoundTrip(i - IS_MATCH);
    } else if ALIGN <= i < IS_REP {
      MirrorInTree(i - ALIGN);
      TopInTree(i - ALIGN);
    }
  }

  lemma TopInTree(t: nat)
    requires 1 <= t < 16
    ensures 2 * Top(t) <= 16
  {
  }
}
