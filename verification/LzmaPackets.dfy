/** The operations the encoder performs for each packet. */
module LzmaPackets {
  import opened Bytes
  import opened Powers
  import opened BitModel
  import opened LzmaSyntax
  import opened LzmaLayout
  import opened LzmaOps

  /** LitEnc_Encode from an intermediate `sym`; the bits leave through bit 7. */
  function LitOps(base: nat, sym: nat): seq<Op>
    requires 0x100 <= sym
    decreases 0x10000 - sym
  {
    if sym >= 0x10000 then [] else [Modelled(base + sym / 256, sym / 128 % 2)] + LitOps(base, 2 * sym)
  }

  /** LitEnc_EncodeMatched from an intermediate state. */
  function MatchedOps(base: nat, sym: nat, mb: nat, offs: nat): seq<Op>
    requires 0x100 <= sym && (offs == 0 || offs == 256)
    decreases 0x10000 - sym
  {
    if sym >= 0x10000 then []
    else
      var bit := sym / 128 % 2;
      [Modelled(base + (offs + And100(offs, 2 * mb) + sym / 256), bit)]
      + MatchedOps(base, 2 * sym, 2 * mb, AndNotXor100(offs, 2 * mb, 2 * sym))
  }

  /** offs & ~(a ^ b), where offs is 0 or 0x100. */
  function AndNotXor100(offs: nat, a: nat, b: nat): (r: nat)
    requires offs == 0 || offs == 256
    ensures r == 0 || r == 256
  {
    if a / 256 % 2 == b / 256 % 2 then offs else 0
  }

  /** Three bits of a length, most significant first. */
  function Low3Ops(base: nat, sym: nat): seq<Op>
    requires sym < 8
  {
    [Modelled(base + 1, sym / 4), Modelled(base + 2 + sym / 4, sym / 2 % 2), Modelled(base + 4 + sym / 2, sym % 2)]
  }

  /** LenEnc_Encode. */
  function LenOps(base: nat, sym: nat, posState: nat): seq<Op>
    requires sym < 272
  {
    if sym < 8 then [Modelled(base, 0)] + Low3Ops(base + posState * 16, sym)
    else if sym < 16 then [Modelled(base, 1), Modelled(base + 8, 0)] + Low3Ops(base + 8 + posState * 16, sym - 8)
    else [Modelled(base, 1), Modelled(base + 8, 1)] + LitOps(base + 256, 0x100 + (sym - 16))
  }

  /** The posSlot loop; the bits leave through bit 5. */
  function SlotOps(base: nat, sym: nat): seq<Op>
    requires 64 <= sym
    decreases 4096 - sym
  {
    if sym >= 4096 then [] else [Modelled(base + sym / 64, sym / 32 % 2)] + SlotOps(base, 2 * sym)
  }

  /** RcTree_ReverseEncode from node m: n bits of sym, least significant first. */
  function ReverseOps(base: nat, m: nat, n: nat, sym: nat): seq<Op>
    decreases n
  {
    if n == 0 then [] else [Modelled(base + m, sym % 2)] + ReverseOps(base, 2 * m + sym % 2, n - 1, sym / 2)
  }

  /** n bits of v, most significant first. */
  function DirectOps(v: nat, n: nat): seq<Op>
    requires v < Pow2(n)
  {
    if n == 0 then []
    else if v < Pow2(n - 1) then [Direct(0)] + DirectOps(v, n - 1)
    else [Direct(1)] + DirectOps(v - Pow2(n - 1), n - 1)
  }

  /** The slot of a distance: twice the place of its leading one plus the bit below it. */
  function SlotOf(dist: nat): nat { if dist < 4 then dist else SlotOf(dist / 2) + 2 }

  lemma {:induction false} SlotSplits(dist: nat)
    requires 4 <= dist
    ensures var slot := SlotOf(dist); var n := slot / 2 - 1;
            4 <= slot && SlotBase(slot, n) <= dist < SlotBase(slot, n) + Pow2(n)
  {
    if dist < 8 {
      assert SlotOf(dist / 2) == dist / 2;
      assert Doubled(2 + SlotOf(dist) % 2, 1) == 2 * Doubled(2 + SlotOf(dist) % 2, 0);
      assert Pow2(1) == 2 * Pow2(0);
    } else {
      SlotSplits(dist / 2);
    }
  }

  lemma {:induction false} SlotBelow(dist: nat, k: nat)
    requires 1 <= k && dist < 2 * Pow2(k)
    ensures SlotOf(dist) <= 2 * k + 1
    decreases k
  {
    if 4 <= dist {
      SlotBelow(dist / 2, k - 1);
    }
  }

  lemma {:induction false} SlotAbove(dist: nat, k: nat)
    requires 1 <= k && Pow2(k) <= dist
    ensures 2 * k <= SlotOf(dist)
    decreases k
  {
    if k == 1 {
      if 4 <= dist {
        assert SlotOf(dist) == SlotOf(dist / 2) + 2;
      }
    } else {
      assert Pow2(k) == 2 * Pow2(k - 1) && Pow2(k - 1) == 2 * Pow2(k - 2);
      SlotAbove(dist / 2, k - 1);
    }
  }

  lemma SlotBounds(dist: nat)
    requires dist < 0x1_0000_0000
    ensures SlotOf(dist) < 64
    ensures dist < 4 <==> SlotOf(dist) < 4
    ensures dist < 128 <==> SlotOf(dist) < 14
  {
    Pow2Values();
    SlotBelow(dist, 31);
    if dist < 128 { SlotBelow(dist, 6); } else { SlotAbove(dist, 7); }
    if 4 <= dist { SlotAbove(dist, 2); }
  }

  /** The distance bits after the slot. */
  function FooterOps(dist: nat): seq<Op>
    requires dist < 0x1_0000_0000
  {
    if dist < 4 then []
    else
      SlotSplits(dist);
      var slot := SlotOf(dist);
      var n := slot / 2 - 1;
      var base := SlotBase(slot, n);
      if dist < 128 then ReverseOps(ENC_SPEC + base, 1, n, dist)
      else
        SlotBounds(dist);
        FooterSplit(dist - base, n);
        DirectOps((dist - base) / 16, n - 4) + ReverseOps(ENC_ALIGN, 1, 4, dist)
  }

  lemma FooterSplit(v: nat, n: nat)
    requires 4 <= n && v < Pow2(n)
    ensures v / 16 < Pow2(n - 4)
  {
    assert Pow2(n) == 2 * Pow2(n - 1) && Pow2(n - 1) == 2 * Pow2(n - 2);
    assert Pow2(n - 2) == 2 * Pow2(n - 3) && Pow2(n - 3) == 2 * Pow2(n - 4);
  }

  // ---------- One operation at a time ----------

  lemma DirectOpsStep(v: nat, n: nat)
    requires 1 <= n && v < Pow2(n)
    ensures var ops := DirectOps(v, n); var top := v >= Pow2(n - 1);
            && ops != [] && ops[0] == Direct(if top then 1 else 0)
            && (if top then v - Pow2(n - 1) else v) < Pow2(n - 1)
            && ops[1..] == DirectOps(if top then v - Pow2(n - 1) else v, n - 1)
  {
  }

  lemma NoDirectOps(v: nat)
    requires v < Pow2(0)
    ensures DirectOps(v, 0) == []
  {
  }

  lemma ReverseOpsStep(base: nat, m: nat, n: nat, sym: nat)
    requires 1 <= n
    ensures var ops := ReverseOps(base, m, n, sym);
            && ops != [] && ops[0] == Modelled(base + m, sym % 2)
            && ops[1..] == ReverseOps(base, 2 * m + sym % 2, n - 1, sym / 2)
  {
  }

  lemma NoReverseOps(base: nat, m: nat, sym: nat)
    ensures ReverseOps(base, m, 0, sym) == []
  {
  }

  /** What the encoder emits for one packet; Match(END_DISTANCE, 2) is the end marker. */
  function PacketOps(c: Context, p: Packet): seq<Op>
    requires c.Ok() && EncPacketOk(p)
  {
    var isMatch := ENC_IS_MATCH + c.state * 16 + c.posState;
    var isRep := ENC_IS_REP + c.state;
    var g0, g1, g2 := ENC_IS_REP_G0 + c.state, ENC_IS_REP_G1 + c.state, ENC_IS_REP_G2 + c.state;
    var long := ENC_IS_REP0_LONG + c.state * 16 + c.posState;
    match p
    case Lit(b) =>
      var base := ENC_LITERAL + 0x300 * c.lit;
      [Modelled(isMatch, 0)]
      + (if c.state < 7 then LitOps(base, 0x100 + b) else MatchedOps(base, 0x100 + b, c.matchByte, 0x100))
    case ShortRep => [Modelled(isMatch, 1), Modelled(isRep, 1), Modelled(g0, 0), Modelled(long, 0)]
    case Rep(index, len) =>
      [Modelled(isMatch, 1), Modelled(isRep, 1)]
      + (if index == 0 then [Modelled(g0, 0), Modelled(long, 1)]
         else if index == 1 then [Modelled(g0, 1), Modelled(g1, 0)]
         else [Modelled(g0, 1), Modelled(g1, 1), Modelled(g2, index - 2)])
      + LenOps(ENC_REP_LEN, len - 2, c.posState)
    case Match(dist, len) =>
      SlotBounds(dist);
      [Modelled(isMatch, 1), Modelled(isRep, 0)]
      + LenOps(ENC_LEN, len - 2, c.posState)
      + SlotOps(ENC_POS_SLOT + LenState(len - 2) * 64, 64 + SlotOf(dist))
      + FooterOps(dist)
  }

  predicate EncPacketOk(p: Packet) {
    match p
    case Rep(index, len) => index < 4 && 2 <= len <= 273
    case Match(dist, len) => 2 <= len <= 273 && dist < 0x1_0000_0000
    case _ => true
  }
}
