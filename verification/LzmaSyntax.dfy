/** The syntax of one LZMA symbol, as an automaton that takes one bit at a time. */
module LzmaSyntax {
  import opened Bytes
  import opened Powers
  import opened BitModel

  const END_DISTANCE: nat := 0xFFFF_FFFF

  /** A symbol: a literal, the one-byte repetition, a match at one of the four recent distances, or a
      match `dist` + 1 bytes back. */
  datatype Packet =
    | Lit(b: Byte)
    | ShortRep
    | Rep(index: nat, len: nat)
    | Match(dist: nat, len: nat)

  /** What the length being read is for. */
  datatype LenUse = ForMatch | ForRep(index: nat)

  /** What the choice of probabilities depends on besides the bits of the symbol itself. */
  datatype Context = Context(state: nat, posState: nat, lit: nat, matchByte: Byte) {
    predicate Ok() { state < 12 && posState < 16 }
  }

  /** How far the symbol has been read; `len` counts from the shortest match length, 2. */
  datatype Parse =
    | IsMatchBit
    | LitBit(sym: nat)
    | MatchedLitBit(sym: nat, offs: nat, mb: nat)
    | IsRepBit
    | IsRepG0Bit
    | IsRep0LongBit
    | IsRepG1Bit
    | IsRepG2Bit
    | ChoiceBit(use: LenUse)
    | Choice2Bit(use: LenUse)
    | LowBit(use: LenUse, m: nat)
    | MidBit(use: LenUse, m: nat)
    | HighBit(use: LenUse, m: nat)
    | SlotBit(len: nat, m: nat)
    | SpecBit(len: nat, base: nat, t: nat, w: nat, left: nat)
    | DirectBit(len: nat, dist: nat, left: nat)
    | AlignBit(len: nat, dist: nat, t: nat, w: nat)
    | Done(packet: Packet)

  /** offs & mb, where offs is 0 or 0x100. */
  function And100(offs: nat, mb: nat): nat { if offs == 0 then 0 else mb / 256 % 2 * 256 }

  function GotLen(use: LenUse, len: nat): Parse {
    match use
    case ForRep(index) => Done(Rep(index, len + 2))
    case ForMatch => SlotBit(len, 1)
  }

  /** The smallest distance of a slot with n bits to follow: 2 or 3 followed by n zero bits. */
  function SlotBase(slot: nat, n: nat): nat { Doubled(2 + slot % 2, n) }

  function GotSlot(len: nat, slot: nat): Parse
    requires slot < 64
  {
    if slot < 4 then Done(Match(slot, len + 2))
    else if slot < 14 then SpecBit(len, SlotBase(slot, slot / 2 - 1), 1, 1, slot / 2 - 1)
    else DirectBit(len, 2 + slot % 2, slot / 2 - 5)
  }

  ghost predicate UseOk(use: LenUse) { use.ForRep? ==> use.index < 4 }

  /** SpecBit's fields: the tree of a slot from 4 to 13. */
  predicate SpecOk(base: nat, t: nat, w: nat, left: nat) {
    && w <= t < 2 * w
    && ((left == 1 && base in {4, 6} && w == 1)
        || (base in {8, 12} && ((left == 2 && w == 1) || (left == 1 && w == 2)))
        || (base in {16, 24} && ((left == 3 && w == 1) || (left == 2 && w == 2) || (left == 1 && w == 4)))
        || (base in {32, 48} && ((left == 4 && w == 1) || (left == 3 && w == 2) || (left == 2 && w == 4)
                                 || (left == 1 && w == 8)))
        || (base in {64, 96} && ((left == 5 && w == 1) || (left == 4 && w == 2) || (left == 3 && w == 4)
                                 || (left == 2 && w == 8) || (left == 1 && w == 16))))
  }

  ghost predicate Ok(s: Parse) {
    match s
    case LitBit(sym) => 1 <= sym < 256
    case MatchedLitBit(sym, offs, mb) => 1 <= sym < 256 && (offs == 0 || offs == 256)
    case ChoiceBit(use) => UseOk(use)
    case Choice2Bit(use) => UseOk(use)
    case LowBit(use, m) => UseOk(use) && 1 <= m < 8
    case MidBit(use, m) => UseOk(use) && 1 <= m < 8
    case HighBit(use, m) => UseOk(use) && 1 <= m < 256
    case SlotBit(len, m) => len <= 271 && 1 <= m < 64
    case SpecBit(len, base, t, w, left) => len <= 271 && SpecOk(base, t, w, left)
    case DirectBit(len, dist, left) => len <= 271 && 1 <= left <= 26
    case AlignBit(len, dist, t, w) => len <= 271 && w in {1, 2, 4, 8} && w <= t < 2 * w
    case Done(p) => PacketOk(p)
    case _ => true
  }

  ghost predicate PacketOk(p: Packet) {
    match p
    case Rep(index, len) => index < 4 && 2 <= len <= 273
    case Match(dist, len) => 2 <= len <= 273
    case _ => true
  }

  /** The bits still to come, generously counted. */
  function Rank(s: Parse): nat {
    match s
    case IsMatchBit => 5000
    case LitBit(sym) => if sym < 256 then 256 - sym else 0
    case MatchedLitBit(sym, offs, mb) => if sym < 256 then 256 - sym else 0
    case IsRepBit => 4900
    case IsRepG0Bit => 4800
    case IsRep0LongBit => 4500
    case IsRepG1Bit => 4700
    case IsRepG2Bit => 4600
    case ChoiceBit(use) => 4000
    case Choice2Bit(use) => 3900
    case LowBit(use, m) => if m < 8 then 1000 + 8 - m else 0
    case MidBit(use, m) => if m < 8 then 1000 + 8 - m else 0
    case HighBit(use, m) => if m < 256 then 1000 + 256 - m else 0
    case SlotBit(len, m) => if m < 64 then 500 + 64 - m else 0
    case SpecBit(len, base, t, w, left) => left
    case DirectBit(len, dist, left) => 100 + left
    case AlignBit(len, dist, t, w) => if w < 16 then 16 - w else 0
    case Done(p) => 0
  }

  function Step(c: Context, s: Parse, bit: int): Parse
    requires Ok(s) && !s.Done? && IsBit(bit)
  {
    match s
    case IsMatchBit =>
      if bit == 1 then IsRepBit
      else if c.state < 7 then LitBit(1)
      else MatchedLitBit(1, 256, c.matchByte)
    case LitBit(sym) =>
      var n := 2 * sym + bit;
      if n < 256 then LitBit(n) else Done(Lit(n - 256))
    case MatchedLitBit(sym, offs, mb) =>
      var n := 2 * sym + bit;
      var both := And100(offs, 2 * mb);
      if n < 256 then MatchedLitBit(n, if bit == 1 then both else offs - both, 2 * mb) else Done(Lit(n - 256))
    case IsRepBit => if bit == 0 then ChoiceBit(ForMatch) else IsRepG0Bit
    case IsRepG0Bit => if bit == 0 then IsRep0LongBit else IsRepG1Bit
    case IsRep0LongBit => if bit == 0 then Done(ShortRep) else ChoiceBit(ForRep(0))
    case IsRepG1Bit => if bit == 0 then ChoiceBit(ForRep(1)) else IsRepG2Bit
    case IsRepG2Bit => ChoiceBit(ForRep(2 + bit))
    case ChoiceBit(use) => if bit == 0 then LowBit(use, 1) else Choice2Bit(use)
    case Choice2Bit(use) => if bit == 0 then MidBit(use, 1) else HighBit(use, 1)
    case LowBit(use, m) =>
      var n := 2 * m + bit;
      if n < 8 then LowBit(use, n) else GotLen(use, n - 8)
    case MidBit(use, m) =>
      var n := 2 * m + bit;
      if n < 8 then MidBit(use, n) else GotLen(use, n)
    case HighBit(use, m) =>
      var n := 2 * m + bit;
      if n < 256 then HighBit(use, n) else GotLen(use, n - 256 + 16)
    case SlotBit(len, m) =>
      var n := 2 * m + bit;
      if n < 64 then SlotBit(len, n) else GotSlot(len, n - 64)
    case SpecBit(len, base, t, w, left) =>
      var t' := if bit == 0 then t + w else t + 2 * w;
      if left == 1 then Done(Match(base + t' - 2 * w, len + 2)) else SpecBit(len, base, t', 2 * w, left - 1)
    case DirectBit(len, dist, left) =>
      var d := 2 * dist + bit;
      if left == 1 then AlignBit(len, d * 16, 1, 1) else DirectBit(len, d, left - 1)
    case AlignBit(len, dist, t, w) =>
      if w < 8 then AlignBit(len, dist, if bit == 0 then t + w else t + 2 * w, 2 * w)
      else Done(Match(dist + (if bit == 0 then t - 8 else t), len + 2))
  }

  lemma SpecStepOk(c: Context, s: Parse, bit: int)
    requires Ok(s) && s.SpecBit? && IsBit(bit)
    ensures Ok(Step(c, s, bit)) && Rank(Step(c, s, bit)) < Rank(s)
  {
  }

  lemma SlotStepOk(c: Context, s: Parse, bit: int)
    requires Ok(s) && s.SlotBit? && IsBit(bit)
    ensures Ok(Step(c, s, bit)) && Rank(Step(c, s, bit)) < Rank(s)
  {
    hide GotSlot, SpecOk;
    var n := 2 * s.m + bit;
    if n >= 64 {
      GotSlotOk(s.len, n - 64);
    }
  }

  lemma LenStepOk(c: Context, s: Parse, bit: int)
    requires Ok(s) && (s.LowBit? || s.MidBit? || s.HighBit?) && IsBit(bit)
    ensures Ok(Step(c, s, bit)) && Rank(Step(c, s, bit)) < Rank(s)
  {
    hide GotSlot, SpecOk;
  }

  lemma LiteralStepOk(c: Context, s: Parse, bit: int)
    requires Ok(s) && (s.LitBit? || s.MatchedLitBit?) && IsBit(bit)
    ensures Ok(Step(c, s, bit)) && Rank(Step(c, s, bit)) < Rank(s)
  {
    hide SpecOk;
  }

  lemma LongStepOk(c: Context, s: Parse, bit: int)
    requires Ok(s) && (s.DirectBit? || s.AlignBit?) && IsBit(bit)
    ensures Ok(Step(c, s, bit)) && Rank(Step(c, s, bit)) < Rank(s)
  {
    hide SpecOk;
  }

  lemma HeadStepOk(c: Context, s: Parse, bit: int)
    requires Ok(s) && IsBit(bit)
    requires s.IsMatchBit? || s.IsRepBit? || s.IsRepG0Bit? || s.IsRep0LongBit? || s.IsRepG1Bit? || s.IsRepG2Bit? || s.ChoiceBit? || s.Choice2Bit?
    ensures Ok(Step(c, s, bit)) && Rank(Step(c, s, bit)) < Rank(s)
  {
    hide SpecOk;
  }

  lemma StepOk(c: Context, s: Parse, bit: int)
    requires Ok(s) && !s.Done? && IsBit(bit)
    ensures Ok(Step(c, s, bit))
    ensures Rank(Step(c, s, bit)) < Rank(s)
  {
    hide Step, Ok, Rank;
    if s.SpecBit? {
      SpecStepOk(c, s, bit);
    } else if s.SlotBit? {
      SlotStepOk(c, s, bit);
    } else if s.LowBit? || s.MidBit? || s.HighBit? {
      LenStepOk(c, s, bit);
    } else if s.LitBit? || s.MatchedLitBit? {
      LiteralStepOk(c, s, bit);
    } else if s.DirectBit? || s.AlignBit? {
      LongStepOk(c, s, bit);
    } else {
      HeadStepOk(c, s, bit);
    }
  }

  lemma GotSlotOk(len: nat, slot: nat)
    requires len <= 271 && slot < 64
    ensures Ok(GotSlot(len, slot)) && Rank(GotSlot(len, slot)) < 500
  {
    if 4 <= slot < 14 {
      assert SlotBase(slot, 0) == 2 + slot % 2;
      assert SlotBase(slot, 1) == 2 * (2 + slot % 2);
      assert SlotBase(slot, 2) == 4 * (2 + slot % 2);
      assert SlotBase(slot, 3) == 8 * (2 + slot % 2);
      assert SlotBase(slot, 4) == 16 * (2 + slot % 2);
      assert SlotBase(slot, 5) == 32 * (2 + slot % 2);
    }
  }

  // ---------- Where the decoder keeps the probabilities ----------

  const SPEC_POS: nat := 0
  const IS_REP0_LONG: nat := 128
  const REP_LEN: nat := 384
  const MATCH_LEN: nat := 896
  const IS_MATCH: nat := 1408
  const ALIGN: nat := 1664
  const IS_REP: nat := 1680
  const IS_REP_G0: nat := 1692
  const IS_REP_G1: nat := 1704
  const IS_REP_G2: nat := 1716
  const POS_SLOT: nat := 1728
  const LITERAL: nat := 1984

  function LenBase(use: LenUse): nat { if use.ForMatch? then MATCH_LEN else REP_LEN }

  /** The posSlot table used for a length. */
  function LenState(len: nat): nat { if len < 4 then len else 3 }

  /** The place in the decoder's flat table of the probability of the next bit. */
  function Idx(c: Context, s: Parse): nat
    requires !s.Done? && !s.DirectBit?
  {
    match s
    case IsMatchBit => IS_MATCH + c.posState * 16 + c.state
    case LitBit(sym) => LITERAL + 0x300 * c.lit + sym
    case MatchedLitBit(sym, offs, mb) => LITERAL + 0x300 * c.lit + (And100(offs, 2 * mb) + offs + sym)
    case IsRepBit => IS_REP + c.state
    case IsRepG0Bit => IS_REP_G0 + c.state
    case IsRep0LongBit => IS_REP0_LONG + c.posState * 16 + c.state
    case IsRepG1Bit => IS_REP_G1 + c.state
    case IsRepG2Bit => IS_REP_G2 + c.state
    case ChoiceBit(use) => LenBase(use)
    case Choice2Bit(use) => LenBase(use) + 8
    case LowBit(use, m) => LenBase(use) + c.posState * 16 + m
    case MidBit(use, m) => LenBase(use) + c.posState * 16 + 8 + m
    case HighBit(use, m) => LenBase(use) + 256 + m
    case SlotBit(len, m) => POS_SLOT + LenState(len) * 64 + m
    case SpecBit(len, base, t, w, left) => SPEC_POS + base + t
    case AlignBit(len, dist, t, w) => ALIGN + t
  }

  lemma IdxBound(c: Context, s: Parse)
    requires c.Ok() && Ok(s) && !s.Done? && !s.DirectBit?
    ensures Idx(c, s) < LITERAL + 0x300 * (c.lit + 1)
  {
  }

  /** Places that may still be read in the rest of the symbol. */
  ghost predicate Unread(c: Context, s: Parse, i: nat) {
    match s
    case IsMatchBit => true
    case LitBit(sym) => LITERAL + 0x300 * c.lit + sym <= i
    case MatchedLitBit(sym, offs, mb) =>
      LITERAL + 0x300 * c.lit <= i && (i - LITERAL - 0x300 * c.lit) % 256 >= sym
    case IsRepBit => i < LITERAL && !(IS_MATCH <= i < ALIGN)
    case IsRepG0Bit => IS_REP0_LONG <= i < MATCH_LEN || IS_REP_G0 <= i < POS_SLOT
    case IsRep0LongBit => IS_REP0_LONG <= i < MATCH_LEN
    case IsRepG1Bit => REP_LEN <= i < MATCH_LEN || IS_REP_G1 <= i < POS_SLOT
    case IsRepG2Bit => REP_LEN <= i < MATCH_LEN || IS_REP_G2 <= i < POS_SLOT
    case ChoiceBit(use) => LenBase(use) <= i < LenBase(use) + 512 || UnreadDistance(use, i)
    case Choice2Bit(use) => LenBase(use) + 8 <= i < LenBase(use) + 512 || UnreadDistance(use, i)
    case LowBit(use, m) => LenBase(use) + c.posState * 16 + m <= i < LenBase(use) + 512 || UnreadDistance(use, i)
    case MidBit(use, m) => LenBase(use) + c.posState * 16 + 8 + m <= i < LenBase(use) + 512 || UnreadDistance(use, i)
    case HighBit(use, m) => LenBase(use) + 256 + m <= i < LenBase(use) + 512 || UnreadDistance(use, i)
    case SlotBit(len, m) =>
      POS_SLOT + LenState(len) * 64 + m <= i < LITERAL || i < IS_REP0_LONG || ALIGN <= i < IS_REP
    case SpecBit(len, base, t, w, left) => base + t <= i < IS_REP0_LONG
    case DirectBit(len, dist, left) => ALIGN <= i < IS_REP
    case AlignBit(len, dist, t, w) => ALIGN + t <= i < IS_REP
    case Done(p) => false
  }

  ghost predicate UnreadDistance(use: LenUse, i: nat) {
    use.ForMatch? && (i < IS_REP0_LONG || ALIGN <= i < IS_REP || POS_SLOT <= i < LITERAL)
  }

  lemma ReadOnceMatched(c: Context, s: Parse, bit: int, i: nat)
    requires Ok(s) && s.MatchedLitBit? && IsBit(bit)
    requires Unread(c, Step(c, s, bit), i)
    ensures Unread(c, s, i) && i != Idx(c, s)
  {
    var plane := And100(s.offs, 2 * s.mb) + s.offs;
    assert plane == 0 || plane == 256 || plane == 512;
    assert (plane + s.sym) % 256 == s.sym;
  }

  lemma ReadOnceChoice(c: Context, s: Parse, bit: int, i: nat)
    requires c.Ok() && Ok(s) && (s.ChoiceBit? || s.Choice2Bit?) && IsBit(bit)
    requires Unread(c, Step(c, s, bit), i)
    ensures Unread(c, s, i) && i != Idx(c, s)
  {
    hide GotSlot, SpecOk, And100;
  }

  lemma ReadOnceLength(c: Context, s: Parse, bit: int, i: nat)
    requires c.Ok() && Ok(s) && (s.LowBit? || s.MidBit?) && IsBit(bit)
    requires Unread(c, Step(c, s, bit), i)
    ensures Unread(c, s, i) && i != Idx(c, s)
  {
    hide GotSlot, SpecOk, And100;
  }

  lemma ReadOnceHigh(c: Context, s: Parse, bit: int, i: nat)
    requires c.Ok() && Ok(s) && s.HighBit? && IsBit(bit)
    requires Unread(c, Step(c, s, bit), i)
    ensures Unread(c, s, i) && i != Idx(c, s)
  {
    hide GotSlot, SpecOk, And100;
  }

  lemma ReadOnceSlot(c: Context, s: Parse, bit: int, i: nat)
    requires Ok(s) && s.SlotBit? && IsBit(bit)
    requires Unread(c, Step(c, s, bit), i)
    ensures Unread(c, s, i) && i != Idx(c, s)
  {
    var n := 2 * s.m + bit;
    if n >= 64 {
      GotSlotOk(s.len, n - 64);
      var g := GotSlot(s.len, n - 64);
      assert g.SpecBit? ==> Ok(g);
    }
  }

  lemma ReadOnceDistance(c: Context, s: Parse, bit: int, i: nat)
    requires Ok(s) && (s.SpecBit? || s.DirectBit? || s.AlignBit?) && IsBit(bit)
    requires Unread(c, Step(c, s, bit), i)
    ensures Unread(c, s, i) && (!s.DirectBit? ==> i != Idx(c, s))
  {
  }

  /** No symbol reads the same probability twice. */
  lemma ReadOnce(c: Context, s: Parse, bit: int, i: nat)
    requires c.Ok() && Ok(s) && !s.Done? && IsBit(bit)
    requires Unread(c, Step(c, s, bit), i)
    ensures Unread(c, s, i)
    ensures !s.DirectBit? ==> i != Idx(c, s)
  {
    match s
    case MatchedLitBit(_, _, _) => ReadOnceMatched(c, s, bit, i);
    case LowBit(_, _) => ReadOnceLength(c, s, bit, i);
    case MidBit(_, _) => ReadOnceLength(c, s, bit, i);
    case HighBit(_, _) => ReadOnceHigh(c, s, bit, i);
    case ChoiceBit(_) => ReadOnceChoice(c, s, bit, i);
    case Choice2Bit(_) => ReadOnceChoice(c, s, bit, i);
    case SlotBit(_, _) => ReadOnceSlot(c, s, bit, i);
    case SpecBit(_, _, _, _, _) => ReadOnceDistance(c, s, bit, i);
    case DirectBit(_, _, _) => ReadOnceDistance(c, s, bit, i);
    case AlignBit(_, _, _, _) => ReadOnceDistance(c, s, bit, i);
    case _ =>
  }
}
