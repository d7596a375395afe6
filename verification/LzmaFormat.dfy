/** The format that encoder and decoder share: which bits spell a packet, and which bits share a probability. */
module LzmaFormat {
  import opened BitModel
  import opened Bytes
  import opened LzmaCoding
  import opened LzmaLayout
  import opened LzmaOps
  import opened LzmaPackets
  import opened LzmaState
  import opened LzmaSyntax
  import opened Powers

  // ---------- The bits of a packet ----------

  /** The n lowest bits of v, the highest of them first. */
  function MsbFirst(v: nat, n: nat): (s: seq<int>)
    ensures |s| == n
  {
    if n == 0 then [] else [v / Pow2(n - 1) % 2] + MsbFirst(v, n - 1)
  }

  /** The n lowest bits of v, the lowest first. */
  function LsbFirst(v: nat, n: nat): (s: seq<int>)
    ensures |s| == n
  {
    if n == 0 then [] else [v % 2] + LsbFirst(v / 2, n - 1)
  }

  /** A length, counted from 2: below 8 it takes 4 bits, below 16 it takes 5, and 10 above. */
  function LenBits(l: nat): seq<int> {
    if l < 8 then [0] + MsbFirst(l, 3) else if l < 16 then [1, 0] + MsbFirst(l - 8, 3) else [1, 1] + MsbFirst(l - 16, 8)
  }

  /** What follows the slot of a distance: nothing for the first four, then the bits below the upper two, lowest first, or
      from slot 14 on the four lowest bits in this way after the others. */
  function FooterBits(dist: nat): seq<int> {
    var slot := SlotOf(dist);
    if slot < 4 then []
    else if slot < 14 then LsbFirst(dist, slot / 2 - 1)
    else MsbFirst(dist / 16, slot / 2 - 5) + LsbFirst(dist, 4)
  }

  /** The bits that spell a packet. */
  function Spelled(p: Packet): seq<int>
    requires EncPacketOk(p)
  {
    match p
    case Lit(b) => [0] + MsbFirst(b, 8)
    case ShortRep => [1, 1, 0, 0]
    case Rep(index, len) =>
      (if index == 0 then [1, 1, 0, 1] else if index == 1 then [1, 1, 1, 0] else [1, 1, 1, 1, index - 2]) + LenBits(len - 2)
    case Match(dist, len) => [1, 0] + LenBits(len - 2) + MsbFirst(SlotOf(dist), 6) + FooterBits(dist)
  }

  function BitsOf(ops: seq<Op>): (s: seq<int>)
    ensures |s| == |ops| && forall i :: 0 <= i < |ops| ==> s[i] == ops[i].bit
  {
    seq(|ops|, i requires 0 <= i < |ops| => ops[i].bit)
  }

  lemma BitsOfTwo(a: seq<Op>, b: seq<Op>)
    ensures BitsOf(a + b) == BitsOf(a) + BitsOf(b)
  {
  }

  lemma ShiftedBit(x: nat, k: nat, n: nat)
    requires n <= k <= 8
    ensures x * Pow2(k - n) / Pow2(k) == x / Pow2(n)
  {
    Pow2Add(k - n, n);
    PowPositive(n);
    PowPositive(k - n);
    Cancelled(x, Pow2(k - n), Pow2(n));
  }

  lemma Cancelled(x: nat, a: nat, b: nat)
    requires 0 < a && 0 < b
    ensures 0 < a * b && x * a / (a * b) == x / b
  {
    DivDiv(x * a, a, b);
    ModOfSum(x, a, 0);
  }

  /** The loop that moves the bits of a byte out at the top. */
  lemma {:induction false} LitBits(base: nat, x: nat, n: nat)
    requires 0x100 <= x < 0x200 && n <= 8
    ensures 0x100 <= x * Pow2(8 - n) && BitsOf(LitOps(base, x * Pow2(8 - n))) == MsbFirst(x, n)
    decreases n
  {
    hide Pow2;
    Pow2Small();
    TimesMono(1, Pow2(8 - n), x);
    TimesMono(0x100, x, Pow2(8 - n));
    if n == 0 {
      NoLitOps(base, x * 256);
    } else {
      var sym := x * Pow2(8 - n);
      LitBits(base, x, n - 1);
      NextPower(x, 8 - n);
      ShiftedBit(x, 7, n - 1);
      SymBelow(x, n);
      LitOpsStep(base, sym);
      BitsOfTwo([Modelled(base + sym / 256, sym / 128 % 2)], LitOps(base, 2 * sym));
    }
  }

  lemma NextPower(x: nat, k: nat)
    ensures 2 * (x * Pow2(k)) == x * Pow2(k + 1)
  {
    Regroup(2, x, Pow2(k));
    Regroup(x, 2, Pow2(k));
  }

  lemma SymBelow(x: nat, n: nat)
    requires x < 0x200 && 1 <= n <= 8
    ensures x * Pow2(8 - n) < 0x1_0000
  {
    Pow2Small();
    Pow2Mono(8 - n, 7);
    TimesMono(Pow2(8 - n), 128, x);
  }

  lemma LitOpsStep(base: nat, sym: nat)
    requires 0x100 <= sym < 0x1_0000
    ensures LitOps(base, sym) == [Modelled(base + sym / 256, sym / 128 % 2)] + LitOps(base, 2 * sym)
  {
  }

  lemma NoLitOps(base: nat, sym: nat)
    requires 0x1_0000 <= sym
    ensures LitOps(base, sym) == []
  {
  }

  /** A matched literal has the same bits. */
  lemma {:induction false} MatchedBits(base: nat, sym: nat, mb: nat, offs: nat)
    requires 0x100 <= sym && (offs == 0 || offs == 256)
    ensures BitsOf(MatchedOps(base, sym, mb, offs)) == BitsOf(LitOps(base, sym))
    decreases 0x1_0000 - sym
  {
    if sym < 0x1_0000 {
      MatchedBits(base, 2 * sym, 2 * mb, AndNotXor100(offs, 2 * mb, 2 * sym));
    }
  }

  lemma {:induction false} SlotBits(base: nat, x: nat, n: nat)
    requires 64 <= x < 128 && n <= 6
    ensures 64 <= x * Pow2(6 - n) && BitsOf(SlotOps(base, x * Pow2(6 - n))) == MsbFirst(x, n)
    decreases n
  {
    hide Pow2;
    Pow2Small();
    TimesMono(1, Pow2(6 - n), x);
    TimesMono(64, x, Pow2(6 - n));
    if n == 0 {
      NoSlotOps(base, x * 64);
    } else {
      var sym := x * Pow2(6 - n);
      SlotBits(base, x, n - 1);
      NextPower(x, 6 - n);
      ShiftedBit(x, 5, n - 1);
      Pow2Mono(6 - n, 5);
      TimesMono(Pow2(6 - n), 32, x);
      SlotOpsStep(base, sym);
      BitsOfTwo([Modelled(base + sym / 64, sym / 32 % 2)], SlotOps(base, 2 * sym));
    }
  }

  lemma SlotOpsStep(base: nat, sym: nat)
    requires 64 <= sym < 4096
    ensures SlotOps(base, sym) == [Modelled(base + sym / 64, sym / 32 % 2)] + SlotOps(base, 2 * sym)
  {
  }

  lemma NoSlotOps(base: nat, sym: nat)
    requires 4096 <= sym
    ensures SlotOps(base, sym) == []
  {
  }

  lemma {:induction false} ReverseBits(base: nat, m: nat, n: nat, sym: nat)
    ensures BitsOf(ReverseOps(base, m, n, sym)) == LsbFirst(sym, n)
    decreases n
  {
    if n > 0 {
      ReverseBits(base, 2 * m + sym % 2, n - 1, sym / 2);
      BitsOfTwo([Modelled(base + m, sym % 2)], ReverseOps(base, 2 * m + sym % 2, n - 1, sym / 2));
    }
  }

  /** Higher bits do not matter. */
  lemma {:induction false} MsbLow(v: nat, k: nat, n: nat)
    ensures MsbFirst(v + k * Pow2(n), n) == MsbFirst(v, n)
    decreases n
  {
    hide Pow2, MsbFirst;
    MsbHead(v, n);
    MsbHead(v + k * Pow2(n), n);
    if n > 0 {
      var p := Pow2(n - 1);
      HalfPower(n);
      Regroup(k, 2, p);
      MsbLow(v, 2 * k, n - 1);
      SameBit(v, k, p);
    }
  }

  lemma MsbHead(v: nat, n: nat)
    ensures n == 0 ==> MsbFirst(v, n) == []
    ensures n > 0 ==> Pow2(n - 1) > 0 && MsbFirst(v, n) == [v / Pow2(n - 1) % 2] + MsbFirst(v, n - 1)
  {
  }

  lemma SameBit(v: nat, k: nat, p: nat)
    requires 1 <= p
    ensures (v + (2 * k) * p) / p % 2 == v / p % 2
  {
    Quotient(v, p);
    Distribute(v / p, 2 * k, p);
    ModOfSum(v / p + 2 * k, p, v % p);
  }

  lemma {:induction false} DirectBits(v: nat, n: nat)
    requires v < Pow2(n)
    ensures BitsOf(DirectOps(v, n)) == MsbFirst(v, n)
    decreases n
  {
    hide Pow2, DirectOps, MsbFirst, BitsOf;
    MsbHead(v, n);
    if n == 0 {
      NoDirectOps(v);
    } else {
      var p := Pow2(n - 1);
      HalfPower(n);
      var top := v >= p;
      var w := if top then v - p else v;
      DirectOpsStep(v, n);
      DirectBits(w, n - 1);
      MsbLow(w, if top then 1 else 0, n - 1);
      ModOfSum(if top then 1 else 0, p, w);
      var ops := DirectOps(v, n);
      assert ops == [ops[0]] + ops[1..];
      BitsOfTwo([ops[0]], ops[1..]);
    }
  }

  lemma HalfPower(n: nat)
    requires 1 <= n
    ensures Pow2(n) == 2 * Pow2(n - 1) && 1 <= Pow2(n - 1)
  {
  }

  lemma LenBitsAre(base: nat, l: nat, posState: nat)
    requires l < 272
    ensures BitsOf(LenOps(base, l, posState)) == LenBits(l)
  {
    Pow2Small();
    if l < 8 {
      Three(base + posState * 16, l);
      BitsOfTwo([Modelled(base, 0)], Low3Ops(base + posState * 16, l));
    } else if l < 16 {
      Three(base + 8 + posState * 16, l - 8);
      BitsOfTwo([Modelled(base, 1), Modelled(base + 8, 0)], Low3Ops(base + 8 + posState * 16, l - 8));
    } else {
      ByteBits(base + 256, l - 16);
      BitsOfTwo([Modelled(base, 1), Modelled(base + 8, 1)], LitOps(base + 256, 0x100 + (l - 16)));
    }
  }

  lemma Three(base: nat, x: nat)
    requires x < 8
    ensures BitsOf(Low3Ops(base, x)) == MsbFirst(x, 3)
  {
    Pow2Small();
    assert MsbFirst(x, 1) == [x % 2];
    assert MsbFirst(x, 2) == [x / 2 % 2, x % 2];
  }

  lemma ByteBits(base: nat, b: nat)
    requires b < 256
    ensures BitsOf(LitOps(base, 0x100 + b)) == MsbFirst(b, 8)
  {
    hide Pow2, MsbFirst, LitOps;
    Pow2Small();
    LitBits(base, 0x100 + b, 8);
    MsbLow(b, 1, 8);
  }

  lemma FooterBitsAre(dist: nat)
    requires dist < 0x1_0000_0000
    ensures BitsOf(FooterOps(dist)) == FooterBits(dist)
  {
    hide Pow2, SlotOf, DirectOps, ReverseOps, MsbFirst, LsbFirst;
    SlotBounds(dist);
    if 4 <= dist {
      SlotSplits(dist);
      var n := SlotOf(dist) / 2 - 1;
      var base := SlotBase(SlotOf(dist), n);
      if dist < 128 {
        ReverseBits(ENC_SPEC + base, 1, n, dist);
      } else {
        FooterSplit(dist - base, n);
        DirectBits((dist - base) / 16, n - 4);
        ReverseBits(ENC_ALIGN, 1, 4, dist);
        BaseAway(dist, SlotOf(dist), n);
        BitsOfTwo(DirectOps((dist - base) / 16, n - 4), ReverseOps(ENC_ALIGN, 1, 4, dist));
      }
    }
  }

  /** The upper two bits do not matter to those below. */
  lemma BaseAway(dist: nat, slot: nat, n: nat)
    requires 4 <= n && SlotBase(slot, n) <= dist
    ensures MsbFirst((dist - SlotBase(slot, n)) / 16, n - 4) == MsbFirst(dist / 16, n - 4)
  {
    hide Pow2;
    var k := 2 + slot % 2;
    DoubledIsTimes(k, n);
    Pow2Add(4, n - 4);
    Pow2Small();
    var m := k * Pow2(n - 4);
    Regroup(k, 16, Pow2(n - 4));
    var v := dist - SlotBase(slot, n);
    Quotient(v, 16);
    assert dist == (v / 16 + m) * 16 + v % 16;
    MsbLow(v / 16, k, n - 4);
  }

  /** Whatever the context, the encoder writes a packet with the bits that spell it. */
  lemma PacketBits(c: Context, p: Packet)
    requires c.Ok() && EncPacketOk(p)
    ensures BitsOf(PacketOps(c, p)) == Spelled(p)
  {
    hide MsbFirst, LsbFirst, LitOps, MatchedOps, LenOps, SlotOps, FooterOps, FooterBits, LenBits, SlotOf;
    match p
    case Lit(b) => LitPacketBits(c, b);
    case ShortRep =>
    case Rep(index, len) => RepPacketBits(c, index, len);
    case Match(dist, len) => MatchPacketBits(c, dist, len);
  }

  lemma LitPacketBits(c: Context, b: Byte)
    requires c.Ok()
    ensures BitsOf(PacketOps(c, Lit(b))) == Spelled(Lit(b))
  {
    hide MsbFirst, LitOps, MatchedOps;
    var base, head := ENC_LITERAL + 0x300 * c.lit, [Modelled(ENC_IS_MATCH + c.state * 16 + c.posState, 0)];
    ByteBits(base, b);
    MatchedBits(base, 0x100 + b, c.matchByte, 0x100);
    BitsOfTwo(head, LitOps(base, 0x100 + b));
    BitsOfTwo(head, MatchedOps(base, 0x100 + b, c.matchByte, 0x100));
  }

  lemma RepPacketBits(c: Context, index: nat, len: nat)
    requires c.Ok() && EncPacketOk(Rep(index, len))
    ensures BitsOf(PacketOps(c, Rep(index, len))) == Spelled(Rep(index, len))
  {
    hide LenOps, LenBits;
    var tail := LenOps(ENC_REP_LEN, len - 2, c.posState);
    LenBitsAre(ENC_REP_LEN, len - 2, c.posState);
    var ops := PacketOps(c, Rep(index, len));
    var head := ops[..|ops| - |tail|];
    assert ops == head + tail;
    BitsOfTwo(head, tail);
  }

  lemma MatchPacketBits(c: Context, dist: nat, len: nat)
    requires c.Ok() && EncPacketOk(Match(dist, len))
    ensures BitsOf(PacketOps(c, Match(dist, len))) == Spelled(Match(dist, len))
  {
    hide LenOps, LenBits, SlotOps, FooterOps, FooterBits, MsbFirst, SlotOf;
    SlotBounds(dist);
    var head := [Modelled(ENC_IS_MATCH + c.state * 16 + c.posState, 1), Modelled(ENC_IS_REP + c.state, 0)];
    var lens, slots := LenOps(ENC_LEN, len - 2, c.posState), SlotOps(ENC_POS_SLOT + LenState(len - 2) * 64, 64 + SlotOf(dist));
    LenBitsAre(ENC_LEN, len - 2, c.posState);
    SixBits(ENC_POS_SLOT + LenState(len - 2) * 64, SlotOf(dist));
    FooterBitsAre(dist);
    BitsOfTwo(head, lens);
    BitsOfTwo(head + lens, slots);
    BitsOfTwo(head + lens + slots, FooterOps(dist));
  }

  lemma SixBits(base: nat, slot: nat)
    requires slot < 64
    ensures BitsOf(SlotOps(base, 64 + slot)) == MsbFirst(slot, 6)
  {
    Pow2Small();
    SlotBits(base, 64 + slot, 6);
    MsbLow(slot, 1, 6);
  }

  // ---------- The probabilities of a bit ----------

  /** Which of the planes of a literal coder: the plain one, or one of two while all bits have been those of the byte that
      a match would bring. */
  function Plane(s: Parse): nat
    requires s.LitBit? || s.MatchedLitBit?
  {
    if s.LitBit? || s.offs == 0 then 0 else 1 + s.mb / 128 % 2
  }

  predicate IsLit(s: Parse) { s.LitBit? || s.MatchedLitBit? }

  /** Two bits that adapt together: the same bit of the syntax, after the same bits of its own tree, in contexts that agree
      in what this bit looks at. */
  predicate OneModel(c: Context, s: Parse, c': Context, s': Parse) {
    match s
    case IsMatchBit => s'.IsMatchBit? && c.state == c'.state && c.posState == c'.posState
    case LitBit(_) => IsLit(s') && c.lit == c'.lit && Plane(s) == Plane(s') && s.sym == s'.sym
    case MatchedLitBit(_, _, _) => IsLit(s') && c.lit == c'.lit && Plane(s) == Plane(s') && s.sym == s'.sym
    case IsRepBit => s'.IsRepBit? && c.state == c'.state
    case IsRepG0Bit => s'.IsRepG0Bit? && c.state == c'.state
    case IsRep0LongBit => s'.IsRep0LongBit? && c.state == c'.state && c.posState == c'.posState
    case IsRepG1Bit => s'.IsRepG1Bit? && c.state == c'.state
    case IsRepG2Bit => s'.IsRepG2Bit? && c.state == c'.state
    case ChoiceBit(use) => s'.ChoiceBit? && use.ForMatch? == s'.use.ForMatch?
    case Choice2Bit(use) => s'.Choice2Bit? && use.ForMatch? == s'.use.ForMatch?
    case LowBit(use, m) => s'.LowBit? && use.ForMatch? == s'.use.ForMatch? && m == s'.m && c.posState == c'.posState
    case MidBit(use, m) => s'.MidBit? && use.ForMatch? == s'.use.ForMatch? && m == s'.m && c.posState == c'.posState
    case HighBit(use, m) => s'.HighBit? && use.ForMatch? == s'.use.ForMatch? && m == s'.m
    case SlotBit(len, m) => s'.SlotBit? && m == s'.m && (len == s'.len || (3 <= len && 3 <= s'.len))
    case SpecBit(_, base, t, _, _) => s'.SpecBit? && base == s'.base && t == s'.t
    case AlignBit(_, _, t, _) => s'.AlignBit? && t == s'.t
    case _ => false
  }

  /** The kind of a bit, and the kind that its place in the table shows. */
  function Kind(s: Parse): nat {
    match s
    case SpecBit(_, _, _, _, _) => 0
    case IsRep0LongBit => 1
    case ChoiceBit(use) => if use.ForMatch? then 7 else 2
    case Choice2Bit(use) => if use.ForMatch? then 8 else 3
    case LowBit(use, _) => if use.ForMatch? then 9 else 4
    case MidBit(use, _) => if use.ForMatch? then 10 else 5
    case HighBit(use, _) => if use.ForMatch? then 11 else 6
    case IsMatchBit => 12
    case AlignBit(_, _, _, _) => 13
    case IsRepBit => 14
    case IsRepG0Bit => 15
    case IsRepG1Bit => 16
    case IsRepG2Bit => 17
    case SlotBit(_, _) => 18
    case _ => 19
  }

  function LenKind(o: nat): nat { if o == 0 then 0 else if o == 8 then 1 else if o >= 256 then 4 else if o % 16 < 8 then 2 else 3 }

  function KindAt(i: nat): nat {
    if i < IS_REP0_LONG then 0
    else if i < REP_LEN then 1
    else if i < MATCH_LEN then 2 + LenKind(i - REP_LEN)
    else if i < IS_MATCH then 7 + LenKind(i - MATCH_LEN)
    else if i < ALIGN then 12
    else if i < IS_REP then 13
    else if i < IS_REP_G0 then 14
    else if i < IS_REP_G1 then 15
    else if i < IS_REP_G2 then 16
    else if i < POS_SLOT then 17
    else if i < LITERAL then 18
    else 19
  }

  ghost predicate Consults(c: Context, s: Parse) { c.Ok() && Ok(s) && !s.Done? && !s.DirectBit? }

  lemma SpecShows(c: Context, s: Parse)
    requires Consults(c, s) && s.SpecBit?
    ensures KindAt(Idx(c, s)) == 0
  {
    hide SpecOk, SpecBase;
    SpecSizes(s.base, s.t, s.w, s.left);
  }

  lemma LenShows(c: Context, s: Parse)
    requires Consults(c, s) && (s.LowBit? || s.MidBit? || s.HighBit? || s.ChoiceBit? || s.Choice2Bit?)
    ensures KindAt(Idx(c, s)) == Kind(s)
  {
    hide SpecOk;
  }

  lemma OtherShows(c: Context, s: Parse)
    requires Consults(c, s) && !(s.LowBit? || s.MidBit? || s.HighBit? || s.ChoiceBit? || s.Choice2Bit? || s.SpecBit?)
    ensures KindAt(Idx(c, s)) == Kind(s)
  {
    hide SpecOk, LenKind;
  }

  lemma KindShows(c: Context, s: Parse)
    requires Consults(c, s)
    ensures KindAt(Idx(c, s)) == Kind(s)
  {
    hide KindAt, Idx, Kind, Ok;
    if s.SpecBit? {
      SpecShows(c, s);
      SpecKind(s);
    } else if s.LowBit? || s.MidBit? || s.HighBit? || s.ChoiceBit? || s.Choice2Bit? {
      LenShows(c, s);
    } else {
      OtherShows(c, s);
    }
  }

  lemma SpecKind(s: Parse)
    requires s.SpecBit?
    ensures Kind(s) == 0
  {
  }

  /** Bits of one kind. */
  lemma SpecModel(c: Context, s: Parse, c': Context, s': Parse)
    requires Consults(c, s) && Consults(c', s') && s.SpecBit? && s'.SpecBit?
    ensures Idx(c, s) == Idx(c', s') <==> OneModel(c, s, c', s')
  {
    hide SpecOk, SpecBase;
    SpecSizes(s.base, s.t, s.w, s.left);
    SpecSizes(s'.base, s'.t, s'.w, s'.left);
  }

  lemma LitModel(c: Context, s: Parse, c': Context, s': Parse)
    requires Consults(c, s) && Consults(c', s') && IsLit(s) && IsLit(s')
    ensures Idx(c, s) == Idx(c', s') <==> OneModel(c, s, c', s')
  {
    LitPlace(c, s);
    LitPlace(c', s');
    hide Idx;
    Places(c.lit, Plane(s), s.sym, c'.lit, Plane(s'), s'.sym);
  }

  lemma LitPlace(c: Context, s: Parse)
    requires Consults(c, s) && IsLit(s)
    ensures Plane(s) < 3 && s.sym < 256 && Idx(c, s) == LITERAL + 256 * (3 * c.lit + Plane(s)) + s.sym
  {
  }

  lemma Places(l: nat, p: nat, m: nat, l': nat, p': nat, m': nat)
    requires p < 3 && p' < 3 && m < 256 && m' < 256
    ensures 256 * (3 * l + p) + m == 256 * (3 * l' + p') + m' <==> l == l' && p == p' && m == m'
  {
  }

  lemma LenModel(c: Context, s: Parse, c': Context, s': Parse)
    requires Consults(c, s) && Consults(c', s') && Kind(s) == Kind(s') && 2 <= Kind(s) <= 11
    ensures Idx(c, s) == Idx(c', s') <==> OneModel(c, s, c', s')
  {
    hide SpecOk;
  }

  lemma OtherModel(c: Context, s: Parse, c': Context, s': Parse)
    requires Consults(c, s) && Consults(c', s') && Kind(s) == Kind(s') && (Kind(s) == 1 || 12 <= Kind(s) <= 18)
    ensures Idx(c, s) == Idx(c', s') <==> OneModel(c, s, c', s')
  {
    hide SpecOk;
  }

  /** Two bits use the same probability exactly if they are one model. */
  lemma SameProbability(c: Context, s: Parse, c': Context, s': Parse)
    requires Consults(c, s) && Consults(c', s')
    ensures Idx(c, s) == Idx(c', s') <==> OneModel(c, s, c', s')
  {
    hide Idx, KindAt, Ok, Kind;
    KindShows(c, s);
    KindShows(c', s');
    OneKind(c, s, c', s');
    if Kind(s) == Kind(s') {
      KindsAgree(s, s');
      if s.SpecBit? {
        SpecModel(c, s, c', s');
      } else if IsLit(s) {
        LitModel(c, s, c', s');
      } else if 2 <= Kind(s) <= 11 {
        LenModel(c, s, c', s');
      } else {
        OtherModel(c, s, c', s');
      }
    }
  }

  lemma OneKind(c: Context, s: Parse, c': Context, s': Parse)
    ensures OneModel(c, s, c', s') ==> Kind(s) == Kind(s')
  {
  }

  lemma KindsAgree(s: Parse, s': Parse)
    requires Kind(s) == Kind(s') && !s.Done? && !s.DirectBit? && !s'.Done? && !s'.DirectBit?
    ensures (s.SpecBit? <==> s'.SpecBit?) && (s.SpecBit? <==> Kind(s) == 0) && (IsLit(s) <==> IsLit(s')) && (IsLit(s) <==> Kind(s) == 19)
    ensures Kind(s) <= 19
  {
  }

  // ---------- What the contexts are ----------

  /** The posState is that of the position, as far as pb goes. */
  lemma SamePosState(p: Props, z: Lz, z': Lz)
    requires p.Ok()
    ensures ContextOf(p, z).posState == ContextOf(p, z').posState <==> |z.hist| % Pow2(p.pb) == |z'.hist| % Pow2(p.pb)
    ensures ContextOf(p, z).state == z.state
  {
    hide LitOf;
  }

  /** Literals share a coder exactly if their positions agree in the lp lowest bits and the bytes before them in the lc
      highest ones. */
  lemma SameCoder(p: Props, pos: nat, prev: Byte, pos': nat, prev': Byte)
    requires p.Ok()
    ensures Pow2(p.lp) > 0 && Pow2(8 - p.lc) > 0
    ensures LitIndex(p, pos, prev) == LitIndex(p, pos', prev')
            <==> pos % Pow2(p.lp) == pos' % Pow2(p.lp) && prev / Pow2(8 - p.lc) == prev' / Pow2(8 - p.lc)
  {
    hide Pow2;
    Pow2Add(p.lc, 8 - p.lc);
    Pow2Small();
    PowPositive(p.lp);
    PowPositive(8 - p.lc);
    var b, k := Pow2(p.lc), Pow2(8 - p.lc);
    var y, y' := prev / k, prev' / k;
    DivBelow(prev, b, k);
    DivBelow(prev', b, k);
    TwoDigits(pos % Pow2(p.lp), y, pos' % Pow2(p.lp), y', b);
  }

  lemma TwoDigits(x: nat, y: nat, x': nat, y': nat, b: nat)
    requires y < b && y' < b
    ensures x * b + y == x' * b + y' <==> x == x' && y == y'
  {
    if x * b + y == x' * b + y' {
      ModOfSum(x, b, y);
      ModOfSum(x', b, y');
    }
  }

  /** The byte that literals after a match are compared with is the one that a one-byte repetition would bring. */
  lemma MatchByteIs(p: Props, z: Lz)
    requires p.Ok() && LzOk(p, z) && z.hist != []
    ensures Copy(z.hist, z.reps.r0, 1) == z.hist + [ContextOf(p, z).matchByte]
    ensures ContextOf(p, z).lit == LitIndex(p, |z.hist|, z.hist[|z.hist| - 1])
  {
    hide LitIndex;
    assert Copy(z.hist, z.reps.r0, 1) == Copy(z.hist + [z.hist[|z.hist| - z.reps.r0]], z.reps.r0, 0);
  }

  /** A repetition moves its distance to the front, and the others keep their order; a match puts a new one before them. */
  lemma RepsMove(r: Reps, i: nat, d: nat)
    requires i < 4
    ensures r.Promote(i).At(0) == r.At(i)
    ensures forall j :: 0 <= j < i ==> r.Promote(i).At(j + 1) == r.At(j)
    ensures forall j :: i < j < 4 ==> r.Promote(i).At(j) == r.At(j)
    ensures r.Push(d).At(0) == d && forall j :: 0 <= j < 3 ==> r.Push(d).At(j + 1) == r.At(j)
  {
  }

  // ---------- What the state stands for ----------

  /** How many literals come last. */
  function LastLits(ks: seq<Packet>): (n: nat)
    ensures n <= |ks| && (forall i :: |ks| - n <= i < |ks| ==> ks[i].Lit?) && (n < |ks| ==> !ks[|ks| - n - 1].Lit?)
  {
    if ks == [] || !ks[|ks| - 1].Lit? then 0 else 1 + LastLits(ks[..|ks| - 1])
  }

  /** A state tells the last packet that was not a literal, if at most two literals have come since; and if none has, or if
      that was a short repetition, whether there was a literal, or nothing, before it. */
  function StateFor(ks: seq<Packet>): nat {
    var n := LastLits(ks);
    if n > 2 || n == |ks| then 0
    else
      var last, alone := ks[|ks| - n - 1], n + 1 == |ks| || ks[|ks| - n - 2].Lit?;
      if last.Match? then (if n == 2 then 1 else if n == 1 then 4 else if alone then 7 else 10)
      else if last.Rep? || !alone then (if n == 2 then 2 else if n == 1 then 5 else if alone then 8 else 11)
      else if n == 2 then 3 else if n == 1 then 6 else 9
  }

  lemma StateNext(ks: seq<Packet>, k: Packet, reps: Reps)
    ensures Header(Lz(StateFor(ks), reps, []), k).0 == StateFor(ks + [k])
  {
    assert (ks + [k])[..|ks|] == ks;
  }

  /** In every parse, the state is what the packets before say. */
  lemma {:induction false} StateTells(p: Props, z: Lz, e: Enc, before: seq<Packet>, packets: seq<Packet>)
    requires WriterOk(p, z, e) && Parses(p, z, packets) && z.state == StateFor(before)
    ensures CodeAll(p, z, e, packets).0.state == StateFor(before + packets)
    decreases |packets|
  {
    hide StateFor, CodePacket;
    if packets == [] {
      assert before + [] == before;
    } else {
      StateNext(before, packets[0], z.reps);
      CodeAllStep(p, z, e, packets);
      assert before + packets == (before + [packets[0]]) + packets[1..];
      StateTells(p, Apply(p, z, packets[0]), CodePacket(p, z, e, packets[0]), before + [packets[0]], packets[1..]);
    }
  }
}
