/** The operations of a packet lead the automaton to that packet. */
module LzmaSpelling {
  import opened Bytes
  import opened Powers
  import opened BitModel
  import opened LzmaSyntax
  import opened LzmaLayout
  import opened LzmaOps
  import opened LzmaWriter
  import opened LzmaPackets

  /** The symbol that the literal loop has spelled when it ends. */
  function LitFinal(sym: nat): (v: nat)
    requires 0x100 <= sym < 0x2_0000
    ensures 256 <= v < 512
    decreases 0x10000 - sym
  {
    if sym >= 0x10000 then sym / 256 else LitFinal(2 * sym)
  }

  lemma LitFinalIs(v: nat)
    requires 256 <= v < 512
    ensures LitFinal(v) == v
  {
    assert LitFinal(v) == LitFinal(2 * v) == LitFinal(4 * v) == LitFinal(8 * v);
    assert LitFinal(8 * v) == LitFinal(16 * v) == LitFinal(32 * v) == LitFinal(64 * v);
    assert LitFinal(64 * v) == LitFinal(128 * v) == LitFinal(256 * v);
  }

  /** The bit that leaves, and the symbol without it. */
  lemma BitOut(sym: nat, half: nat)
    requires half == 128 || half == 32
    ensures 2 * sym / (2 * half) == 2 * (sym / (2 * half)) + sym / half % 2
    ensures 2 * sym / (2 * half) % 2 == sym / half % 2
  {
  }

  lemma LitStep(c: Context, sym: nat)
    requires c.Ok() && 0x100 <= sym < 0x1_0000
    ensures var s := LitBit(sym / 256); var bit := sym / 128 % 2;
            && Ok(s) && Expected(c, s, Modelled(ENC_LITERAL + 0x300 * c.lit + sym / 256, bit))
            && Step(c, s, bit) == if 2 * sym < 0x1_0000 then LitBit(2 * sym / 256) else Done(Lit(LitFinal(sym) - 256))
  {
    BitOut(sym, 128);
    assert 2 * sym >= 0x1_0000 ==> LitFinal(sym) == 2 * sym / 256;
  }

  lemma {:induction false} LitFollows(c: Context, sym: nat)
    requires c.Ok() && 0x100 <= sym < 0x1_0000
    ensures Follows(c, LitBit(sym / 256), LitOps(ENC_LITERAL + 0x300 * c.lit, sym), Done(Lit(LitFinal(sym) - 256)))
    decreases 0x10000 - sym
  {
    hide Follows, Step, Expected;
    LitStep(c, sym);
    var base := ENC_LITERAL + 0x300 * c.lit;
    var bit := sym / 128 % 2;
    var s := LitBit(sym / 256);
    if 2 * sym < 0x1_0000 {
      LitFollows(c, 2 * sym);
    } else {
      FollowsNothing(c, Done(Lit(LitFinal(sym) - 256)));
    }
    FollowsCons(c, s, Modelled(base + sym / 256, bit), Step(c, s, bit), LitOps(base, 2 * sym), Done(Lit(LitFinal(sym) - 256)));
  }

  lemma MatchedStep(c: Context, sym: nat, mb: nat, offs: nat)
    requires c.Ok() && 0x100 <= sym < 0x1_0000 && (offs == 0 || offs == 256)
    ensures var s := MatchedLitBit(sym / 256, offs, mb); var bit := sym / 128 % 2;
            var idx := ENC_LITERAL + 0x300 * c.lit + (offs + And100(offs, 2 * mb) + sym / 256);
            && Ok(s) && Expected(c, s, Modelled(idx, bit))
            && Step(c, s, bit) == if 2 * sym < 0x1_0000
                                  then MatchedLitBit(2 * sym / 256, AndNotXor100(offs, 2 * mb, 2 * sym), 2 * mb)
                                  else Done(Lit(LitFinal(sym) - 256))
  {
    BitOut(sym, 128);
    assert 2 * sym >= 0x1_0000 ==> LitFinal(sym) == 2 * sym / 256;
  }

  lemma {:induction false} MatchedFollows(c: Context, sym: nat, mb: nat, offs: nat)
    requires c.Ok() && 0x100 <= sym < 0x1_0000 && (offs == 0 || offs == 256)
    ensures Follows(c, MatchedLitBit(sym / 256, offs, mb), MatchedOps(ENC_LITERAL + 0x300 * c.lit, sym, mb, offs),
                    Done(Lit(LitFinal(sym) - 256)))
    decreases 0x10000 - sym
  {
    hide Follows, Step, Expected;
    MatchedStep(c, sym, mb, offs);
    var base := ENC_LITERAL + 0x300 * c.lit;
    var bit := sym / 128 % 2;
    var s := MatchedLitBit(sym / 256, offs, mb);
    var offs' := AndNotXor100(offs, 2 * mb, 2 * sym);
    if 2 * sym < 0x1_0000 {
      MatchedFollows(c, 2 * sym, 2 * mb, offs');
    } else {
      FollowsNothing(c, Done(Lit(LitFinal(sym) - 256)));
    }
    FollowsCons(c, s, Modelled(base + (offs + And100(offs, 2 * mb) + sym / 256), bit), Step(c, s, bit),
                MatchedOps(base, 2 * sym, 2 * mb, offs'), Done(Lit(LitFinal(sym) - 256)));
  }

  function EncLenBase(use: LenUse): nat { if use.ForMatch? then ENC_LEN else ENC_REP_LEN }

  lemma HighStep(c: Context, use: LenUse, sym: nat)
    requires c.Ok() && UseOk(use) && 0x100 <= sym < 0x1_0000
    ensures var s := HighBit(use, sym / 256); var bit := sym / 128 % 2;
            && Ok(s) && Expected(c, s, Modelled(EncLenBase(use) + 256 + sym / 256, bit))
            && Step(c, s, bit) == if 2 * sym < 0x1_0000 then HighBit(use, 2 * sym / 256) else GotLen(use, LitFinal(sym) - 240)
  {
    BitOut(sym, 128);
    assert 2 * sym >= 0x1_0000 ==> LitFinal(sym) == 2 * sym / 256;
  }

  lemma {:induction false} HighFollows(c: Context, use: LenUse, sym: nat)
    requires c.Ok() && UseOk(use) && 0x100 <= sym < 0x1_0000
    ensures Follows(c, HighBit(use, sym / 256), LitOps(EncLenBase(use) + 256, sym), GotLen(use, LitFinal(sym) - 240))
    decreases 0x10000 - sym
  {
    hide Follows, Step, Expected;
    HighStep(c, use, sym);
    var base := EncLenBase(use) + 256;
    var bit := sym / 128 % 2;
    var s := HighBit(use, sym / 256);
    if 2 * sym < 0x1_0000 {
      HighFollows(c, use, 2 * sym);
    } else {
      FollowsNothing(c, GotLen(use, LitFinal(sym) - 240));
    }
    FollowsCons(c, s, Modelled(base + sym / 256, bit), Step(c, s, bit), LitOps(base, 2 * sym),
                GotLen(use, LitFinal(sym) - 240));
  }

  lemma ThreeFollow(c: Context, s0: Parse, s1: Parse, s2: Parse, t: Parse, ops: seq<Op>)
    requires |ops| == 3
    requires Ok(s0) && !s0.Done? && Expected(c, s0, ops[0]) && s1 == Step(c, s0, ops[0].bit)
    requires Ok(s1) && !s1.Done? && Expected(c, s1, ops[1]) && s2 == Step(c, s1, ops[1].bit)
    requires Ok(s2) && !s2.Done? && Expected(c, s2, ops[2]) && t == Step(c, s2, ops[2].bit) && Ok(t)
    ensures Follows(c, s0, ops, t)
  {
    FollowsCons(c, s2, ops[2], t, [], t);
    FollowsCons(c, s1, ops[1], s2, [ops[2]] + [], t);
    FollowsCons(c, s0, ops[0], s1, [ops[1]] + ([ops[2]] + []), t);
    assert ops == [ops[0]] + ([ops[1]] + ([ops[2]] + []));
  }

  /** The nodes that three bits visit. */
  lemma ThreeBits(sym: nat)
    requires sym < 8
    ensures sym / 4 <= 1
    ensures 2 * (2 + sym / 4) + sym / 2 % 2 == 4 + sym / 2
    ensures 2 * (4 + sym / 2) + sym % 2 == 8 + sym
  {
  }

  lemma Low3Parts(base: nat, sym: nat)
    requires sym < 8
    ensures var x, y, z := sym / 4, sym / 2 % 2, sym % 2;
            Low3Ops(base, sym) == [Modelled(base + 1, x), Modelled(base + (2 + x), y), Modelled(base + (4 + 2 * x + y), z)]
  {
    ThreeBits(sym);
  }

  lemma LowInner(c: Context, use: LenUse, m: nat, bit: int)
    requires c.Ok() && UseOk(use) && 1 <= m < 4 && IsBit(bit)
    ensures Expected(c, LowBit(use, m), Modelled(EncLenBase(use) + c.posState * 16 + m, bit)) && Ok(LowBit(use, m))
    ensures Step(c, LowBit(use, m), bit) == LowBit(use, 2 * m + bit)
  {
  }

  lemma LowLast(c: Context, use: LenUse, m: nat, bit: int)
    requires c.Ok() && UseOk(use) && 4 <= m < 8 && IsBit(bit)
    ensures Expected(c, LowBit(use, m), Modelled(EncLenBase(use) + c.posState * 16 + m, bit)) && Ok(LowBit(use, m))
    ensures Step(c, LowBit(use, m), bit) == GotLen(use, 2 * m + bit - 8)
  {
  }

  lemma MidInner(c: Context, use: LenUse, m: nat, bit: int)
    requires c.Ok() && UseOk(use) && 1 <= m < 4 && IsBit(bit)
    ensures Expected(c, MidBit(use, m), Modelled(EncLenBase(use) + 8 + c.posState * 16 + m, bit)) && Ok(MidBit(use, m))
    ensures Step(c, MidBit(use, m), bit) == MidBit(use, 2 * m + bit)
  {
  }

  lemma MidLast(c: Context, use: LenUse, m: nat, bit: int)
    requires c.Ok() && UseOk(use) && 4 <= m < 8 && IsBit(bit)
    ensures Expected(c, MidBit(use, m), Modelled(EncLenBase(use) + 8 + c.posState * 16 + m, bit)) && Ok(MidBit(use, m))
    ensures Step(c, MidBit(use, m), bit) == GotLen(use, 2 * m + bit)
  {
  }

  lemma GotLenOk(use: LenUse, len: nat)
    requires UseOk(use) && len <= 271
    ensures Ok(GotLen(use, len))
  {
  }

  lemma LowTree(c: Context, use: LenUse, x: int, y: int, z: int)
    requires c.Ok() && UseOk(use) && IsBit(x) && IsBit(y) && IsBit(z)
    ensures var base := EncLenBase(use) + c.posState * 16;
            Follows(c, LowBit(use, 1), [Modelled(base + 1, x), Modelled(base + (2 + x), y), Modelled(base + (4 + 2 * x + y), z)],
                    GotLen(use, 8 + 4 * x + 2 * y + z - 8))
  {
    hide Follows, Step, Expected, GotLen, Ok, UseOk, EncLenBase;
    LowInner(c, use, 1, x);
    LowInner(c, use, 2 + x, y);
    LowLast(c, use, 4 + 2 * x + y, z);
    GotLenOk(use, 8 + 4 * x + 2 * y + z - 8);
    var base := EncLenBase(use) + c.posState * 16;
    ThreeFollow(c, LowBit(use, 1), LowBit(use, 2 + x), LowBit(use, 4 + 2 * x + y), GotLen(use, 8 + 4 * x + 2 * y + z - 8),
                [Modelled(base + 1, x), Modelled(base + (2 + x), y), Modelled(base + (4 + 2 * x + y), z)]);
  }

  lemma LowFollows(c: Context, use: LenUse, sym: nat)
    requires c.Ok() && UseOk(use) && sym < 8
    ensures Follows(c, LowBit(use, 1), Low3Ops(EncLenBase(use) + c.posState * 16, sym), GotLen(use, sym))
  {
    hide Follows, Step, Expected, GotLen, Ok, UseOk, EncLenBase, Low3Ops;
    ThreeBits(sym);
    LowTree(c, use, sym / 4, sym / 2 % 2, sym % 2);
    Low3Parts(EncLenBase(use) + c.posState * 16, sym);
  }

  lemma MidTree(c: Context, use: LenUse, x: int, y: int, z: int)
    requires c.Ok() && UseOk(use) && IsBit(x) && IsBit(y) && IsBit(z)
    ensures var base := EncLenBase(use) + 8 + c.posState * 16;
            Follows(c, MidBit(use, 1), [Modelled(base + 1, x), Modelled(base + (2 + x), y), Modelled(base + (4 + 2 * x + y), z)],
                    GotLen(use, 8 + 4 * x + 2 * y + z))
  {
    hide Follows, Step, Expected, GotLen, Ok, UseOk, EncLenBase;
    MidInner(c, use, 1, x);
    MidInner(c, use, 2 + x, y);
    MidLast(c, use, 4 + 2 * x + y, z);
    GotLenOk(use, 8 + 4 * x + 2 * y + z);
    var base := EncLenBase(use) + 8 + c.posState * 16;
    ThreeFollow(c, MidBit(use, 1), MidBit(use, 2 + x), MidBit(use, 4 + 2 * x + y), GotLen(use, 8 + 4 * x + 2 * y + z),
                [Modelled(base + 1, x), Modelled(base + (2 + x), y), Modelled(base + (4 + 2 * x + y), z)]);
  }

  lemma MidFollows(c: Context, use: LenUse, sym: nat)
    requires c.Ok() && UseOk(use) && sym < 8
    ensures Follows(c, MidBit(use, 1), Low3Ops(EncLenBase(use) + 8 + c.posState * 16, sym), GotLen(use, sym + 8))
  {
    hide Follows, Step, Expected, GotLen, Ok, UseOk, EncLenBase, Low3Ops;
    ThreeBits(sym);
    MidTree(c, use, sym / 4, sym / 2 % 2, sym % 2);
    Low3Parts(EncLenBase(use) + 8 + c.posState * 16, sym);
  }

  lemma ChoiceExpected(c: Context, use: LenUse, bit: int)
    requires UseOk(use) && IsBit(bit)
    ensures Expected(c, ChoiceBit(use), Modelled(EncLenBase(use), bit))
    ensures Expected(c, Choice2Bit(use), Modelled(EncLenBase(use) + 8, bit))
    ensures Step(c, ChoiceBit(use), bit) == if bit == 0 then LowBit(use, 1) else Choice2Bit(use)
    ensures Step(c, Choice2Bit(use), bit) == if bit == 0 then MidBit(use, 1) else HighBit(use, 1)
  {
  }

  lemma MidLenFollows(c: Context, use: LenUse, sym: nat)
    requires c.Ok() && UseOk(use) && sym < 8
    ensures Follows(c, Choice2Bit(use), [Modelled(EncLenBase(use) + 8, 0)] + Low3Ops(EncLenBase(use) + 8 + c.posState * 16, sym),
                    GotLen(use, sym + 8))
  {
    hide Follows, Step, Expected, Low3Ops;
    var base := EncLenBase(use);
    ChoiceExpected(c, use, 0);
    MidFollows(c, use, sym);
    FollowsCons(c, Choice2Bit(use), Modelled(base + 8, 0), MidBit(use, 1), Low3Ops(base + 8 + c.posState * 16, sym),
                GotLen(use, sym + 8));
  }

  lemma HighLenFollows(c: Context, use: LenUse, sym: nat)
    requires c.Ok() && UseOk(use) && sym < 256
    ensures Follows(c, Choice2Bit(use), [Modelled(EncLenBase(use) + 8, 1)] + LitOps(EncLenBase(use) + 256, 0x100 + sym),
                    GotLen(use, sym + 16))
  {
    hide Follows, Step, Expected, LitOps, LitFinal;
    var base := EncLenBase(use);
    ChoiceExpected(c, use, 1);
    LitFinalIs(0x100 + sym);
    HighFollows(c, use, 0x100 + sym);
    FollowsCons(c, Choice2Bit(use), Modelled(base + 8, 1), HighBit(use, 1), LitOps(base + 256, 0x100 + sym),
                GotLen(use, sym + 16));
  }

  lemma LenFollows(c: Context, use: LenUse, sym: nat)
    requires c.Ok() && UseOk(use) && sym < 272
    ensures Follows(c, ChoiceBit(use), LenOps(EncLenBase(use), sym, c.posState), GotLen(use, sym))
  {
    hide Follows, Step, Expected, LitOps, Low3Ops, GotLen;
    var base := EncLenBase(use);
    var t := GotLen(use, sym);
    if sym < 8 {
      ChoiceExpected(c, use, 0);
      LowFollows(c, use, sym);
      FollowsCons(c, ChoiceBit(use), Modelled(base, 0), LowBit(use, 1), Low3Ops(base + c.posState * 16, sym), t);
    } else {
      LongLenFollows(c, use, sym);
    }
  }

  lemma LongLenFollows(c: Context, use: LenUse, sym: nat)
    requires c.Ok() && UseOk(use) && 8 <= sym < 272
    ensures Follows(c, ChoiceBit(use), LenOps(EncLenBase(use), sym, c.posState), GotLen(use, sym))
  {
    hide Follows, Step, Expected, Low3Ops, LitOps, GotLen;
    var base := EncLenBase(use);
    var first := Modelled(base, 1);
    var op, rest;
    if sym < 16 {
      op, rest := Modelled(base + 8, 0), Low3Ops(base + 8 + c.posState * 16, sym - 8);
      MidLenFollows(c, use, sym - 8);
    } else {
      op, rest := Modelled(base + 8, 1), LitOps(base + 256, 0x100 + (sym - 16));
      HighLenFollows(c, use, sym - 16);
    }
    AfterFirstChoice(c, use, op, rest, GotLen(use, sym));
    assert LenOps(base, sym, c.posState) == [first, op] + rest;
  }

  lemma AfterFirstChoice(c: Context, use: LenUse, op: Op, rest: seq<Op>, t: Parse)
    requires UseOk(use) && Follows(c, Choice2Bit(use), [op] + rest, t)
    ensures Follows(c, ChoiceBit(use), [Modelled(EncLenBase(use), 1), op] + rest, t)
  {
    var first := Modelled(EncLenBase(use), 1);
    ChoiceExpected(c, use, 1);
    FollowsCons(c, ChoiceBit(use), first, Choice2Bit(use), [op] + rest, t);
    assert [first] + ([op] + rest) == [first, op] + rest;
  }

  function SlotFinal(sym: nat): (v: nat)
    requires 64 <= sym < 8192
    ensures 64 <= v < 128
    decreases 4096 - sym
  {
    if sym >= 4096 then sym / 64 else SlotFinal(2 * sym)
  }

  lemma SlotFinalIs(v: nat)
    requires 64 <= v < 128
    ensures SlotFinal(v) == v
  {
    assert SlotFinal(v) == SlotFinal(2 * v) == SlotFinal(4 * v) == SlotFinal(8 * v);
    assert SlotFinal(8 * v) == SlotFinal(16 * v) == SlotFinal(32 * v) == SlotFinal(64 * v);
  }

  lemma SlotStep(c: Context, len: nat, sym: nat)
    requires len <= 271 && 64 <= sym < 4096
    ensures var s := SlotBit(len, sym / 64); var bit := sym / 32 % 2;
            && Ok(s) && Expected(c, s, Modelled(ENC_POS_SLOT + LenState(len) * 64 + sym / 64, bit))
            && Step(c, s, bit) == if 2 * sym < 4096 then SlotBit(len, 2 * sym / 64) else GotSlot(len, SlotFinal(sym) - 64)
  {
    BitOut(sym, 32);
    assert 2 * sym >= 4096 ==> SlotFinal(sym) == 2 * sym / 64;
  }

  lemma {:induction false} SlotFollows(c: Context, len: nat, sym: nat)
    requires len <= 271 && 64 <= sym < 4096
    ensures Follows(c, SlotBit(len, sym / 64), SlotOps(ENC_POS_SLOT + LenState(len) * 64, sym),
                    GotSlot(len, SlotFinal(sym) - 64))
    decreases 4096 - sym
  {
    hide Follows, Step, Expected, GotSlot;
    SlotStep(c, len, sym);
    GotSlotOk(len, SlotFinal(sym) - 64);
    var base := ENC_POS_SLOT + LenState(len) * 64;
    var bit := sym / 32 % 2;
    var s := SlotBit(len, sym / 64);
    if 2 * sym < 4096 {
      SlotFollows(c, len, 2 * sym);
    } else {
      FollowsNothing(c, GotSlot(len, SlotFinal(sym) - 64));
    }
    FollowsCons(c, s, Modelled(base + sym / 64, bit), Step(c, s, bit), SlotOps(base, 2 * sym),
                GotSlot(len, SlotFinal(sym) - 64));
  }

  /** The distance that a reverse tree spells with the bits of v, least significant first. */
  function SpecFinal(base: nat, t: nat, w: nat, left: nat, v: nat): nat
    requires w <= t
    decreases left
  {
    if left == 0 then base + t - w
    else SpecFinal(base, if v % 2 == 0 then t + w else t + 2 * w, 2 * w, left - 1, v / 2)
  }

  lemma {:induction false} SpecFinalIs(base: nat, t: nat, w: nat, left: nat, v: nat)
    requires w <= t && v < Pow2(left)
    ensures SpecFinal(base, t, w, left, v) == base + t - w + v * w
    decreases left
  {
    if left == 0 {
      assert v == 0;
    } else {
      var t' := if v % 2 == 0 then t + w else t + 2 * w;
      SpecFinalIs(base, t', 2 * w, left - 1, v / 2);
      HalfTimes(v, w);
    }
  }

  lemma HalfTimes(v: nat, w: nat)
    ensures v * w == (v / 2) * (2 * w) + (if v % 2 == 0 then 0 else w)
  {
    var h := v / 2;
    assert h * (2 * w) == (2 * h) * w;
    if v % 2 == 0 {
      assert v == 2 * h;
    } else {
      assert v == 2 * h + 1;
      assert (2 * h + 1) * w == (2 * h) * w + w;
    }
  }

  lemma SpecStep(c: Context, s: Parse, bit: int)
    requires Ok(s) && s.SpecBit? && IsBit(bit)
    ensures IsWidth(s.w) && s.w <= s.t < 2 * s.w && 1 <= s.left && (s.left > 1 ==> s.w < 16)
    ensures Expected(c, s, Modelled(ENC_SPEC + s.base + Mirror(s.t, s.w), bit))
    ensures var t' := if bit == 0 then s.t + s.w else s.t + 2 * s.w;
            && Ok(Step(c, s, bit))
            && Step(c, s, bit) == if s.left == 1 then Done(Match(s.base + t' - 2 * s.w, s.len + 2))
                                  else SpecBit(s.len, s.base, t', 2 * s.w, s.left - 1)
  {
    hide SpecOk, SpecBase, Top;
    SpecSizes(s.base, s.t, s.w, s.left);
    StepOk(c, s, bit);
  }

  lemma {:induction false} SpecFollows(c: Context, s: Parse, v: nat)
    requires s.SpecBit? && Ok(s)
    ensures IsWidth(s.w) && s.w <= s.t < 2 * s.w
    ensures Follows(c, s, ReverseOps(ENC_SPEC + s.base, Mirror(s.t, s.w), s.left, v),
                    Done(Match(SpecFinal(s.base, s.t, s.w, s.left, v), s.len + 2)))
    decreases s.left
  {
    hide Ok, SpecOk, Expected, Mirror, Step, Follows, ReverseOps, SpecFinal;
    var bit := v % 2;
    SpecStep(c, s, bit);
    ReverseOpsStep(ENC_SPEC + s.base, Mirror(s.t, s.w), s.left, v);
    SpecFinalStep(s.base, s.t, s.w, s.left, v);
    var s' := Step(c, s, bit);
    var op := Modelled(ENC_SPEC + s.base + Mirror(s.t, s.w), bit);
    var u := Done(Match(SpecFinal(s.base, s.t, s.w, s.left, v), s.len + 2));
    var rest := ReverseOps(ENC_SPEC + s.base, 2 * Mirror(s.t, s.w) + bit, s.left - 1, v / 2);
    if s.left == 1 {
      NoReverseOps(ENC_SPEC + s.base, 2 * Mirror(s.t, s.w) + bit, v / 2);
      FollowsNothing(c, u);
    } else {
      MirrorStep(s.t, s.w, bit);
      SpecFollows(c, s', v / 2);
    }
    FollowsCons(c, s, op, s', rest, u);
    assert ReverseOps(ENC_SPEC + s.base, Mirror(s.t, s.w), s.left, v) == [op] + rest;
  }

  lemma FollowsNothing(c: Context, s: Parse)
    requires Ok(s)
    ensures Follows(c, s, [], s)
  {
  }

  lemma SpecFinalStep(base: nat, t: nat, w: nat, left: nat, v: nat)
    requires w <= t && 1 <= left
    ensures var t' := if v % 2 == 0 then t + w else t + 2 * w;
            && SpecFinal(base, t, w, left, v) == SpecFinal(base, t', 2 * w, left - 1, v / 2)
            && (left == 1 ==> SpecFinal(base, t, w, left, v) == base + t' - 2 * w)
  {
  }

  /** Only the low bits matter to a reverse tree. */
  lemma {:induction false} SpecFinalLow(base: nat, t: nat, w: nat, left: nat, v: nat, k: nat)
    requires w <= t && Doubled(k, left) <= v
    ensures SpecFinal(base, t, w, left, v) == SpecFinal(base, t, w, left, v - Doubled(k, left))
    decreases left
  {
    if left != 0 {
      var u := v - Doubled(k, left);
      assert v % 2 == u % 2 && v / 2 - Doubled(k, left - 1) == u / 2;
      SpecFinalLow(base, if v % 2 == 0 then t + w else t + 2 * w, 2 * w, left - 1, v / 2, k);
    }
  }

  lemma AlignStep(c: Context, s: Parse, bit: int)
    requires Ok(s) && s.AlignBit? && IsBit(bit)
    ensures IsWidth(s.w) && s.w < 16 && s.w <= s.t < 2 * s.w
    ensures Expected(c, s, Modelled(ENC_ALIGN + Mirror(s.t, s.w), bit))
    ensures var t' := if bit == 0 then s.t + s.w else s.t + 2 * s.w;
            && Ok(Step(c, s, bit))
            && Step(c, s, bit) == if s.w == 8 then Done(Match(s.dist + t' - 16, s.len + 2))
                                  else AlignBit(s.len, s.dist, t', 2 * s.w)
  {
    assert Top(s.t) == s.w;
    StepOk(c, s, bit);
  }

  function AlignLeft(w: nat): nat { if w == 1 then 4 else if w == 2 then 3 else if w == 4 then 2 else 1 }

  lemma {:induction false} AlignFollows(c: Context, s: Parse, v: nat)
    requires s.AlignBit? && Ok(s)
    ensures IsWidth(s.w) && s.w <= s.t < 2 * s.w
    ensures Follows(c, s, ReverseOps(ENC_ALIGN, Mirror(s.t, s.w), AlignLeft(s.w), v),
                    Done(Match(s.dist + SpecFinal(0, s.t, s.w, AlignLeft(s.w), v), s.len + 2)))
    decreases AlignLeft(s.w)
  {
    hide Expected, Mirror, Step, Follows, Ok, ReverseOps, SpecFinal;
    var bit := v % 2;
    AlignStep(c, s, bit);
    ReverseOpsStep(ENC_ALIGN, Mirror(s.t, s.w), AlignLeft(s.w), v);
    SpecFinalStep(0, s.t, s.w, AlignLeft(s.w), v);
    var s' := Step(c, s, bit);
    var left := AlignLeft(s.w);
    var op := Modelled(ENC_ALIGN + Mirror(s.t, s.w), bit);
    var u := Done(Match(s.dist + SpecFinal(0, s.t, s.w, left, v), s.len + 2));
    var rest := ReverseOps(ENC_ALIGN, 2 * Mirror(s.t, s.w) + bit, left - 1, v / 2);
    if s.w == 8 {
      NoReverseOps(ENC_ALIGN, 2 * Mirror(s.t, s.w) + bit, v / 2);
      FollowsNothing(c, u);
    } else {
      MirrorStep(s.t, s.w, bit);
      AlignFollows(c, s', v / 2);
    }
    FollowsCons(c, s, op, s', rest, u);
    assert ReverseOps(ENC_ALIGN, Mirror(s.t, s.w), left, v) == [op] + rest;
  }

  lemma {:induction false} DoubledPlus(k: nat, bit: nat, n: nat)
    requires bit <= 1
    ensures Doubled(k + bit, n) == Doubled(k, n) + (if bit == 0 then 0 else Pow2(n))
  {
    if n != 0 {
      DoubledPlus(k, bit, n - 1);
    }
  }

  /** The direct bits are appended to the bits that are there. */
  lemma {:induction false} DirectFollows(c: Context, len: nat, dist: nat, n: nat, v: nat)
    requires len <= 271 && 1 <= n <= 26 && v < Pow2(n)
    ensures Follows(c, DirectBit(len, dist, n), DirectOps(v, n), AlignBit(len, (Doubled(dist, n) + v) * 16, 1, 1))
    decreases n
  {
    hide Follows, Step, Expected, DirectOps, Pow2, Doubled;
    var bit := if v < Pow2(n - 1) then 0 else 1;
    var v' := if bit == 0 then v else v - Pow2(n - 1);
    var s := DirectBit(len, dist, n);
    var u := AlignBit(len, (Doubled(dist, n) + v) * 16, 1, 1);
    DirectExpected(c, s, bit);
    DirectOpsStep(v, n);
    DoubledShift(dist, n - 1);
    DoubledPlus(2 * dist, bit, n - 1);
    if n == 1 {
      NothingLeft(dist, bit, v');
      FollowsNothing(c, u);
    } else {
      DirectFollows(c, len, 2 * dist + bit, n - 1, v');
    }
    FollowsCons(c, s, Direct(bit), Step(c, s, bit), DirectOps(v', n - 1), u);
    assert DirectOps(v, n) == [Direct(bit)] + DirectOps(v', n - 1);
  }

  lemma NothingLeft(dist: nat, bit: int, v: nat)
    requires v < Pow2(0) && IsBit(bit)
    ensures v == 0 && DirectOps(v, 0) == [] && Doubled(2 * dist + bit, 0) == 2 * dist + bit
  {
  }

  lemma DirectExpected(c: Context, s: Parse, bit: int)
    requires Ok(s) && s.DirectBit? && IsBit(bit)
    ensures Expected(c, s, Direct(bit)) && Ok(Step(c, s, bit))
    ensures Step(c, s, bit) == if s.left == 1 then AlignBit(s.len, (2 * s.dist + bit) * 16, 1, 1)
                               else DirectBit(s.len, 2 * s.dist + bit, s.left - 1)
  {
  }

  /** Slot and footer together spell the distance. */
  lemma FooterFollows(c: Context, len: nat, dist: nat)
    requires c.Ok() && len <= 271 && dist < 0x1_0000_0000
    ensures SlotOf(dist) < 64 && Ok(GotSlot(len, SlotOf(dist)))
    ensures Follows(c, GotSlot(len, SlotOf(dist)), FooterOps(dist), Done(Match(dist, len + 2)))
  {
    SlotBounds(dist);
    GotSlotOk(len, SlotOf(dist));
    if dist < 4 {
      FollowsNothing(c, Done(Match(dist, len + 2)));
    } else if dist < 128 {
      ShortFooterFollows(c, len, dist);
    } else {
      LongFooterFollows(c, len, dist);
    }
  }

  /** The numbers of a short footer. */
  lemma ShortFooter(dist: nat)
    requires 4 <= dist < 128
    ensures var slot := SlotOf(dist); var n := slot / 2 - 1; var base := SlotBase(slot, n);
            && 4 <= slot < 14
            && FooterOps(dist) == ReverseOps(ENC_SPEC + base, 1, n, dist)
            && SpecFinal(base, 1, 1, n, dist) == dist
  {
    hide Pow2, SlotOf, Doubled, SpecFinal, ReverseOps;
    SlotBounds(dist);
    SlotSplits(dist);
    var slot := SlotOf(dist);
    var n := slot / 2 - 1;
    var base := SlotBase(slot, n);
    SpecFinalLow(base, 1, 1, n, dist, 2 + slot % 2);
    SpecFinalIs(base, 1, 1, n, dist - base);
  }

  lemma ShortFooterFollows(c: Context, len: nat, dist: nat)
    requires len <= 271 && 4 <= dist < 128 && SlotOf(dist) < 64 && Ok(GotSlot(len, SlotOf(dist)))
    ensures Follows(c, GotSlot(len, SlotOf(dist)), FooterOps(dist), Done(Match(dist, len + 2)))
  {
    hide Follows, Ok, SlotOf, SpecFinal, FooterOps;
    ShortFooter(dist);
    SpecFollows(c, GotSlot(len, SlotOf(dist)), dist);
  }

  /** The numbers of a long footer. */
  lemma LongFooter(dist: nat)
    requires 128 <= dist < 0x1_0000_0000
    ensures var slot := SlotOf(dist); var n := slot / 2 - 1; var lead := 2 + slot % 2; var low := dist - Doubled(lead, n);
            && 14 <= slot < 64 && 0 <= low && low / 16 < Pow2(n - 4)
            && FooterOps(dist) == DirectOps(low / 16, n - 4) + ReverseOps(ENC_ALIGN, 1, 4, dist)
            && (Doubled(lead, n - 4) + low / 16) * 16 + dist % 16 == dist
  {
    hide Pow2, SlotOf, Doubled, ReverseOps, DirectOps;
    SlotBounds(dist);
    SlotSplits(dist);
    var slot := SlotOf(dist);
    var n := slot / 2 - 1;
    var lead := 2 + slot % 2;
    FooterSplit(dist - Doubled(lead, n), n);
    SixteenTimes(lead, n - 4);
    JoinNibble(Doubled(lead, n - 4), dist - Doubled(lead, n));
  }

  lemma JoinNibble(h: nat, low: nat)
    ensures (h + low / 16) * 16 + (16 * h + low) % 16 == 16 * h + low
  {
  }

  lemma AlignFinal(v: nat)
    ensures SpecFinal(0, 1, 1, 4, v) == v % 16
  {
    SixteenTimes(v / 16, 0);
    SpecFinalLow(0, 1, 1, 4, v, v / 16);
    Pow2Values();
    assert Pow2(4) == 4 * Pow2(2);
    SpecFinalIs(0, 1, 1, 4, v % 16);
  }

  lemma LongFooterFollows(c: Context, len: nat, dist: nat)
    requires len <= 271 && 128 <= dist < 0x1_0000_0000 && SlotOf(dist) < 64
    requires Ok(GotSlot(len, SlotOf(dist)))
    ensures Follows(c, GotSlot(len, SlotOf(dist)), FooterOps(dist), Done(Match(dist, len + 2)))
  {
    hide Follows, Pow2, SlotOf, Doubled, FooterOps, ReverseOps, DirectOps, SpecFinal;
    LongFooter(dist);
    var slot := SlotOf(dist);
    var n := slot / 2 - 1;
    var lead := 2 + slot % 2;
    var low := dist - Doubled(lead, n);
    var s := AlignBit(len, (Doubled(lead, n - 4) + low / 16) * 16, 1, 1);
    DirectFollows(c, len, lead, n - 4, low / 16);
    AlignFollows(c, s, dist);
    AlignFinal(dist);
    FollowsAppend(c, GotSlot(len, slot), DirectOps(low / 16, n - 4), s, ReverseOps(ENC_ALIGN, 1, 4, dist),
                  Done(Match(dist, len + 2)));
  }

  lemma SixteenTimes(k: nat, n: nat)
    ensures Doubled(k, n + 4) == 16 * Doubled(k, n)
  {
    assert Doubled(k, n + 1) == 2 * Doubled(k, n);
    assert Doubled(k, n + 2) == 2 * Doubled(k, n + 1);
    assert Doubled(k, n + 3) == 2 * Doubled(k, n + 2);
  }

  lemma PrefixExpected(c: Context, bit: int)
    requires c.Ok() && IsBit(bit)
    ensures Expected(c, IsMatchBit, Modelled(ENC_IS_MATCH + c.state * 16 + c.posState, bit))
    ensures Expected(c, IsRepBit, Modelled(ENC_IS_REP + c.state, bit))
    ensures Expected(c, IsRepG0Bit, Modelled(ENC_IS_REP_G0 + c.state, bit))
    ensures Expected(c, IsRepG1Bit, Modelled(ENC_IS_REP_G1 + c.state, bit))
    ensures Expected(c, IsRepG2Bit, Modelled(ENC_IS_REP_G2 + c.state, bit))
    ensures Expected(c, IsRep0LongBit, Modelled(ENC_IS_REP0_LONG + c.state * 16 + c.posState, bit))
  {
    var k := c.posState * 16 + c.state;
    assert k % 16 == c.state && k / 16 == c.posState;
  }

  lemma FollowsTwo(c: Context, s: Parse, a: Op, s': Parse, b: Op, s'': Parse)
    requires Ok(s) && !s.Done? && Expected(c, s, a) && s' == Step(c, s, a.bit) && Ok(s')
    requires !s'.Done? && Expected(c, s', b) && s'' == Step(c, s', b.bit) && Ok(s'')
    ensures Follows(c, s, [a, b], s'')
  {
    FollowsCons(c, s', b, s'', [], s'');
    FollowsCons(c, s, a, s', [b] + [], s'');
    assert [a] + ([b] + []) == [a, b];
  }

  lemma LiteralFollows(c: Context, b: Byte)
    requires c.Ok()
    ensures Follows(c, IsMatchBit, PacketOps(c, Lit(b)), Done(Lit(b)))
  {
    hide Follows, Expected, Idx, LitOps, MatchedOps;
    PrefixExpected(c, 0);
    LitFinalIs(0x100 + b);
    var first := Modelled(ENC_IS_MATCH + c.state * 16 + c.posState, 0);
    var base := ENC_LITERAL + 0x300 * c.lit;
    if c.state < 7 {
      LitFollows(c, 0x100 + b);
      FollowsCons(c, IsMatchBit, first, LitBit(1), LitOps(base, 0x100 + b), Done(Lit(b)));
    } else {
      MatchedFollows(c, 0x100 + b, c.matchByte, 0x100);
      FollowsCons(c, IsMatchBit, first, MatchedLitBit(1, 256, c.matchByte),
                  MatchedOps(base, 0x100 + b, c.matchByte, 0x100), Done(Lit(b)));
    }
  }

  /** The bits that name which of the recent distances is meant. */
  lemma WhichRepFollows(c: Context, index: nat)
    requires c.Ok() && index < 4
    ensures var g0 := ENC_IS_REP_G0 + c.state; var g1 := ENC_IS_REP_G1 + c.state; var g2 := ENC_IS_REP_G2 + c.state;
            var long := ENC_IS_REP0_LONG + c.state * 16 + c.posState;
            Follows(c, IsRepG0Bit,
                    if index == 0 then [Modelled(g0, 0), Modelled(long, 1)]
                    else if index == 1 then [Modelled(g0, 1), Modelled(g1, 0)]
                    else [Modelled(g0, 1), Modelled(g1, 1), Modelled(g2, index - 2)],
                    ChoiceBit(ForRep(index)))
  {
    hide Follows, Expected, Idx;
    PrefixExpected(c, 0);
    PrefixExpected(c, 1);
    var g0, g1, g2 := ENC_IS_REP_G0 + c.state, ENC_IS_REP_G1 + c.state, ENC_IS_REP_G2 + c.state;
    var long := ENC_IS_REP0_LONG + c.state * 16 + c.posState;
    if index == 0 {
      FollowsTwo(c, IsRepG0Bit, Modelled(g0, 0), IsRep0LongBit, Modelled(long, 1), ChoiceBit(ForRep(0)));
    } else if index == 1 {
      FollowsTwo(c, IsRepG0Bit, Modelled(g0, 1), IsRepG1Bit, Modelled(g1, 0), ChoiceBit(ForRep(1)));
    } else {
      ThreeFollow(c, IsRepG0Bit, IsRepG1Bit, IsRepG2Bit, ChoiceBit(ForRep(index)),
                  [Modelled(g0, 1), Modelled(g1, 1), Modelled(g2, index - 2)]);
    }
  }

  lemma RepFollows(c: Context, index: nat, len: nat)
    requires c.Ok() && index < 4 && 2 <= len <= 273
    ensures Follows(c, IsMatchBit, PacketOps(c, Rep(index, len)), Done(Rep(index, len)))
  {
    hide Follows, Expected, Idx, LenOps;
    PrefixExpected(c, 1);
    WhichRepFollows(c, index);
    var a := [Modelled(ENC_IS_MATCH + c.state * 16 + c.posState, 1), Modelled(ENC_IS_REP + c.state, 1)];
    FollowsTwo(c, IsMatchBit, a[0], IsRepBit, a[1], IsRepG0Bit);
    var g0, g1, g2 := ENC_IS_REP_G0 + c.state, ENC_IS_REP_G1 + c.state, ENC_IS_REP_G2 + c.state;
    var long := ENC_IS_REP0_LONG + c.state * 16 + c.posState;
    var b := if index == 0 then [Modelled(g0, 0), Modelled(long, 1)]
             else if index == 1 then [Modelled(g0, 1), Modelled(g1, 0)]
             else [Modelled(g0, 1), Modelled(g1, 1), Modelled(g2, index - 2)];
    LenFollows(c, ForRep(index), len - 2);
    FollowsAppend(c, IsMatchBit, a, IsRepG0Bit, b, ChoiceBit(ForRep(index)));
    FollowsAppend(c, IsMatchBit, a + b, ChoiceBit(ForRep(index)), LenOps(ENC_REP_LEN, len - 2, c.posState), Done(Rep(index, len)));
  }

  lemma ShortRepFollows(c: Context)
    requires c.Ok()
    ensures Follows(c, IsMatchBit, PacketOps(c, ShortRep), Done(ShortRep))
  {
    hide Follows, Expected, Idx;
    PrefixExpected(c, 0);
    PrefixExpected(c, 1);
    var a := [Modelled(ENC_IS_MATCH + c.state * 16 + c.posState, 1), Modelled(ENC_IS_REP + c.state, 1)];
    var b := [Modelled(ENC_IS_REP_G0 + c.state, 0), Modelled(ENC_IS_REP0_LONG + c.state * 16 + c.posState, 0)];
    FollowsTwo(c, IsMatchBit, a[0], IsRepBit, a[1], IsRepG0Bit);
    FollowsTwo(c, IsRepG0Bit, b[0], IsRep0LongBit, b[1], Done(ShortRep));
    FollowsAppend(c, IsMatchBit, a, IsRepG0Bit, b, Done(ShortRep));
    assert PacketOps(c, ShortRep) == a + b;
  }

  lemma MatchHeadFollows(c: Context, len: nat)
    requires c.Ok() && 2 <= len <= 273
    ensures Follows(c, IsMatchBit,
                    [Modelled(ENC_IS_MATCH + c.state * 16 + c.posState, 1), Modelled(ENC_IS_REP + c.state, 0)]
                    + LenOps(ENC_LEN, len - 2, c.posState), SlotBit(len - 2, 1))
  {
    hide Follows, Expected, Idx, LenOps;
    PrefixExpected(c, 0);
    PrefixExpected(c, 1);
    var a := [Modelled(ENC_IS_MATCH + c.state * 16 + c.posState, 1), Modelled(ENC_IS_REP + c.state, 0)];
    FollowsTwo(c, IsMatchBit, a[0], IsRepBit, a[1], ChoiceBit(ForMatch));
    LenFollows(c, ForMatch, len - 2);
    FollowsAppend(c, IsMatchBit, a, ChoiceBit(ForMatch), LenOps(ENC_LEN, len - 2, c.posState), SlotBit(len - 2, 1));
  }

  lemma MatchFollows(c: Context, dist: nat, len: nat)
    requires c.Ok() && 2 <= len <= 273 && dist < 0x1_0000_0000
    ensures Follows(c, IsMatchBit, PacketOps(c, Match(dist, len)), Done(Match(dist, len)))
  {
    hide Follows, Expected, Idx, LenOps, SlotOps, FooterOps, SlotOf;
    SlotBounds(dist);
    var head := [Modelled(ENC_IS_MATCH + c.state * 16 + c.posState, 1), Modelled(ENC_IS_REP + c.state, 0)]
                + LenOps(ENC_LEN, len - 2, c.posState);
    var slot := SlotOf(dist);
    var d := SlotOps(ENC_POS_SLOT + LenState(len - 2) * 64, 64 + slot);
    MatchHeadFollows(c, len);
    SlotFinalIs(64 + slot);
    SlotFollows(c, len - 2, 64 + slot);
    FooterFollows(c, len - 2, dist);
    FollowsAppend(c, IsMatchBit, head, SlotBit(len - 2, 1), d, GotSlot(len - 2, slot));
    FollowsAppend(c, IsMatchBit, head + d, GotSlot(len - 2, slot), FooterOps(dist), Done(Match(dist, len)));
  }

  /** Every packet the encoder can emit is spelled by its operations. */
  lemma PacketFollows(c: Context, p: Packet)
    requires c.Ok() && EncPacketOk(p)
    ensures Follows(c, IsMatchBit, PacketOps(c, p), Done(p))
  {
    match p
    case Lit(b) => LiteralFollows(c, b);
    case ShortRep => ShortRepFollows(c);
    case Rep(index, len) => RepFollows(c, index, len);
    case Match(dist, len) => MatchFollows(c, dist, len);
  }
}
