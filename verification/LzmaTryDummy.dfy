/** Looking ahead: LzmaDec_TryDummy decodes one symbol without adapting anything, to see whether it is complete. */
module LzmaTryDummy {
  import opened Bytes
  import opened Powers
  import opened BitModel
  import opened RangeEncoder
  import opened RangeDecoder
  import opened LzmaSyntax
  import opened LzmaReader
  import opened LzmaPackets
  import opened LzmaState
  import opened LzmaBitReader
  import opened Wrappers

  datatype Dummy = DummyError | DummyLit | DummyMatch | DummyRep

  function DummyOf(k: Packet): Dummy {
    if k.Lit? then DummyLit else if k.Match? then DummyMatch else DummyRep
  }

  // ---------- Bit trees ----------

  /** The kinds of tree that TREE_DECODE_CHECK walks. */
  ghost predicate IsTree(s: Parse) { s.LowBit? || s.MidBit? || s.HighBit? || s.SlotBit? }

  ghost function Node(s: Parse, m: nat): Parse
    requires IsTree(s)
  {
    match s
    case LowBit(use, _) => LowBit(use, m)
    case MidBit(use, _) => MidBit(use, m)
    case HighBit(use, _) => HighBit(use, m)
    case SlotBit(len, _) => SlotBit(len, m)
  }

  ghost function Leaves(s: Parse): nat { if s.HighBit? then 256 else if s.SlotBit? then 64 else 8 }

  /** What follows leaf n. */
  ghost function Leaf(s: Parse, n: nat): Parse
    requires IsTree(s) && n < Leaves(s)
  {
    match s
    case LowBit(use, _) => GotLen(use, n)
    case MidBit(use, _) => GotLen(use, n + 8)
    case HighBit(use, _) => GotLen(use, n + 16)
    case SlotBit(len, _) => GotSlot(len, n)
  }

  lemma TreeStep(c: Context, s: Parse, m: nat, bit: int)
    requires IsTree(s) && Ok(s) && 1 <= m < Leaves(s) && IsBit(bit)
    ensures Ok(Node(s, m)) && !Node(s, m).Done? && !Node(s, m).DirectBit?
    ensures Idx(c, Node(s, m)) == Idx(c, Node(s, 0)) + m
    ensures 2 * m + bit < 2 * Leaves(s)
    ensures Step(c, Node(s, m), bit) ==
            if 2 * m + bit < Leaves(s) then Node(s, 2 * m + bit) else Leaf(s, 2 * m + bit - Leaves(s))
  {
    hide GotLen, GotSlot;
  }

  /** The registers of the look-ahead; the probabilities are only read. */
  class Prober {
    const probs: array<int>
    const input: seq<Byte>
    var range: nat
    var code: nat
    var pos: nat

    ghost predicate Fits(c: Context)
      reads this, probs
    {
      && 0x1_0000 <= range < 0x1_0000_0000 && code < 0x1_0000_0000 && pos <= |input|
      && AllProbs(probs[..]) && c.Ok() && LITERAL + 0x300 * (c.lit + 1) <= probs.Length
    }

    ghost function Regs(): Reader
      reads this
    {
      Reader(range, code, pos)
    }

    /** What the rest of the symbol from `s` on will give. */
    ghost function Rest(c: Context, s: Parse): Option<(Packet, Reader)>
      reads this, probs
      requires Fits(c) && Ok(s)
    {
      match Fetch(Regs(), input)
      case None => None
      case Some(rc) => Probe(c, s, rc, probs[..], input)
    }

    constructor (p: array<int>, r: nat, k: nat, b: seq<Byte>)
      ensures probs == p && input == b && range == r && code == k && pos == 0
    {
      probs, input, range, code, pos := p, b, r, k, 0;
    }

    /** NORMALIZE_CHECK */
    method Normalize(ghost c: Context) returns (ok: bool)
      requires Fits(c)
      modifies this`range, this`code, this`pos
      ensures ok <==> old(Fetch(Regs(), input)).Some?
      ensures Fits(c)
      ensures ok ==> Regs() == old(Fetch(Regs(), input)).value && 0x100_0000 <= range
    {
      if range < 0x100_0000 {
        if pos >= |input| {
          return false;
        }
        range := range * 256;
        code := Word32(code * 256 + input[pos]);
        pos := pos + 1;
      }
      ok := true;
    }

    /** The bit at `s` from normalised registers, and the registers after it. */
    lemma Settle(c: Context, s: Parse, rc: Reader)
      requires Fits(c) && Ok(s) && !s.Done? && DecOk(c, Dec(rc, probs[..]))
      requires Regs() == RegsAfter(c, s, Dec(rc, probs[..]))
      ensures var s' := Step(c, s, BitAt(c, s, Dec(rc, probs[..])));
              Ok(s') && Rest(c, s') == Probe(c, s, rc, probs[..], input)
    {
      StepOk(c, s, BitAt(c, s, Dec(rc, probs[..])));
    }

    /** IF_BIT_0_CHECK with UPDATE_0_CHECK or UPDATE_1_CHECK */
    method Next(ghost c: Context, ghost s: Parse, i: nat) returns (ok: bool, bit: int)
      requires Fits(c) && Ok(s) && !s.Done? && !s.DirectBit? && i == Idx(c, s)
      modifies this`range, this`code, this`pos
      ensures Fits(c) && (!ok ==> old(Rest(c, s)) == None)
      ensures ok ==> IsBit(bit) && Ok(Step(c, s, bit)) && Rest(c, Step(c, s, bit)) == old(Rest(c, s))
    {
      hide Step, Probe, AllProbs, Idx, Ok;
      IdxBound(c, s);
      bit := 0;
      var ttt := probs[i];
      ProbInRange(probs[..], i);
      ok := Normalize(c);
      if !ok {
        return;
      }
      ghost var rc := Regs();
      SplitBounds(range, ttt);
      var bound := (range / 2048) * ttt;
      if code < bound {
        range := bound;
      } else {
        range := range - bound;
        code := code - bound;
        bit := 1;
      }
      Settle(c, s, rc);
    }

    /** One direct bit; its value is not needed. */
    method NextDirect(ghost c: Context, ghost s: Parse) returns (ok: bool, ghost bit: int)
      requires Fits(c) && Ok(s) && s.DirectBit?
      modifies this`range, this`code, this`pos
      ensures Fits(c) && (!ok ==> old(Rest(c, s)) == None)
      ensures ok ==> IsBit(bit) && Ok(Step(c, s, bit)) && Rest(c, Step(c, s, bit)) == old(Rest(c, s))
    {
      hide Step, Probe, AllProbs, Ok;
      bit := 0;
      ok := Normalize(c);
      if !ok {
        return;
      }
      ghost var rc := Regs();
      range := range / 2;
      SignWord(code, range);
      code := Word32(code - Mask(Word32(code - range) / 0x8000_0000 - 1, range));
      bit := DirectBitOf(rc);
      Settle(c, s, rc);
    }

    method Literal(ghost c: Context, base: nat) returns (ok: bool, ghost b: Byte)
      requires Fits(c) && base == LITERAL + 0x300 * c.lit
      modifies this`range, this`code, this`pos
      ensures Fits(c) && (!ok ==> old(Rest(c, LitBit(1))) == None)
      ensures ok ==> Rest(c, Done(Lit(b))) == old(Rest(c, LitBit(1)))
    {
      hide Probe, AllProbs, Fetch, Rest, Fits;
      var symbol, bit := 1, 0;
      ok, b := true, 0;
      ghost var s := LitBit(1);
      while symbol < 0x100
        invariant 1 <= symbol < 0x200 && s == (if symbol < 0x100 then LitBit(symbol) else Done(Lit(symbol - 0x100)))
        invariant Fits(c) && Rest(c, s) == old(Rest(c, LitBit(1)))
        decreases 0x200 - symbol
      {
        ok, bit := Next(c, s, base + symbol);
        if !ok {
          return;
        }
        s := Step(c, s, bit);
        symbol := symbol + symbol + bit;
      }
      ok, b := true, symbol - 0x100;
    }

    method MatchedLiteral(ghost c: Context, base: nat, matched: Byte) returns (ok: bool, ghost b: Byte)
      requires Fits(c) && base == LITERAL + 0x300 * c.lit
      modifies this`range, this`code, this`pos
      ensures Fits(c) && (!ok ==> old(Rest(c, MatchedLitBit(1, 0x100, matched))) == None)
      ensures ok ==> Rest(c, Done(Lit(b))) == old(Rest(c, MatchedLitBit(1, 0x100, matched)))
    {
      hide Probe, AllProbs, Fetch, Rest, Fits;
      var symbol, offs, matchByte, bit := 1, 0x100, matched as nat, 0;
      ok, b := true, 0;
      ghost var s := MatchedLitBit(1, 0x100, matched);
      while symbol < 0x100
        invariant 1 <= symbol < 0x200 && (offs == 0 || offs == 0x100)
        invariant s == (if symbol < 0x100 then MatchedLitBit(symbol, offs, matchByte) else Done(Lit(symbol - 0x100)))
        invariant Fits(c) && Rest(c, s) == old(Rest(c, MatchedLitBit(1, 0x100, matched)))
        decreases 0x200 - symbol
      {
        matchByte := matchByte + matchByte;
        var before := offs;
        offs := And100(offs, matchByte);
        ok, bit := Next(c, s, base + (offs + before + symbol));
        if !ok {
          return;
        }
        s := Step(c, s, bit);
        symbol := symbol + symbol + bit;
        if bit == 0 {
          offs := before - offs;
        }
      }
      ok, b := true, symbol - 0x100;
    }

    /** TREE_DECODE_CHECK */
    method Tree(ghost c: Context, ghost kind: Parse, base: nat, limit: nat) returns (ok: bool, i: nat)
      requires Fits(c) && IsTree(kind) && kind == Node(kind, 1) && Ok(kind) && limit == Leaves(kind)
      requires base == Idx(c, Node(kind, 0))
      modifies this`range, this`code, this`pos
      ensures Fits(c) && (!ok ==> old(Rest(c, kind)) == None)
      ensures ok ==> i < limit && Ok(Leaf(kind, i)) && Rest(c, Leaf(kind, i)) == old(Rest(c, kind))
    {
      hide Probe, AllProbs, Fetch, Rest, Fits, Idx, Step, Ok, Leaf, Node;
      var bit := 0;
      ok, i := true, 1;
      ghost var s := kind;
      while i < limit
        invariant 1 <= i < 2 * limit && s == (if i < limit then Node(kind, i) else Leaf(kind, i - limit))
        invariant Fits(c) && Ok(s) && Rest(c, s) == old(Rest(c, kind))
        decreases 2 * limit - i
      {
        TreeStep(c, kind, i, 0);
        ok, bit := Next(c, s, base + i);
        if !ok {
          return;
        }
        TreeStep(c, kind, i, bit);
        s := Step(c, s, bit);
        i := i + i + bit;
      }
      i := i - limit;
    }

    /** The length of a match or repetition. */
    method Length(ghost c: Context, ghost use: LenUse, prob: nat, posState: nat) returns (ok: bool, len: nat)
      requires Fits(c) && UseOk(use) && prob == LenBase(use) && posState == c.posState * 16
      modifies this`range, this`code, this`pos
      ensures Fits(c) && (!ok ==> old(Rest(c, ChoiceBit(use))) == None)
      ensures ok ==> len < 272 && Ok(GotLen(use, len)) && Rest(c, GotLen(use, len)) == old(Rest(c, ChoiceBit(use)))
    {
      hide Probe, AllProbs, Fetch, Rest, Fits;
      var bit, probLen, limit, offset := 0, 0, 8, 0;
      ghost var kind := LowBit(use, 1);
      len := 0;
      ok, bit := Next(c, ChoiceBit(use), prob);
      if !ok {
        return;
      }
      if bit == 0 {
        probLen := prob + posState;
      } else {
        ok, bit := Next(c, Choice2Bit(use), prob + 8);
        if !ok {
          return;
        }
        if bit == 0 {
          probLen, offset, kind := prob + posState + 8, 8, MidBit(use, 1);
        } else {
          probLen, offset, limit, kind := prob + 256, 16, 256, HighBit(use, 1);
        }
      }
      ok, len := Tree(c, kind, probLen, limit);
      len := len + offset;
    }

    /** The bits of a distance after its slot; what they say is not needed. */
    method Distance(ghost c: Context, ghost len: nat, posSlot: nat) returns (ok: bool, ghost dist: nat)
      requires Fits(c) && posSlot < 64 && len <= 271 && Ok(GotSlot(len, posSlot))
      modifies this`range, this`code, this`pos
      ensures Fits(c) && (!ok ==> old(Rest(c, GotSlot(len, posSlot))) == None)
      ensures ok ==> Ok(Done(Match(dist, len + 2))) && Rest(c, Done(Match(dist, len + 2))) == old(Rest(c, GotSlot(len, posSlot)))
    {
      hide Probe, AllProbs, Fetch, Rest, Fits, Doubled;
      ok, dist := true, posSlot;
      if posSlot >= 4 {
        var numDirectBits := posSlot / 2 - 1;
        if posSlot < 14 {
          ok, dist := Reverse(c, GotSlot(len, posSlot), SPEC_POS + Doubled(2 + posSlot % 2, numDirectBits), numDirectBits);
        } else {
          ok, dist := Direct(c, len, 2 + posSlot % 2, numDirectBits - 4);
          if !ok {
            return;
          }
          ok, dist := Reverse(c, AlignBit(len, dist * 16, 1, 1), ALIGN, 4);
        }
      }
    }

    method Direct(ghost c: Context, ghost len: nat, ghost start: nat, count: nat) returns (ok: bool, ghost dist: nat)
      requires Fits(c) && Ok(Parse.DirectBit(len, start, count))
      modifies this`range, this`code, this`pos
      ensures Fits(c) && (!ok ==> old(Rest(c, Parse.DirectBit(len, start, count))) == None)
      ensures ok ==> Rest(c, AlignBit(len, dist * 16, 1, 1)) == old(Rest(c, Parse.DirectBit(len, start, count)))
    {
      hide Probe, AllProbs, Fetch, Rest, Fits;
      var left := count;
      ghost var bit := 0;
      ok, dist := true, start;
      ghost var s := Parse.DirectBit(len, start, count);
      while left != 0
        invariant s == if left != 0 then Parse.DirectBit(len, dist, left) else AlignBit(len, dist * 16, 1, 1)
        invariant Fits(c) && Ok(s) && Rest(c, s) == old(Rest(c, Parse.DirectBit(len, start, count)))
        decreases left
      {
        ok, bit := NextDirect(c, s);
        if !ok {
          return;
        }
        s := Step(c, s, bit);
        dist := 2 * dist + bit;
        left := left - 1;
      }
      ok := true;
    }

    /** REV_BIT_CHECK over a reverse tree. */
    method Reverse(ghost c: Context, ghost start: Parse, base: nat, count: nat) returns (ok: bool, ghost dist: nat)
      requires Fits(c) && Ok(start) && IsReverse(start) && count == Levels(start) && At(start).0 == 1 && At(start).1 == 1
      requires base + 1 == Idx(c, start)
      modifies this`range, this`code, this`pos
      ensures Fits(c) && (!ok ==> old(Rest(c, start)) == None)
      ensures ok ==> Ok(Done(Match(dist, start.len + 2))) && Rest(c, Done(Match(dist, start.len + 2))) == old(Rest(c, start))
    {
      hide Probe, AllProbs, Fetch, Rest, Fits, SpecOk, Step, Idx, Ok, At, Levels;
      var i, m, left, bit := 1, 1, count, 0;
      ok, dist := true, 0;
      ghost var s := start;
      ReverseStart(s);
      while left != 0
        invariant left != 0 ==> IsReverse(s) && SameTree(start, s) && Levels(s) == left && At(s) == (i, m)
        invariant left == 0 ==> s == Done(Match(dist, start.len + 2))
        invariant Fits(c) && Ok(s) && Rest(c, s) == old(Rest(c, start))
        decreases left
      {
        ReverseStep(c, start, s, 0);
        ok, bit := Next(c, s, base + i);
        if !ok {
          return;
        }
        ReverseStep(c, start, s, bit);
        s := Step(c, s, bit);
        if s.Done? {
          dist := s.packet.dist;
        }
        if bit == 0 {
          i := i + m;
          m := m + m;
        } else {
          m := m + m;
          i := i + m;
        }
        left := left - 1;
      }
      ok := true;
    }

    /** The NORMALIZE_CHECK at the end. */
    method Finish(ghost c: Context, ghost k: Packet) returns (ok: bool)
      requires Fits(c) && Ok(Done(k))
      modifies this`range, this`code, this`pos
      ensures Seen(old(Rest(c, Done(k)))) == if ok then DummyOf(k) else DummyError
    {
      ok := Normalize(c);
    }

    /** Which repetition it is. */
    method Which(ghost c: Context, state: nat, posState: nat) returns (ok: bool, short: bool, ghost index: nat)
      requires Fits(c) && state == c.state && posState == c.posState * 16
      modifies this`range, this`code, this`pos
      ensures Fits(c) && index < 4 && (!ok ==> old(Rest(c, IsRepG0Bit)) == None)
      ensures ok ==> Rest(c, if short then Done(ShortRep) else ChoiceBit(ForRep(index))) == old(Rest(c, IsRepG0Bit))
    {
      hide Probe, AllProbs, Fetch, Rest, Fits;
      var bit;
      short, index := false, 0;
      ok, bit := Next(c, IsRepG0Bit, IS_REP_G0 + state);
      if !ok {
        return;
      }
      if bit == 0 {
        ok, bit := Next(c, IsRep0LongBit, IS_REP0_LONG + posState + state);
        short := bit == 0;
      } else {
        ok, bit := Next(c, IsRepG1Bit, IS_REP_G1 + state);
        index := 1;
        if ok && bit != 0 {
          ok, bit := Next(c, IsRepG2Bit, IS_REP_G2 + state);
          index := if ok then 2 + bit else 0;
        }
      }
    }

    /** Slot and distance of a match. */
    method SlotAndDistance(ghost c: Context, len: nat) returns (ok: bool, ghost dist: nat)
      requires Fits(c) && len <= 271
      modifies this`range, this`code, this`pos
      ensures Fits(c) && (!ok ==> old(Rest(c, SlotBit(len, 1))) == None)
      ensures ok ==> Ok(Done(Match(dist, len + 2))) && Rest(c, Done(Match(dist, len + 2))) == old(Rest(c, SlotBit(len, 1)))
    {
      hide Probe, AllProbs, Fetch, Rest, Fits, GotSlot;
      var posSlot;
      dist := 0;
      ok, posSlot := Tree(c, SlotBit(len, 1), POS_SLOT + (if len < 3 then len else 3) * 64, 64);
      if ok {
        ok, dist := Distance(c, len, posSlot);
      }
    }

    /** A symbol whose first bit was 1. */
    method MatchOrRep(ghost c: Context, firstState: nat, posState: nat) returns (res: Dummy)
      requires Fits(c) && firstState == c.state && posState == c.posState * 16
      modifies this`range, this`code, this`pos
      ensures res == Seen(old(Rest(c, IsRepBit)))
    {
      hide Probe, AllProbs, Fetch, Rest, Fits;
      var state, prob, ok, bit, len := firstState, 0, true, 0, 0;
      ghost var use, dist := ForMatch, 0;
      ok, bit := Next(c, IsRepBit, IS_REP + state);
      if !ok {
        return DummyError;
      }
      if bit == 0 {
        state, prob, res := 0, MATCH_LEN, DummyMatch;
      } else {
        res := DummyRep;
        var short;
        ghost var index;
        ok, short, index := Which(c, state, posState);
        if !ok {
          return DummyError;
        }
        if short {
          ok := Finish(c, ShortRep);
          return if ok then DummyRep else DummyError;
        }
        state, prob, use := 12, REP_LEN, ForRep(index);
      }
      ok, len := Length(c, use, prob, posState);
      if ok && state < 4 {
        ok, dist := SlotAndDistance(c, len);
      }
      if ok {
        ok := Finish(c, if use.ForMatch? then Match(dist, len + 2) else Rep(use.index, len + 2));
      }
      if !ok {
        return DummyError;
      }
    }
  }

  /** What a look-ahead reports of a symbol. */
  ghost function Seen(o: Option<(Packet, Reader)>): Dummy {
    if o.None? then DummyError else DummyOf(o.value.0)
  }

  // ---------- Reverse trees ----------

  ghost predicate IsReverse(s: Parse) { s.SpecBit? || s.AlignBit? }

  /** The place in the tree and the weight of the next bit. */
  ghost function At(s: Parse): (nat, nat)
    requires IsReverse(s)
  {
    (s.t, s.w)
  }

  /** The bits still to come. */
  ghost function Levels(s: Parse): nat
    requires IsReverse(s)
  {
    if s.SpecBit? then s.left else if s.w == 1 then 4 else if s.w == 2 then 3 else if s.w == 4 then 2 else 1
  }

  ghost predicate SameTree(a: Parse, b: Parse) {
    || (a.SpecBit? && b.SpecBit? && a.len == b.len && a.base == b.base)
    || (a.AlignBit? && b.AlignBit? && a.len == b.len && a.dist == b.dist)
  }

  lemma ReverseStart(s: Parse)
    requires IsReverse(s) && Ok(s)
    ensures SameTree(s, s) && 1 <= Levels(s)
  {
  }

  lemma ReverseStep(c: Context, start: Parse, s: Parse, bit: int)
    requires IsReverse(start) && IsReverse(s) && Ok(s) && SameTree(start, s) && At(start) == (1, 1) && IsBit(bit)
    ensures Idx(c, s) + 1 == Idx(c, start) + At(s).0
    ensures var s' := Step(c, s, bit);
            && Ok(s')
            && (Levels(s) == 1 ==> s'.Done? && s' == Done(Match(s'.packet.dist, start.len + 2)))
            && (Levels(s) != 1 ==> 1 < Levels(s) && IsReverse(s') && SameTree(start, s') && Levels(s') == Levels(s) - 1)
            && (Levels(s) != 1 ==> At(s') == (At(s).0 + (if bit == 0 then At(s).1 else 2 * At(s).1), 2 * At(s).1))
  {
    StepOk(c, s, bit);
  }

  /** The mask is zero exactly if the difference is negative as a 32-bit word. */
  lemma SignWord(code: nat, half: nat)
    requires code < 0x1_0000_0000 && half < 0x8000_0000
    ensures Mask(Word32(code - half) / 0x8000_0000 - 1, half) == if Word32(code - half) < 0x8000_0000 then half else 0
  {
    var w := Word32(code - half);
    if w < 0x8000_0000 {
      assert w / 0x8000_0000 == 0;
      assert Word32(-1) == 0xFFFF_FFFF;
    } else {
      assert w / 0x8000_0000 == 1;
    }
  }

  lemma ProbInRange(probs: seq<int>, i: nat)
    requires AllProbs(probs) && i < |probs|
    ensures IsProb(probs[i])
  {
  }
}
