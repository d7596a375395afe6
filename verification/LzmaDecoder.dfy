/** The decoder object. */
module LzmaDecoder {
  import opened Bytes
  import opened Powers
  import opened BitModel
  import opened RangeEncoder
  import opened RangeDecoder
  import opened LzmaSyntax
  import opened LzmaReader
  import opened LzmaPackets
  import opened LzmaState
  import opened LzmaStream
  import opened LzmaBudget
  import opened LzmaProgress
  import opened LzmaPositions
  import opened LzmaDictionary
  import opened LzmaBitReader
  import opened LzmaTryDummy
  import opened LzmaPieces
  import opened Wrappers

  /** kMatchSpecLenStart: as a remaining length it says that the end marker has been read; one or two more, that
      the range coder, or the range coder and the state, must first be initialised. */
  const MATCH_SPEC_LEN_START: nat := 274

  class LzmaDec {
    const prop: Props
    const rd: BitReader
    const out: Dictionary
    var processedPos: nat
    var checkDicSize: nat
    var state: nat
    var rep0: nat
    var rep1: nat
    var rep2: nat
    var rep3: nat
    var remainLen: nat
    var tempBuf: seq<Byte>

    constructor (p: Props, dicBufSize: nat)
      requires p.Ok()
      ensures Valid() && fresh(rd) && fresh(rd.probs) && fresh(out) && fresh(out.dic) && Z() == LZ_START && prop == p
      ensures rd.probs[..] == FreshProbs(p) && rd.range == FULL_RANGE && out.dic.Length == dicBufSize && out.dicPos == 0
    {
      prop := p;
      rd := new BitReader(LITERAL + 0x300 * Pow2(p.lc + p.lp));
      out := new Dictionary(dicBufSize);
      processedPos, checkDicSize, state := 0, 0, 0;
      rep0, rep1, rep2, rep3 := 1, 1, 1, 1;
      remainLen, tempBuf := MATCH_SPEC_LEN_START + 2, [];
    }

    ghost function Z(): Lz
      reads this, out
    {
      Lz(state, Reps(rep0, rep1, rep2, rep3), out.hist)
    }

    ghost function Ctx(): Context
      reads this, out
      requires prop.Ok()
    {
      ContextOf(prop, Z())
    }

    /** checkDicSize stays 0 until the history has the size of the dictionary. */
    ghost predicate Check()
      reads this, out
    {
      if checkDicSize == 0 then |out.hist| <= prop.dicSize else checkDicSize == prop.dicSize <= |out.hist|
    }

    /** The buffer keeps everything, or at least as much as may be referred to. */
    ghost predicate Keeps()
      reads this, out
    {
      out.dicPos <= out.dic.Length && (prop.dicSize <= out.dic.Length || |out.hist| <= out.dicPos)
    }

    ghost predicate Valid()
      reads this, out, out.dic, rd, rd.probs
    {
      && prop.Ok() && LzOk(prop, Z())
      && out.Valid() && rd.Valid() && (out.dic as object) != rd.probs
      && rd.probs.Length == LITERAL + 0x300 * prop.LitCoders()
      && processedPos == Word32(|out.hist|) && Check() && Keeps()
    }

    lemma CtxOk()
      requires Valid()
      ensures prop.Ok() && LzOk(prop, Z()) && out.Valid() && Ctx().Ok() && LITERAL + 0x300 * (Ctx().lit + 1) <= rd.probs.Length
    {
      ContextOk(prop, Z());
    }

    /** Every recent distance is in the buffer. */
    lemma RepsKept()
      requires Valid() && out.hist != []
      ensures 1 <= rep0 <= out.dic.Length && rep0 <= |out.hist| && 0 < out.dic.Length
    {
    }

    lemma MatchByteKept()
      requires Valid() && out.hist != []
      ensures 1 <= rep0 <= |out.hist| && Ctx().matchByte == out.hist[|out.hist| - rep0]
    {
    }

    /** The offset of the literal coder's probabilities. */
    method LiteralBase() returns (base: nat)
      requires Valid()
      ensures base == LITERAL + 0x300 * Ctx().lit
    {
      ghost var z := Z();
      if processedPos != 0 || checkDicSize != 0 {
        assert z.hist != [];
        RepsKept();
        var prev := out.Previous();
        OffsetOfContext(prop, z, prev);
        hide ContextOf, WordOffset;
        base := LITERAL + WordOffset(prop, processedPos, prev);
      } else {
        base := LITERAL;
        assert z.hist == [];
        assert ContextOf(prop, z).lit == 0;
      }
    }

    /** The bits of a literal. */
    method ReadLiteral(ghost c: Context, ghost s: Parse) returns (b: Byte)
      requires Valid() && c == Ctx()
      requires s == (if state < 7 then LitBit(1) else MatchedLitBit(1, 0x100, c.matchByte)) && rd.Can(c, s)
      modifies rd`range, rd`code, rd`pos, rd.probs
      ensures old(rd.pos) <= rd.pos
      ensures Valid()
      ensures rd.Can(c, Done(Lit(b))) && old(rd.Can(c, s)) && rd.Rest(c, Done(Lit(b))) == old(rd.Rest(c, s))
    {
      hide Read, AllProbs, Fetch, ContextOf;
      var base := LiteralBase();
      if state < 7 {
        b := rd.Literal(c, base);
      } else {
        RepsKept();
        MatchByteKept();
        var matchByte := out.ByteAt(rep0);
        b := rd.MatchedLiteral(c, base, matchByte);
      }
    }

    /** The end of a literal. */
    method PutLiteral(b: Byte)
      requires Valid() && out.dicPos < out.dic.Length && (checkDicSize == 0 ==> |out.hist| < prop.dicSize)
      modifies this`state, this`processedPos, out`dicPos, out`hist, out.dic
      ensures Valid() && out.dicPos == old(out.dicPos) + 1
      ensures Z() == old(Z()).(state := AfterLit(old(state)), hist := old(out.hist) + [b])
    {
      hide AllProbs, Pow2;
      WordSucc(|out.hist|, 1);
      processedPos := Word32(processedPos + 1);
      state := if state < 4 then 0 else if state < 10 then state - 3 else state - 6;
      out.Put(b);
    }

    /** The one-byte repetition. */
    method PutShortRep()
      requires Valid() && out.hist != [] && out.dicPos < out.dic.Length && (checkDicSize == 0 ==> |out.hist| < prop.dicSize)
      modifies this`state, this`processedPos, out`dicPos, out`hist, out.dic
      ensures Valid() && out.dicPos == old(out.dicPos) + 1
      ensures 1 <= old(rep0) <= |old(out.hist)|
      ensures Z() == old(Z()).(state := AfterShortRep(old(state)), hist := Copy(old(out.hist), old(rep0), 1))
    {
      hide AllProbs, Pow2;
      RepsKept();
      WordSucc(|out.hist|, 1);
      var b := out.ByteAt(rep0);
      out.Put(b);
      processedPos := Word32(processedPos + 1);
      state := if state < 7 then 9 else 11;
      assert out.hist == Copy(old(out.hist), rep0, 1);
    }

    /** The bytes of a match or repetition, as far as there is room; `rest` is what is left of it. */
    method CopyOut(limit: nat, len: nat) returns (rest: nat)
      requires Valid() && out.hist != [] && out.dicPos < limit <= out.dic.Length
      requires checkDicSize == 0 ==> |out.hist| + (limit - out.dicPos) <= prop.dicSize
      modifies this`processedPos, out`dicPos, out`hist, out.dic
      ensures Valid() && 1 <= rep0 <= |old(out.hist)|
      ensures var n := Min(len, limit - old(out.dicPos));
              && Z() == old(Z()).(hist := Copy(old(out.hist), rep0, n)) && out.dicPos == old(out.dicPos) + n
              && rest == len - n
    {
      hide AllProbs, Pow2, Copy;
      RepsKept();
      var rem := limit - out.dicPos;
      var curLen := if rem < len then rem else len;
      WordSucc(|out.hist|, curLen);
      processedPos := Word32(processedPos + curLen);
      rest := len - curLen;
      out.CopyMatch(rep0, curLen);
    }

    // ---------- Reading a match or repetition ----------

    /** Length and distance of a match. */
    method ReadMatch(ghost c: Context, posState: nat) returns (len: nat, distance: nat)
      requires Valid() && rd.Can(c, ChoiceBit(ForMatch)) && posState == c.posState * 16
      modifies rd`range, rd`code, rd`pos, rd.probs
      ensures old(rd.pos) <= rd.pos
      ensures Valid()
      ensures rd.Can(c, Done(Match(distance, len + 2))) && old(rd.Can(c, ChoiceBit(ForMatch)))
      ensures rd.Rest(c, Done(Match(distance, len + 2))) == old(rd.Rest(c, ChoiceBit(ForMatch)))
    {
      hide Read, AllProbs, Fetch, GotSlot;
      len := rd.Length(c, ForMatch, MATCH_LEN, posState);
      var slot := rd.Slot(c, len);
      GotSlotOk(len, slot);
      distance := rd.Distance(c, len, slot);
    }

    /** Which repetition: the short one, or one of four distances, which moves to the front. */
    method ReadRep(ghost c: Context, posState: nat) returns (short: bool, ghost index: nat)
      requires rd.Can(c, IsRepG0Bit) && posState == c.posState * 16 && c.state == state
      modifies this`rep0, this`rep1, this`rep2, this`rep3, rd`range, rd`code, rd`pos, rd.probs
      ensures old(rd.pos) <= rd.pos
      ensures index < 4 && old(rd.Can(c, IsRepG0Bit)) && Z() == old(Z()).(reps := old(Z()).reps.Promote(index))
      ensures short ==> index == 0 && rd.Can(c, Done(ShortRep)) && rd.Rest(c, Done(ShortRep)) == old(rd.Rest(c, IsRepG0Bit))
      ensures !short ==> && rd.Can(c, ChoiceBit(ForRep(index)))
                         && rd.Rest(c, ChoiceBit(ForRep(index))) == old(rd.Rest(c, IsRepG0Bit))
    {
      hide Read, AllProbs, Fetch, BitReader.Rest, BitReader.Ready;
      short, index := false, 0;
      var bit := rd.Next(c, IsRepG0Bit, IS_REP_G0 + state);
      if bit == 0 {
        bit := rd.Next(c, IsRep0LongBit, IS_REP0_LONG + posState + state);
        short := bit == 0;
      } else {
        var distance;
        bit := rd.Next(c, IsRepG1Bit, IS_REP_G1 + state);
        if bit == 0 {
          distance, index := rep1, 1;
        } else {
          bit := rd.Next(c, IsRepG2Bit, IS_REP_G2 + state);
          if bit == 0 {
            distance, index := rep2, 2;
          } else {
            distance, index := rep3, 3;
            rep3 := rep2;
          }
          rep2 := rep1;
        }
        rep1 := rep0;
        rep0 := distance;
      }
    }

    method ChooseRep(ghost c: Context, posState: nat) returns (short: bool, ghost index: nat)
      requires Valid() && rd.Can(c, IsRepG0Bit) && posState == c.posState * 16 && c.state == state
      modifies this`rep0, this`rep1, this`rep2, this`rep3, rd`range, rd`code, rd`pos, rd.probs
      ensures old(rd.pos) <= rd.pos
      ensures Valid()
      ensures index < 4 && old(rd.Can(c, IsRepG0Bit)) && Z() == old(Z()).(reps := old(Z()).reps.Promote(index))
      ensures short ==> index == 0 && rd.Can(c, Done(ShortRep)) && rd.Rest(c, Done(ShortRep)) == old(rd.Rest(c, IsRepG0Bit))
      ensures !short ==> && rd.Can(c, ChoiceBit(ForRep(index)))
                         && rd.Rest(c, ChoiceBit(ForRep(index))) == old(rd.Rest(c, IsRepG0Bit))
    {
      hide Read, AllProbs, Fetch, LzOk;
      ghost var z := Z();
      short, index := ReadRep(c, posState);
      PromoteOk(prop, z, index);
    }

    // ---------- One symbol ----------

    /** What is known before a symbol is taken into the output up to `limit`. */
    ghost predicate Before(limit: nat)
      reads this, out, out.dic, rd, rd.probs
    {
      && Valid() && out.dicPos <= limit <= out.dic.Length
      && (checkDicSize == 0 ==> |out.hist| + (limit - out.dicPos) <= prop.dicSize)
    }

    /** Takes a match, or finds that it is the end marker or bad. */
    method TakeMatch(limit: nat, len: nat, distance: nat) returns (rest: nat, verdict: Verdict)
      requires Before(limit)
      modifies this`state, this`rep0, this`rep1, this`rep2, this`rep3, this`processedPos, out`dicPos, out`hist, out.dic
      ensures out.Valid()
      ensures Outcome(prop, old(Z()), Match(distance, len + 2), limit - old(out.dicPos), Z(), rest, verdict)
      ensures verdict != BadData ==> Valid()
      ensures out.dicPos - old(out.dicPos) == |out.hist| - |old(out.hist)|
    {
      hide AllProbs, Pow2, Copy, Dictionary.Valid, BitReader.Valid;
      rest := 0;
      if distance == 0xFFFF_FFFF {
        return 0, EndMark;
      }
      rep3 := rep2;
      rep2 := rep1;
      rep1 := rep0;
      rep0 := distance + 1;
      state := if state < 7 then 7 else 10;
      if distance >= (if checkDicSize == 0 then processedPos else checkDicSize) {
        return 0, BadData;
      }
      if limit == out.dicPos {
        return 0, BadData;
      }
      rest := CopyOut(limit, len + 2);
      verdict := Fine;
    }

    /** Takes a repetition whose distance is already at the front. */
    method TakeRep(limit: nat, ghost index: nat, ghost before: Lz, len: nat) returns (rest: nat, verdict: Verdict)
      requires Before(limit) && out.hist != [] && index < 4 && before.hist == out.hist && LzOk(prop, before)
      requires Z() == before.(state := AfterRep(before.state), reps := before.reps.Promote(index))
      modifies this`processedPos, out`dicPos, out`hist, out.dic
      ensures Outcome(prop, before, Rep(index, len + 2), limit - old(out.dicPos), Z(), rest, verdict)
      ensures verdict != EndMark && Valid() && out.dicPos - old(out.dicPos) == |out.hist| - |old(out.hist)|
    {
      hide AllProbs, Pow2, Copy;
      rest := 0;
      if limit == out.dicPos {
        return 0, BadData;
      }
      rest := CopyOut(limit, len + 2);
      verdict := Fine;
    }

    /** Once all bits are read, the packet and the registers are known. */
    lemma AllRead(c: Context, k: Packet)
      requires rd.Can(c, Done(k))
      ensures rd.Valid() && Fetch(rd.Regs(), rd.input).Some? && rd.Rest(c, Done(k)) == Some((k, rd.Now()))
    {
    }

    /** The rest of a repetition: its length, unless it is the short one, and its bytes. */
    method FinishRep(limit: nat, ghost c: Context, ghost before: Lz, posState: nat, short: bool, ghost index: nat,
                     ghost k: Packet, ghost d: Dec) returns (rest: nat, verdict: Verdict)
      requires Before(limit) && posState == c.posState * 16 && index < 4 && LzOk(prop, before)
      requires Z() == before.(reps := before.reps.Promote(index))
      requires short ==> index == 0 && rd.Can(c, Done(ShortRep)) && rd.Rest(c, Done(ShortRep)) == Some((k, d))
      requires !short ==> rd.Can(c, ChoiceBit(ForRep(index))) && rd.Rest(c, ChoiceBit(ForRep(index))) == Some((k, d))
      requires (before.hist == [] ==> !k.Rep? && !k.ShortRep?) && (out.dicPos == limit ==> k.Match?)
      modifies this`state, this`processedPos, out`dicPos, out`hist, out.dic, rd`range, rd`code, rd`pos, rd.probs
      ensures old(rd.pos) <= rd.pos
      ensures Outcome(prop, before, k, limit - old(out.dicPos), Z(), rest, verdict)
      ensures Valid() && Fetch(rd.Regs(), rd.input).Some? && rd.Now() == d
      ensures out.dicPos - old(out.dicPos) == |out.hist| - |old(out.hist)|
    {
      hide AllProbs, Read, Fetch, Copy, Outcome, LzOk, BitReader.Rest, BitReader.Can, BitReader.Now, Dictionary.Valid, ContextOf;
      if short {
        AllRead(c, ShortRep);
        PutShortRep();
        ShortRepOutcome(prop, before, limit - old(out.dicPos));
        return 0, Fine;
      }
      var len := rd.Length(c, ForRep(index), REP_LEN, posState);
      AllRead(c, Rep(index, len + 2));
      OtherState(prop, Z(), AfterRep(state));
      state := if state < 7 then 8 else 11;
      rest, verdict := TakeRep(limit, index, before, len);
    }

    /** The symbol at hand, and what its bits leave of registers and probabilities. */
    ghost function Next(): (Packet, Dec)
      reads this, out, rd, rd.probs
      requires prop.Ok() && rd.Can(Ctx(), IsMatchBit)
    {
      rd.Rest(Ctx(), IsMatchBit).value
    }

    /** A symbol whose first bit was 0. */
    method LiteralSymbol(limit: nat, ghost c: Context, ghost s: Parse, ghost k: Packet, ghost d: Dec)
      requires Before(limit) && c == Ctx() && (out.dicPos == limit ==> k.Match?)
      requires s == (if state < 7 then LitBit(1) else MatchedLitBit(1, 0x100, c.matchByte))
      requires rd.Can(c, s) && rd.Rest(c, s) == Some((k, d))
      modifies this`state, this`processedPos, out`dicPos, out`hist, out.dic, rd`range, rd`code, rd`pos, rd.probs
      ensures old(rd.pos) <= rd.pos
      ensures Outcome(prop, old(Z()), k, limit - old(out.dicPos), Z(), 0, Fine)
      ensures Valid() && Fetch(rd.Regs(), rd.input).Some? && rd.Now() == d
      ensures out.dicPos - old(out.dicPos) == |out.hist| - |old(out.hist)|
    {
      hide AllProbs, Read, Fetch, Copy, Outcome, LzOk, BitReader.Rest, BitReader.Can, BitReader.Now, Valid, ContextOf;
      ghost var z := Z();
      CtxOk();
      var b := ReadLiteral(c, s);
      AllRead(c, Lit(b));
      PutLiteral(b);
      LiteralOutcome(prop, z, b, limit - old(out.dicPos));
    }

    /** A symbol whose first bit was 1. */
    method MatchSymbol(limit: nat, ghost c: Context, posState: nat, ghost k: Packet, ghost d: Dec)
      returns (rest: nat, verdict: Verdict)
      requires Before(limit) && c == Ctx() && posState == c.posState * 16
      requires (out.hist == [] ==> !k.Rep? && !k.ShortRep?) && (out.dicPos == limit ==> k.Match?)
      requires rd.Can(c, IsRepBit) && rd.Rest(c, IsRepBit) == Some((k, d))
      modifies this`state, this`rep0, this`rep1, this`rep2, this`rep3, this`processedPos, out`dicPos, out`hist, out.dic, rd`range, rd`code, rd`pos, rd.probs
      ensures out.Valid()
      ensures old(rd.pos) <= rd.pos
      ensures Outcome(prop, old(Z()), k, limit - old(out.dicPos), Z(), rest, verdict)
      ensures verdict != BadData ==> Valid() && Fetch(rd.Regs(), rd.input).Some? && rd.Now() == d
      ensures out.dicPos - old(out.dicPos) == |out.hist| - |old(out.hist)|
    {
      hide AllProbs, Read, Fetch, Copy, Outcome, LzOk, BitReader.Rest, Dictionary.Valid;
      ghost var z := Z();
      var bit := rd.Next(c, IsRepBit, IS_REP + state);
      if bit == 0 {
        var len, distance := ReadMatch(c, posState);
        AllRead(c, Match(distance, len + 2));
        rest, verdict := TakeMatch(limit, len, distance);
      } else {
        var short, index := ChooseRep(c, posState);
        rest, verdict := FinishRep(limit, c, z, posState, short, index, k, d);
      }
    }

    /** One turn of the loop of LzmaDec_DecodeReal_3. Without room only a match may come, and before the first
        byte no repetition. */
    method OneSymbol(limit: nat) returns (rest: nat, verdict: Verdict)
      requires Before(limit) && rd.Can(Ctx(), IsMatchBit)
      requires out.dicPos == limit ==> Next().0.Match?
      requires out.hist == [] ==> !Next().0.Rep? && !Next().0.ShortRep?
      modifies this`state, this`rep0, this`rep1, this`rep2, this`rep3, this`processedPos, out`dicPos, out`hist, out.dic, rd`range, rd`code, rd`pos, rd.probs
      ensures out.Valid()
      ensures old(rd.pos) <= rd.pos
      ensures old(rd.Can(Ctx(), IsMatchBit))
      ensures Outcome(prop, old(Z()), old(Next()).0, limit - old(out.dicPos), Z(), rest, verdict)
      ensures verdict != BadData ==> Valid() && Fetch(rd.Regs(), rd.input).Some? && rd.Now() == old(Next()).1
      ensures out.dicPos - old(out.dicPos) == |out.hist| - |old(out.hist)|
    {
      hide AllProbs, Read, Fetch, Copy, Outcome, LzOk, BitReader.Rest, Dictionary.Valid;
      ghost var c := Ctx();
      LowBitsOfWord(|out.hist|, prop.pb);
      var posState := processedPos % Pow2(prop.pb) * 16;
      var bit := rd.Next(c, IsMatchBit, IS_MATCH + posState + state);
      if bit == 0 {
        rest, verdict := 0, Fine;
        LiteralSymbol(limit, c, Step(c, IsMatchBit, 0), old(Next()).0, old(Next()).1);
      } else {
        rest, verdict := MatchSymbol(limit, c, posState, old(Next()).0, old(Next()).1);
      }
    }

    // ---------- The decoding loop ----------

    /** The decoder as a machine whose input is the rest of its buffer and what comes behind it. */
    ghost function At(remain: nat, beyond: seq<Byte>): Mach
      reads this, out, rd, rd.probs
      requires rd.pos <= |rd.input| && Fetch(rd.Regs(), rd.input).Some?
    {
      MachAt(Z(), remain, rd.Now(), rd.input, beyond)
    }

    /** Ready to take a symbol into the output up to `limit`, when later there will be room up to `whole`. */
    ghost predicate Poised(limit: nat, whole: nat, end: bool, beyond: seq<Byte>)
      reads this, out, out.dic, rd, rd.probs
    {
      && Before(limit) && limit <= whole <= out.dic.Length && rd.Can(Ctx(), IsMatchBit)
      && (out.dicPos == limit ==> limit == whole && end && rd.Now().rc.code != 0 && Next().0.Match?)
      && (out.hist == [] ==> !Next().0.Rep? && !Next().0.ShortRep?)
    }

    /** Decoding from m0 with room0 has come to this decoder, with room up to `whole`; `rest` bytes of a copy are due. */
    ghost predicate Reached(rest: nat, verdict: Verdict, whole: nat, end: bool, beyond: seq<Byte>, m0: Mach, room0: nat)
      reads this, out, out.dic, rd, rd.probs
    {
      && Placed(whole, m0, room0)
      && if verdict == BadData then FailsAt(whole, m0, room0, end)
         else && Valid() && Fetch(rd.Regs(), rd.input).Some?
              && Agrees(prop, m0, room0, end, At(rest, beyond), whole - out.dicPos, verdict)
    }

    /** The output is where the bytes produced since m0 have brought it. */
    ghost predicate Placed(whole: nat, m0: Mach, room0: nat)
      reads this, out, out.dic
    {
      && out.Valid() && out.dicPos <= whole <= out.dic.Length
      && whole - out.dicPos == room0 - (|out.hist| - |m0.z.hist|)
    }

    /** Reached after a symbol taken into the output up to `limit`. */
    ghost predicate Going(limit: nat, rest: nat, verdict: Verdict, whole: nat, end: bool, beyond: seq<Byte>, m0: Mach, room0: nat)
      reads this, out, out.dic, rd, rd.probs
    {
      && Reached(rest, verdict, whole, end, beyond, m0, room0)
      && (verdict == EndMark ==> rest == 0)
      && (verdict == Fine ==> Before(limit) && limit <= whole && out.hist != [] && rest < MATCH_SPEC_LEN_START)
      && (verdict == Fine && rest > 0 ==> out.dicPos == limit)
    }

    /** Decoding from m0 ends in a data error, with this output. */
    ghost predicate FailsAt(whole: nat, m0: Mach, room0: nat, end: bool)
      reads this, out, out.dic
    {
      && Placed(whole, m0, room0)
      && MachOk(prop, m0) && Resume(prop, m0, room0, end).1 == DataError
      && Resume(prop, m0, room0, end).0.z.hist == out.hist
    }

    lemma NextIsSymbol()
      requires Valid() && rd.Can(Ctx(), IsMatchBit)
      ensures SymbolAt(prop, Z(), rd.Now(), rd.input, Next().0, Next().1)
    {
    }

    /** OneSymbol goes where decoding from m0 goes. */
    method Turn(limit: nat, ghost whole: nat, ghost end: bool, ghost beyond: seq<Byte>, ghost m0: Mach, ghost room0: nat)
      returns (rest: nat, verdict: Verdict)
      requires Poised(limit, whole, end, beyond) && Reached(0, Fine, whole, end, beyond, m0, room0)
      modifies this`state, this`rep0, this`rep1, this`rep2, this`rep3, this`processedPos, out`dicPos, out`hist, out.dic, rd`range, rd`code, rd`pos, rd.probs
      ensures old(rd.pos) <= rd.pos
      ensures Going(limit, rest, verdict, whole, end, beyond, m0, room0)
      ensures verdict != BadData ==> rd.Now() == old(Next()).1
      ensures verdict == Fine ==> old(out.dicPos) < out.dicPos
    {
      hide AllProbs, Read, Fetch, Outcome, LzOk, Agrees, MachAt, Resume, MachOk, BitReader.Rest, BitReader.Now, Valid, BitReader.Can;
      CtxOk();
      ghost var z, now, input, at := Z(), rd.Now(), rd.input, out.dicPos;
      ghost var (k, d) := Next();
      NextIsSymbol();
      ghost var m := MachAt(z, 0, now, input, beyond);
      AgreesIsResumes(prop, m0, room0, end, m, whole - at);
      rest, verdict := OneSymbol(limit);
      OutcomeAgrees(prop, z, now, input, beyond, k, d, limit - at, whole - at, end, Z(), rest, verdict);
      ghost var m1 := MachAt(Z(), if verdict == Fine then rest else 0, d, input, beyond);
      AgreesThen(prop, m0, room0, end, m, whole - at, m1, whole - out.dicPos, verdict);
      if verdict == BadData {
        AgreesFails(prop, m0, room0, end, m1, whole - out.dicPos);
      }
    }

    lemma NormalisedBelow(bufLimit: nat)
      requires rd.Valid() && rd.pos < bufLimit <= |rd.input|
      ensures Fetch(rd.Regs(), rd.input).Some? && rd.Now().rc.pos <= bufLimit
    {
    }

    /** The NORMALIZE after the loop. */
    method NormalizeEnd(ghost limit: nat, ghost len: nat, ghost verdict: Verdict, ghost whole: nat, ghost end: bool,
                        ghost beyond: seq<Byte>, ghost m0: Mach, ghost room0: nat)
      requires Going(limit, len, verdict, whole, end, beyond, m0, room0) && verdict != BadData
      modifies rd`range, rd`code, rd`pos
      ensures old(rd.pos) <= rd.pos
      ensures Going(limit, len, verdict, whole, end, beyond, m0, room0)
      ensures 0x100_0000 <= rd.range && old(Fetch(rd.Regs(), rd.input)).Some? && rd.Now() == old(rd.Now())
    {
      hide AllProbs, Agrees, MachAt, LzOk, Fetch, Resume, MachOk, Dictionary.Valid;
      rd.Normalize();
      FetchNormal(rd.Regs(), rd.input);
    }

    /** With 20 bytes behind the position the next symbol may be taken. */
    lemma CanAgain(beyond: seq<Byte>, bufLimit: nat)
      requires Valid() && rd.pos < bufLimit && bufLimit + LZMA_REQUIRED_INPUT_MAX <= |rd.input|
      requires Fetch(rd.Regs(), rd.input).Some? && MachOk(prop, At(0, beyond))
      ensures rd.Can(Ctx(), IsMatchBit)
    {
      CtxOk();
      NormalisedBelow(bufLimit);
      hide Read, AllProbs, ContextOf, LzOk, MachAt, MachOk, Fetch, BitReader.Now, BitReader.Valid, Dictionary.Valid;
      EnoughHere(prop, Z(), rd.Now(), rd.input, beyond);
    }

    lemma PoisedAgain(limit: nat, rest: nat, whole: nat, end: bool, beyond: seq<Byte>, m0: Mach, room0: nat, bufLimit: nat)
      requires Going(limit, rest, Fine, whole, end, beyond, m0, room0) && out.dicPos < limit
      requires rd.pos < bufLimit && bufLimit + LZMA_REQUIRED_INPUT_MAX <= |rd.input|
      ensures Poised(limit, whole, end, beyond) && Reached(0, Fine, whole, end, beyond, m0, room0)
    {
      hide Resume, Agrees, MachAt, MachOk, Fetch, BitReader.Now, Valid, BitReader.Can;
      AgreesIsResumes(prop, m0, room0, end, At(0, beyond), whole - out.dicPos);
      CanAgain(beyond, bufLimit);
    }

    /** One symbol in any case, and more while there is room and input to spare. */
    method DecodeSymbols(limit: nat, bufLimit: nat, ghost whole: nat, ghost end: bool, ghost beyond: seq<Byte>,
                         ghost m0: Mach, ghost room0: nat) returns (len: nat, verdict: Verdict)
      requires Poised(limit, whole, end, beyond) && Reached(0, Fine, whole, end, beyond, m0, room0)
      requires bufLimit <= rd.pos || bufLimit + LZMA_REQUIRED_INPUT_MAX <= |rd.input|
      modifies this`state, this`rep0, this`rep1, this`rep2, this`rep3, this`processedPos, out`dicPos, out`hist, out.dic, rd`range, rd`code, rd`pos, rd.probs
      ensures old(rd.pos) <= rd.pos
      ensures Going(limit, len, verdict, whole, end, beyond, m0, room0)
      ensures verdict != BadData && bufLimit <= old(rd.pos) ==> rd.Now() == old(Next()).1
      ensures verdict == Fine ==> old(out.dicPos) < out.dicPos
    {
      ghost var d := Next().1;
      hide AllProbs, Read, BitReader.Rest, BitReader.Now, BitReader.Can, Poised, Valid, FailsAt, Reached, Going;
      len, verdict := Turn(limit, whole, end, beyond, m0, room0);
      while verdict == Fine && out.dicPos < limit && rd.pos < bufLimit
        invariant Going(limit, len, verdict, whole, end, beyond, m0, room0)
        invariant old(rd.pos) <= rd.pos && (verdict == Fine ==> old(out.dicPos) < out.dicPos)
        invariant verdict != BadData && bufLimit <= old(rd.pos) ==> rd.Now() == d
        decreases verdict == Fine, limit - out.dicPos
      {
        PoisedAgain(limit, len, whole, end, beyond, m0, room0, bufLimit);
        len, verdict := Turn(limit, whole, end, beyond, m0, room0);
      }
    }

    /** LZMA_DECODE_REAL */
    method DecodeReal(limit: nat, bufLimit: nat, ghost whole: nat, ghost end: bool, ghost beyond: seq<Byte>,
                      ghost m0: Mach, ghost room0: nat) returns (len: nat, verdict: Verdict)
      requires Poised(limit, whole, end, beyond) && Reached(0, Fine, whole, end, beyond, m0, room0)
      requires bufLimit <= rd.pos || bufLimit + LZMA_REQUIRED_INPUT_MAX <= |rd.input|
      modifies this`state, this`rep0, this`rep1, this`rep2, this`rep3, this`processedPos, out`dicPos, out`hist, out.dic, rd`range, rd`code, rd`pos, rd.probs
      ensures old(rd.pos) <= rd.pos
      ensures Going(limit, len, verdict, whole, end, beyond, m0, room0)
      ensures verdict != BadData ==> 0x100_0000 <= rd.range
      ensures verdict != BadData && bufLimit <= old(rd.pos) ==> rd.Now() == old(Next()).1
      ensures verdict == Fine ==> old(out.dicPos) < out.dicPos
    {
      hide AllProbs, Read, BitReader.Rest, BitReader.Now, BitReader.Can, Poised, Valid, FailsAt, Reached, Going;
      len, verdict := DecodeSymbols(limit, bufLimit, whole, end, beyond, m0, room0);
      if verdict != BadData {
        NormalizeEnd(limit, len, verdict, whole, end, beyond, m0, room0);
      }
    }

    /** Once the history has the size of the dictionary, checkDicSize says so. */
    ghost predicate Strict()
      reads this, out
    {
      checkDicSize == 0 ==> |out.hist| < prop.dicSize
    }

    /** Before the dictionary is full, the 32-bit position is exact. */
    lemma SmallPosition()
      requires Valid() && checkDicSize == 0
      ensures processedPos == |out.hist| <= prop.dicSize
    {
    }

    /** Counts `len` bytes that are about to be copied. */
    method CountAhead(len: nat)
      requires Valid() && Strict()
      modifies this`processedPos, this`checkDicSize
      ensures processedPos == Word32(|out.hist| + len)
      ensures if checkDicSize == 0 then |out.hist| + len < prop.dicSize else checkDicSize == prop.dicSize <= |out.hist| + len
    {
      hide AllProbs, Pow2, Word32, Dictionary.Valid, LzOk;
      WordSucc(|out.hist|, len);
      if checkDicSize == 0 {
        SmallPosition();
        if prop.dicSize - processedPos <= len {
          checkDicSize := prop.dicSize;
        }
      }
      processedPos := Word32(processedPos + len);
    }

    /** LzmaDec_WriteRem on a decoder with a copy under way. */
    method CopyRemaining(limit: nat)
      requires Valid() && Strict() && out.dicPos <= limit <= out.dic.Length && out.hist != []
      modifies this`processedPos, this`checkDicSize, this`remainLen, out`dicPos, out`hist, out.dic
      ensures Valid() && Strict() && 1 <= rep0 <= |old(out.hist)|
      ensures out.hist == Copy(old(out.hist), rep0, Min(old(remainLen), limit - old(out.dicPos)))
      ensures out.dicPos == old(out.dicPos) + Min(old(remainLen), limit - old(out.dicPos))
      ensures remainLen == old(remainLen) - Min(old(remainLen), limit - old(out.dicPos))
      ensures out.dicPos - old(out.dicPos) == |out.hist| - |old(out.hist)|
    {
      hide AllProbs, Pow2, Copy, Word32;
      RepsKept();
      var len := remainLen;
      var rem := limit - out.dicPos;
      if rem < len {
        len := rem;
      }
      CountAhead(len);
      remainLen := remainLen - len;
      out.CopyRem(rep0, len);
    }

    /** The bytes of a copy that are still due. */
    ghost function Due(): nat
      reads this
    {
      if remainLen == MATCH_SPEC_LEN_START then 0 else remainLen
    }

    ghost function How(): Verdict
      reads this
    {
      if remainLen == MATCH_SPEC_LEN_START then EndMark else Fine
    }

    /** The copy under way, and that it goes where decoding from m0 goes; nothing is read meanwhile. */
    method CopyDue(limit: nat, ghost end: bool, ghost beyond: seq<Byte>, ghost m0: Mach, ghost room0: nat,
                   ghost now: Dec, ghost input: seq<Byte>)
      requires Valid() && Strict() && out.dicPos <= limit <= out.dic.Length && 0 < remainLen && now.rc.pos <= |input|
      requires Resumes(prop, m0, room0, end, MachAt(Z(), remainLen, now, input, beyond), limit - out.dicPos)
      modifies this`processedPos, this`checkDicSize, this`remainLen, out`dicPos, out`hist, out.dic
      ensures Valid() && Strict() && old(out.dicPos) <= out.dicPos <= limit && remainLen <= old(remainLen)
      ensures 0 < remainLen ==> out.dicPos == limit
      ensures out.dicPos - old(out.dicPos) == |out.hist| - |old(out.hist)|
      ensures Resumes(prop, m0, room0, end, MachAt(Z(), remainLen, now, input, beyond), limit - out.dicPos)
    {
      hide AllProbs, Read, LzOk, Resume, MachOk, MachAt, Copy, Valid, Resumes;
      ghost var z, remain, room := Z(), remainLen, limit - out.dicPos;
      RestHere(prop, m0, room0, end, z, remain, now, input, beyond, room);
      ghost var n := Min(remain, room);
      CopyRemaining(limit);
      assert remainLen == remain - n && limit - out.dicPos == room - n;
    }

    /** LzmaDec_WriteRem */
    method WriteRem(limit: nat, ghost end: bool, ghost beyond: seq<Byte>, ghost m0: Mach, ghost room0: nat)
      requires Reached(Due(), How(), limit, end, beyond, m0, room0) && Strict() && remainLen <= MATCH_SPEC_LEN_START
      modifies this`processedPos, this`checkDicSize, this`remainLen, out`dicPos, out`hist, out.dic
      ensures Reached(Due(), How(), limit, end, beyond, m0, room0) && Strict()
      ensures remainLen <= old(remainLen) && How() == old(How())
      ensures (0 < Due() ==> out.dicPos == limit) && old(out.dicPos) <= out.dicPos
      ensures old(remainLen) == 0 ==> out.hist == old(out.hist)
    {
      hide AllProbs, Read, Fetch, LzOk, Resume, MachOk, MachAt, BitReader.Now, Valid, Agrees, Resumes;
      if remainLen != 0 && remainLen < MATCH_SPEC_LEN_START {
        NowInside();
        AgreesIsResumes(prop, m0, room0, end, At(remainLen, beyond), limit - out.dicPos);
        CopyDue(limit, end, beyond, m0, room0, rd.Now(), rd.input);
        CtxOk();
        AgreesIsResumes(prop, m0, room0, end, At(remainLen, beyond), limit - out.dicPos);
      }
    }

    lemma NowInside()
      requires Valid() && Fetch(rd.Regs(), rd.input).Some?
      ensures rd.pos <= |rd.input| && rd.Now().rc.pos <= |rd.input|
    {
    }

    // ---------- Rounds of the loop, up to the size of the dictionary ----------

    /** A normalised decoder before a complete symbol. */
    ghost predicate Starting(limit: nat, end: bool)
      reads this, out, out.dic, rd, rd.probs
    {
      && Valid() && Strict() && out.dicPos <= limit <= out.dic.Length && remainLen == 0
      && rd.Can(Ctx(), IsMatchBit) && 0x100_0000 <= rd.range
      && (out.dicPos == limit ==> end && rd.code != 0 && Next().0.Match?)
    }

    /** A normalised decoder after a run of symbols and copies. */
    ghost predicate Landed(limit: nat, end: bool, beyond: seq<Byte>, m0: Mach, room0: nat)
      reads this, out, out.dic, rd, rd.probs
    {
      && Reached(Due(), How(), limit, end, beyond, m0, room0) && Strict() && 0x100_0000 <= rd.range
      && remainLen <= MATCH_SPEC_LEN_START && (0 < Due() ==> out.dicPos == limit)
    }

    /** kBadRepCode excludes exactly a repetition as the first symbol. */
    lemma FirstSymbol()
      requires Valid() && rd.Can(Ctx(), IsMatchBit) && 0x100_0000 <= rd.range
      requires out.hist == [] && rd.range == FULL_RANGE && rd.probs[..] == FreshProbs(prop)
      ensures BAD_REP_CODE <= rd.code <==> Next().0.Rep? || Next().0.ShortRep?
    {
      NextIsSymbol();
      assert Z() == LZ_START;
      hide Read, FreshProbs;
      FirstIsRep(prop, rd.Now(), rd.input, Next().0, Next().1);
    }

    lemma FreshAtStart(limit: nat, end: bool, beyond: seq<Byte>, m0: Mach, room0: nat)
      requires Reached(0, Fine, limit, end, beyond, m0, room0) && out.hist == [] && 0x100_0000 <= rd.range
      ensures rd.range == FULL_RANGE && rd.probs[..] == FreshProbs(prop)
    {
      hide Resume, FreshProbs;
      AgreesIsResumes(prop, m0, room0, end, At(0, beyond), limit - out.dicPos);
      assert MachOk(prop, At(0, beyond));
    }

    /** A repetition before the first byte is a data error. */
    lemma FirstRepFails(limit: nat, end: bool, beyond: seq<Byte>, m0: Mach, room0: nat)
      requires Starting(limit, end) && Reached(0, Fine, limit, end, beyond, m0, room0)
      requires out.hist == [] && BAD_REP_CODE <= rd.code
      ensures FailsAt(limit, m0, room0, end)
    {
      hide Resume, FreshProbs, Read, MachOk, MachAt, Agrees, AllProbs;
      FreshAtStart(limit, end, beyond, m0, room0);
      FirstSymbol();
      NextIsSymbol();
      AgreesIsResumes(prop, m0, room0, end, At(0, beyond), limit - out.dicPos);
      BadPacketStops(prop, Z(), rd.Now(), rd.input, beyond, Next().0, Next().1, limit - out.dicPos, end);
    }

    lemma StartingIsPoised(limit: nat, part: nat, end: bool, beyond: seq<Byte>, m0: Mach, room0: nat)
      requires Starting(limit, end) && Reached(0, Fine, limit, end, beyond, m0, room0)
      requires out.hist == [] ==> rd.code < BAD_REP_CODE
      requires out.dicPos <= part <= limit && (out.dicPos == part ==> part == limit)
      requires checkDicSize == 0 ==> |out.hist| + (part - out.dicPos) <= prop.dicSize
      ensures Poised(part, limit, end, beyond)
    {
      hide Resume, FreshProbs, Read, MachOk, MachAt, Agrees, AllProbs, BitReader.Can, BitReader.Rest;
      if out.hist == [] {
        FreshAtStart(limit, end, beyond, m0, room0);
        FirstSymbol();
      }
    }

    /** Notes that the history has reached the size of the dictionary. */
    method MarkFull(ghost limit: nat, ghost end: bool, ghost beyond: seq<Byte>, ghost m0: Mach, ghost room0: nat)
      requires Reached(Due(), How(), limit, end, beyond, m0, room0)
      modifies this`checkDicSize
      ensures Reached(Due(), How(), limit, end, beyond, m0, room0) && Strict()
    {
      hide AllProbs, Agrees, MachAt, LzOk, Fetch, Dictionary.Valid, BitReader.Valid, BitReader.Now;
      if checkDicSize == 0 {
        SmallPosition();
        if processedPos >= prop.dicSize {
          checkDicSize := prop.dicSize;
        }
      }
    }

    /** How far this round may go, or that the stream begins with a repetition. */
    method RoundLimit(limit: nat, ghost end: bool, ghost beyond: seq<Byte>, ghost m0: Mach, ghost room0: nat)
      returns (limit2: nat, ok: bool)
      requires Starting(limit, end) && Reached(0, Fine, limit, end, beyond, m0, room0)
      ensures if ok then Poised(limit2, limit, end, beyond) else FailsAt(limit, m0, room0, end)
    {
      hide AllProbs, Agrees, MachAt, LzOk, Fetch, Read, BitReader.Now, BitReader.Can, BitReader.Rest, Poised, Dictionary.Valid, BitReader.Valid, Resume;
      limit2 := limit;
      if checkDicSize == 0 {
        SmallPosition();
        var rem := prop.dicSize - processedPos;
        if limit - out.dicPos > rem {
          limit2 := out.dicPos + rem;
        }
        if processedPos == 0 && rd.code >= BAD_REP_CODE {
          FirstRepFails(limit, end, beyond, m0, room0);
          return limit2, false;
        }
      }
      StartingIsPoised(limit, limit2, end, beyond, m0, room0);
      ok := true;
    }

    /** These are the registers and probabilities. */
    ghost predicate NowIs(d: Dec)
      reads this, rd, rd.probs
    {
      Fetch(rd.Regs(), rd.input).Some? && rd.Now() == d
    }

    /** After the symbols of a round. */
    method EndRound(limit: nat, len: nat, endMark: bool, ghost part: nat, ghost end: bool, ghost beyond: seq<Byte>,
                    ghost m0: Mach, ghost room0: nat)
      requires Going(part, len, if endMark then EndMark else Fine, limit, end, beyond, m0, room0) && 0x100_0000 <= rd.range
      modifies this`processedPos, this`checkDicSize, this`remainLen, out`dicPos, out`hist, out.dic
      ensures Landed(limit, end, beyond, m0, room0) && How() == (if endMark then EndMark else Fine)
      ensures old(out.dicPos) <= out.dicPos
    {
      hide AllProbs, Agrees, MachAt, LzOk, Fetch, Read, BitReader.Now, Dictionary.Valid, BitReader.Valid, Resume;
      remainLen := if endMark then MATCH_SPEC_LEN_START else len;
      MarkFull(limit, end, beyond, m0, room0);
      WriteRem(limit, end, beyond, m0, room0);
    }

    /** One round: symbols until the dictionary is full or the output is, then the rest of the last copy. */
    method Round(limit: nat, bufLimit: nat, ghost end: bool, ghost beyond: seq<Byte>, ghost m0: Mach, ghost room0: nat)
      returns (ok: bool)
      requires Starting(limit, end) && Reached(0, Fine, limit, end, beyond, m0, room0)
      requires bufLimit <= rd.pos || bufLimit + LZMA_REQUIRED_INPUT_MAX <= |rd.input|
      modifies this`state, this`rep0, this`rep1, this`rep2, this`rep3, this`processedPos, this`checkDicSize, this`remainLen
      modifies out`dicPos, out`hist, out.dic, rd`range, rd`code, rd`pos, rd.probs
      ensures old(rd.pos) <= rd.pos
      ensures if ok then Landed(limit, end, beyond, m0, room0) else FailsAt(limit, m0, room0, end)
      ensures ok && bufLimit <= old(rd.pos) ==> NowIs(old(Next()).1)
      ensures ok && How() == Fine ==> old(out.dicPos) < out.dicPos
    {
      hide AllProbs, Agrees, MachAt, LzOk, Read, BitReader.Now, BitReader.Can, BitReader.Rest, Poised, Valid, Resume, MachOk, Landed, FailsAt;
      var limit2;
      limit2, ok := RoundLimit(limit, end, beyond, m0, room0);
      if !ok {
        return false;
      }
      var len, verdict := DecodeReal(limit2, bufLimit, limit, end, beyond, m0, room0);
      if verdict == BadData {
        return false;
      }
      EndRound(limit, len, verdict == EndMark, limit2, end, beyond, m0, room0);
    }

    lemma LandedStarts(limit: nat, end: bool, beyond: seq<Byte>, m0: Mach, room0: nat, bufLimit: nat)
      requires Landed(limit, end, beyond, m0, room0) && out.dicPos < limit && remainLen < MATCH_SPEC_LEN_START
      requires rd.pos < bufLimit && bufLimit + LZMA_REQUIRED_INPUT_MAX <= |rd.input|
      ensures Starting(limit, end) && Reached(0, Fine, limit, end, beyond, m0, room0)
    {
      hide Resume, Agrees, MachAt, MachOk, Fetch, BitReader.Now, Valid, BitReader.Can;
      AgreesIsResumes(prop, m0, room0, end, At(0, beyond), limit - out.dicPos);
      CanAgain(beyond, bufLimit);
    }

    /** LzmaDec_DecodeReal2 */
    method DecodeReal2(limit: nat, bufLimit: nat, ghost end: bool, ghost beyond: seq<Byte>, ghost m0: Mach, ghost room0: nat,
                       ghost d: Dec) returns (ok: bool)
      requires Starting(limit, end) && Reached(0, Fine, limit, end, beyond, m0, room0) && d == Next().1
      requires bufLimit <= rd.pos || bufLimit + LZMA_REQUIRED_INPUT_MAX <= |rd.input|
      modifies this`state, this`rep0, this`rep1, this`rep2, this`rep3, this`processedPos, this`checkDicSize, this`remainLen
      modifies out`dicPos, out`hist, out.dic, rd`range, rd`code, rd`pos, rd.probs
      ensures if ok then Landed(limit, end, beyond, m0, room0) else FailsAt(limit, m0, room0, end)
      ensures ok && bufLimit <= old(rd.pos) ==> NowIs(d)
      ensures ok && How() == Fine ==> old(out.dicPos) < out.dicPos
    {
      hide AllProbs, Read, BitReader.Rest, BitReader.Now, BitReader.Can, Valid, FailsAt, Reached, Landed, NowIs, Starting;
      ok := Round(limit, bufLimit, end, beyond, m0, room0);
      while ok && out.dicPos < limit && rd.pos < bufLimit && remainLen < MATCH_SPEC_LEN_START
        invariant if ok then Landed(limit, end, beyond, m0, room0) else FailsAt(limit, m0, room0, end)
        invariant old(rd.pos) <= rd.pos && (ok && How() == Fine ==> old(out.dicPos) < out.dicPos)
        invariant ok && bufLimit <= old(rd.pos) ==> NowIs(d)
        decreases ok && How() == Fine, limit - out.dicPos
      {
        LandedStarts(limit, end, beyond, m0, room0, bufLimit);
        ok := Round(limit, bufLimit, end, beyond, m0, room0);
      }
    }

    // ---------- Looking ahead ----------

    /** The normalised decoder as a machine with the input `pending`. */
    ghost function MachOf(pending: seq<Byte>): Mach
      reads this, out, rd, rd.probs
    {
      Mach(Z(), 0, rd.range, rd.code, rd.probs[..], pending)
    }

    lemma MachOfOk(pending: seq<Byte>)
      requires MachOk(prop, MachOf(pending))
      ensures DecOk(Ctx(), RegsOf(MachOf(pending))) && DecOk(Ctx(), Dec(Reader(rd.range, rd.code, 0), rd.probs[..]))
    {
      MachContext(prop, MachOf(pending));
    }

    /** The offset of the literal coder's probabilities, computed in the other way. */
    method DummyBase() returns (base: nat)
      requires Valid()
      ensures base == LITERAL + 0x300 * Ctx().lit
    {
      hide AllProbs, Valid, ContextOf, Pow2;
      base := LITERAL;
      CtxOk();
      if checkDicSize != 0 || processedPos != 0 {
        NotEmpty();
        RepsKept();
        var prev := out.Previous();
        PositionWord();
        IndexOfContext(prop, Z(), prev);
        base := base + 0x300 * (processedPos % Pow2(prop.lp) * Pow2(prop.lc) + prev / Pow2(8 - prop.lc));
      } else {
        StillEmpty();
      }
    }

    lemma PositionWord()
      requires Valid()
      ensures processedPos == Word32(|out.hist|)
    {
    }

    /** The literal of a look-ahead. */
    method DummyLiteral(t: Prober, ghost c: Context, ghost s: Parse) returns (res: Dummy)
      requires Valid() && c == Ctx() && t.Fits(c) && t.probs == rd.probs
      requires s == (if state < 7 then LitBit(1) else MatchedLitBit(1, 0x100, c.matchByte)) && Ok(s)
      modifies t`range, t`code, t`pos
      ensures res == Seen(old(t.Rest(c, s)))
    {
      hide Probe, AllProbs, Fetch, Prober.Rest, Prober.Fits, Valid, ContextOf;
      var base := DummyBase();
      var ok;
      ghost var b;
      if state < 7 {
        ok, b := t.Literal(c, base);
      } else {
        HasMatchByte();
        var matchByte := out.ByteAt(rep0);
        ok, b := t.MatchedLiteral(c, base, matchByte);
      }
      if ok {
        ok := t.Finish(c, Lit(b));
      }
      res := if ok then DummyLit else DummyError;
    }

    lemma NotEmpty()
      requires Valid() && (checkDicSize != 0 || processedPos != 0)
      ensures out.hist != [] && out.Valid()
    {
    }

    lemma StillEmpty()
      requires Valid() && checkDicSize == 0 && processedPos == 0
      ensures out.hist == [] && Ctx().lit == 0
    {
    }

    lemma HasMatchByte()
      requires Valid() && 7 <= state
      ensures out.Valid() && 1 <= rep0 <= out.dic.Length && rep0 <= |out.hist| && Ctx().matchByte == out.hist[|out.hist| - rep0]
    {
      MatchByteKept();
    }

    /** LzmaDec_TryDummy: whether `buf` holds the next symbol, and of which kind it is. */
    method TryDummy(buf: seq<Byte>) returns (res: Dummy)
      requires Valid() && MachOk(prop, MachOf(buf))
      ensures res == KindOf(Symbol(prop, MachOf(buf)))
    {
      hide Probe, AllProbs, Fetch, Prober.Rest, MachOk, Valid, ContextOf, Symbol;
      CtxOk();
      MachOfOk(buf);
      ghost var c := Ctx();
      var t := new Prober(rd.probs, rd.range, rd.code, buf);
      ProbesSymbol(t, buf);
      PosStateOf();
      var posState := processedPos % Pow2(prop.pb) * 16;
      var ok, bit := t.Next(c, IsMatchBit, IS_MATCH + posState + state);
      if !ok {
        return DummyError;
      }
      if bit == 0 {
        res := DummyLiteral(t, c, Step(c, IsMatchBit, 0));
      } else {
        res := t.MatchOrRep(c, state, posState);
      }
    }

    lemma PosStateOf()
      requires Valid()
      ensures 0 < Pow2(prop.pb) && processedPos % Pow2(prop.pb) == Ctx().posState && Ctx().state == state
    {
      LowBitsOfWord(|out.hist|, prop.pb);
    }

    /** A fresh look-ahead sees the symbol. */
    lemma ProbesSymbol(t: Prober, buf: seq<Byte>)
      requires MachOk(prop, MachOf(buf)) && t.probs == rd.probs && t.input == buf && t.Regs() == Reader(rd.range, rd.code, 0)
      ensures t.Fits(Ctx()) && Seen(t.Rest(Ctx(), IsMatchBit)) == KindOf(Symbol(prop, MachOf(buf)))
    {
      MachOfOk(buf);
      var d := RegsOf(MachOf(buf));
      ProbeIsRead(Ctx(), IsMatchBit, d, d.probs, buf);
    }

    // ---------- Decoding input that comes in pieces ----------

    /** The decoder between two calls, with the input `pending` still to come. */
    ghost function State(pending: seq<Byte>): Mach
      reads this, out, rd, rd.probs
    {
      Mach(Z(), Due(), rd.range, rd.code, rd.probs[..], pending)
    }

    /** tempBuf holds less than a symbol. */
    ghost predicate TempOk()
      reads this, out, rd, rd.probs
    {
      && |tempBuf| < LZMA_REQUIRED_INPUT_MAX
      && (tempBuf != [] ==> remainLen == 0 && MachOk(prop, MachOf(tempBuf)) && Symbol(prop, MachOf(tempBuf)).None?)
    }

    /** Ready for the next call. */
    ghost predicate Running()
      reads this, out, out.dic, rd, rd.probs
    {
      && Valid() && Strict() && 0x100_0000 <= rd.range && remainLen < MATCH_SPEC_LEN_START
      && MachOk(prop, State([])) && TempOk()
    }

    /** At the top of the loop of LzmaDec_DecodeToDic. */
    ghost predicate AtTop(limit: nat, end: bool, beyond: seq<Byte>, m0: Mach, room0: nat)
      reads this, out, out.dic, rd, rd.probs
    {
      && Landed(limit, end, beyond, m0, room0) && rd.input == [] && rd.pos == 0 && TempOk()
      && (remainLen == MATCH_SPEC_LEN_START ==> tempBuf == [])
    }

    /** The call ends as decoding from m0 does; `left` is the input that was not taken. */
    ghost predicate Ends(limit: nat, status: Status, left: seq<Byte>, m0: Mach, room0: nat, end: bool)
      reads this, out, out.dic, rd, rd.probs
    {
      Placed(limit, m0, room0) && Concludes(status, left, m0, room0, end)
    }

    ghost predicate Concludes(status: Status, left: seq<Byte>, m0: Mach, room0: nat, end: bool)
      reads this, out, out.dic, rd, rd.probs
    {
      && MachOk(prop, m0) && Resume(prop, m0, room0, end).1 == status && Resume(prop, m0, room0, end).0.z.hist == out.hist
      && (status in {NeedsInput, NotFinished, MaybeFinished} ==>
            Running() && Resume(prop, m0, room0, end).0 == State(tempBuf + left))
      && (status == NeedsInput ==> left == [])
      && (status == Finished ==>
            && remainLen == MATCH_SPEC_LEN_START && rd.code == 0 && tempBuf == []
            && Resume(prop, m0, room0, end).0 == State(left))
    }

    lemma StateOk(b: seq<Byte>, b': seq<Byte>)
      requires MachOk(prop, State(b))
      ensures MachOk(prop, State(b')) && (Due() == 0 ==> MachOf(b') == State(b'))
    {
    }

    /** At the top of the loop the decoder is the machine that decoding from m0 has come to. */
    lemma TopState(limit: nat, end: bool, beyond: seq<Byte>, m0: Mach, room0: nat)
      requires Landed(limit, end, beyond, m0, room0) && rd.input == [] && rd.pos == 0
      ensures Valid() && out.dicPos <= limit && Agrees(prop, m0, room0, end, State(beyond), limit - out.dicPos, How())
    {
      hide AllProbs, Agrees;
      assert At(Due(), beyond).pending == beyond;
    }

    lemma TopResumes(limit: nat, end: bool, beyond: seq<Byte>, m0: Mach, room0: nat)
      requires Landed(limit, end, beyond, m0, room0) && rd.input == [] && rd.pos == 0 && remainLen != MATCH_SPEC_LEN_START
      ensures out.dicPos <= limit && Resumes(prop, m0, room0, end, State(beyond), limit - out.dicPos)
    {
      hide AllProbs, Agrees, Resumes, Landed;
      TopState(limit, end, beyond, m0, room0);
      LandedHow(limit, end, beyond, m0, room0);
      AgreesIsResumes(prop, m0, room0, end, State(beyond), limit - out.dicPos);
    }

    lemma LandedHow(limit: nat, end: bool, beyond: seq<Byte>, m0: Mach, room0: nat)
      requires Landed(limit, end, beyond, m0, room0)
      ensures remainLen <= MATCH_SPEC_LEN_START && out.dicPos <= limit && (remainLen != MATCH_SPEC_LEN_START ==> How() == Fine && Due() == remainLen)
      ensures 0 < Due() ==> out.dicPos == limit
    {
    }

    /** The input left in a buffer is input behind an empty one. */
    method Unload(ghost limit: nat, ghost end: bool, ghost beyond: seq<Byte>, ghost m0: Mach, ghost room0: nat) returns (taken: nat)
      requires Landed(limit, end, beyond, m0, room0)
      modifies rd`input, rd`pos
      ensures taken == old(rd.pos) <= |old(rd.input)| && rd.input == [] && rd.pos == 0
      ensures Landed(limit, end, old(rd.input)[taken..] + beyond, m0, room0)
    {
      hide AllProbs, Agrees, MachAt, LzOk, Dictionary.Valid;
      taken := rd.pos;
      ghost var z, now, input := Z(), rd.Now(), rd.input;
      LzmaProgress.Unload(z, Due(), now, input, beyond);
      rd.Load([]);
    }

    /** A complete symbol in a buffer may be decoded from there. */
    method LoadBuffer(b: seq<Byte>, ghost limit: nat, ghost end: bool, ghost beyond: seq<Byte>, ghost m0: Mach, ghost room0: nat)
      requires Landed(limit, end, b + beyond, m0, room0) && rd.input == [] && rd.pos == 0 && remainLen == 0
      requires MachOk(prop, MachOf(b)) && Symbol(prop, MachOf(b)).Some?
      requires out.dicPos == limit ==> end && rd.code != 0 && Symbol(prop, MachOf(b)).value.0.Match?
      modifies rd`input, rd`pos
      ensures rd.input == b && rd.pos == 0
      ensures Starting(limit, end) && Reached(0, Fine, limit, end, beyond, m0, room0)
      ensures prop.Ok() && rd.Can(Ctx(), IsMatchBit) && MachOk(prop, MachOf(b)) && Some(Next()) == Symbol(prop, MachOf(b))
    {
      hide AllProbs, Agrees, MachOk, LzOk, Dictionary.Valid, Read;
      MachOfOk(b);
      assert b[0..] + beyond == [][0..] + (b + beyond);
      rd.Load(b);
    }

    /** The input `b` and what is behind it, where the input stops short of a symbol. */
    lemma Starved(limit: nat, end: bool, b: seq<Byte>, m0: Mach, room0: nat)
      requires Landed(limit, end, b, m0, room0) && rd.input == [] && rd.pos == 0 && remainLen == 0
      requires MachOk(prop, MachOf(b)) && Symbol(prop, MachOf(b)).None?
      requires out.dicPos == limit ==> end && rd.code != 0
      ensures Valid() && Strict() && 0x100_0000 <= rd.range && MachOk(prop, State([]))
      ensures MachOk(prop, m0) && Resume(prop, m0, room0, end) == (State(b), NeedsInput)
    {
      hide AllProbs, Resume, MachOk, LzOk, Symbol;
      TopResumes(limit, end, b, m0, room0);
      StateOk(b, []);
      assert State(b) == MachOf(b);
      StarvedStops(prop, State(b), limit - out.dicPos, end);
    }

    /** Anything but a match where an end marker is asked for. */
    lemma WrongSymbol(limit: nat, b: seq<Byte>, beyond: seq<Byte>, m0: Mach, room0: nat)
      requires Landed(limit, true, b + beyond, m0, room0) && rd.input == [] && rd.pos == 0 && remainLen == 0
      requires MachOk(prop, MachOf(b)) && Symbol(prop, MachOf(b)).Some? && !Symbol(prop, MachOf(b)).value.0.Match?
      requires out.dicPos == limit && rd.code != 0
      ensures MachOk(prop, m0) && Resume(prop, m0, room0, true) == (State(b + beyond), NotAtEnd)
    {
      hide AllProbs, Resume, MachOk, LzOk, Symbol;
      TopResumes(limit, true, b + beyond, m0, room0);
      SymbolMore(prop, MachOf(b), beyond);
      assert State(b + beyond) == More(MachOf(b), beyond);
      WrongSymbolStops(prop, State(b + beyond));
    }

    /** Normalised registers and a known future: machines with other input are well formed too. */
    lemma TopOk(limit: nat, end: bool, beyond: seq<Byte>, m0: Mach, room0: nat, b: seq<Byte>)
      requires Landed(limit, end, beyond, m0, room0) && rd.input == [] && rd.pos == 0 && remainLen == 0
      ensures Valid() && MachOk(prop, MachOf(b)) && MachOk(prop, m0)
      ensures LZMA_REQUIRED_INPUT_MAX <= |b| ==> Symbol(prop, MachOf(b)).Some?
    {
      hide AllProbs, Resume, MachOk, LzOk, Symbol, Valid;
      LandedValid(limit, end, beyond, m0, room0);
      TopResumes(limit, end, beyond, m0, room0);
      StateOk(beyond, b);
      if LZMA_REQUIRED_INPUT_MAX <= |b| {
        TwentyBytesSuffice(prop, MachOf(b));
      }
    }

    lemma LandedValid(limit: nat, end: bool, beyond: seq<Byte>, m0: Mach, room0: nat)
      requires Landed(limit, end, beyond, m0, room0)
      ensures Valid() && Strict() && Placed(limit, m0, room0)
    {
    }

    /** Keeps what is there of a symbol for the next call. */
    method KeepForLater(b: seq<Byte>, ghost limit: nat, ghost end: bool, ghost m0: Mach, ghost room0: nat)
      requires Landed(limit, end, b, m0, room0) && rd.input == [] && rd.pos == 0 && remainLen == 0
      requires MachOk(prop, MachOf(b)) && Symbol(prop, MachOf(b)).None?
      requires out.dicPos == limit ==> end && rd.code != 0
      modifies this`tempBuf
      ensures tempBuf == b && Ends(limit, NeedsInput, [], m0, room0, end)
    {
      hide AllProbs, Resume, MachOk, LzOk, Symbol, Landed, Dictionary.Valid, BitReader.Valid;
      TopOk(limit, end, b, m0, room0, b);
      LandedValid(limit, end, b, m0, room0);
      Starved(limit, end, b, m0, room0);
      tempBuf := b;
      assert b + [] == b;
    }

    lemma WrongSymbolEnds(limit: nat, b: seq<Byte>, beyond: seq<Byte>, left: seq<Byte>, m0: Mach, room0: nat)
      requires Landed(limit, true, b + beyond, m0, room0) && rd.input == [] && rd.pos == 0 && remainLen == 0
      requires MachOk(prop, MachOf(b)) && Symbol(prop, MachOf(b)).Some? && !Symbol(prop, MachOf(b)).value.0.Match?
      requires out.dicPos == limit && rd.code != 0
      ensures Ends(limit, NotAtEnd, left, m0, room0, true)
    {
      hide AllProbs, Resume, MachOk, LzOk, Symbol, Valid, Landed;
      LandedValid(limit, true, b + beyond, m0, room0);
      WrongSymbol(limit, b, beyond, m0, room0);
    }

    lemma FailsEnds(limit: nat, left: seq<Byte>, m0: Mach, room0: nat, end: bool)
      requires FailsAt(limit, m0, room0, end)
      ensures Ends(limit, DataError, left, m0, room0, end)
    {
    }

    /** A turn of the loop that decodes from the caller's input; a status when the call ends there. */
    method FromSource(limit: nat, src: seq<Byte>, from: nat, end: bool, checkEndMarkNow: bool, ghost m0: Mach, ghost room0: nat)
      returns (next: nat, status: Option<Status>)
      requires from <= |src| && AtTop(limit, end, src[from..], m0, room0) && tempBuf == [] && remainLen == 0
      requires checkEndMarkNow <==> out.dicPos == limit
      requires checkEndMarkNow ==> end && rd.code != 0
      modifies this, out`dicPos, out`hist, out.dic, rd, rd.probs
      ensures next <= |src|
      ensures status.Some? ==> Ends(limit, status.value, src[next..], m0, room0, end)
      ensures status.None? ==> tempBuf == [] && AtTop(limit, end, src[next..], m0, room0) && (How() == Fine ==> old(out.dicPos) < out.dicPos)
    {
      hide AllProbs, Resume, MachOk, LzOk, Symbol, Valid, Landed, Reached, Starting, FailsAt, Ends;
      var b := src[from..];
      assert b + [] == b;
      TopOk(limit, end, b, m0, room0, b);
      var bufLimit := 0;
      if |b| < LZMA_REQUIRED_INPUT_MAX || checkEndMarkNow {
        var dummyRes := TryDummy(b);
        if dummyRes == DummyError {
          KeepForLater(b, limit, end, m0, room0);
          assert src[|src|..] == [];
          return |src|, Some(NeedsInput);
        }
        if checkEndMarkNow && dummyRes != DummyMatch {
          WrongSymbolEnds(limit, b, [], src[from..], m0, room0);
          return from, Some(NotAtEnd);
        }
      } else {
        bufLimit := |b| - LZMA_REQUIRED_INPUT_MAX;
      }
      LoadBuffer(b, limit, end, [], m0, room0);
      var ok := DecodeReal2(limit, bufLimit, end, [], m0, room0, Next().1);
      if !ok {
        FailsEnds(limit, src[from..], m0, room0, end);
        return from, Some(DataError);
      }
      var processed := Unload(limit, end, [], m0, room0);
      next := from + processed;
      assert b[processed..] + [] == src[next..];
      status := None;
    }

    /** A symbol that its first n bytes do not hold takes more than those. */
    lemma NeedsMoreThan(b: seq<Byte>, n: nat)
      requires n <= |b| && MachOk(prop, MachOf(b)) && Symbol(prop, MachOf(b)).Some?
      requires MachOk(prop, MachOf(b[..n])) && Symbol(prop, MachOf(b[..n])).None?
      ensures n < Symbol(prop, MachOf(b)).value.1.rc.pos
    {
      hide AllProbs, Read, LzOk, FreshProbs;
      MachOfOk(b);
      if Symbol(prop, MachOf(b)).value.1.rc.pos <= n {
        ReadFromPrefix(Ctx(), IsMatchBit, RegsOf(MachOf(b)), b, n);
      }
    }

    method SetTemp(b: seq<Byte>, ghost limit: nat, ghost end: bool, ghost beyond: seq<Byte>, ghost m0: Mach, ghost room0: nat)
      requires Landed(limit, end, beyond, m0, room0)
      modifies this`tempBuf
      ensures tempBuf == b && Landed(limit, end, beyond, m0, room0)
    {
      hide AllProbs, Agrees, MachAt, LzOk, Dictionary.Valid, Fetch;
      tempBuf := b;
    }

    method ClearTemp(ghost limit: nat, ghost end: bool, ghost beyond: seq<Byte>, ghost m0: Mach, ghost room0: nat)
      requires Landed(limit, end, beyond, m0, room0) && rd.input == [] && rd.pos == 0
      modifies this`tempBuf
      ensures tempBuf == [] && AtTop(limit, end, beyond, m0, room0)
    {
      hide Landed, MachOk, Symbol;
      SetTemp([], limit, end, beyond, m0, room0);
    }

    /** After one symbol from normalised registers, the position is where the symbol ends. */
    lemma PositionIs(d: Dec)
      requires NowIs(d) && 0x100_0000 <= rd.range
      ensures rd.pos == d.rc.pos
    {
    }

    lemma LandedRange(limit: nat, end: bool, beyond: seq<Byte>, m0: Mach, room0: nat)
      requires Landed(limit, end, beyond, m0, room0)
      ensures 0x100_0000 <= rd.range && rd.pos <= |rd.input|
    {
    }

    /** Fills tempBuf up with the caller's input. */
    method FillTemp(src: seq<Byte>, from: nat, ghost limit: nat, ghost end: bool, ghost m0: Mach, ghost room0: nat)
      returns (lookAhead: nat)
      requires from <= |src| && Landed(limit, end, tempBuf + src[from..], m0, room0) && |tempBuf| < LZMA_REQUIRED_INPUT_MAX
      modifies this`tempBuf
      ensures lookAhead <= |src| - from && tempBuf == old(tempBuf) + src[from..from + lookAhead]
      ensures |tempBuf| < LZMA_REQUIRED_INPUT_MAX ==> src[from + lookAhead..] == []
      ensures Landed(limit, end, tempBuf + src[from + lookAhead..], m0, room0)
    {
      hide AllProbs, Landed;
      var b := tempBuf;
      lookAhead := 0;
      while |b| < LZMA_REQUIRED_INPUT_MAX && from + lookAhead < |src|
        invariant lookAhead <= |src| - from && b == tempBuf + src[from..from + lookAhead] && |b| <= LZMA_REQUIRED_INPUT_MAX
      {
        b := b + [src[from + lookAhead]];
        lookAhead := lookAhead + 1;
      }
      assert tempBuf + src[from..] == b + src[from + lookAhead..];
      SetTemp(b, limit, end, b + src[from + lookAhead..], m0, room0);
    }

    /** Whether tempBuf holds a symbol that may be taken. */
    method ProbeTemp(limit: nat, end: bool, checkEndMarkNow: bool, ghost behind: seq<Byte>, ghost left: seq<Byte>,
                     ghost m0: Mach, ghost room0: nat) returns (status: Option<Status>)
      requires Landed(limit, end, tempBuf + behind, m0, room0) && rd.input == [] && rd.pos == 0 && remainLen == 0
      requires (checkEndMarkNow <==> out.dicPos == limit) && (checkEndMarkNow ==> end && rd.code != 0)
      requires |tempBuf| < LZMA_REQUIRED_INPUT_MAX ==> behind == []
      modifies this`tempBuf
      ensures tempBuf == old(tempBuf) && status in {None, Some(NeedsInput), Some(NotAtEnd)}
      ensures status == Some(NeedsInput) ==> Ends(limit, NeedsInput, [], m0, room0, end) && behind == []
      ensures status == Some(NotAtEnd) ==> Ends(limit, NotAtEnd, left, m0, room0, end)
      ensures status == None ==> && Landed(limit, end, tempBuf + behind, m0, room0)
                                 && MachOk(prop, MachOf(tempBuf)) && Symbol(prop, MachOf(tempBuf)).Some?
                                 && (checkEndMarkNow ==> Symbol(prop, MachOf(tempBuf)).value.0.Match?)
    {
      hide AllProbs, Resume, MachOk, LzOk, Symbol, Valid, Landed, Ends;
      TopOk(limit, end, tempBuf + behind, m0, room0, tempBuf);
      status := None;
      if |tempBuf| < LZMA_REQUIRED_INPUT_MAX || checkEndMarkNow {
        var dummyRes := TryDummy(tempBuf);
        if dummyRes == DummyError {
          assert tempBuf + [] == tempBuf;
          KeepForLater(tempBuf, limit, end, m0, room0);
          return Some(NeedsInput);
        }
        if checkEndMarkNow && dummyRes != DummyMatch {
          WrongSymbolEnds(limit, tempBuf, behind, left, m0, room0);
          return Some(NotAtEnd);
        }
      }
    }

    lemma TempParts(limit: nat, end: bool, beyond: seq<Byte>, m0: Mach, room0: nat)
      requires AtTop(limit, end, beyond, m0, room0) && tempBuf != [] && remainLen == 0
      ensures Landed(limit, end, beyond, m0, room0) && rd.input == [] && rd.pos == 0 && |tempBuf| < LZMA_REQUIRED_INPUT_MAX
      ensures MachOk(prop, MachOf(tempBuf)) && Symbol(prop, MachOf(tempBuf)).None?
    {
      hide Landed, MachOk, Symbol;
    }

    /** The symbol that tempBuf holds, and what the caller's input has given to it. The two internal errors of the
        source cannot happen: the symbol takes more than was there before, and not more than there is now. */
    method TakeFromTemp(limit: nat, ghost src: seq<Byte>, from: nat, lookAhead: nat, ghost was: seq<Byte>, ghost end: bool, ghost m0: Mach, ghost room0: nat)
      returns (next: nat, ok: bool)
      requires from + lookAhead <= |src| && tempBuf == was + src[from..from + lookAhead]
      requires Landed(limit, end, tempBuf + src[from + lookAhead..], m0, room0) && rd.input == [] && rd.pos == 0 && remainLen == 0
      requires MachOk(prop, MachOf(tempBuf)) && Symbol(prop, MachOf(tempBuf)).Some?
      requires MachOk(prop, MachOf(was)) && Symbol(prop, MachOf(was)).None?
      requires out.dicPos == limit ==> end && rd.code != 0 && Symbol(prop, MachOf(tempBuf)).value.0.Match?
      modifies this, out`dicPos, out`hist, out.dic, rd, rd.probs
      ensures next <= |src|
      ensures !ok ==> forall left :: Ends(limit, DataError, left, m0, room0, end)
      ensures ok ==> tempBuf == [] && AtTop(limit, end, src[next..], m0, room0) && (How() == Fine ==> old(out.dicPos) < out.dicPos)
    {
      hide AllProbs, Resume, MachOk, LzOk, Symbol, Valid, Landed, Reached, Starting, FailsAt, Ends, NowIs, TempOk, AtTop;
      ghost var behind := src[from + lookAhead..];
      next := from;
      var b := tempBuf;
      assert b[..|was|] == was;
      NeedsMoreThan(b, |was|);
      LoadBuffer(b, limit, end, behind, m0, room0);
      var kkk;
      ok, kkk := DecodeLoaded(limit, end, behind, m0, room0, Next().1);
      if ok {
        var rem := |b|;
        if rem < kkk {
          assert false;
        }
        rem := rem - kkk;
        if lookAhead < rem {
          assert false;
        }
        next := from + (lookAhead - rem);
        Remainder(was, src, from, lookAhead, next, b, kkk);
        ClearTemp(limit, end, src[next..], m0, room0);
      }
    }

    /** A turn of the loop that decodes from tempBuf, filled up with the caller's input. */
    method FromTemp(limit: nat, src: seq<Byte>, from: nat, end: bool, checkEndMarkNow: bool, ghost m0: Mach, ghost room0: nat)
      returns (next: nat, status: Option<Status>)
      requires from <= |src| && AtTop(limit, end, tempBuf + src[from..], m0, room0) && tempBuf != [] && remainLen == 0
      requires checkEndMarkNow <==> out.dicPos == limit
      requires checkEndMarkNow ==> end && rd.code != 0
      modifies this, out`dicPos, out`hist, out.dic, rd, rd.probs
      ensures next <= |src|
      ensures status.Some? ==> Ends(limit, status.value, src[next..], m0, room0, end)
      ensures status.None? ==> tempBuf == [] && AtTop(limit, end, src[next..], m0, room0) && (How() == Fine ==> old(out.dicPos) < out.dicPos)
    {
      hide AllProbs, Resume, MachOk, LzOk, Symbol, Valid, Landed, Reached, Starting, FailsAt, Ends, NowIs, TempOk, AtTop;
      ghost var was := tempBuf;
      TempParts(limit, end, tempBuf + src[from..], m0, room0);
      var lookAhead := FillTemp(src, from, limit, end, m0, room0);
      status := ProbeTemp(limit, end, checkEndMarkNow, src[from + lookAhead..], src[from..], m0, room0);
      if status.Some? {
        return if status == Some(NeedsInput) then from + lookAhead else from, status;
      }
      var ok;
      next, ok := TakeFromTemp(limit, src, from, lookAhead, was, end, m0, room0);
      if !ok {
        status := Some(DataError);
      }
    }

    /** Decodes one symbol from a buffer, and says how much of the buffer it took. */
    method DecodeLoaded(limit: nat, ghost end: bool, ghost beyond: seq<Byte>, ghost m0: Mach, ghost room0: nat, ghost d: Dec)
      returns (ok: bool, taken: nat)
      requires Starting(limit, end) && Reached(0, Fine, limit, end, beyond, m0, room0) && d == Next().1 && rd.pos == 0
      modifies this`state, this`rep0, this`rep1, this`rep2, this`rep3, this`processedPos, this`checkDicSize, this`remainLen
      modifies out`dicPos, out`hist, out.dic, rd, rd.probs
      ensures !ok ==> forall left :: Ends(limit, DataError, left, m0, room0, end)
      ensures ok ==> && taken == d.rc.pos <= |old(rd.input)| && rd.input == [] && rd.pos == 0
                     && Landed(limit, end, old(rd.input)[taken..] + beyond, m0, room0)
                     && (How() == Fine ==> old(out.dicPos) < out.dicPos)
    {
      hide AllProbs, Resume, MachOk, LzOk, Symbol, Valid, Landed, Reached, Starting, FailsAt, Ends, NowIs;
      taken := 0;
      ok := DecodeReal2(limit, 0, end, beyond, m0, room0, d);
      if ok {
        LandedRange(limit, end, beyond, m0, room0);
        PositionIs(d);
        taken := Unload(limit, end, beyond, m0, room0);
      } else {
        forall left: seq<Byte>
          ensures Ends(limit, DataError, left, m0, room0, end)
        {
          FailsEnds(limit, left, m0, room0, end);
        }
      }
    }

    /** The rest of the last copy, at the start of a call. */
    method FirstRem(limit: nat, ghost beyond: seq<Byte>, ghost end: bool)
      requires Running() && out.dicPos <= limit <= out.dic.Length
      modifies this`processedPos, this`checkDicSize, this`remainLen, out`dicPos, out`hist, out.dic, rd`input, rd`pos
      ensures Landed(limit, end, beyond, old(State(beyond)), limit - old(out.dicPos)) && rd.input == [] && rd.pos == 0
      ensures remainLen < MATCH_SPEC_LEN_START && (old(remainLen) == 0 ==> remainLen == 0 && out.hist == old(out.hist))
    {
      hide AllProbs, Resume, LzOk, Symbol, Valid, Fetch, MachOk, Reached, Landed, Running;
      ghost var m0, room0 := State(beyond), limit - out.dicPos;
      LoadNothing();
      AtStart(limit, end, beyond);
      WriteRem(limit, end, beyond, m0, room0);
      WriteRemRange(limit, end, beyond, m0, room0);
    }

    method StartCall(limit: nat, ghost src: seq<Byte>, ghost end: bool)
      requires Running() && out.dicPos <= limit <= out.dic.Length
      modifies this`processedPos, this`checkDicSize, this`remainLen, out`dicPos, out`hist, out.dic, rd`input, rd`pos
      ensures AtTop(limit, end, tempBuf + src, old(State(tempBuf + src)), limit - old(out.dicPos))
      ensures remainLen < MATCH_SPEC_LEN_START
    {
      hide AllProbs, Resume, LzOk, Symbol, Valid, MachOk, Landed;
      FirstRem(limit, tempBuf + src, end);
      assert tempBuf != [] ==> MachOf(tempBuf) == old(MachOf(tempBuf));
    }

    lemma WriteRemRange(limit: nat, end: bool, beyond: seq<Byte>, m0: Mach, room0: nat)
      requires Reached(Due(), How(), limit, end, beyond, m0, room0) && Strict() && 0x100_0000 <= rd.range
      requires remainLen <= MATCH_SPEC_LEN_START && (0 < Due() ==> out.dicPos == limit)
      ensures Landed(limit, end, beyond, m0, room0)
    {
    }

    /** No buffer is in use at the start of a call. */
    method LoadNothing()
      requires Running()
      modifies rd`input, rd`pos
      ensures Running() && rd.input == [] && rd.pos == 0
    {
      hide AllProbs, Resume, LzOk, Symbol, Dictionary.Valid, Fetch, MachOk;
      rd.Load([]);
    }

    /** A call starts at the machine it decodes from. */
    lemma AtStart(limit: nat, end: bool, beyond: seq<Byte>)
      requires Running() && rd.input == [] && rd.pos == 0 && out.dicPos <= limit <= out.dic.Length
      ensures Reached(Due(), How(), limit, end, beyond, State(beyond), limit - out.dicPos)
      ensures Strict() && 0x100_0000 <= rd.range && remainLen < MATCH_SPEC_LEN_START
    {
      hide AllProbs, Resume, LzOk, MachOk, Dictionary.Valid, Symbol;
      StateOk([], beyond);
      assert At(Due(), beyond).pending == beyond;
      AgreesIsResumes(prop, State(beyond), limit - out.dicPos, end, At(Due(), beyond), limit - out.dicPos);
    }

    /** Reasons to stop before a symbol when the output is full. */
    lemma FullEnds(limit: nat, end: bool, left: seq<Byte>, m0: Mach, room0: nat)
      requires AtTop(limit, end, tempBuf + left, m0, room0) && remainLen != MATCH_SPEC_LEN_START && out.dicPos == limit
      ensures remainLen == 0 && rd.code == 0 ==> Ends(limit, MaybeFinished, left, m0, room0, end)
      ensures !(remainLen == 0 && rd.code == 0) && !end ==> Ends(limit, NotFinished, left, m0, room0, end)
      ensures remainLen != 0 && end ==> Ends(limit, NotAtEnd, left, m0, room0, end)
    {
      hide AllProbs, Resume, LzOk, Symbol, Valid, Landed, MachOk;
      LandedValid(limit, end, tempBuf + left, m0, room0);
      LandedRange(limit, end, tempBuf + left, m0, room0);
      LandedHow(limit, end, tempBuf + left, m0, room0);
      TopResumes(limit, end, tempBuf + left, m0, room0);
      StateOk(tempBuf + left, []);
      FullStops(prop, State(tempBuf + left), end);
    }

    lemma MarkEnds(limit: nat, end: bool, left: seq<Byte>, m0: Mach, room0: nat)
      requires AtTop(limit, end, left, m0, room0) && remainLen == MATCH_SPEC_LEN_START
      ensures Ends(limit, if rd.code == 0 then Finished else DataError, left, m0, room0, end)
    {
      hide AllProbs, Resume, LzOk, Symbol, Valid, Landed, MachOk;
      LandedValid(limit, end, left, m0, room0);
      TopState(limit, end, left, m0, room0);
      assert How() == EndMark && Due() == 0;
    }

    /** LzmaDec_DecodeToDic on a decoder that is past the header: it is Resume. */
    method DecodePieces(limit: nat, src: seq<Byte>, end: bool) returns (status: Status, taken: nat)
      requires Running() && out.dicPos <= limit <= out.dic.Length
      modifies this, out`dicPos, out`hist, out.dic, rd, rd.probs
      ensures taken <= |src|
      ensures Ends(limit, status, src[taken..], old(State(tempBuf + src)), limit - old(out.dicPos), end)
    {
      hide AllProbs, Resume, LzOk, Symbol, Valid, Landed, MachOk, Ends, Running;
      ghost var m0, room0 := State(tempBuf + src), limit - out.dicPos;
      StartCall(limit, src, end);
      taken := 0;
      assert src[0..] == src;
      while remainLen != MATCH_SPEC_LEN_START
        invariant taken <= |src| && AtTop(limit, end, tempBuf + src[taken..], m0, room0)
        decreases remainLen != MATCH_SPEC_LEN_START, limit - out.dicPos
      {
        var checkEndMarkNow := false;
        LandedHow(limit, end, tempBuf + src[taken..], m0, room0);
        if out.dicPos >= limit {
          FullEnds(limit, end, src[taken..], m0, room0);
          if remainLen == 0 && rd.code == 0 {
            return MaybeFinished, taken;
          }
          if !end {
            return NotFinished, taken;
          }
          if remainLen != 0 {
            return NotAtEnd, taken;
          }
          checkEndMarkNow := true;
        }
        var ended;
        if tempBuf == [] {
          assert tempBuf + src[taken..] == src[taken..];
          taken, ended := FromSource(limit, src, taken, end, checkEndMarkNow, m0, room0);
        } else {
          taken, ended := FromTemp(limit, src, taken, end, checkEndMarkNow, m0, room0);
        }
        if ended.Some? {
          return ended.value, taken;
        }
        assert tempBuf + src[taken..] == src[taken..];
      }
      assert tempBuf + src[taken..] == src[taken..];
      MarkEnds(limit, end, src[taken..], m0, room0);
      status := if rd.code != 0 then DataError else Finished;
    }

    // ---------- The header of a stream ----------

    /** All that stays when everything else is forgotten. */
    ghost predicate Built() {
      prop.Ok() && (out.dic as object) != rd.probs && rd.probs.Length == LITERAL + 0x300 * prop.LitCoders()
    }

    /** Waiting for the five bytes of the range coder; `remainLen` says whether state and probabilities start anew. */
    ghost predicate Opening()
      reads this, out, out.dic, rd, rd.probs
    {
      && Built() && out.Valid() && processedPos == Word32(|out.hist|) && Check() && Keeps() && Strict()
      && remainLen in {MATCH_SPEC_LEN_START + 1, MATCH_SPEC_LEN_START + 2}
      && |tempBuf| < 5 && (tempBuf != [] ==> tempBuf[0] == 0)
      && (remainLen == MATCH_SPEC_LEN_START + 1 ==>
            AllProbs(rd.probs[..]) && LzOk(prop, Z()) && (out.hist == [] ==> rd.probs[..] == FreshProbs(prop)))
    }

    /** The machine that the header `head` opens. */
    ghost function Opened(head: seq<Byte>): Mach
      reads this, out, rd, rd.probs
      requires 5 <= |head|
    {
      var anew := remainLen == MATCH_SPEC_LEN_START + 2;
      Mach(if anew then Lz(0, Reps(1, 1, 1, 1), out.hist) else Z(), 0, FULL_RANGE, Num(head[1..5]),
           if anew then FreshProbs(prop) else rd.probs[..], head[5..])
    }

    /** What a new stream leaves alone is in order. */
    ghost predicate Carries(initState: bool)
      reads this, out, out.dic, rd, rd.probs
    {
      && out.Valid() && processedPos == Word32(|out.hist|) && Check() && Keeps() && Strict()
      && (!initState ==> AllProbs(rd.probs[..]) && LzOk(prop, Z()) && (out.hist == [] ==> rd.probs[..] == FreshProbs(prop)))
    }

    /** LzmaDec_InitDicAndState: a new stream, which may go on with the dictionary and with the state of the last one. */
    method InitDicAndState(initDic: bool, initState: bool)
      requires Built() && out.dicPos <= out.dic.Length && (!initDic ==> Carries(initState))
      modifies this`processedPos, this`checkDicSize, this`remainLen, this`tempBuf, out`hist
      ensures Opening() && tempBuf == [] && out.hist == (if initDic then [] else old(out.hist))
      ensures remainLen == MATCH_SPEC_LEN_START + if initDic || initState then 2 else 1
    {
      hide LzOk, AllProbs, FreshProbs;
      remainLen, tempBuf := MATCH_SPEC_LEN_START + 1, [];
      if initDic {
        processedPos, checkDicSize := 0, 0;
        out.Forget();
        remainLen := MATCH_SPEC_LEN_START + 2;
      }
      if initState {
        remainLen := MATCH_SPEC_LEN_START + 2;
      }
    }

    /** A stream that has been decoded, or is being decoded, can be followed by another one that goes on from it. */
    lemma RunningCarries(initState: bool)
      requires Running() || (Valid() && Strict() && MachOk(prop, State([])))
      ensures Built() && out.dicPos <= out.dic.Length && Carries(initState)
    {
      hide Symbol, LzOk, AllProbs, FreshProbs;
    }

    lemma NewIsBuilt()
      requires Valid()
      ensures Built()
    {
    }

    /** LzmaDec_Init */
    method Init()
      requires Built()
      modifies this`processedPos, this`checkDicSize, this`remainLen, this`tempBuf, out`dicPos, out`hist
      ensures Opening() && tempBuf == [] && out.hist == [] && out.dicPos == 0 && remainLen == MATCH_SPEC_LEN_START + 2
    {
      out.Reset();
      InitDicAndState(true, true);
    }

    /** Takes bytes for the header as long as it is short of five. */
    method FillHeader(src: seq<Byte>) returns (taken: nat)
      requires |tempBuf| < 5
      modifies this`tempBuf
      ensures taken <= |src| && tempBuf == old(tempBuf) + src[..taken] && |tempBuf| <= 5
      ensures |tempBuf| < 5 ==> taken == |src|
    {
      taken := 0;
      while taken < |src| && |tempBuf| < 5
        invariant taken <= |src| && tempBuf == old(tempBuf) + src[..taken] && |tempBuf| <= 5
      {
        tempBuf := tempBuf + [src[taken]];
        taken := taken + 1;
      }
    }

    /** The registers, and if need be the state and the probabilities, from a complete header. */
    method StartStream(ghost head: seq<Byte>)
      requires Built() && out.Valid() && processedPos == Word32(|out.hist|) && Check() && Keeps() && Strict()
      requires remainLen in {MATCH_SPEC_LEN_START + 1, MATCH_SPEC_LEN_START + 2} && |tempBuf| == 5 && tempBuf <= head
      requires remainLen == MATCH_SPEC_LEN_START + 1 ==>
                 AllProbs(rd.probs[..]) && LzOk(prop, Z()) && (out.hist == [] ==> rd.probs[..] == FreshProbs(prop))
      modifies this`state, this`rep0, this`rep1, this`rep2, this`rep3, this`remainLen, this`tempBuf
      modifies rd`range, rd`code, rd`input, rd`pos, rd.probs
      ensures Running() && tempBuf == [] && State(head[5..]) == old(Opened(head))
    {
      hide Symbol, Dictionary.Valid, MachOk, AllProbs, LzOk, FreshProbs, Word32, Num, Props.Ok, Props.LitCoders;
      ResetOk(prop, out.hist);
      NumOfFour(tempBuf[1..5]);
      assert head[1..5] == tempBuf[1..5];
      rd.Open(0x100_0000 * (tempBuf[1] as int) + 0x1_0000 * (tempBuf[2] as int) + 256 * (tempBuf[3] as int) + tempBuf[4]);
      tempBuf := [];
      if remainLen > MATCH_SPEC_LEN_START + 1 {
        StartState();
      }
      remainLen := 0;
      StartedOk(prop, Z(), rd.code, rd.probs[..]);
    }

    /** State, distances and probabilities of a stream that begins anew. */
    method StartState()
      modifies this`state, this`rep0, this`rep1, this`rep2, this`rep3, rd.probs
      ensures Z() == Lz(0, Reps(1, 1, 1, 1), out.hist) && rd.probs[..] == seq(rd.probs.Length, _ => PROB_INIT)
    {
      rd.ResetProbs();
      rep0, rep1, rep2, rep3 := 1, 1, 1, 1;
      state := 0;
    }

    /** The header of a stream, as far as it has come; a status when it is bad or incomplete. */
    method ReadHeader(src: seq<Byte>) returns (taken: nat, status: Option<Status>)
      requires Opening()
      modifies this`state, this`rep0, this`rep1, this`rep2, this`rep3, this`remainLen, this`tempBuf
      modifies rd`range, rd`code, rd`input, rd`pos, rd.probs
      ensures var head := old(tempBuf) + src;
              && taken <= |src|
              && (head != [] && head[0] != 0 ==> status == Some(DataError))
              && (!(head != [] && head[0] != 0) && |head| < 5 ==> status == Some(NeedsInput) && Opening() && tempBuf == head && remainLen == old(remainLen) && taken == |src|)
              && (!(head != [] && head[0] != 0) && 5 <= |head| ==>
                    && status == None && Running() && tempBuf == [] && old(tempBuf) + src[..taken] == head[..5]
                    && State(src[taken..]) == old(Opened(head)))
    {
      hide Symbol, Dictionary.Valid, Running, State, AllProbs, LzOk, FreshProbs;
      ghost var head := tempBuf + src;
      taken := FillHeader(src);
      assert tempBuf == head[..|tempBuf|];
      if |tempBuf| != 0 && tempBuf[0] != 0 {
        return taken, Some(DataError);
      }
      if |tempBuf| < 5 {
        assert src[..taken] == src;
        return taken, Some(NeedsInput);
      }
      assert head[5..] == src[taken..];
      StartStream(head);
      status := None;
    }

    // ---------- Decoding into the caller's buffer ----------

    /** A call with the input `src` decodes from m. */
    ghost predicate Coming(m: Mach, src: seq<Byte>)
      reads this, out, out.dic, rd, rd.probs
    {
      || (Running() && m == State(tempBuf + src))
      || (Opening() && 5 <= |tempBuf + src| && (tempBuf + src)[0] == 0 && m == Opened(tempBuf + src))
    }

    /** No stream is open, or `src` does not complete or does not begin with a good header. */
    ghost predicate NothingComes(src: seq<Byte>)
      reads this, out, out.dic, rd, rd.probs
    {
      || remainLen == MATCH_SPEC_LEN_START
      || (Opening() && !(5 <= |tempBuf + src| && (tempBuf + src)[0] == 0))
    }

    /** LzmaDec_DecodeToDic. On a decoder past the header it is Resume on what is put aside and the new input; on
        one that waits for the header it is Resume on the machine that the header opens; on one that has seen the
        end marker it repeats the verdict. */
    method DecodeToDic(limit: nat, src: seq<Byte>, end: bool, ghost m: Mach) returns (status: Status, taken: nat)
      requires Coming(m, src) || NothingComes(src)
      requires out.dicPos <= limit <= out.dic.Length
      modifies this, out`dicPos, out`hist, out.dic, rd, rd.probs
      ensures taken <= |src|
      ensures old(Coming(m, src)) ==> Ends(limit, status, src[taken..], m, limit - old(out.dicPos), end)
      ensures old(NothingComes(src)) ==> unchanged(out) && unchanged(out.dic)
      ensures old(NothingComes(src) && Opening()) ==>
                var head := old(tempBuf) + src;
                && (head != [] && head[0] != 0 ==> status == DataError)
                && (!(head != [] && head[0] != 0) ==> status == NeedsInput && Opening() && tempBuf == head && remainLen == old(remainLen) && taken == |src|)
      ensures old(remainLen) == MATCH_SPEC_LEN_START ==>
                status == (if old(rd.code) == 0 then Finished else DataError) && taken == 0 && unchanged(this) && unchanged(rd) && unchanged(rd.probs)
    {
      hide Symbol, Dictionary.Valid, State, AllProbs, LzOk, FreshProbs, Opened, Valid, Ends, Built, Check, Keeps, Strict, TempOk, MachOk;
      taken := 0;
      if remainLen > MATCH_SPEC_LEN_START {
        var header;
        taken, header := ReadHeader(src);
        if header.Some? {
          return header.value, taken;
        }
      }
      if remainLen == MATCH_SPEC_LEN_START {
        status := if rd.code != 0 then DataError else Finished;
      } else {
        var more;
        assert [] + src[taken..] == src[taken..] && src[0..] == src;
        status, more := DecodePieces(limit, src[taken..], end);
        assert src[taken..][more..] == src[taken + more..];
        taken := taken + more;
      }
    }

    lemma ComingOk(m: Mach, src: seq<Byte>)
      requires Coming(m, src)
      ensures MachOk(prop, m) && m.z.hist == out.hist && remainLen != MATCH_SPEC_LEN_START && !NothingComes(src)
    {
      hide Resume, Symbol;
      if Running() {
        StateOk([], tempBuf + src);
      } else {
        var head := tempBuf + src;
        CodeFits(head[1..5]);
      }
    }

    /** Whatever the call, what it adds to the history is in the buffer. */
    lemma HistoryGrows(m: Mach, room: nat, end: bool)
      requires MachOk(prop, m)
      ensures m.z.hist <= Resume(prop, m, room, end).0.z.hist
    {
      hide MachOk, Resume;
      ResumeOk(prop, m, room, end);
    }

    /** One call of LzmaDec_DecodeToBuf's loop: a call of LzmaDec_DecodeToDic, and the bytes it adds. */
    method BufPiece(limit: nat, src: seq<Byte>, end: bool, ghost m: Mach) returns (chunk: seq<Byte>, status: Status, taken: nat)
      requires Coming(m, src) || NothingComes(src)
      requires out.Valid() && out.dicPos <= limit <= out.dic.Length
      modifies this, out`dicPos, out`hist, out.dic, rd, rd.probs
      ensures taken <= |src| && out.Valid() && out.dicPos <= out.dic.Length
      ensures old(out.hist) <= out.hist && chunk == out.hist[|old(out.hist)|..] && |chunk| <= limit - old(out.dicPos)
      ensures old(Coming(m, src)) ==> Concludes(status, src[taken..], m, limit - old(out.dicPos), end)
      ensures old(NothingComes(src)) ==> chunk == [] && unchanged(out) && unchanged(out.dic)
      ensures old(remainLen) == MATCH_SPEC_LEN_START ==>
                status == (if old(rd.code) == 0 then Finished else DataError) && taken == 0 && unchanged(this) && unchanged(rd) && unchanged(rd.probs)
    {
      hide Symbol, Dictionary.Valid, State, AllProbs, LzOk, FreshProbs, Opened, Valid, Running, Opening, MachOk, Resume;
      ghost var at := out.dicPos;
      if Coming(m, src) {
        ComingOk(m, src);
        HistoryGrows(m, limit - at, end);
      }
      var dicPos := out.dicPos;
      status, taken := DecodeToDic(limit, src, end, m);
      chunk := out.Since(dicPos);
    }

    /** Where the loop of LzmaDec_DecodeToBuf stands: decoding from m0 goes on from m with `left` bytes of room, or
        has ended at the end marker; or nothing came. */
    ghost predicate Filling(comes: bool, src: seq<Byte>, m0: Mach, size: nat, end: bool, m: Mach, left: nat)
      reads this, out, out.dic, rd, rd.probs
    {
      && out.Valid() && out.dicPos <= out.dic.Length && (Coming(m, src) || NothingComes(src))
      && (comes && remainLen != MATCH_SPEC_LEN_START ==> Coming(m, src) && Resumes(prop, m0, size, end, m, left))
      && (comes && remainLen == MATCH_SPEC_LEN_START ==> Concludes(Finished, src, m0, size, end))
      && (!comes ==> NothingComes(src))
    }

    /** The output starts again at the front of a full buffer. */
    method StartOver(ghost comes: bool, ghost src: seq<Byte>, ghost m0: Mach, ghost size: nat, ghost end: bool, ghost m: Mach, ghost left: nat)
      requires Filling(comes, src, m0, size, end, m, left) && prop.dicSize <= out.dic.Length && 0 < out.dic.Length
      modifies out`dicPos
      ensures Filling(comes, src, m0, size, end, m, left) && out.dicPos < out.dic.Length
    {
      hide Symbol, Dictionary.Valid, AllProbs, LzOk, FreshProbs, MachOk, Resume, Resumes, BitReader.Valid;
      out.Wrap();
    }

    lemma ConcludesVia(status: Status, rest: seq<Byte>, m0: Mach, size: nat, end: bool, m: Mach, part: nat, mode: bool)
      requires Concludes(status, rest, m, part, mode) && MachOk(prop, m0) && Resume(prop, m0, size, end) == Resume(prop, m, part, mode)
      ensures Concludes(status, rest, m0, size, end)
    {
      hide Symbol, Resume, MachOk, Running;
    }

    /** After a piece: the end, or another piece. */
    lemma AfterPiece(status: Status, rest: seq<Byte>, m0: Mach, size: nat, end: bool, m: Mach, part: nat, left: nat, mode: bool)
      returns (m1: Mach)
      requires Resumes(prop, m0, size, end, m, left) && part <= left && (if part < left then !mode else mode == end)
      requires Concludes(status, rest, m, part, mode) && out.Valid() && out.dicPos <= out.dic.Length
      ensures |m.z.hist| <= |out.hist| <= |m.z.hist| + part && (IsFull(status) ==> |out.hist| == |m.z.hist| + part)
      ensures !IsFull(status) || part == left ==> Concludes(status, rest, m0, size, end)
      ensures status in {NeedsInput, NotFinished, MaybeFinished, Finished} ==>
                Filling(true, rest, m0, size, end, m1, left - (|out.hist| - |m.z.hist|))
    {
      hide Symbol, Resume, MachOk, Valid, TempOk, Strict, Dictionary.Valid, Resumes;
      ResumesOk(prop, m0, size, end, m, left);
      m1 := Resume(prop, m, part, mode).0;
      PieceOnTheWay(prop, m0, size, m, part, left, mode, end);
      if !IsFull(status) || part == left {
        ConcludesVia(status, rest, m0, size, end, m, part, mode);
      }
    }

    lemma StartFilling(src: seq<Byte>, m0: Mach, size: nat, end: bool)
      requires (Coming(m0, src) || NothingComes(src)) && out.Valid() && out.dicPos <= out.dic.Length
      ensures Filling(Coming(m0, src), src, m0, size, end, m0, size)
      ensures NothingComes(src) ==> !Coming(m0, src)
    {
      hide Symbol, Resume, MachOk, Running, Opening, Dictionary.Valid;
      if Coming(m0, src) {
        ComingOk(m0, src);
      }
    }

    /** A piece of the output, and where the loop stands after it. */
    method FillPiece(part: nat, src: seq<Byte>, mode: bool, ghost comes: bool, ghost m0: Mach, ghost size: nat, ghost end: bool,
                     ghost m: Mach, ghost left: nat) returns (chunk: seq<Byte>, status: Status, taken: nat, ghost m1: Mach)
      requires Filling(comes, src, m0, size, end, m, left) && out.dicPos + part <= out.dic.Length
      requires part <= left && (if part < left then !mode else mode == end)
      modifies this, out`dicPos, out`hist, out.dic, rd, rd.probs
      ensures taken <= |src| && out.Valid() && out.dicPos <= out.dic.Length
      ensures old(out.hist) <= out.hist && chunk == out.hist[|old(out.hist)|..] && |chunk| <= part
      ensures comes && (status in {NotAtEnd, DataError} || |chunk| == left || (chunk == [] && 0 < part)) ==>
                Concludes(status, src[taken..], m0, size, end)
      ensures comes && status !in {NotAtEnd, DataError} ==> Filling(comes, src[taken..], m0, size, end, m1, left - |chunk|)
      ensures !comes ==> chunk == []
    {
      hide Symbol, Dictionary.Valid, AllProbs, LzOk, FreshProbs, MachOk, Resume, Resumes, Running, Opening, Coming;
      m1 := m;
      ghost var ended := remainLen == MATCH_SPEC_LEN_START;
      if comes && !ended {
        ComingOk(m, src);
      }
      chunk, status, taken := BufPiece(out.dicPos + part, src, mode, m);
      if comes && !ended {
        m1 := AfterPiece(status, src[taken..], m0, size, end, m, part, left, mode);
      }
      assert src[0..] == src;
    }

    /** LzmaDec_DecodeToBuf: the pieces together are one call with all of the output. */
    method DecodeToBuf(outSize: nat, src: seq<Byte>, end: bool, ghost m0: Mach) returns (dest: seq<Byte>, status: Status, taken: nat)
      requires Coming(m0, src) || NothingComes(src)
      requires out.Valid() && out.dicPos <= out.dic.Length && prop.dicSize <= out.dic.Length && 0 < out.dic.Length
      modifies this, out`dicPos, out`hist, out.dic, rd, rd.probs
      ensures taken <= |src| && |dest| <= outSize && old(out.hist) <= out.hist && dest == out.hist[|old(out.hist)|..]
      ensures old(Coming(m0, src)) ==> Concludes(status, src[taken..], m0, outSize, end)
      ensures old(NothingComes(src)) ==> dest == []
    {
      hide Symbol, Dictionary.Valid, AllProbs, LzOk, FreshProbs, MachOk, Resume, Resumes, Running, Opening, Coming, NothingComes, Concludes;
      ghost var comes, m := Coming(m0, src), m0;
      ghost var h0 := out.hist;
      StartFilling(src, m0, outSize, end);
      dest, taken := [], 0;
      assert src[0..] == src;
      var left := outSize;
      while true
        invariant taken <= |src| && h0 <= out.hist && dest == out.hist[|h0|..] && 0 <= left && |dest| + left == outSize
        invariant Filling(comes, src[taken..], m0, outSize, end, m, left) && (!comes ==> dest == [])
        decreases left
      {
        StartOver(comes, src[taken..], m0, outSize, end, m, left);
        var more, chunk, part, mode := 0, [], left, end;
        if left > out.dic.Length - out.dicPos {
          part, mode := out.dic.Length - out.dicPos, false;
        }
        chunk, status, more, m := FillPiece(part, src[taken..], mode, comes, m0, outSize, end, m, left);
        assert src[taken..][more..] == src[taken + more..];
        taken := taken + more;
        dest := dest + chunk;
        left := left - |chunk|;
        if status == NotAtEnd || status == DataError || chunk == [] || left == 0 {
          return;
        }
      }
    }
  }

  lemma ResumesOk(p: Props, m: Mach, room: nat, end: bool, m1: Mach, room1: nat)
    requires Resumes(p, m, room, end, m1, room1)
    ensures MachOk(p, m) && MachOk(p, m1)
  {
  }

  lemma CodeFits(s: seq<Byte>)
    requires |s| == 4
    ensures Num(s) < 0x1_0000_0000
  {
    NumOfFour(s);
  }

  /** What was put aside and taken, and what was not. */
  lemma Remainder(was: seq<Byte>, src: seq<Byte>, from: nat, ahead: nat, next: nat, b: seq<Byte>, taken: nat)
    requires |was| <= taken <= |b| && next == from + (taken - |was|)
    requires from + ahead <= |src| && b == was + src[from..from + ahead]
    ensures next <= |src| && b[taken..] + src[from + ahead..] == src[next..]
  {
    assert b[taken..] == src[next..from + ahead];
  }

  /** The kind of a symbol, as a look-ahead reports it. */
  ghost function KindOf(s: Option<(Packet, Dec)>): Dummy {
    if s.None? then DummyError else DummyOf(s.value.0)
  }

  lemma AgreesIsResumes(p: Props, m: Mach, room: nat, end: bool, m1: Mach, room1: nat)
    ensures Agrees(p, m, room, end, m1, room1, Fine) <==> Resumes(p, m, room, end, m1, room1)
  {
  }

  lemma LiteralOutcome(p: Props, z: Lz, b: Byte, room: nat)
    requires p.Ok() && LzOk(p, z) && 0 < room
    ensures Outcome(p, z, Lit(b), room, z.(state := AfterLit(z.state), hist := z.hist + [b]), 0, Fine)
  {
  }

  lemma ShortRepOutcome(p: Props, z: Lz, room: nat)
    requires p.Ok() && LzOk(p, z) && 0 < room && z.hist != []
    ensures 1 <= z.reps.r0 <= |z.hist|
    ensures Outcome(p, z, ShortRep, room, z.(state := AfterShortRep(z.state), hist := Copy(z.hist, z.reps.r0, 1)), 0, Fine)
  {
  }

  lemma OtherState(p: Props, z: Lz, state: nat)
    requires LzOk(p, z) && state < 12 && z.hist != []
    ensures LzOk(p, z.(state := state))
  {
  }

  lemma PromoteOk(p: Props, z: Lz, index: nat)
    requires p.Ok() && LzOk(p, z)
    ensures LzOk(p, z.(reps := z.reps.Promote(index)))
  {
  }

  /** The state and the probabilities that a stream begins with. */
  lemma ResetOk(p: Props, hist: seq<Byte>)
    requires p.Ok()
    ensures LzOk(p, Lz(0, Reps(1, 1, 1, 1), hist))
    ensures FreshProbs(p) == seq(LITERAL + 0x300 * p.LitCoders(), _ => PROB_INIT) && AllProbs(FreshProbs(p))
  {
  }

  lemma StartedOk(p: Props, z: Lz, code: nat, probs: seq<int>)
    requires p.Ok() && LzOk(p, z) && AllProbs(probs) && |probs| == LITERAL + 0x300 * p.LitCoders() && code < 0x1_0000_0000
    requires z.hist == [] ==> probs == FreshProbs(p)
    ensures MachOk(p, Mach(z, 0, FULL_RANGE, code, probs, []))
  {
    hide LzOk, AllProbs, FreshProbs;
  }
}
