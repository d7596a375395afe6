/** The decoder's registers and its bit macros: NORMALIZE is lazy here, just before the next bit. */
module LzmaBitReader {
  import opened Bytes
  import opened Powers
  import opened BitModel
  import opened RangeEncoder
  import opened RangeDecoder
  import opened LzmaSyntax
  import opened LzmaReader
  import opened Wrappers

  class BitReader {
    const probs: array<int>
    var range: nat
    var code: nat
    var input: seq<Byte>
    var pos: nat

    ghost predicate Valid()
      reads this, probs
    {
      && 0x1_0000 <= range < 0x1_0000_0000 && code < 0x1_0000_0000 && pos <= |input|
      && AllProbs(probs[..])
    }

    ghost function Regs(): Reader
      reads this
    {
      Reader(range, code, pos)
    }

    /** Reading may go on: there is input for the normalisation that is still due. */
    ghost predicate Ready(c: Context)
      reads this, probs
    {
      && Valid() && c.Ok() && LITERAL + 0x300 * (c.lit + 1) <= probs.Length
      && Fetch(Regs(), input).Some?
    }

    /** The registers as they are once normalised, and the probabilities. */
    ghost function Now(): Dec
      reads this, probs
      requires Fetch(Regs(), input).Some?
    {
      Dec(Fetch(Regs(), input).value, probs[..])
    }

    lemma NowOk(c: Context)
      requires Ready(c)
      ensures DecOk(c, Now())
    {
    }

    /** What the rest of the symbol from `s` on will give. */
    ghost function Rest(c: Context, s: Parse): Option<(Packet, Dec)>
      reads this, probs
      requires Ready(c) && Ok(s)
    {
      NowOk(c);
      Read(c, s, Now(), input)
    }

    /** The symbol from `s` on is complete in the input. */
    ghost predicate Can(c: Context, s: Parse)
      reads this, probs
    {
      Ready(c) && Ok(s) && Rest(c, s).Some?
    }

    constructor (size: nat)
      ensures fresh(probs) && probs.Length == size && Valid() && probs[..] == seq(size, _ => PROB_INIT) && range == 0xFFFF_FFFF
    {
      probs := new int[size](_ => PROB_INIT);
      range, code, input, pos := 0xFFFF_FFFF, 0, [], 0;
      new;
      assert probs[..] == seq(size, _ => PROB_INIT);
    }

    /** Points to another buffer. */
    method Load(b: seq<Byte>)
      modifies this`input, this`pos
      ensures input == b && pos == 0
    {
      input, pos := b, 0;
    }

    /** The registers at the start of a stream; no buffer is in use. */
    method Open(firstCode: nat)
      modifies this`range, this`code, this`input, this`pos
      ensures range == 0xFFFF_FFFF && code == firstCode && input == [] && pos == 0
    {
      range, code, input, pos := 0xFFFF_FFFF, firstCode, [], 0;
    }

    /** Every probability one half. */
    method ResetProbs()
      modifies probs
      ensures probs[..] == seq(probs.Length, _ => PROB_INIT)
    {
      for i := 0 to probs.Length
        invariant forall j :: 0 <= j < i ==> probs[j] == PROB_INIT
      {
        probs[i] := PROB_INIT;
      }
    }

    /** NORMALIZE */
    method Normalize()
      requires Valid() && Fetch(Regs(), input).Some?
      modifies this`range, this`code, this`pos
      ensures old(pos) <= pos
      ensures Valid() && Regs() == old(Fetch(Regs(), input)).value && 0x100_0000 <= range
    {
      if range < 0x100_0000 {
        range := range * 256;
        code := Word32(code * 256 + input[pos]);
        pos := pos + 1;
      }
    }

    /** IF_BIT_0 with UPDATE_0 or UPDATE_1 */
    method Bit(i: nat) returns (bit: int)
      requires Valid() && i < probs.Length && Fetch(Regs(), input).Some?
      modifies this`range, this`code, this`pos, probs
      ensures old(pos) <= pos
      ensures IsBit(bit) && bit == BitOf(old(Now()).rc, old(probs[i]))
      ensures Bound(old(Now()).rc.range, old(probs[i])) <= old(Now()).rc.range
      ensures Regs() == TakeBit(old(Now()).rc, old(probs[i]))
      ensures probs[..] == old(probs[..])[i := Adapt(old(probs[i]), bit)]
      ensures Valid()
    {
      ghost var before := probs[..];
      var ttt := probs[i];
      Normalize();
      SplitBounds(range, ttt);
      var bound := (range / 2048) * ttt;
      if code < bound {
        range := bound;
        probs[i] := ttt + (2048 - ttt) / 32;
        bit := 0;
      } else {
        range := range - bound;
        code := code - bound;
        probs[i] := ttt - ttt / 32;
        bit := 1;
      }
      assert probs[..] == before[i := Adapt(ttt, bit)];
    }

    /** Once the bit at `s` has been taken, the rest of the symbol goes on from the next state. */
    lemma Settle(c: Context, s: Parse, d: Dec)
      requires Valid() && DecOk(c, d) && Ok(s) && !s.Done? && Read(c, s, d, input).Some?
      requires LITERAL + 0x300 * (c.lit + 1) <= probs.Length
      requires Regs() == RegsAfter(c, s, d) && probs[..] == ProbsAfter(c, s, d)
      ensures Can(c, Step(c, s, BitAt(c, s, d))) && Rest(c, Step(c, s, BitAt(c, s, d))) == Read(c, s, d, input)
    {
      hide Step, RegsAfter, ProbsAfter, BitAt;
      ReadStep(c, s, d, input);
    }

    /** The bit at `s`, whose probability is at i. */
    method Next(ghost c: Context, ghost s: Parse, i: nat) returns (bit: int)
      requires Can(c, s) && !s.Done? && !s.DirectBit? && i == Idx(c, s)
      modifies this`range, this`code, this`pos, probs
      ensures old(pos) <= pos
      ensures IsBit(bit) && Can(c, Step(c, s, bit)) && old(Can(c, s))
      ensures Rest(c, Step(c, s, bit)) == old(Rest(c, s))
    {
      hide Step, Read, Bound, TakeBit, Adapt, AllProbs;
      IdxBound(c, s);
      ghost var d := Now();
      NowOk(c);
      bit := Bit(i);
      Settle(c, s, d);
    }

    /** One direct bit: the sign of code - range decides, and the difference is undone when it is negative. */
    method DirectBit() returns (bit: int)
      requires Valid() && Fetch(Regs(), input).Some?
      modifies this`range, this`code, this`pos
      ensures old(pos) <= pos
      ensures Valid() && IsBit(bit) && bit == DirectBitOf(old(Now()).rc)
      ensures Regs() == TakeDirect(old(Now()).rc)
    {
      Normalize();
      range := range / 2;
      DirectWords(code, range);
      code := Word32(code - range);
      var t := Word32(0 - code / 0x8000_0000);
      bit := Word32(t + 1);
      code := Word32(code + Mask(t, range));
    }

    method NextDirect(ghost c: Context, ghost s: Parse) returns (bit: int)
      requires Can(c, s) && s.DirectBit?
      modifies this`range, this`code, this`pos
      ensures old(pos) <= pos
      ensures IsBit(bit) && Can(c, Step(c, s, bit)) && old(Can(c, s))
      ensures Rest(c, Step(c, s, bit)) == old(Rest(c, s))
    {
      hide Step, Read, TakeDirect, AllProbs;
      ghost var d := Now();
      NowOk(c);
      bit := DirectBit();
      Settle(c, s, d);
    }

    // ---------- The parts of a symbol ----------

    /** Eight bits of a literal under plain probabilities. */
    method Literal(ghost c: Context, base: nat) returns (b: Byte)
      requires Can(c, LitBit(1)) && base == LITERAL + 0x300 * c.lit
      modifies this`range, this`code, this`pos, probs
      ensures old(pos) <= pos
      ensures Can(c, Done(Lit(b))) && old(Can(c, LitBit(1))) && Rest(c, Done(Lit(b))) == old(Rest(c, LitBit(1)))
    {
      hide Read, AllProbs, Fetch;
      var symbol := 1;
      ghost var s := LitBit(1);
      while symbol < 0x100
        invariant 1 <= symbol < 0x200 && s == (if symbol < 0x100 then LitBit(symbol) else Done(Lit(symbol - 0x100)))
        invariant old(pos) <= pos
        invariant Can(c, s) && Rest(c, s) == old(Rest(c, LitBit(1)))
        decreases 0x200 - symbol
      {
        var bit := Next(c, s, base + symbol);
        s := Step(c, s, bit);
        symbol := symbol + symbol + bit;
      }
      b := symbol - 0x100;
    }

    /** Eight bits of a literal next to the byte it failed to match. */
    method MatchedLiteral(ghost c: Context, base: nat, matched: Byte) returns (b: Byte)
      requires Can(c, MatchedLitBit(1, 0x100, matched)) && base == LITERAL + 0x300 * c.lit
      modifies this`range, this`code, this`pos, probs
      ensures old(pos) <= pos
      ensures Can(c, Done(Lit(b))) && old(Can(c, MatchedLitBit(1, 0x100, matched)))
      ensures Rest(c, Done(Lit(b))) == old(Rest(c, MatchedLitBit(1, 0x100, matched)))
    {
      hide Read, AllProbs, Fetch;
      var symbol, offs, matchByte := 1, 0x100, matched as nat;
      ghost var s := MatchedLitBit(1, 0x100, matched);
      while symbol < 0x100
        invariant 1 <= symbol < 0x200 && (offs == 0 || offs == 0x100)
        invariant s == (if symbol < 0x100 then MatchedLitBit(symbol, offs, matchByte) else Done(Lit(symbol - 0x100)))
        invariant old(pos) <= pos
        invariant Can(c, s) && Rest(c, s) == old(Rest(c, MatchedLitBit(1, 0x100, matched)))
        decreases 0x200 - symbol
      {
        matchByte := matchByte + matchByte;
        var before := offs;
        offs := And100(offs, matchByte);
        var bit := Next(c, s, base + (offs + before + symbol));
        s := Step(c, s, bit);
        symbol := symbol + symbol + bit;
        if bit == 0 {
          offs := before - offs;
        }
      }
      b := symbol - 0x100;
    }

    /** The three choices of a length. */
    method Length(ghost c: Context, ghost use: LenUse, base: nat, posState: nat) returns (len: nat)
      requires Can(c, ChoiceBit(use)) && base == LenBase(use) && posState == c.posState * 16
      modifies this`range, this`code, this`pos, probs
      ensures old(pos) <= pos
      ensures len < 272 && Can(c, GotLen(use, len)) && old(Can(c, ChoiceBit(use)))
      ensures Rest(c, GotLen(use, len)) == old(Rest(c, ChoiceBit(use)))
    {
      hide Read, AllProbs, Fetch;
      var bit := Next(c, ChoiceBit(use), base);
      if bit == 0 {
        len := LowTree(c, use, base + posState);
      } else {
        bit := Next(c, Choice2Bit(use), base + 8);
        if bit == 0 {
          len := MidTree(c, use, base + posState + 8);
        } else {
          len := HighTree(c, use, base + 256);
        }
      }
    }

    method LowTree(ghost c: Context, ghost use: LenUse, base: nat) returns (len: nat)
      requires Can(c, LowBit(use, 1)) && base == LenBase(use) + c.posState * 16
      modifies this`range, this`code, this`pos, probs
      ensures old(pos) <= pos
      ensures len < 8 && Can(c, GotLen(use, len)) && old(Can(c, LowBit(use, 1)))
      ensures Rest(c, GotLen(use, len)) == old(Rest(c, LowBit(use, 1)))
    {
      hide Read, AllProbs, Fetch;
      len := 1;
      ghost var s := LowBit(use, 1);
      for k := 0 to 3
        invariant len in (if k == 0 then {1} else if k == 1 then {2, 3} else if k == 2 then {4, 5, 6, 7}
                          else {8, 9, 10, 11, 12, 13, 14, 15})
        invariant s == (if k < 3 then LowBit(use, len) else GotLen(use, len - 8))
        invariant old(pos) <= pos
        invariant Can(c, s) && Rest(c, s) == old(Rest(c, LowBit(use, 1)))
      {
        var bit := Next(c, s, base + len);
        s := Step(c, s, bit);
        len := len + len + bit;
      }
      len := len - 8;
    }

    method MidTree(ghost c: Context, ghost use: LenUse, base: nat) returns (len: nat)
      requires Can(c, MidBit(use, 1)) && base == LenBase(use) + c.posState * 16 + 8
      modifies this`range, this`code, this`pos, probs
      ensures old(pos) <= pos
      ensures 8 <= len < 16 && Can(c, GotLen(use, len)) && old(Can(c, MidBit(use, 1)))
      ensures Rest(c, GotLen(use, len)) == old(Rest(c, MidBit(use, 1)))
    {
      hide Read, AllProbs, Fetch;
      len := 1;
      ghost var s := MidBit(use, 1);
      for k := 0 to 3
        invariant len in (if k == 0 then {1} else if k == 1 then {2, 3} else if k == 2 then {4, 5, 6, 7}
                          else {8, 9, 10, 11, 12, 13, 14, 15})
        invariant s == (if k < 3 then MidBit(use, len) else GotLen(use, len))
        invariant old(pos) <= pos
        invariant Can(c, s) && Rest(c, s) == old(Rest(c, MidBit(use, 1)))
      {
        var bit := Next(c, s, base + len);
        s := Step(c, s, bit);
        len := len + len + bit;
      }
    }

    method HighTree(ghost c: Context, ghost use: LenUse, base: nat) returns (len: nat)
      requires Can(c, HighBit(use, 1)) && base == LenBase(use) + 256
      modifies this`range, this`code, this`pos, probs
      ensures old(pos) <= pos
      ensures 16 <= len < 272 && Can(c, GotLen(use, len)) && old(Can(c, HighBit(use, 1)))
      ensures Rest(c, GotLen(use, len)) == old(Rest(c, HighBit(use, 1)))
    {
      hide Read, AllProbs, Fetch;
      var i := 1;
      ghost var s := HighBit(use, 1);
      while i < 256
        invariant 1 <= i < 512 && s == (if i < 256 then HighBit(use, i) else GotLen(use, i - 256 + 16))
        invariant old(pos) <= pos
        invariant Can(c, s) && Rest(c, s) == old(Rest(c, HighBit(use, 1)))
        decreases 512 - i
      {
        var bit := Next(c, s, base + i);
        s := Step(c, s, bit);
        i := i + i + bit;
      }
      len := i - 256 + 16;
    }

    /** Six bits of a slot. */
    method Slot(ghost c: Context, len: nat) returns (slot: nat)
      requires Can(c, SlotBit(len, 1))
      modifies this`range, this`code, this`pos, probs
      ensures old(pos) <= pos
      ensures slot < 64 && Can(c, GotSlot(len, slot)) && old(Can(c, SlotBit(len, 1)))
      ensures Rest(c, GotSlot(len, slot)) == old(Rest(c, SlotBit(len, 1)))
    {
      hide Read, AllProbs, Fetch;
      var base := POS_SLOT + (if len < 4 then len else 3) * 64;
      var i := 1;
      ghost var s := SlotBit(len, 1);
      while i < 64
        invariant 1 <= i < 128 && s == (if i < 64 then SlotBit(len, i) else GotSlot(len, i - 64))
        invariant old(pos) <= pos
        invariant Can(c, s) && Rest(c, s) == old(Rest(c, SlotBit(len, 1)))
        decreases 128 - i
      {
        var bit := Next(c, s, base + i);
        s := Step(c, s, bit);
        i := i + i + bit;
      }
      slot := i - 64;
    }

    /** The bits of a distance after its slot. */
    method Distance(ghost c: Context, ghost len: nat, slot: nat) returns (distance: nat)
      requires slot < 64 && Ok(GotSlot(len, slot)) && Can(c, GotSlot(len, slot))
      modifies this`range, this`code, this`pos, probs
      ensures old(pos) <= pos
      ensures Can(c, Done(Match(distance, len + 2))) && old(Can(c, GotSlot(len, slot)))
      ensures Rest(c, Done(Match(distance, len + 2))) == old(Rest(c, GotSlot(len, slot)))
    {
      hide Read, AllProbs, Fetch, Doubled;
      distance := slot;
      if distance >= 4 {
        var numDirectBits := distance / 2 - 1;
        distance := 2 + distance % 2;
        if slot < 14 {
          distance := ReverseTree(c, len, Doubled(distance, numDirectBits), numDirectBits);
        } else {
          distance := DirectBits(c, len, distance, numDirectBits - 4);
          distance := AlignBits(c, len, distance * 16);
        }
      }
    }

    /** The reverse tree of a short distance: the running value is also the place of the probability. */
    method ReverseTree(ghost c: Context, ghost len: nat, base: nat, count: nat) returns (distance: nat)
      requires Can(c, SpecBit(len, base, 1, 1, count))
      modifies this`range, this`code, this`pos, probs
      ensures old(pos) <= pos
      ensures Can(c, Done(Match(distance, len + 2))) && old(Can(c, SpecBit(len, base, 1, 1, count)))
      ensures Rest(c, Done(Match(distance, len + 2))) == old(Rest(c, SpecBit(len, base, 1, 1, count)))
    {
      hide Read, AllProbs, Fetch, SpecOk;
      var m, left := 1, count;
      distance := base + 1;
      ghost var s := SpecBit(len, base, 1, 1, count);
      LeftPositive(s);
      while left != 0
        invariant m <= distance - base
        invariant s == if left != 0 then SpecBit(len, base, distance - base, m, left) else Done(Match(distance - m, len + 2))
        invariant old(pos) <= pos
        invariant Can(c, s) && Rest(c, s) == old(Rest(c, SpecBit(len, base, 1, 1, count)))
        decreases left
      {
        LeftPositive(s);
        var bit := Next(c, s, SPEC_POS + distance);
        s := Step(c, s, bit);
        if bit == 0 {
          distance := distance + m;
          m := m + m;
        } else {
          m := m + m;
          distance := distance + m;
        }
        left := left - 1;
      }
      distance := distance - m;
    }

    method DirectBits(ghost c: Context, ghost len: nat, start: nat, count: nat) returns (distance: nat)
      requires Can(c, Parse.DirectBit(len, start, count))
      modifies this`range, this`code, this`pos
      ensures old(pos) <= pos
      ensures Can(c, AlignBit(len, distance * 16, 1, 1)) && old(Can(c, Parse.DirectBit(len, start, count)))
      ensures Rest(c, AlignBit(len, distance * 16, 1, 1)) == old(Rest(c, Parse.DirectBit(len, start, count)))
    {
      hide Read, AllProbs, Fetch;
      var left := count;
      distance := start;
      ghost var s := Parse.DirectBit(len, start, count);
      while left != 0
        invariant s == if left != 0 then Parse.DirectBit(len, distance, left) else AlignBit(len, distance * 16, 1, 1)
        invariant old(pos) <= pos
        invariant Can(c, s) && Rest(c, s) == old(Rest(c, Parse.DirectBit(len, start, count)))
        decreases left
      {
        var bit := NextDirect(c, s);
        s := Step(c, s, bit);
        distance := 2 * distance + bit;
        left := left - 1;
      }
    }

    /** The four low bits of a long distance. */
    method AlignBits(ghost c: Context, ghost len: nat, base: nat) returns (distance: nat)
      requires Can(c, AlignBit(len, base, 1, 1))
      modifies this`range, this`code, this`pos, probs
      ensures old(pos) <= pos
      ensures Can(c, Done(Match(distance, len + 2))) && old(Can(c, AlignBit(len, base, 1, 1)))
      ensures Rest(c, Done(Match(distance, len + 2))) == old(Rest(c, AlignBit(len, base, 1, 1)))
    {
      hide Read, AllProbs, Fetch;
      var i, m := 1, 1;
      ghost var s := AlignBit(len, base, 1, 1);
      while m < 8
        invariant m in {1, 2, 4, 8} && m <= i < 2 * m && s == AlignBit(len, base, i, m)
        invariant old(pos) <= pos
        invariant Can(c, s) && Rest(c, s) == old(Rest(c, AlignBit(len, base, 1, 1)))
        decreases 8 - m
      {
        var bit := Next(c, s, ALIGN + i);
        s := Step(c, s, bit);
        i := if bit == 0 then i + m else i + m * 2;
        m := m + m;
      }
      var bit := Next(c, s, ALIGN + i);
      distance := base + (if bit == 0 then i - 8 else i);
    }
  }

  lemma LeftPositive(s: Parse)
    requires Ok(s)
    ensures s.SpecBit? ==> 1 <= s.left && s.w <= s.t
  {
  }

  lemma DirectWords(code: nat, half: nat)
    requires code < 0x1_0000_0000 && half < 0x8000_0000
    ensures var w := Word32(code - half); var t := Word32(0 - w / 0x8000_0000);
            && Word32(t + 1) == (if w < 0x8000_0000 then 1 else 0)
            && Word32(w + Mask(t, half)) == (if w < 0x8000_0000 then w else code)
  {
    var w := Word32(code - half);
    if w < 0x8000_0000 {
      assert w / 0x8000_0000 == 0;
    } else {
      assert w / 0x8000_0000 == 1;
      assert Word32(-1) == 0xFFFF_FFFF;
      assert w == code - half || w == code - half + 0x1_0000_0000;
    }
  }
}
