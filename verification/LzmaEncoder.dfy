/** The encoder object: each routine performs exactly the operations of its specification. */
module LzmaEncoder {
  import opened Bytes
  import opened Powers
  import opened BitModel
  import opened RangeEncoder
  import opened LzmaSyntax
  import opened LzmaLayout
  import opened LzmaOps
  import opened LzmaPackets
  import opened LzmaState
  import opened LzmaCoding
  import opened LzmaPosSlot

  const MARK_LIT: nat := 0xFFFF_FFFF

  // ---------- The word of direct bits ----------

  /** (dist | 0xF) << (32 - footerBits), a 32-bit word; n is the number of direct bits, v their value. */
  function DirectWord(v: nat, n: nat): nat
    requires n <= 26
  {
    Doubled(16 * v + 15, 28 - n)
  }

  lemma Doubled28()
    ensures Doubled(15, 28) == 0xF000_0000 && Doubled(16, 28) == 0x1_0000_0000
  {
    DoubledIsTimes(15, 28);
    DoubledIsTimes(16, 28);
    Pow2Values();
    assert Pow2(31) == 8 * Pow2(28);
  }

  /** The word ends the loop exactly when no direct bit is left. */
  lemma DirectWordEnd(v: nat, n: nat)
    requires n <= 26 && v < Pow2(n)
    ensures DirectWord(v, n) == 0xF000_0000 <==> n == 0
  {
    hide Doubled, Pow2;
    Doubled28();
    if n == 0 {
      OneBelow(v);
    } else {
      DoubledTwice(15, n, 28 - n);
      var a, b := 16 * v + 15, Doubled(15, n);
      EvenOdd(v, n);
      if a < b { DoubledMono(a, b, 28 - n); } else { DoubledMono(b, a, 28 - n); }
    }
  }

  lemma OneBelow(v: nat)
    requires v < Pow2(0)
    ensures v == 0
  {
  }

  lemma EvenOdd(v: nat, n: nat)
    requires 1 <= n
    ensures 16 * v + 15 != Doubled(15, n)
  {
    OddNotEven(8 * v + 7, Doubled(15, n - 1));
  }

  lemma OnesTop(n: nat)
    requires 1 <= n
    ensures Pow2(n) - 1 >= Pow2(n - 1) && Pow2(n) - 1 - Pow2(n - 1) == Pow2(n - 1) - 1
  {
  }

  lemma ThreeLevels(sym: nat)
    requires sym < 8
    ensures sym / 4 <= 1 && 2 * (2 + sym / 4) + sym / 2 % 2 == 4 + sym / 2
  {
  }

  lemma OddNotEven(a: nat, b: nat)
    ensures 2 * a + 1 != 2 * b
  {
  }

  /** Its top bit is the next direct bit; shifting it out leaves the word of the rest. */
  lemma DirectWordStep(v: nat, n: nat)
    requires 1 <= n <= 26 && v < Pow2(n)
    ensures var w := DirectWord(v, n); var top := v >= Pow2(n - 1);
            && w < 0x1_0000_0000 && (top <==> w >= 0x8000_0000)
            && Word32(2 * w) == DirectWord(if top then v - Pow2(n - 1) else v, n - 1)
  {
    var h := Pow2(n - 1);
    var v' := if v >= h then v - h else v;
    assert Pow2(n) == 2 * h;
    var k := 29 - n;
    assert Doubled(16 * v + 15, k) == 2 * DirectWord(v, n);
    assert Doubled(16 * h, k) == 0x1_0000_0000 by {
      DoubledIsTimes(16, n - 1);
      DoubledTwice(16, n - 1, k);
      Doubled28();
    }
    DoubledMono(16 * v' + 15, 16 * h, k);
    if v >= h {
      DoubledSum(16 * v' + 15, 16 * h, k);
      assert 16 * v + 15 == 16 * v' + 15 + 16 * h;
    }
    WordStep(2 * DirectWord(v, n), Doubled(16 * v' + 15, k), v >= h);
  }

  lemma WordStep(w2: nat, rest: nat, top: bool)
    requires rest < 0x1_0000_0000 && w2 == (if top then rest + 0x1_0000_0000 else rest)
    ensures Word32(w2) == rest
  {
  }

  class LzmaEnc {
    const p: Props
    const rc: RangeEnc
    const probs: array<int>
    const data: seq<Byte>
    const logBits: nat
    const fastPos: array<int>
    var state: nat
    var reps: Reps
    var pos: nat

    ghost predicate Valid()
      reads this, rc, probs
    {
      p.Ok() && rc.Valid() && AllProbs(probs[..]) && probs.Length == EncSize(p)
    }

    /** The slot table is filled and covers the dictionary; it is not touched again. */
    ghost predicate TableOk()
      reads fastPos
    {
      && LogBitsOk(logBits) && fastPos.Length == Pow2(logBits) && fastPos != probs
      && forall i :: 0 <= i < fastPos.Length ==> fastPos[i] == SlotOf(i)
    }

    /** State and distances, with the bytes coded so far as history. */
    ghost function Z(): Lz
      reads this
      requires pos <= |data|
    {
      Lz(state, reps, data[..pos])
    }

    ghost predicate Ready()
      reads this, rc, probs, fastPos
    {
      && Valid() && TableOk() && pos <= |data| && LzOk(p, Z())
      && p.dicSize <= Pow2(2 * logBits + 5)
    }

    /** Interval and probabilities. */
    ghost function View(): Enc
      reads this, rc, probs
      requires Valid()
    {
      Enc(rc.View(), probs[..])
    }

    constructor (p: Props, logBits: nat, data: seq<Byte>)
      requires p.Ok() && LogBitsOk(logBits) && p.dicSize <= Pow2(2 * logBits + 5)
      ensures this.p == p && this.logBits == logBits && this.data == data
      ensures fresh(rc) && fresh(probs) && fresh(fastPos)
      ensures Ready() && View() == EncStart(p) && rc.out == [] && Z() == LZ_START
    {
      this.p, this.logBits, this.data := p, logBits, data;
      rc := new RangeEnc();
      probs := new int[EncSize(p)](_ => PROB_INIT);
      var table := new int[Pow2(logBits)];
      fastPos := table;
      state, reps, pos := 0, Reps(1, 1, 1, 1), 0;
      new;
      assert probs[..] == seq(EncSize(p), _ => PROB_INIT);
      FastPosInit(fastPos, logBits);
    }

    /** One modelled bit. */
    method Bit(idx: nat, bit: int)
      requires Valid() && idx < probs.Length && IsBit(bit)
      modifies rc, probs
      ensures Valid() && View() == Emit(old(View()), Modelled(idx, bit))
    {
      ghost var before := probs[..];
      var q := rc.EncodeBit(probs[idx], bit);
      probs[idx] := q;
      assert probs[..] == before[idx := q];
    }

    method DirectBit(bit: int)
      requires Valid() && IsBit(bit)
      modifies rc
      ensures Valid() && View() == Emit(old(View()), Direct(bit))
    {
      rc.EncodeDirect(bit);
    }

    /** LitEnc_Encode. */
    method LitEncode(base: nat, symbol: Byte)
      requires Valid() && base + 256 <= probs.Length
      modifies rc, probs
      ensures Valid() && OpsOk(LitOps(base, 0x100 + symbol), probs.Length)
      ensures View() == EmitAll(old(View()), LitOps(base, 0x100 + symbol))
    {
      var sym := 0x100 + symbol;
      LitOpsOk(base, sym, probs.Length);
      while sym < 0x10000
        invariant Valid() && 0x100 <= sym && OpsOk(LitOps(base, sym), probs.Length)
        invariant EmitAll(View(), LitOps(base, sym)) == EmitAll(old(View()), LitOps(base, 0x100 + symbol))
        decreases 0x10000 - sym
      {
        var bit := sym / 128 % 2;
        LitOpsOk(base, 2 * sym, probs.Length);
        EmitCons(View(), Modelled(base + sym / 256, bit), LitOps(base, 2 * sym));
        Bit(base + sym / 256, bit);
        sym := 2 * sym;
      }
    }

    /** LitEnc_EncodeMatched. */
    method LitEncodeMatched(base: nat, symbol: Byte, matchByte: Byte)
      requires Valid() && base + 768 <= probs.Length
      modifies rc, probs
      ensures Valid() && OpsOk(MatchedOps(base, 0x100 + symbol, matchByte, 0x100), probs.Length)
      ensures View() == EmitAll(old(View()), MatchedOps(base, 0x100 + symbol, matchByte, 0x100))
    {
      var sym, mb, offs := 0x100 + symbol, matchByte as nat, 0x100;
      MatchedOpsOk(base, sym, mb, offs, probs.Length);
      while sym < 0x10000
        invariant Valid() && 0x100 <= sym && (offs == 0 || offs == 0x100)
        invariant OpsOk(MatchedOps(base, sym, mb, offs), probs.Length)
        invariant EmitAll(View(), MatchedOps(base, sym, mb, offs))
               == EmitAll(old(View()), MatchedOps(base, 0x100 + symbol, matchByte, 0x100))
        decreases 0x10000 - sym
      {
        mb := 2 * mb;
        var idx := base + (offs + And100(offs, mb) + sym / 256);
        var bit := sym / 128 % 2;
        ghost var offs' := AndNotXor100(offs, mb, 2 * sym);
        MatchedOpsOk(base, 2 * sym, mb, offs', probs.Length);
        EmitCons(View(), Modelled(idx, bit), MatchedOps(base, 2 * sym, mb, offs'));
        sym := 2 * sym;
        offs := AndNotXor100(offs, mb, sym);
        Bit(idx, bit);
      }
    }

    /** Codes the first of the operations still to do. */
    method Next(idx: nat, bit: int, ghost ops: seq<Op>)
      requires Valid() && OpsOk(ops, probs.Length) && ops != [] && ops[0] == Modelled(idx, bit)
      modifies rc, probs
      ensures Valid() && OpsOk(ops[1..], probs.Length)
      ensures EmitAll(View(), ops[1..]) == EmitAll(old(View()), ops)
    {
      Bit(idx, bit);
    }

    /** RcTree_ReverseEncode. */
    method ReverseEncode(base: nat, numBits: nat, symbol: nat)
      requires Valid() && OpsOk(ReverseOps(base, 1, numBits, symbol), probs.Length)
      modifies rc, probs
      ensures Valid() && View() == EmitAll(old(View()), ReverseOps(base, 1, numBits, symbol))
    {
      hide EmitAll, Emit, AllProbs, EncSize;
      var m, left, sym := 1, numBits, symbol;
      while left != 0
        invariant Valid() && OpsOk(ReverseOps(base, m, left, sym), probs.Length)
        invariant EmitAll(View(), ReverseOps(base, m, left, sym)) == EmitAll(old(View()), ReverseOps(base, 1, numBits, symbol))
      {
        var bit := sym % 2;
        ghost var ops := ReverseOps(base, m, left, sym);
        assert ops[1..] == ReverseOps(base, 2 * m + bit, left - 1, sym / 2);
        sym := sym / 2;
        Next(base + m, bit, ops);
        m := 2 * m + bit;
        left := left - 1;
      }
      EmitNothing(View());
    }

    /** The loop that codes a slot. */
    method SlotEncode(base: nat, slot: nat)
      requires Valid() && slot < 64 && base + 64 <= probs.Length
      modifies rc, probs
      ensures Valid() && OpsOk(SlotOps(base, 64 + slot), probs.Length)
      ensures View() == EmitAll(old(View()), SlotOps(base, 64 + slot))
    {
      var sym := slot + 64;
      SlotOpsOk(base, sym, probs.Length);
      while sym < 4096
        invariant Valid() && 64 <= sym && OpsOk(SlotOps(base, sym), probs.Length)
        invariant EmitAll(View(), SlotOps(base, sym)) == EmitAll(old(View()), SlotOps(base, 64 + slot))
        decreases 4096 - sym
      {
        var bit := sym / 32 % 2;
        ghost var ops := SlotOps(base, sym);
        assert ops[1..] == SlotOps(base, 2 * sym);
        Next(base + sym / 64, bit, ops);
        sym := 2 * sym;
      }
    }

    /** The direct bits of a distance, taken from the top of a 32-bit word until its end pattern is left. */
    method DirectEncode(ghost v: nat, ghost n: nat, word: nat)
      requires Valid() && n <= 26 && v < Pow2(n) && word == DirectWord(v, n)
      modifies rc
      ensures Valid() && OpsOk(DirectOps(v, n), probs.Length)
      ensures View() == EmitAll(old(View()), DirectOps(v, n))
    {
      hide Doubled, DirectWord, DirectOps, Pow2, EmitAll, AllProbs, Emit;
      DirectOpsOk(v, n, probs.Length);
      DirectWordEnd(v, n);
      var pos2 := word;
      ghost var u, left := v, n;
      while pos2 != 0xF000_0000
        invariant Valid() && 0 <= left <= n && 0 <= u < Pow2(left) && pos2 == DirectWord(u, left)
        invariant pos2 == 0xF000_0000 <==> left == 0
        invariant OpsOk(DirectOps(u, left), probs.Length)
        invariant EmitAll(View(), DirectOps(u, left)) == EmitAll(old(View()), DirectOps(v, n))
        decreases left
      {
        DirectWordStep(u, left);
        DirectOpsStep(u, left);
        ghost var u' := if u >= Pow2(left - 1) then u - Pow2(left - 1) else u;
        NextDirect(pos2 / 0x8000_0000, DirectOps(u, left));
        pos2 := Word32(2 * pos2);
        u, left := u', left - 1;
        DirectWordEnd(u, left);
      }
      NoDirectOps(u);
      EmitNothing(View());
    }

    /** LenEnc_Encode. */
    method LenEncode(base: nat, symbol: nat, posState: nat)
      requires Valid() && symbol < 272 && posState < 16 && base + 512 <= probs.Length
      modifies rc, probs
      ensures Valid() && OpsOk(LenOps(base, symbol, posState), probs.Length)
      ensures View() == EmitAll(old(View()), LenOps(base, symbol, posState))
    {
      hide EmitAll, Emit, LitOps, Low3Ops;
      LenOpsOk(base, symbol, posState, probs.Length);
      ghost var ops := LenOps(base, symbol, posState);
      if symbol >= 8 {
        Next(base, 1, ops);
        ops := ops[1..];
        if symbol >= 16 {
          Next(base + 8, 1, ops);
          assert ops[1..] == LitOps(base + 256, 0x100 + (symbol - 16));
          LitEncode(base + 256, symbol - 16);
        } else {
          Next(base + 8, 0, ops);
          assert ops[1..] == Low3Ops(base + 8 + posState * 16, symbol - 8);
          Low3Encode(base + 8 + posState * 16, symbol - 8);
        }
      } else {
        Next(base, 0, ops);
        assert ops[1..] == Low3Ops(base + posState * 16, symbol);
        Low3Encode(base + posState * 16, symbol);
      }
    }

    method Low3Encode(base: nat, sym: nat)
      requires Valid() && sym < 8 && base + 8 <= probs.Length
      modifies rc, probs
      ensures Valid() && View() == EmitAll(old(View()), Low3Ops(base, sym))
    {
      hide EmitAll, AllProbs;
      ThreeLevels(sym);
      ghost var ops := Low3Ops(base, sym);
      var bit := sym / 4;
      Next(base + 1, bit, ops);
      var m := 2 + bit;
      bit := sym / 2 % 2;
      Next(base + m, bit, ops[1..]);
      m := 2 * m + bit;
      Next(base + m, sym % 2, ops[1..][1..]);
      assert ops[1..][1..][1..] == [];
      EmitNothing(View());
    }

    /** A literal: `lit` is its coder, `matchByte` the byte at the last distance. */
    method PutLiteral(ghost c: Context, posState: nat, lit: nat, b: Byte, matchByte: Byte)
      requires Valid() && c.Ok() && c.state == state && c.posState == posState
      requires lit == ENC_LITERAL + 0x300 * c.lit && lit + 768 <= probs.Length
      requires state >= 7 ==> matchByte == c.matchByte
      modifies rc, probs
      ensures Valid() && OpsOk(PacketOps(c, Lit(b)), probs.Length)
      ensures View() == EmitAll(old(View()), PacketOps(c, Lit(b)))
    {
      PacketOpsInside(c, Lit(b), probs.Length);
      LiteralTail(c, b);
      hide EmitAll, Emit, LitOps, MatchedOps, PacketOps, AllProbs;
      Next(ENC_IS_MATCH + state * 16 + posState, 0, PacketOps(c, Lit(b)));
      if state < 7 {
        LitEncode(lit, b);
      } else {
        LitEncodeMatched(lit, b, matchByte);
      }
    }

    /** Which recent distance is meant; it moves to the front. */
    method PutWhich(ghost c: Context, posState: nat, index: nat)
      requires Valid() && c.Ok() && c.state == state && c.posState == posState && index < 4
      modifies this`reps, rc, probs
      ensures Valid() && OpsOk(WhichOps(c, index), probs.Length)
      ensures View() == EmitAll(old(View()), WhichOps(c, index))
      ensures reps == old(reps).Promote(index)
    {
      ghost var r0 := WhichOps(c, index);
      ghost var r1 := r0[1..];
      ghost var r2 := r1[1..];
      assert index >= 2 ==> r2[1..] == [];
      assert OpsOk(r0, probs.Length);
      hide EmitAll, Emit, AllProbs;
      if index == 0 {
        Next(ENC_IS_REP_G0 + state, 0, r0);
        Next(ENC_IS_REP0_LONG + state * 16 + posState, 1, r1);
      } else {
        Next(ENC_IS_REP_G0 + state, 1, r0);
        if index == 1 {
          Next(ENC_IS_REP_G1 + state, 0, r1);
          reps := Reps(reps.r1, reps.r0, reps.r2, reps.r3);
        } else {
          Next(ENC_IS_REP_G1 + state, 1, r1);
          Next(ENC_IS_REP_G2 + state, index - 2, r2);
          reps := if index == 2 then Reps(reps.r2, reps.r0, reps.r1, reps.r3) else Reps(reps.r3, reps.r0, reps.r1, reps.r2);
        }
      }
      EmitNothing(View());
    }

    /** `len` bytes at a recent distance. */
    method PutRep(ghost c: Context, posState: nat, index: nat, len: nat)
      requires Valid() && c.Ok() && c.state == state && c.posState == posState
      requires index < 4 && 2 <= len <= 273
      modifies this`reps, rc, probs
      ensures Valid() && OpsOk(PacketOps(c, Rep(index, len)), probs.Length)
      ensures View() == EmitAll(old(View()), PacketOps(c, Rep(index, len)))
      ensures reps == old(reps).Promote(index)
    {
      ghost var ops, len_ops := PacketOps(c, Rep(index, len)), LenOps(ENC_REP_LEN, len - 2, posState);
      RepParts(c, index, len, probs.Length);
      hide EmitAll, Emit, PacketOps, LenOps, WhichOps, AllProbs, OpsOk;
      Next(ENC_IS_MATCH + state * 16 + posState, 1, ops);
      Next(ENC_IS_REP + state, 1, ops[1..]);
      EmitAppend(View(), WhichOps(c, index), len_ops);
      PutWhich(c, posState, index);
      LenEncode(ENC_REP_LEN, len - 2, posState);
    }

    method PutShortRep(ghost c: Context, posState: nat)
      requires Valid() && c.Ok() && c.state == state && c.posState == posState
      requires ENC_LITERAL + 0x300 * (c.lit + 1) <= probs.Length
      modifies rc, probs
      ensures Valid() && OpsOk(PacketOps(c, ShortRep), probs.Length)
      ensures View() == EmitAll(old(View()), PacketOps(c, ShortRep))
    {
      ghost var ops := PacketOps(c, ShortRep);
      PacketOpsInside(c, ShortRep, probs.Length);
      hide EmitAll, Emit, AllProbs;
      Next(ENC_IS_MATCH + state * 16 + posState, 1, ops);
      Next(ENC_IS_REP + state, 1, ops[1..]);
      Next(ENC_IS_REP_G0 + state, 0, ops[1..][1..]);
      Next(ENC_IS_REP0_LONG + state * 16 + posState, 0, ops[1..][1..][1..]);
      EmitNothing(View());
      assert ops[1..][1..][1..][1..] == [];
    }

    /** The bits before the distance of a match: what is left to code are slot and footer. */
    method PutMatchHead(ghost c: Context, posState: nat, ghost dist: nat, len: nat)
      requires Valid() && c.Ok() && c.state == state && c.posState == posState
      requires 2 <= len <= 273 && dist < 0x1_0000_0000 && SlotOf(dist) < 64
      modifies rc, probs
      ensures Valid() && OpsOk(PacketOps(c, Match(dist, len)), probs.Length)
      ensures OpsOk(DistanceOps(dist, len), probs.Length)
      ensures EmitAll(View(), DistanceOps(dist, len)) == EmitAll(old(View()), PacketOps(c, Match(dist, len)))
    {
      ghost var ops := PacketOps(c, Match(dist, len));
      MatchParts(c, dist, len, probs.Length);
      hide EmitAll, Emit, PacketOps, LenOps, AllProbs, DistanceOps, SlotOf, OpsOk;
      Next(ENC_IS_MATCH + state * 16 + posState, 1, ops);
      Next(ENC_IS_REP + state, 0, ops[1..]);
      EmitAppend(View(), LenOps(ENC_LEN, len - 2, posState), DistanceOps(dist, len));
      LenEncode(ENC_LEN, len - 2, posState);
    }

    /** A match at a new distance. */
    method PutMatch(ghost c: Context, posState: nat, dist: nat, len: nat)
      requires Valid() && TableOk() && c.Ok() && c.state == state && c.posState == posState
      requires 2 <= len <= 273 && dist < 0x1_0000_0000 && Covered(dist, logBits)
      modifies this`reps, rc, probs
      ensures Valid() && OpsOk(PacketOps(c, Match(dist, len)), probs.Length)
      ensures View() == EmitAll(old(View()), PacketOps(c, Match(dist, len)))
      ensures reps == old(reps).Push(dist + 1)
    {
      hide EmitAll, Emit, PacketOps, AllProbs, DistanceOps, SlotOf, Pow2, OpsOk;
      SlotBounds(dist);
      PutMatchHead(c, posState, dist, len);
      PutDistance(dist, len);
    }

    /** The new distance moves to the front, then its slot and footer are coded. */
    method PutDistance(dist: nat, len: nat)
      requires Valid() && TableOk()
      requires 2 <= len <= 273 && dist < 0x1_0000_0000 && Covered(dist, logBits) && SlotOf(dist) < 64
      modifies this`reps, rc, probs
      ensures Valid() && reps == old(reps).Push(dist + 1)
      ensures OpsOk(DistanceOps(dist, len), probs.Length) && View() == EmitAll(old(View()), DistanceOps(dist, len))
    {
      hide EmitAll, Emit, AllProbs, SlotOps, SlotOf, FooterOps, Pow2, OpsOk, CodeBit, CodeDirect;
      SlotOpsOk(ENC_POS_SLOT + LenState(len - 2) * 64, 64 + SlotOf(dist), probs.Length);
      FooterOpsOk(dist, probs.Length);
      reps := Reps(dist + 1, reps.r0, reps.r1, reps.r2);
      var slot := GetPosSlot(fastPos, logBits, dist);
      EmitAppend(View(), SlotOps(ENC_POS_SLOT + LenState(len - 2) * 64, 64 + slot), FooterOps(dist));
      SlotEncode(ENC_POS_SLOT + LenState(len - 2) * 64, slot);
      PutFooter(dist, slot);
    }

    /** The bits of a distance after its slot. */
    method PutFooter(dist: nat, slot: nat)
      requires Valid() && dist < 0x1_0000_0000 && slot == SlotOf(dist)
      modifies rc, probs
      ensures Valid() && OpsOk(FooterOps(dist), probs.Length)
      ensures View() == EmitAll(old(View()), FooterOps(dist))
    {
      hide EmitAll, ReverseOps, DirectOps, SlotOf, Pow2, Doubled, FooterOps, AllProbs;
      FooterOpsOk(dist, probs.Length);
      if dist >= 4 {
        FooterParts(dist);
        var footerBits := slot / 2 - 1;
        if dist < 128 {
          ReverseEncode(ENC_SPEC + SlotBase(slot, footerBits), footerBits, dist);
        } else {
          PutLongFooter(dist, footerBits, (dist - SlotBase(slot, footerBits)) / 16);
        }
      } else {
        NoFooter(dist);
        EmitNothing(View());
      }
    }

    /** Direct bits, then the four low bits under the align model. */
    method PutLongFooter(dist: nat, footerBits: nat, ghost v: nat)
      requires Valid() && 5 <= footerBits <= 30 && v < Pow2(footerBits - 4)
      requires Word32(Doubled(dist - dist % 16 + 15, 32 - footerBits)) == DirectWord(v, footerBits - 4)
      modifies rc, probs
      ensures Valid() && OpsOk(DirectOps(v, footerBits - 4) + ReverseOps(ENC_ALIGN, 1, 4, dist), probs.Length)
      ensures View() == EmitAll(old(View()), DirectOps(v, footerBits - 4) + ReverseOps(ENC_ALIGN, 1, 4, dist))
    {
      DirectOpsOk(v, footerBits - 4, probs.Length);
      AlignOpsOk(dist, probs.Length);
      hide EmitAll, ReverseOps, DirectOps, Pow2, Doubled, AllProbs, DirectWord;
      EmitAppend(View(), DirectOps(v, footerBits - 4), ReverseOps(ENC_ALIGN, 1, 4, dist));
      var pos2 := Word32(Doubled(dist - dist % 16 + 15, 32 - footerBits));
      DirectEncode(v, footerBits - 4, pos2);
      ReverseEncode(ENC_ALIGN, 4, dist);
    }

    /** The loop that codes slot 63 as ones. */
    method OnesSlot(base: nat)
      requires Valid() && base + 64 <= probs.Length
      modifies rc, probs
      ensures Valid() && OpsOk(SlotOps(base, 127), probs.Length)
      ensures View() == EmitAll(old(View()), SlotOps(base, 127))
    {
      hide EmitAll, Emit, AllProbs, EncSize;
      var m := 1;
      ghost var w := 1;
      SlotOpsOk(base, 127, probs.Length);
      while m < 64
        invariant Valid() && m == 2 * w - 1 && w in {1, 2, 4, 8, 16, 32, 64}
        invariant OpsOk(SlotOps(base, 127 * w), probs.Length)
        invariant EmitAll(View(), SlotOps(base, 127 * w)) == EmitAll(old(View()), SlotOps(base, 127))
        decreases 64 - w
      {
        ghost var ops := SlotOps(base, 127 * w);
        OnesStep(w);
        assert ops[1..] == SlotOps(base, 127 * (2 * w));
        Next(base + m, 1, ops);
        m := 2 * m + 1;
        w := 2 * w;
      }
      EmitNothing(View());
    }

    /** Direct ones. */
    method OnesDirect(count: nat)
      requires Valid() && count <= 26
      modifies rc
      ensures Valid() && OpsOk(DirectOps(Pow2(count) - 1, count), probs.Length)
      ensures View() == EmitAll(old(View()), DirectOps(Pow2(count) - 1, count))
    {
      hide EmitAll, Emit, AllProbs, EncSize, DirectOps, Pow2;
      var numBits := count;
      DirectOpsOk(Pow2(count) - 1, count, probs.Length);
      while numBits != 0
        invariant Valid() && OpsOk(DirectOps(Pow2(numBits) - 1, numBits), probs.Length)
        invariant EmitAll(View(), DirectOps(Pow2(numBits) - 1, numBits)) == EmitAll(old(View()), DirectOps(Pow2(count) - 1, count))
      {
        OnesTop(numBits);
        DirectOpsStep(Pow2(numBits) - 1, numBits);
        NextDirect(1, DirectOps(Pow2(numBits) - 1, numBits));
        numBits := numBits - 1;
      }
      NoDirectOps(Pow2(0) - 1);
      EmitNothing(View());
    }

    method NextDirect(bit: int, ghost ops: seq<Op>)
      requires Valid() && OpsOk(ops, probs.Length) && ops != [] && ops[0] == Direct(bit)
      modifies rc
      ensures Valid() && OpsOk(ops[1..], probs.Length)
      ensures EmitAll(View(), ops[1..]) == EmitAll(old(View()), ops)
    {
      DirectBit(bit);
    }

    /** The four align bits as ones. */
    method OnesAlign()
      requires Valid()
      modifies rc, probs
      ensures Valid() && OpsOk(ReverseOps(ENC_ALIGN, 1, 4, END_DISTANCE), probs.Length)
      ensures View() == EmitAll(old(View()), ReverseOps(ENC_ALIGN, 1, 4, END_DISTANCE))
    {
      hide EmitAll, Emit, AllProbs, ReverseOps;
      AlignOpsOk(END_DISTANCE, probs.Length);
      var m := 1;
      ghost var left, sym := 4, END_DISTANCE;
      while m < 16
        invariant m < 16 <==> left > 0
        invariant (left, m) in {(4, 1), (3, 3), (2, 7), (1, 15), (0, 31)}
        invariant sym >= 0 && (left, sym) in {(4, 0xFFFF_FFFF), (3, 0x7FFF_FFFF), (2, 0x3FFF_FFFF), (1, 0x1FFF_FFFF), (0, 0xFFF_FFFF)}
        invariant Valid() && OpsOk(ReverseOps(ENC_ALIGN, m, left, sym), probs.Length)
        invariant EmitAll(View(), ReverseOps(ENC_ALIGN, m, left, sym)) == EmitAll(old(View()), ReverseOps(ENC_ALIGN, 1, 4, END_DISTANCE))
        decreases left
      {
        ReverseOpsStep(ENC_ALIGN, m, left, sym);
        Next(ENC_ALIGN + m, 1, ReverseOps(ENC_ALIGN, m, left, sym));
        m := 2 * m + 1;
        left, sym := left - 1, sym / 2;
      }
      NoReverseOps(ENC_ALIGN, m, sym);
      EmitNothing(View());
    }

    /** WriteEndMarker: a match of length 2 at distance 0xFFFFFFFF, written out as ones. */
    method WriteEndMarker(ghost c: Context, posState: nat)
      requires Valid() && c.Ok() && c.state == state && c.posState == posState
      modifies rc, probs
      ensures Valid() && OpsOk(PacketOps(c, Match(END_DISTANCE, 2)), probs.Length)
      ensures View() == EmitAll(old(View()), PacketOps(c, Match(END_DISTANCE, 2)))
    {
      hide EmitAll, Emit, PacketOps, AllProbs, DistanceOps, SlotOf, OpsOk, FooterOps;
      EndParts();
      PutMatchHead(c, posState, END_DISTANCE, 2);
      OnesDistance();
    }

    method OnesDistance()
      requires Valid() && SlotOf(END_DISTANCE) == 63
      modifies rc, probs
      ensures Valid() && OpsOk(DistanceOps(END_DISTANCE, 2), probs.Length)
      ensures View() == EmitAll(old(View()), DistanceOps(END_DISTANCE, 2))
    {
      hide EmitAll, Emit, AllProbs, SlotOps, FooterOps, OpsOk, SlotOf;
      SlotOpsOk(ENC_POS_SLOT, 127, probs.Length);
      FooterOpsOk(END_DISTANCE, probs.Length);
      EmitAppend(View(), SlotOps(ENC_POS_SLOT, 127), FooterOps(END_DISTANCE));
      OnesSlot(ENC_POS_SLOT);
      OnesFooter();
    }

    method OnesFooter()
      requires Valid()
      modifies rc, probs
      ensures Valid() && OpsOk(FooterOps(END_DISTANCE), probs.Length)
      ensures View() == EmitAll(old(View()), FooterOps(END_DISTANCE))
    {
      hide EmitAll, Emit, FooterOps, Pow2, OpsOk, DirectOps, ReverseOps, AllProbs, SlotOf, Doubled;
      EndParts();
      DirectOpsOk(Pow2(26) - 1, 26, probs.Length);
      AlignOpsOk(END_DISTANCE, probs.Length);
      EmitAppend(View(), DirectOps(Pow2(26) - 1, 26), ReverseOps(ENC_ALIGN, 1, 4, END_DISTANCE));
      OnesDirect(26);
      OnesAlign();
    }

    // ---------- One packet, and the whole stream ----------

    /** The probabilities of the next packet, and that a codable packet's operations fit the memory. */
    ghost function Here(): Context
      reads this
      requires p.Ok() && pos <= |data|
    {
      ContextOf(p, Z())
    }

    /** The parser's choice for a packet: the pair (back, len) that it hands to the coder. */
    static function Choice(k: Packet): (nat, nat) {
      match k
      case Lit(b) => (MARK_LIT, 1)
      case ShortRep => (0, 1)
      case Rep(index, len) => (index, len)
      case Match(dist, len) => (dist + 4, len)
    }

    /** The packet is possible here and spells the next bytes of the data. */
    ghost predicate Fits(k: Packet)
      reads this
    {
      && p.Ok() && pos < |data| && LzOk(p, Z()) && Accepts(p, Z(), k) && PacketOk(k)
      && (ApplyOk(p, Z(), k); Apply(p, Z(), k).hist <= data)
    }

    /** The first byte of a stream. */
    method CodeFirst()
      requires Ready() && pos == 0 < |data|
      modifies this`pos, rc, probs
      ensures Ready() && View() == CodePacket(p, old(Z()), old(View()), Lit(data[0]))
      ensures Z() == Apply(p, old(Z()), Lit(data[0]))
    {
      ghost var c := Here();
      assert c == Context(0, 0, 0, 0);
      PacketOpsOk(p, Z(), Lit(data[0]));
      PutFirst(c);
      pos := 1;
      assert data[..1] == [data[0]];
    }

    method PutFirst(ghost c: Context)
      requires Valid() && 0 < |data| && c == Context(0, 0, 0, 0)
      modifies rc, probs
      ensures Valid() && OpsOk(PacketOps(c, Lit(data[0])), probs.Length)
      ensures View() == EmitAll(old(View()), PacketOps(c, Lit(data[0])))
    {
      hide EmitAll, Emit, LitOps, MatchedOps, PacketOps, AllProbs, OpsOk;
      LiteralTail(c, data[0]);
      PacketOpsInside(c, Lit(data[0]), probs.Length);
      Next(ENC_IS_MATCH, 0, PacketOps(c, Lit(data[0])));
      LitEncode(ENC_LITERAL, data[0]);
    }

    /** What the context of a later packet is made of. */
    lemma HereOk()
      requires Ready() && 0 < pos
      ensures var c := Here();
              && c.Ok() && c.state == state && c.posState == pos % Pow2(p.pb)
              && LitOffset(p, pos, data[pos - 1]) == 0x300 * c.lit
              && 1 <= reps.r0 <= pos && c.matchByte == data[pos - reps.r0]
              && ENC_LITERAL + 0x300 * (c.lit + 1) <= probs.Length
    {
      OffsetIsIndex(p, pos, data[pos - 1]);
      ContextOk(p, Z());
    }

    /** Codes the parser's choice and updates the recent distances. */
    method PutChoice(ghost c: Context, ghost k: Packet, posState: nat, back: nat, len: nat)
      requires Valid() && TableOk() && c.Ok() && c.state == state && c.posState == posState && 0 < pos < |data|
      requires LitOffset(p, pos, data[pos - 1]) == 0x300 * c.lit && ENC_LITERAL + 0x300 * (c.lit + 1) <= probs.Length
      requires 1 <= reps.r0 <= pos && c.matchByte == data[pos - reps.r0]
      requires PacketOk(k) && Choice(k) == (back, len) && (k.Lit? ==> k.b == data[pos])
      requires k.Match? ==> k.dist < 0x8000_0000 && Covered(k.dist, logBits)
      modifies this`reps, rc, probs
      ensures Valid() && EncPacketOk(k) && OpsOk(PacketOps(c, k), probs.Length)
      ensures View() == EmitAll(old(View()), PacketOps(c, k))
      ensures reps == Header(Lz(state, old(reps), []), k).1
    {
      hide EmitAll, PacketOps, AllProbs, OpsOk, LitOffset, Covered, EncSize;
      if back == MARK_LIT {
        var lit := ENC_LITERAL + LitOffset(p, pos, data[pos - 1]);
        PutLiteral(c, posState, lit, data[pos], data[pos - reps.r0]);
      } else if back < 4 {
        if back == 0 && len == 1 {
          PutShortRep(c, posState);
        } else {
          PutRep(c, posState, back, len);
        }
      } else {
        PutMatch(c, posState, back - 4, len);
      }
    }

    /** The next state, from the tables. */
    method NextState(ghost k: Packet, ghost r: Reps, back: nat, len: nat)
      requires state < 12 && PacketOk(k) && Choice(k) == (back, len) && (k.Match? ==> k.dist < 0x8000_0000)
      modifies this`state
      ensures state == Header(Lz(old(state), r, []), k).0
    {
      TablesAreArithmetic(state);
      state := if back == MARK_LIT then LITERAL_NEXT[state]
               else if back == 0 && len == 1 then SHORT_REP_NEXT[state]
               else if back < 4 then REP_NEXT[state] else MATCH_NEXT[state];
    }

    /** A packet after the first byte. */
    method CodeLater(ghost k: Packet, back: nat, len: nat)
      requires Ready() && 0 < pos < |data| && PacketOk(k) && Choice(k) == (back, len) && (k.Lit? ==> k.b == data[pos])
      requires k.Match? ==> k.dist < 0x8000_0000 && Covered(k.dist, logBits)
      modifies this`state, this`reps, this`pos, rc, probs
      ensures Valid() && pos == old(pos) + len
      ensures var c := old(Here());
              && c.Ok() && EncPacketOk(k) && OpsOk(PacketOps(c, k), probs.Length)
              && View() == EmitAll(old(View()), PacketOps(c, k))
      ensures var h := Header(Lz(old(state), old(reps), []), k); state == h.0 && reps == h.1
    {
      HereOk();
      ghost var c, r0 := Here(), reps;
      hide EmitAll, Emit, Header, Choice, PacketOps, AllProbs, Covered, LitOffset, ContextOf, LzOk, OpsOk, PacketOk, Pow2, EncPacketOk;
      PutChoice(c, k, pos % Pow2(p.pb), back, len);
      assert View() == EmitAll(old(View()), PacketOps(c, k));
      NextState(k, r0, back, len);
      pos := pos + len;
      assert View() == EmitAll(old(View()), PacketOps(c, k));
    }

    /** One round of the encoding loop. */
    method CodeOne(ghost k: Packet, back: nat, len: nat)
      requires Ready() && Fits(k) && Choice(k) == (back, len)
      modifies this`state, this`reps, this`pos, rc, probs
      ensures Ready() && old(WriterOk(p, Z(), View()) && Codable(p, Z(), k))
      ensures View() == CodePacket(p, old(Z()), old(View()), k)
      ensures Z() == Apply(p, old(Z()), k)
    {
      FitsHere(k);
      if pos == 0 {
        CodeFirst();
      } else {
        ghost var z1 := Apply(p, Z(), k);
        hide EmitAll, Apply, Header, Choice, PacketOps, AllProbs, Covered, ContextOf, CodePacket, LzOk, OpsOk, Accepts, PacketOk;
        CodeLater(k, back, len);
        assert Z() == z1;
      }
    }

    /** A packet that fits: what coding it will need. */
    lemma FitsHere(k: Packet)
      requires Ready() && Fits(k)
      ensures WriterOk(p, Z(), View()) && Codable(p, Z(), k)
      ensures k.Lit? ==> k.b == data[pos]
      ensures pos == 0 ==> k == Lit(data[0])
      ensures k.Match? ==> k.dist < 0x8000_0000 && Covered(k.dist, logBits)
      ensures pos + Choice(k).1 <= |data|
      ensures LzOk(p, Apply(p, Z(), k))
      ensures var h := Header(Lz(state, reps, []), k); Apply(p, Z(), k) == Lz(h.0, h.1, data[..pos + Choice(k).1])
      ensures Here().Ok() && EncPacketOk(k) && OpsOk(PacketOps(Here(), k), probs.Length)
      ensures CodePacket(p, Z(), View(), k) == EmitAll(View(), PacketOps(Here(), k))
    {
      hide PacketOps, OpsOk, EmitAll, ContextOf, LzOk, PacketOk, Apply, Header, Pow2;
      PacketOpsOk(p, Z(), k);
      ApplyOk(p, Z(), k);
      FitsData(p, Z(), k, data, pos);
      FitsTable(p, Z(), k, logBits);
    }

    /** Where the encoder is in a parse of its data. */
    ghost predicate At(packets: seq<Packet>)
      reads this, rc, probs, fastPos
    {
      Ready() && Parses(p, Z(), packets) && CodeAll(p, Z(), View(), packets).0.hist == data
    }

    lemma AtFits(packets: seq<Packet>)
      requires At(packets) && packets != []
      ensures Fits(packets[0])
    {
      CodeAllStep(p, Z(), View(), packets);
    }

    /** One packet of a parse. */
    method CodeNext(ghost packets: seq<Packet>, back: nat, len: nat)
      requires At(packets) && packets != [] && Choice(packets[0]) == (back, len)
      modifies this`state, this`reps, this`pos, rc, probs
      ensures At(packets[1..]) && old(At(packets))
      ensures CodeAll(p, Z(), View(), packets[1..]) == old(CodeAll(p, Z(), View(), packets))
    {
      AtFits(packets);
      CodeAllStep(p, Z(), View(), packets);
      hide CodeAll, LzOk, AllProbs, Apply, CodePacket, Accepts, PacketOk, Choice, Fits;
      CodeOne(packets[0], back, len);
    }

    /** Codes the parser's choices, writes the end marker if one is wanted, and flushes. */
    method EncodeStream(ghost packets: seq<Packet>, choices: seq<(nat, nat)>, mark: bool)
      requires Ready() && View() == EncStart(p) && Z() == LZ_START
      requires Parses(p, LZ_START, packets) && Plain(p, packets) == data
      requires |choices| == |packets| && forall i :: 0 <= i < |choices| ==> choices[i] == Choice(packets[i])
      modifies this`state, this`reps, this`pos, rc, probs
      ensures Encodes(p, packets, mark, rc.out)
    {
      ghost var goal := CodeAll(p, LZ_START, EncStart(p), packets);
      var i := 0;
      assert packets[0..] == packets;
      while i < |choices|
        invariant 0 <= i <= |choices|
        invariant At(packets[i..]) && CodeAll(p, Z(), View(), packets[i..]) == goal
      {
        hide CodeAll, LzOk, AllProbs, Choice;
        var (back, len) := choices[i];
        assert packets[i..][1..] == packets[i + 1..];
        CodeNext(packets[i..], back, len);
        i := i + 1;
      }
      assert goal == (Z(), View());
      Finish(mark);
    }

    /** The end of the stream. */
    method Finish(mark: bool)
      requires Ready()
      modifies rc, probs
      ensures old(WriterOk(p, Z(), View())) && Flushed(Closed(p, old(Z()), old(View()), mark), rc.out)
      ensures |rc.out| > 0 && rc.out[0] == 0
    {
      ghost var e := View();
      if mark {
        PacketOpsOk(p, Z(), Match(END_DISTANCE, 2));
        ContextOk(p, Z());
        ghost var c := Here();
        assert c.state == state && c.posState == pos % Pow2(p.pb);
        hide EmitAll, PacketOps, LzOk, ContextOf, Emit;
        WriteEndMarker(c, pos % Pow2(p.pb));
      }
      assert View() == Closed(p, Z(), e, mark);
      rc.FlushData();
    }
  }

  lemma OnesStep(w: nat)
    requires w in {1, 2, 4, 8, 16, 32}
    ensures 127 * w / 64 == 2 * w - 1 && 127 * w / 32 % 2 == 1 && 127 * w < 4096
  {
  }

  /** The end marker's numbers: slot 63, 26 direct ones, four align ones. */
  lemma EndParts()
    ensures SlotOf(END_DISTANCE) == 63
    ensures FooterOps(END_DISTANCE) == DirectOps(Pow2(26) - 1, 26) + ReverseOps(ENC_ALIGN, 1, 4, END_DISTANCE)
  {
    hide Pow2, SlotOf, Doubled, FooterOps, DirectOps, ReverseOps, DirectWord;
    Pow2Values();
    SlotAbove(END_DISTANCE, 31);
    SlotSplits(END_DISTANCE);
    SlotBounds(END_DISTANCE);
    DoubledIsTimes(2, 30);
    DoubledIsTimes(3, 30);
    assert SlotOf(END_DISTANCE) == 63 by {
      if SlotOf(END_DISTANCE) == 62 {
        assert false;
      }
    }
    FooterParts(END_DISTANCE);
  }

  lemma EmitNothing(e: Enc)
    requires EncOk(e)
    ensures EmitAll(e, []) == e
  {
  }

  lemma LiteralTail(c: Context, b: Byte)
    requires c.Ok()
    ensures var ops := PacketOps(c, Lit(b)); var base := ENC_LITERAL + 0x300 * c.lit;
            && ops != [] && ops[0] == Modelled(ENC_IS_MATCH + c.state * 16 + c.posState, 0)
            && (c.state < 7 ==> ops[1..] == LitOps(base, 0x100 + b as int))
            && (c.state >= 7 ==> ops[1..] == MatchedOps(base, 0x100 + b as int, c.matchByte, 0x100))
  {
    hide LitOps, MatchedOps;
  }

  function WhichOps(c: Context, index: nat): seq<Op> {
    var g0, g1, g2 := ENC_IS_REP_G0 + c.state, ENC_IS_REP_G1 + c.state, ENC_IS_REP_G2 + c.state;
    if index == 0 then [Modelled(g0, 0), Modelled(ENC_IS_REP0_LONG + c.state * 16 + c.posState, 1)]
    else if index == 1 then [Modelled(g0, 1), Modelled(g1, 0)]
    else [Modelled(g0, 1), Modelled(g1, 1), Modelled(g2, index - 2)]
  }

  lemma RepParts(c: Context, index: nat, len: nat, size: nat)
    requires c.Ok() && index < 4 && 2 <= len <= 273 && ENC_LITERAL <= size
    ensures var ops := PacketOps(c, Rep(index, len)); var a := LenOps(ENC_REP_LEN, len - 2, c.posState);
            && 2 <= |ops| && ops[0] == Modelled(ENC_IS_MATCH + c.state * 16 + c.posState, 1)
            && ops[1] == Modelled(ENC_IS_REP + c.state, 1) && ops[1..][1..] == WhichOps(c, index) + a
            && OpsOk(ops, size) && OpsOk(a, size) && OpsOk(WhichOps(c, index), size)
  {
    hide LenOps;
    LenOpsOk(ENC_REP_LEN, len - 2, c.posState, size);
  }

  /** Slot and footer of a match. */
  function DistanceOps(dist: nat, len: nat): seq<Op>
    requires 2 <= len && dist < 0x1_0000_0000 && SlotOf(dist) < 64
  {
    SlotOps(ENC_POS_SLOT + LenState(len - 2) * 64, 64 + SlotOf(dist)) + FooterOps(dist)
  }

  lemma MatchParts(c: Context, dist: nat, len: nat, size: nat)
    requires c.Ok() && 2 <= len <= 273 && dist < 0x1_0000_0000 && ENC_LITERAL <= size && SlotOf(dist) < 64
    ensures var ops := PacketOps(c, Match(dist, len)); var a := LenOps(ENC_LEN, len - 2, c.posState);
            && 2 <= |ops| && ops[0] == Modelled(ENC_IS_MATCH + c.state * 16 + c.posState, 1)
            && ops[1] == Modelled(ENC_IS_REP + c.state, 0) && ops[1..][1..] == a + DistanceOps(dist, len)
            && OpsOk(ops, size) && OpsOk(a, size) && OpsOk(DistanceOps(dist, len), size)
  {
    hide LenOps, SlotOps, FooterOps, SlotOf;
    LenOpsOk(ENC_LEN, len - 2, c.posState, size);
    SlotOpsOk(ENC_POS_SLOT + LenState(len - 2) * 64, 64 + SlotOf(dist), size);
    FooterOpsOk(dist, size);
  }

  lemma NoFooter(dist: nat)
    requires dist < 4
    ensures FooterOps(dist) == []
  {
  }

  /** The footer's parts, and the word its direct bits are taken from. */
  lemma FooterParts(dist: nat)
    requires 4 <= dist < 0x1_0000_0000
    ensures var slot := SlotOf(dist); var n := slot / 2 - 1; var base := SlotBase(slot, n); var v := (dist - base) / 16;
            && 4 <= slot < 64 && base <= dist
            && (dist < 128 ==> FooterOps(dist) == ReverseOps(ENC_SPEC + base, 1, n, dist))
            && (128 <= dist ==>
                  && 5 <= n <= 30 && v < Pow2(n - 4)
                  && FooterOps(dist) == DirectOps(v, n - 4) + ReverseOps(ENC_ALIGN, 1, 4, dist)
                  && Word32(Doubled(dist - dist % 16 + 15, 32 - n)) == DirectWord(v, n - 4))
  {
    hide Doubled, Pow2, Word32, SlotOf, ReverseOps, DirectOps, DirectWord;
    SlotSplits(dist);
    SlotBounds(dist);
    if 128 <= dist {
      var slot := SlotOf(dist);
      var n := slot / 2 - 1;
      FooterSplit(dist - SlotBase(slot, n), n);
      FooterWord(2 + slot % 2, n, dist);
    }
  }

  lemma FooterWord(lead: nat, n: nat, dist: nat)
    requires 5 <= n <= 30 && Doubled(lead, n) <= dist < Doubled(lead, n) + Pow2(n)
    requires (dist - Doubled(lead, n)) / 16 < Pow2(n - 4)
    ensures Word32(Doubled(dist - dist % 16 + 15, 32 - n)) == DirectWord((dist - Doubled(lead, n)) / 16, n - 4)
  {
    hide Doubled, Pow2, Word32;
    var top := Doubled(lead, n - 4);
    var v := (dist - Doubled(lead, n)) / 16;
    DoubledTwice(lead, n - 4, 4);
    SixteenFold(top);
    LowNibble(dist, top, v);
    DoubledSum(Doubled(lead, n), 16 * v + 15, 32 - n);
    DoubledTwice(lead, n, 32 - n);
    DoubledIsTimes(lead, 32);
    Pow2Values();
    DirectWordStep(v, n - 4);
    WordOfMultiple(lead, DirectWord(v, n - 4));
  }

  lemma LowNibble(dist: nat, top: nat, v: nat)
    requires 16 * top <= dist && v == (dist - 16 * top) / 16
    ensures dist - dist % 16 + 15 == 16 * top + (16 * v + 15)
  {
  }

  lemma SixteenFold(k: nat)
    ensures Doubled(k, 4) == 16 * k
  {
    assert Doubled(k, 1) == 2 * Doubled(k, 0);
    assert Doubled(k, 2) == 2 * Doubled(k, 1);
    assert Doubled(k, 3) == 2 * Doubled(k, 2);
  }

  lemma WordOfMultiple(k: nat, w: nat)
    requires w < 0x1_0000_0000
    ensures Word32(k * 0x1_0000_0000 + w) == w
  {
  }

  /** A packet that spells the next bytes. */
  lemma FitsData(p: Props, z: Lz, k: Packet, data: seq<Byte>, pos: nat)
    requires p.Ok() && pos < |data| && z.hist == data[..pos] && LzOk(p, z) && Accepts(p, z, k) && PacketOk(k)
    requires z.hist != [] ==> 1 <= Header(z, k).1.r0 <= |z.hist|
    requires 0 <= Header(z, k).0 && Apply(p, z, k).hist <= data
    ensures k.Lit? ==> k.b == data[pos]
    ensures pos == 0 ==> k == Lit(data[0])
    ensures pos + LzmaEnc.Choice(k).1 <= |data| && LzOk(p, Apply(p, z, k))
    ensures var h := Header(Lz(z.state, z.reps, []), k);
            Apply(p, z, k) == Lz(h.0, h.1, data[..pos + LzmaEnc.Choice(k).1])
  {
    hide LzOk;
    ApplyOk(p, z, k);
    FitsBytes(p, z, k);
    var h := Apply(p, z, k).hist;
    assert h == data[..|h|];
    if k.Lit? {
      assert h[pos] == k.b;
    }
    if pos == 0 {
      HeaderOk(p, z, k);
    }
  }

  lemma FitsBytes(p: Props, z: Lz, k: Packet)
    requires p.Ok() && LzOk(p, z) && Accepts(p, z, k) && PacketOk(k)
    requires z.hist != [] ==> 1 <= Header(z, k).1.r0 <= |z.hist|
    requires 0 <= Header(z, k).0
    ensures z.hist == [] ==> k.Lit?
    ensures |Apply(p, z, k).hist| == |z.hist| + LzmaEnc.Choice(k).1
    ensures k.Lit? ==> Apply(p, z, k).hist == z.hist + [k.b]
  {
  }

  /** The slot table covers every distance the dictionary allows. */
  lemma FitsTable(p: Props, z: Lz, k: Packet, logBits: nat)
    requires p.Ok() && Accepts(p, z, k) && LogBitsOk(logBits) && p.dicSize <= Pow2(2 * logBits + 5)
    ensures k.Match? ==> k.dist < 0x8000_0000 && Covered(k.dist, logBits)
  {
    Pow2Mono(2 * logBits + 5, 31);
    Pow2Values();
  }
}
