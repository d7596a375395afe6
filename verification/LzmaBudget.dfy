/** Twenty bytes are enough for any symbol (LZMA_REQUIRED_INPUT_MAX). */
module LzmaBudget {
  import opened Bytes
  import opened Powers
  import opened BitModel
  import opened RangeEncoder
  import opened RangeDecoder
  import opened LzmaSyntax
  import opened LzmaReader
  import opened LzmaState
  import opened LzmaStream
  import opened Wrappers

  const LZMA_REQUIRED_INPUT_MAX: nat := 20
  const TOP_VALUE: nat := 0x100_0000

  function Pow256(n: nat): (r: nat)
    ensures 1 <= r
  {
    if n == 0 then 1 else 256 * Pow256(n - 1)
  }

  /** What is needed before n modelled bits when `x` is needed after them: 67 > 2^24 / (31 * 8191), and no
      modelled bit shrinks the range below 31 * 8191 / 2^24 of what it was. */
  function Modelled(x: nat, n: nat): nat { if n == 0 then x else 67 * Modelled(x, n - 1) }

  const ALIGNED: nat := 338079709659136
  const SLACK: nat := 40302242

  /** What is needed before n direct bits and the four align bits; a direct bit leaves (2^24 - 1) / 2^25. */
  function Direct(n: nat): nat { Doubled(ALIGNED + n * SLACK, n) }

  function Log2(m: nat): nat {
    if m < 2 then 0 else if m < 4 then 1 else if m < 8 then 2 else if m < 16 then 3 else if m < 32 then 4
    else if m < 64 then 5 else if m < 128 then 6 else if m < 256 then 7 else 8
  }

  /** What is needed before n modelled bits that come before the end of a length. */
  function BeforeLen(use: LenUse, n: nat): nat {
    if use.ForRep? then Modelled(TOP_VALUE, n) else Modelled(Direct(26), 6 + n)
  }

  function Minus(a: nat, b: nat): nat { if b <= a then a - b else 0 }

  /** The least `range * 256^(bytes left)` with which the rest of the symbol from `s` can be read. */
  function Need(s: Parse): nat {
    match s
    case IsMatchBit => Modelled(Direct(26), 18)
    case LitBit(sym) => Modelled(TOP_VALUE, Minus(8, Log2(sym)))
    case MatchedLitBit(sym, offs, mb) => Modelled(TOP_VALUE, Minus(8, Log2(sym)))
    case IsRepBit => Modelled(Direct(26), 17)
    case IsRepG0Bit => Modelled(TOP_VALUE, 13)
    case IsRep0LongBit => Modelled(TOP_VALUE, 11)
    case IsRepG1Bit => Modelled(TOP_VALUE, 12)
    case IsRepG2Bit => Modelled(TOP_VALUE, 11)
    case ChoiceBit(use) => BeforeLen(use, 10)
    case Choice2Bit(use) => BeforeLen(use, 9)
    case LowBit(use, m) => BeforeLen(use, Minus(3, Log2(m)))
    case MidBit(use, m) => BeforeLen(use, Minus(3, Log2(m)))
    case HighBit(use, m) => BeforeLen(use, Minus(8, Log2(m)))
    case SlotBit(len, m) => Modelled(Direct(26), Minus(6, Log2(m)))
    case SpecBit(len, base, t, w, left) => Modelled(TOP_VALUE, left)
    case DirectBit(len, dist, left) => Direct(left)
    case AlignBit(len, dist, t, w) => Modelled(TOP_VALUE, Minus(4, Log2(w)))
    case Done(p) => TOP_VALUE
  }

  lemma {:induction false} ModelledMono(x: nat, y: nat, m: nat, n: nat)
    requires x <= y && m <= n
    ensures x <= Modelled(x, m) <= Modelled(y, n)
    decreases n
  {
    if m != 0 {
      ModelledMono(x, y, m - 1, n - 1);
    } else if n != 0 {
      ModelledMono(x, y, 0, n - 1);
    }
  }

  lemma {:induction false} ModelledAdd(x: nat, m: nat, n: nat)
    ensures Modelled(Modelled(x, m), n) == Modelled(x, m + n)
  {
    if n != 0 {
      ModelledAdd(x, m, n - 1);
    }
  }

  lemma Modelled18(x: nat)
    ensures Modelled(x, 6) == 90458382169 * x && Modelled(x, 18) == 740195513856780056217081017732809 * x
  {
    hide Modelled;
    ModelledTwo(x);
    ModelledAdd(x, 2, 2);
    ModelledTwo(Modelled(x, 2));
    ModelledAdd(x, 4, 2);
    ModelledTwo(Modelled(x, 4));
    ModelledAdd(x, 6, 2);
    ModelledTwo(Modelled(x, 6));
    ModelledAdd(x, 8, 2);
    ModelledTwo(Modelled(x, 8));
    ModelledAdd(x, 10, 2);
    ModelledTwo(Modelled(x, 10));
    ModelledAdd(x, 12, 2);
    ModelledTwo(Modelled(x, 12));
    ModelledAdd(x, 14, 2);
    ModelledTwo(Modelled(x, 14));
    ModelledAdd(x, 16, 2);
    ModelledTwo(Modelled(x, 16));
  }

  lemma ModelledTwo(x: nat)
    ensures Modelled(x, 2) == 4489 * x
  {
    assert Modelled(x, 1) == 67 * x;
  }

  lemma Doubled26(k: nat)
    ensures Doubled(k, 26) == 0x400_0000 * k
  {
    DoubledIsTimes(k, 26);
    Pow2Values();
  }

  lemma Pow256Twenty()
    ensures Pow256(20) == 0x1_0000000000000000000000000000000000000000
  {
    assert Pow256(4) == 256 * 256 * 256 * 256;
    assert Pow256(8) == 256 * 256 * 256 * 256 * Pow256(4);
    assert Pow256(12) == 256 * 256 * 256 * 256 * Pow256(8);
    assert Pow256(16) == 256 * 256 * 256 * 256 * Pow256(12);
  }

  /** 18 modelled, 26 direct and 4 more modelled bits fit in the 160 bits that 20 bytes give. */
  lemma LongestSymbol()
    ensures Modelled(TOP_VALUE, 4) == ALIGNED && Modelled(TOP_VALUE, 5) <= Direct(26)
    ensures Modelled(Direct(26), 18) <= TOP_VALUE * Pow256(20)
  {
    assert Modelled(TOP_VALUE, 2) == 4489 * TOP_VALUE;
    Doubled26(ALIGNED + 26 * SLACK);
    assert Modelled(TOP_VALUE, 5) == 67 * ALIGNED;
    hide Doubled, Modelled;
    Pow256Twenty();
    Modelled18(Direct(26));
  }

  lemma DirectAbove(n: nat)
    requires n <= 26
    ensures ALIGNED <= Direct(n) <= Direct(26)
    decreases 26 - n
  {
    DoubledIsTimes(ALIGNED + n * SLACK, n);
    var q := Pow2(n);
    assert ALIGNED * q + (n * SLACK) * q == (ALIGNED + n * SLACK) * q;
    assert 0 <= (n * SLACK) * q && ALIGNED <= ALIGNED * q;
    if n < 26 {
      DirectAbove(n + 1);
      DoubledMono(ALIGNED + n * SLACK, ALIGNED + (n + 1) * SLACK, n);
    }
  }

  /** A direct bit that leaves (2^24 - 1) / 2^25 of Direct(n) leaves Direct(n - 1). */
  lemma DirectStep(n: nat, w: nat, w': nat)
    requires 1 <= n <= 26 && Direct(n) <= w && Halves(w, w')
    ensures Direct(n - 1) <= w'
  {
    var q, k := Pow2(n - 1), ALIGNED + (n - 1) * SLACK;
    DoubledIsTimes(k, n - 1);
    DoubledIsTimes(k + SLACK, n - 1);
    assert Direct(n) == 2 * ((k + SLACK) * q);
    assert 2 * ((k + SLACK) * q) * 0xFF_FFFF <= w' * 0x200_0000;
    SlackIsEnough(k, q);
  }

  lemma SlackIsEnough(k: nat, q: nat)
    requires k <= ALIGNED + 25 * SLACK
    ensures 0x200_0000 * (k * q) <= 2 * ((k + SLACK) * q) * 0xFF_FFFF
  {
    var d := (k + SLACK) * 0xFF_FFFF - 0x100_0000 * k;
    assert 0 <= d * q;
    assert d * q == (k + SLACK) * q * 0xFF_FFFF - 0x100_0000 * (k * q);
  }

  /** What is needed always suffices for the normalisation that may be due. */
  lemma NeedAbove(s: Parse)
    requires Ok(s)
    ensures TOP_VALUE <= Need(s)
  {
    hide Direct, Modelled, Log2, Minus;
    Comparisons();
    if s.DirectBit? {
      DirectAbove(s.left);
    } else {
      forall x: nat, n: nat
        ensures TOP_VALUE <= x ==> TOP_VALUE <= Modelled(x, n)
      {
        ModelledMono(x, x, 0, n);
      }
    }
  }

  // ---------- One bit ----------

  lemma ModelledStep(x: nat, n: nat, w: nat, w': nat)
    requires 1 <= n && Modelled(x, n) <= w && Shrinks(w, w')
    ensures Modelled(x, n - 1) <= w'
  {
  }

  /** How much a bit leaves of the range. */
  ghost predicate Leaves(s: Parse, w: nat, w': nat) { if s.DirectBit? then Halves(w, w') else Shrinks(w, w') }

  ghost predicate Shrinks(w: nat, w': nat) { w * 253921 <= w' * 0x100_0000 }

  ghost predicate Halves(w: nat, w': nat) { w * 0xFF_FFFF <= w' * 0x200_0000 }

  lemma ModelledLeaves(r: Reader, p: nat)
    requires r.Normal() && IsProb(p)
    ensures Bound(r.range, p) <= r.range
    ensures r.range * 253921 <= TakeBit(r, p).range * 0x100_0000
  {
    SplitBounds(r.range, p);
    var q := r.range / 2048;
    TimesMono(31, p, q);
    TimesMono(p, 2017, q);
  }

  lemma RegsLeave(c: Context, s: Parse, d: Dec)
    requires DecOk(c, d) && Ok(s) && !s.Done?
    ensures Leaves(s, d.rc.range, RegsAfter(c, s, d).range)
  {
    if !s.DirectBit? {
      IdxBound(c, s);
      ModelledLeaves(d.rc, d.probs[Idx(c, s)]);
    }
  }

  lemma TimesLeaves(s: Parse, w: nat, w': nat, q: nat)
    requires Leaves(s, w, w')
    ensures Leaves(s, w * q, w' * q)
  {
    if s.DirectBit? {
      assert (w * 0xFF_FFFF) * q <= (w' * 0x200_0000) * q;
    } else {
      assert (w * 253921) * q <= (w' * 0x100_0000) * q;
    }
  }

  // ---------- Need goes down with every bit ----------

  lemma Log2Step(m: nat, bit: int)
    requires 1 <= m < 256 && IsBit(bit)
    ensures Log2(2 * m + bit) == Log2(m) + 1
  {
  }

  /** The bits left in a tree of n levels. */
  lemma TreeStep(x: nat, m: nat, bit: int, n: nat, w: nat, w': nat)
    requires 1 <= m < 256 && IsBit(bit) && Log2(m) < n
    requires Modelled(x, Minus(n, Log2(m))) <= w && Shrinks(w, w')
    ensures Modelled(x, Minus(n, Log2(2 * m + bit))) <= w'
  {
    Log2Step(m, bit);
    ModelledStep(x, n - Log2(m), w, w');
  }

  lemma LenStep(use: LenUse, n: nat, w: nat, w': nat)
    requires 1 <= n && BeforeLen(use, n) <= w && Shrinks(w, w')
    ensures BeforeLen(use, n - 1) <= w'
  {
    if use.ForRep? {
      ModelledStep(TOP_VALUE, n, w, w');
    } else {
      ModelledStep(Direct(26), 6 + n, w, w');
    }
  }

  lemma LenTreeStep(use: LenUse, m: nat, bit: int, n: nat, w: nat, w': nat)
    requires 1 <= m < 256 && IsBit(bit) && Log2(m) < n
    requires BeforeLen(use, Minus(n, Log2(m))) <= w && Shrinks(w, w')
    ensures BeforeLen(use, Minus(n, Log2(2 * m + bit))) <= w'
  {
    Log2Step(m, bit);
    LenStep(use, n - Log2(m), w, w');
  }

  /** How the parts of a symbol compare. */
  lemma Comparisons()
    ensures Modelled(TOP_VALUE, 0) == TOP_VALUE <= Modelled(TOP_VALUE, 10) <= Modelled(TOP_VALUE, 11) <= Modelled(TOP_VALUE, 12)
    ensures Modelled(TOP_VALUE, 8) <= Modelled(Direct(26), 17) && Modelled(TOP_VALUE, 13) <= Modelled(Direct(26), 16)
    ensures Modelled(Direct(26), 0) == Direct(26) && Direct(0) == Modelled(TOP_VALUE, 4)
    ensures TOP_VALUE <= Modelled(TOP_VALUE, 5) <= Direct(26)
  {
    LongestSymbol();
    hide Pow256;
    DirectAbove(26);
    assert Direct(0) == ALIGNED;
    assert Modelled(TOP_VALUE, 0) == TOP_VALUE && Modelled(Direct(26), 0) == Direct(26);
    hide Modelled, Direct;
    ModelledMono(TOP_VALUE, Direct(26), 8, 17);
    ModelledMono(TOP_VALUE, Direct(26), 13, 16);
    ModelledMono(TOP_VALUE, TOP_VALUE, 11, 12);
    ModelledMono(TOP_VALUE, TOP_VALUE, 10, 11);
    ModelledMono(TOP_VALUE, TOP_VALUE, 0, 10);
    ModelledMono(TOP_VALUE, TOP_VALUE, 5, 5);
  }

  lemma NeedStepHead(c: Context, s: Parse, bit: int, w: nat, w': nat)
    requires Ok(s) && IsBit(bit) && Need(s) <= w && Leaves(s, w, w')
    requires s.IsMatchBit? || s.IsRepBit? || s.IsRepG0Bit? || s.IsRep0LongBit? || s.IsRepG1Bit? || s.IsRepG2Bit?
    ensures Need(Step(c, s, bit)) <= w'
  {
    hide Modelled, Direct, Shrinks, Halves;
    Comparisons();
    match s
    case IsMatchBit => ModelledStep(Direct(26), 18, w, w');
    case IsRepBit => ModelledStep(Direct(26), 17, w, w');
    case IsRepG0Bit => ModelledStep(TOP_VALUE, 13, w, w');
    case IsRep0LongBit => ModelledStep(TOP_VALUE, 11, w, w');
    case IsRepG1Bit => ModelledStep(TOP_VALUE, 12, w, w');
    case IsRepG2Bit => ModelledStep(TOP_VALUE, 11, w, w');
    case _ =>
  }

  lemma Log2Values()
    ensures Log2(1) == 0 && Log2(2) == 1 && Log2(4) == 2 && Log2(8) == 3 && Log2(16) == 4
    ensures forall n :: 8 <= n < 16 ==> Log2(n) == 3
    ensures forall n :: 64 <= n < 128 ==> Log2(n) == 6
    ensures forall n :: 256 <= n ==> Log2(n) == 8
    ensures forall n :: n < 8 ==> Log2(n) < 3
    ensures forall n :: n < 64 ==> Log2(n) < 6
    ensures forall n :: n < 256 ==> Log2(n) < 8
  {
  }

  lemma LenMono(use: LenUse, m: nat, n: nat)
    requires m <= n
    ensures BeforeLen(use, m) <= BeforeLen(use, n)
  {
    hide Modelled, Direct;
    if use.ForRep? {
      ModelledMono(TOP_VALUE, TOP_VALUE, m, n);
    } else {
      ModelledMono(Direct(26), Direct(26), 6 + m, 6 + n);
    }
  }

  lemma GotLenNeeds(use: LenUse, len: nat)
    requires len <= 271
    ensures Need(GotLen(use, len)) <= BeforeLen(use, 0)
  {
    Comparisons();
    hide Modelled, Direct;
  }

  lemma NeedStepChoice(c: Context, s: Parse, bit: int, w: nat, w': nat)
    requires Ok(s) && IsBit(bit) && Need(s) <= w && Leaves(s, w, w')
    requires s.ChoiceBit? || s.Choice2Bit?
    ensures Need(Step(c, s, bit)) <= w'
  {
    hide BeforeLen, Shrinks, Halves;
    LenMono(s.use, 3, 8);
    LenMono(s.use, 8, 9);
    if s.ChoiceBit? {
      LenStep(s.use, 10, w, w');
    } else {
      LenStep(s.use, 9, w, w');
    }
  }

  lemma NeedStepLength(c: Context, s: Parse, bit: int, w: nat, w': nat)
    requires Ok(s) && IsBit(bit) && Need(s) <= w && Leaves(s, w, w')
    requires s.LowBit? || s.MidBit? || s.HighBit?
    ensures Need(Step(c, s, bit)) <= w'
  {
    Log2Values();
    hide BeforeLen, Shrinks, Halves, Log2, GotLen;
    var n := 2 * s.m + bit;
    LenTreeStep(s.use, s.m, bit, if s.HighBit? then 8 else 3, w, w');
    match s
    case LowBit(use, _) => if n >= 8 { GotLenNeeds(use, n - 8); }
    case MidBit(use, _) => if n >= 8 { GotLenNeeds(use, n); }
    case HighBit(use, _) => if n >= 256 { GotLenNeeds(use, n - 256 + 16); }
    case _ =>
  }

  lemma NeedOfSlot(len: nat, slot: nat)
    requires len <= 271 && slot < 64
    ensures Need(GotSlot(len, slot)) <= Direct(26)
  {
    Comparisons();
    hide Modelled, Direct, SlotBase;
    if slot >= 14 {
      DirectAbove(slot / 2 - 5);
    } else if slot >= 4 {
      ModelledMono(TOP_VALUE, TOP_VALUE, slot / 2 - 1, 5);
    }
  }

  lemma NeedStepSlot(c: Context, s: Parse, bit: int, w: nat, w': nat)
    requires Ok(s) && s.SlotBit? && IsBit(bit) && Need(s) <= w && Leaves(s, w, w')
    ensures Need(Step(c, s, bit)) <= w'
  {
    Comparisons();
    Log2Values();
    hide Modelled, Direct, Shrinks, Halves, Log2, GotSlot;
    TreeStep(Direct(26), s.m, bit, 6, w, w');
    if 2 * s.m + bit >= 64 {
      NeedOfSlot(s.len, 2 * s.m + bit - 64);
    }
  }

  lemma NeedStepDistance(c: Context, s: Parse, bit: int, w: nat, w': nat)
    requires Ok(s) && IsBit(bit) && Need(s) <= w && Leaves(s, w, w')
    requires s.SpecBit? || s.DirectBit? || s.AlignBit?
    ensures Need(Step(c, s, bit)) <= w'
  {
    Comparisons();
    Log2Values();
    hide Modelled, Direct, Shrinks, Halves, Log2;
    match s
    case SpecBit(_, _, _, _, left) => ModelledStep(TOP_VALUE, left, w, w');
    case DirectBit(_, _, left) => DirectStep(left, w, w');
    case AlignBit(_, _, _, wt) => TreeStep(TOP_VALUE, wt, 0, 4, w, w');
    case _ =>
  }

  lemma NeedStepLiteral(c: Context, s: Parse, bit: int, w: nat, w': nat)
    requires Ok(s) && IsBit(bit) && Need(s) <= w && Leaves(s, w, w')
    requires s.LitBit? || s.MatchedLitBit?
    ensures Need(Step(c, s, bit)) <= w'
  {
    assert Modelled(TOP_VALUE, 0) == TOP_VALUE;
    Log2Values();
    hide Modelled, Shrinks, Halves, Log2, And100;
    TreeStep(TOP_VALUE, s.sym, bit, 8, w, w');
  }

  lemma NeedStep(c: Context, s: Parse, bit: int, w: nat, w': nat)
    requires Ok(s) && !s.Done? && IsBit(bit) && Need(s) <= w && Leaves(s, w, w')
    ensures Need(Step(c, s, bit)) <= w'
  {
    hide Need, Step, Leaves;
    if s.LitBit? || s.MatchedLitBit? {
      NeedStepLiteral(c, s, bit, w, w');
    } else if s.SlotBit? {
      NeedStepSlot(c, s, bit, w, w');
    } else if s.SpecBit? || s.DirectBit? || s.AlignBit? {
      NeedStepDistance(c, s, bit, w, w');
    } else if s.LowBit? || s.MidBit? || s.HighBit? {
      NeedStepLength(c, s, bit, w, w');
    } else if s.ChoiceBit? || s.Choice2Bit? {
      NeedStepChoice(c, s, bit, w, w');
    } else {
      NeedStepHead(c, s, bit, w, w');
    }
  }

  // ---------- The whole symbol ----------

  /** range * 256^(bytes left) covers what the rest of the symbol needs. */
  ghost predicate Covers(r: Reader, b: seq<Byte>, s: Parse) {
    r.pos <= |b| && Need(s) <= r.range * Pow256(|b| - r.pos)
  }

  /** When the need is covered, the byte for a normalisation that is due is there. */
  lemma CoveredFetch(r: Reader, b: seq<Byte>, s: Parse)
    requires Ok(s) && Covers(r, b, s)
    ensures Fetch(r, b).Some? && Covers(Fetch(r, b).value, b, s)
  {
    NeedAbove(s);
    hide Need, Ok;
    assert Pow256(0) == 1;
    if r.range < 0x100_0000 {
      assert r.pos < |b|;
      TimesByte(r.range, Pow256(|b| - r.pos - 1));
    }
  }

  lemma TimesByte(x: nat, q: nat)
    ensures x * (256 * q) == (x * 256) * q
  {
  }

  lemma BitCovered(c: Context, s: Parse, d: Dec, b: seq<Byte>)
    requires DecOk(c, d) && Ok(s) && !s.Done? && Covers(d.rc, b, s)
    ensures Covers(RegsAfter(c, s, d), b, Step(c, s, BitAt(c, s, d)))
  {
    hide Need, Step, Leaves, Ok, BitAt;
    var r := RegsAfter(c, s, d);
    RegsBound(c, s, d, b);
    RegsLeave(c, s, d);
    hide RegsAfter, ProbsAfter;
    var q := Pow256(|b| - d.rc.pos);
    TimesLeaves(s, d.rc.range, r.range, q);
    NeedStep(c, s, BitAt(c, s, d), d.rc.range * q, r.range * q);
  }

  lemma {:induction false} Enough(c: Context, s: Parse, d: Dec, b: seq<Byte>)
    requires DecOk(c, d) && Ok(s) && Covers(d.rc, b, s)
    ensures Read(c, s, d, b).Some?
    decreases Rank(s)
  {
    if !s.Done? {
      hide Covers, Step, Ok, RegsAfter, BitAt, ProbsAfter;
      BitCovered(c, s, d, b);
      ReadStep(c, s, d, b);
      CoveredFetch(RegsAfter(c, s, d), b, Step(c, s, BitAt(c, s, d)));
      Enough(c, Step(c, s, BitAt(c, s, d)), Dec(Fetch(RegsAfter(c, s, d), b).value, ProbsAfter(c, s, d)), b);
    }
  }

  lemma StartCovers(range: nat, n: nat)
    requires TOP_VALUE <= range && LZMA_REQUIRED_INPUT_MAX <= n
    ensures Need(IsMatchBit) <= range * Pow256(n)
  {
    LongestSymbol();
    Pow256Mono(20, n);
    hide Modelled, Direct, Pow256;
    ProductMono(TOP_VALUE, range, Pow256(20), Pow256(n));
  }

  /** From normalised registers, 20 bytes of input complete any symbol. */
  lemma TwentyBytesSuffice(p: Props, m: Mach)
    requires MachOk(p, m) && LZMA_REQUIRED_INPUT_MAX <= |m.pending|
    ensures Symbol(p, m).Some?
  {
    hide Need, Read, Pow256, FreshProbs;
    MachContext(p, m);
    StartCovers(m.range, |m.pending|);
    Enough(ContextOf(p, m.z), IsMatchBit, RegsOf(m), m.pending);
  }

  lemma ProductMono(a: nat, b: nat, x: nat, y: nat)
    requires a <= b && x <= y
    ensures a * x <= b * y
  {
    assert a * x <= b * x <= b * y;
  }

  lemma {:induction false} Pow256Mono(m: nat, n: nat)
    requires m <= n
    ensures Pow256(m) <= Pow256(n)
    decreases n
  {
    if m < n {
      Pow256Mono(m, n - 1);
    }
  }

  // ---------- Distances fit in 32 bits ----------

  /** The distance that is being read cannot outgrow 32 bits. */
  ghost predicate Narrow(s: Parse) {
    match s
    case DirectBit(_, dist, left) => Doubled(dist + 1, left) <= 0x1000_0000
    case AlignBit(_, dist, _, _) => dist <= 0xFFFF_FFF0
    case Done(k) => k.Match? ==> k.dist < 0x1_0000_0000
    case _ => true
  }

  lemma NarrowSlot(len: nat, slot: nat)
    requires len <= 271 && slot < 64
    ensures Narrow(GotSlot(len, slot))
  {
    if slot >= 14 {
      Doubled26(4);
      DoubledGrows(4, slot / 2 - 5, 26);
      DoubledMono(slot % 2 + 3, 4, slot / 2 - 5);
    }
  }

  lemma NarrowStep(c: Context, s: Parse, bit: int)
    requires Ok(s) && !s.Done? && IsBit(bit) && Narrow(s)
    ensures Narrow(Step(c, s, bit))
  {
    hide GotSlot, Doubled;
    match s
    case SlotBit(len, m) =>
      NarrowSlotBit(c, len, m, bit);
    case DirectBit(len, dist, left) =>
      NarrowDirectBit(c, len, dist, left, bit);
    case AlignBit(_, _, _, _) =>
      NarrowAlignBit(c, s, bit);
    case _ =>
  }

  lemma NarrowSlotBit(c: Context, len: nat, m: nat, bit: int)
    requires Ok(SlotBit(len, m)) && IsBit(bit)
    ensures Narrow(Step(c, SlotBit(len, m), bit))
  {
    hide GotSlot, Doubled;
    if 2 * m + bit >= 64 {
      NarrowSlot(len, 2 * m + bit - 64);
    }
  }

  lemma NarrowDirectBit(c: Context, len: nat, dist: nat, left: nat, bit: int)
    requires Ok(DirectBit(len, dist, left)) && IsBit(bit) && Narrow(DirectBit(len, dist, left))
    ensures Narrow(Step(c, DirectBit(len, dist, left), bit))
  {
    DoubledShift(dist + 1, left - 1);
    DoubledMono(2 * dist + bit + 1, 2 * (dist + 1), left - 1);
  }

  lemma NarrowAlignBit(c: Context, s: Parse, bit: int)
    requires s.AlignBit? && Ok(s) && IsBit(bit) && Narrow(s)
    ensures Narrow(Step(c, s, bit))
  {
  }

  /** Every distance that can be read is a 32-bit number: the decoder's 32-bit arithmetic loses nothing. */
  lemma {:induction false} DistancesFit(c: Context, s: Parse, d: Dec, b: seq<Byte>)
    requires DecOk(c, d) && Ok(s) && Narrow(s) && Read(c, s, d, b).Some?
    ensures Narrow(Done(Read(c, s, d, b).value.0))
    decreases Rank(s)
  {
    if !s.Done? {
      hide Step, Ok, Rank, BitAt, RegsAfter, ProbsAfter, Narrow;
      ReadStep(c, s, d, b);
      NarrowStep(c, s, BitAt(c, s, d));
      DistancesFit(c, Step(c, s, BitAt(c, s, d)), Dec(Fetch(RegsAfter(c, s, d), b).value, ProbsAfter(c, s, d)), b);
    }
  }
}
