/** The bits the encoder emits for each packet, and why the decoder reads the same packet back. */
module LzmaWriter {
  import opened Bytes
  import opened BitModel
  import opened RangeEncoder
  import opened RangeDecoder
  import opened LzmaSyntax
  import opened LzmaReader
  import opened LzmaLayout
  import opened LzmaOps
  import opened Wrappers

  /** Whatever the final interval contains, every earlier interval contained. */
  lemma {:induction false} EarlierHolds(e: Enc, ops: seq<Op>, b: seq<Byte>)
    requires EncOk(e) && OpsOk(ops, |e.probs|)
    requires Holds(EmitAll(e, ops).iv, b)
    ensures Holds(e.iv, b)
    decreases |ops|
  {
    if ops != [] {
      var e' := Emit(e, ops[0]);
      EarlierHolds(e', ops[1..], b);
      match ops[0]
      case Modelled(idx, bit) =>
        CodeBitNormal(e.iv, e.probs[idx], bit);
        BitIsReadBack(e.iv, e.probs[idx], bit, b);
      case Direct(bit) => DirectIsReadBack(e.iv, bit, b);
    }
  }

  /** The operation the automaton expects at `s` for this bit. */
  ghost predicate Expected(c: Context, s: Parse, op: Op)
    requires Ok(s) && !s.Done?
  {
    && IsBit(op.bit)
    && (op.Direct? <==> s.DirectBit?)
    && (op.Modelled? ==> Used(Idx(c, s)) && op.idx == EncOf(Idx(c, s)))
  }

  /** The operations lead the automaton from s to t. */
  ghost predicate Follows(c: Context, s: Parse, ops: seq<Op>, t: Parse)
    requires Ok(s)
    decreases |ops|
  {
    if ops == [] then s == t
    else
      && !s.Done? && Expected(c, s, ops[0])
      && Ok(Step(c, s, ops[0].bit)) && Follows(c, Step(c, s, ops[0].bit), ops[1..], t)
  }

  lemma {:induction false} FollowsAppend(c: Context, s: Parse, a: seq<Op>, t: Parse, b: seq<Op>, u: Parse)
    requires Ok(s) && Ok(t) && Follows(c, s, a, t) && Follows(c, t, b, u)
    ensures Follows(c, s, a + b, u)
    decreases |a|
  {
    if a == [] {
      assert a + b == b;
    } else {
      assert (a + b)[1..] == a[1..] + b;
      FollowsAppend(c, Step(c, s, a[0].bit), a[1..], t, b, u);
    }
  }

  lemma FollowsCons(c: Context, s: Parse, op: Op, s': Parse, b: seq<Op>, u: Parse)
    requires Ok(s) && !s.Done? && Expected(c, s, op) && s' == Step(c, s, op.bit)
    requires Ok(s') && Follows(c, s', b, u)
    ensures Follows(c, s, [op] + b, u)
  {
    assert ([op] + b)[1..] == b;
  }

  /** The two memories hold the same probability wherever the decoder can look. */
  ghost predicate Paired(ep: seq<int>, dp: seq<int>) {
    && |dp| == |ep| + 128 && LITERAL <= |dp|
    && forall i {:trigger dp[i]} :: 0 <= i < |dp| && Used(i) ==> EncOf(i) < |ep| && ep[EncOf(i)] == dp[i]
  }

  lemma PairedStart(n: nat)
    ensures Paired(seq(ENC_LITERAL + n, _ => PROB_INIT), seq(LITERAL + n, _ => PROB_INIT))
  {
    forall i: nat | i < LITERAL + n && Used(i) ensures EncOf(i) < ENC_LITERAL + n {
      LayoutRoundTrip(i);
    }
  }

  /** Adapting corresponding probabilities keeps the memories paired, since the layouts are one-to-one. */
  lemma PairedUpdate(ep: seq<int>, dp: seq<int>, i: nat, p: int)
    requires Paired(ep, dp) && i < |dp| && Used(i)
    ensures EncOf(i) < |ep| && Paired(ep[EncOf(i) := p], dp[i := p])
  {
    assert dp[i] == dp[i];
    forall k: nat | k < |dp| && Used(k)
      ensures EncOf(k) < |ep| && ep[EncOf(i) := p][EncOf(k)] == dp[i := p][k]
    {
      assert dp[k] == dp[k];
      LayoutRoundTrip(i);
      LayoutRoundTrip(k);
    }
  }

  /** The heart of the matter: a decoder at the encoder's interval, with paired probabilities, reads the symbol
      whose bits the encoder emitted, and is again at the encoder's interval with paired probabilities. */
  lemma {:induction false} FollowedIsRead(c: Context, s: Parse, ops: seq<Op>, t: Parse, e: Enc, dp: seq<int>, b: seq<Byte>)
    requires c.Ok() && Ok(s) && t.Done? && Follows(c, s, ops, t)
    requires EncOk(e) && OpsOk(ops, |e.probs|) && Holds(EmitAll(e, ops).iv, b)
    requires Paired(e.probs, dp) && AllProbs(dp) && LITERAL + 0x300 * (c.lit + 1) <= |dp|
    ensures Holds(e.iv, b) && DecOk(c, Dec(ReaderAt(e.iv, b), dp))
    ensures var r := Read(c, s, Dec(ReaderAt(e.iv, b), dp), b);
            && r.Some? && r.value.0 == t.packet
            && r.value.1.rc == ReaderAt(EmitAll(e, ops).iv, b)
            && Paired(EmitAll(e, ops).probs, r.value.1.probs)
            && AllProbs(r.value.1.probs) && |r.value.1.probs| == |dp|
    decreases |ops|
  {
    EarlierHolds(e, ops, b);
    ReaderNormal(e.iv, b);
    if ops != [] {
      var op := ops[0];
      var d := Dec(ReaderAt(e.iv, b), dp);
      var e' := Emit(e, op);
      EarlierHolds(e', ops[1..], b);
      StepReadBack(c, s, op, e, dp, b);
      ReadStep(c, s, d, b);
      FollowedIsRead(c, Step(c, s, op.bit), ops[1..], t, e', ProbsAfter(c, s, d), b);
    }
  }

  lemma ReaderNormal(v: Interval, b: seq<Byte>)
    requires v.Normal() && Holds(v, b)
    ensures ReaderAt(v, b).Normal()
  {
  }

  /** One bit of FollowedIsRead. */
  lemma StepReadBack(c: Context, s: Parse, op: Op, e: Enc, dp: seq<int>, b: seq<Byte>)
    requires c.Ok() && Ok(s) && !s.Done? && Expected(c, s, op)
    requires EncOk(e) && OpOk(op, |e.probs|) && Holds(Emit(e, op).iv, b) && Holds(e.iv, b)
    requires Paired(e.probs, dp) && DecOk(c, Dec(ReaderAt(e.iv, b), dp))
    ensures var d := Dec(ReaderAt(e.iv, b), dp);
            && BitAt(c, s, d) == op.bit
            && Fetch(RegsAfter(c, s, d), b) == Some(ReaderAt(Emit(e, op).iv, b))
            && Paired(Emit(e, op).probs, ProbsAfter(c, s, d))
            && AllProbs(ProbsAfter(c, s, d)) && |ProbsAfter(c, s, d)| == |dp|
  {
    var d := Dec(ReaderAt(e.iv, b), dp);
    RegsBound(c, s, d, b);
    match op
    case Modelled(idx, bit) =>
      IdxBound(c, s);
      var i := Idx(c, s);
      assert dp[i] == e.probs[idx];
      CodeBitNormal(e.iv, dp[i], bit);
      BitIsReadBack(e.iv, dp[i], bit, b);
      PairedUpdate(e.probs, dp, i, Adapt(dp[i], bit));
    case Direct(bit) => DirectIsReadBack(e.iv, bit, b);
  }
}
