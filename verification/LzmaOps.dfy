/** The operations an encoder performs, and what they do to its interval and its probabilities. */
module LzmaOps {
  import opened Bytes
  import opened BitModel
  import opened RangeEncoder

  /** One step of the encoder: a bit under the probability at `idx` of its memory, or a direct bit. */
  datatype Op = Modelled(idx: nat, bit: int) | Direct(bit: int)

  /** The encoder's interval and probability memory. */
  datatype Enc = Enc(iv: Interval, probs: seq<int>)

  ghost predicate EncOk(e: Enc) { e.iv.Normal() && AllProbs(e.probs) }

  predicate OpOk(op: Op, n: nat) { IsBit(op.bit) && (op.Modelled? ==> op.idx < n) }

  predicate OpsOk(ops: seq<Op>, n: nat) { forall i :: 0 <= i < |ops| ==> OpOk(ops[i], n) }

  ghost function Emit(e: Enc, op: Op): (e': Enc)
    requires EncOk(e) && OpOk(op, |e.probs|)
    ensures EncOk(e') && |e'.probs| == |e.probs|
  {
    match op
    case Modelled(idx, bit) =>
      CodeBitNormal(e.iv, e.probs[idx], bit);
      Enc(CodeBit(e.iv, e.probs[idx], bit), e.probs[idx := Adapt(e.probs[idx], bit)])
    case Direct(bit) => Enc(CodeDirect(e.iv, bit), e.probs)
  }

  ghost function EmitAll(e: Enc, ops: seq<Op>): (e': Enc)
    requires EncOk(e) && OpsOk(ops, |e.probs|)
    ensures EncOk(e') && |e'.probs| == |e.probs|
    decreases |ops|
  {
    if ops == [] then e else EmitAll(Emit(e, ops[0]), ops[1..])
  }

  lemma {:induction false} EmitAppend(e: Enc, a: seq<Op>, b: seq<Op>)
    requires EncOk(e) && OpsOk(a, |e.probs|) && OpsOk(b, |e.probs|)
    ensures OpsOk(a + b, |e.probs|)
    ensures EmitAll(e, a + b) == EmitAll(EmitAll(e, a), b)
    decreases |a|
  {
    if a == [] {
      assert a + b == b;
    } else {
      assert (a + b)[1..] == a[1..] + b;
      EmitAppend(Emit(e, a[0]), a[1..], b);
    }
  }

  lemma EmitCons(e: Enc, op: Op, rest: seq<Op>)
    requires EncOk(e) && OpOk(op, |e.probs|) && OpsOk(rest, |e.probs|)
    ensures OpsOk([op] + rest, |e.probs|) && EmitAll(e, [op] + rest) == EmitAll(Emit(e, op), rest)
  {
    assert ([op] + rest)[1..] == rest;
  }
}
