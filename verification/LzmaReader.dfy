/** Reading one LZMA symbol from the range decoder: the reference that every decoding routine refines. */
module LzmaReader {
  import opened Bytes
  import opened BitModel
  import opened RangeEncoder
  import opened RangeDecoder
  import opened LzmaSyntax
  import opened Wrappers

  /** Range decoder registers together with the decoder's flat table of probabilities. */
  datatype Dec = Dec(rc: Reader, probs: seq<int>)

  ghost predicate DecOk(c: Context, d: Dec) {
    && c.Ok() && d.rc.Normal()
    && AllProbs(d.probs) && LITERAL + 0x300 * (c.lit + 1) <= |d.probs|
  }

  /** The bit at `s`. */
  function BitAt(c: Context, s: Parse, d: Dec): (bit: int)
    requires DecOk(c, d) && Ok(s) && !s.Done?
    ensures IsBit(bit)
  {
    if s.DirectBit? then DirectBitOf(d.rc) else IdxBound(c, s); BitOf(d.rc, d.probs[Idx(c, s)])
  }

  /** The registers after the bit at `s`, not yet normalised. */
  function RegsAfter(c: Context, s: Parse, d: Dec): Reader
    requires DecOk(c, d) && Ok(s) && !s.Done?
  {
    if s.DirectBit? then TakeDirect(d.rc)
    else
      IdxBound(c, s);
      TakeBitRange(d.rc, d.probs[Idx(c, s)]);
      TakeBit(d.rc, d.probs[Idx(c, s)])
  }

  function ProbsAfter(c: Context, s: Parse, d: Dec): seq<int>
    requires DecOk(c, d) && Ok(s) && !s.Done?
  {
    if s.DirectBit? then d.probs
    else IdxBound(c, s); d.probs[Idx(c, s) := Adapt(d.probs[Idx(c, s)], BitAt(c, s, d))]
  }

  lemma RegsBound(c: Context, s: Parse, d: Dec, b: seq<Byte>)
    requires DecOk(c, d) && Ok(s) && !s.Done?
    ensures 0x1_0000 <= RegsAfter(c, s, d).range < 0x1_0000_0000 && RegsAfter(c, s, d).code < 0x1_0000_0000
    ensures AllProbs(ProbsAfter(c, s, d)) && |ProbsAfter(c, s, d)| == |d.probs|
    ensures RegsAfter(c, s, d).pos == d.rc.pos
    ensures var f := Fetch(RegsAfter(c, s, d), b); f.Some? ==> DecOk(c, Dec(f.value, ProbsAfter(c, s, d)))
  {
    if !s.DirectBit? {
      IdxBound(c, s);
      TakeBitRange(d.rc, d.probs[Idx(c, s)]);
    }
  }

  /** The whole symbol, bit by bit; None when the input ends before the symbol and the normalisation after
      its last bit are complete. */
  function Read(c: Context, s: Parse, d: Dec, b: seq<Byte>): Option<(Packet, Dec)>
    requires DecOk(c, d) && Ok(s)
    decreases Rank(s)
  {
    if s.Done? then Some((s.packet, d))
    else
      RegsBound(c, s, d, b);
      StepOk(c, s, BitAt(c, s, d));
      match Fetch(RegsAfter(c, s, d), b)
      case None => None
      case Some(rc) => Read(c, Step(c, s, BitAt(c, s, d)), Dec(rc, ProbsAfter(c, s, d)), b)
  }

  /** What one symbol leaves behind: a well-formed packet, registers and probabilities in range, and no byte
      taken beyond the input. */
  lemma {:induction false} ReadOk(c: Context, s: Parse, d: Dec, b: seq<Byte>)
    requires DecOk(c, d) && Ok(s) && d.rc.pos <= |b|
    ensures var r := Read(c, s, d, b);
            r.Some? ==>
              && PacketOk(r.value.0) && DecOk(c, r.value.1) && |r.value.1.probs| == |d.probs|
              && d.rc.pos <= r.value.1.rc.pos <= |b|
    decreases Rank(s)
  {
    if !s.Done? {
      ReadStep(c, s, d, b);
      RegsBound(c, s, d, b);
      FetchPos(RegsAfter(c, s, d), b);
      var f := Fetch(RegsAfter(c, s, d), b);
      if f.Some? {
        ReadOk(c, Step(c, s, BitAt(c, s, d)), Dec(f.value, ProbsAfter(c, s, d)), b);
      }
    }
  }

  /** One unfolding of Read. */
  lemma ReadStep(c: Context, s: Parse, d: Dec, b: seq<Byte>)
    requires DecOk(c, d) && Ok(s) && !s.Done?
    ensures var f := Fetch(RegsAfter(c, s, d), b);
            var s' := Step(c, s, BitAt(c, s, d));
            && Ok(s') && Rank(s') < Rank(s)
            && (f.None? ==> Read(c, s, d, b) == None)
            && (f.Some? ==> DecOk(c, Dec(f.value, ProbsAfter(c, s, d)))
                            && d.rc.pos <= f.value.pos
                            && Read(c, s, d, b) == Read(c, s', Dec(f.value, ProbsAfter(c, s, d)), b))
  {
    RegsBound(c, s, d, b);
    StepOk(c, s, BitAt(c, s, d));
  }

  /** More input changes nothing for a symbol that was already complete. */
  lemma {:induction false} ReadExtended(c: Context, s: Parse, d: Dec, b: seq<Byte>, more: seq<Byte>)
    requires DecOk(c, d) && Ok(s)
    requires Read(c, s, d, b).Some?
    ensures Read(c, s, d, b + more) == Read(c, s, d, b)
    decreases Rank(s)
  {
    if !s.Done? {
      ReadStep(c, s, d, b);
      ReadStep(c, s, d, b + more);
      var f := Fetch(RegsAfter(c, s, d), b);
      FetchExtended(RegsAfter(c, s, d), b, more);
      ReadExtended(c, Step(c, s, BitAt(c, s, d)), Dec(f.value, ProbsAfter(c, s, d)), b, more);
    }
  }

  /** A symbol that ends at byte n needed only the first n bytes. */
  lemma {:induction false} ReadFromPrefix(c: Context, s: Parse, d: Dec, b: seq<Byte>, n: nat)
    requires DecOk(c, d) && Ok(s) && d.rc.pos <= n <= |b|
    requires Read(c, s, d, b).Some? && Read(c, s, d, b).value.1.rc.pos <= n
    ensures Read(c, s, d, b[..n]) == Read(c, s, d, b)
    decreases Rank(s)
  {
    if !s.Done? {
      ReadStep(c, s, d, b);
      ReadStep(c, s, d, b[..n]);
      var f := Fetch(RegsAfter(c, s, d), b);
      var s', d' := Step(c, s, BitAt(c, s, d)), Dec(f.value, ProbsAfter(c, s, d));
      FetchPos(RegsAfter(c, s, d), b);
      ReadOk(c, s', d', b);
      FetchFromPrefix(RegsAfter(c, s, d), b, n);
      ReadFromPrefix(c, s', d', b, n);
    }
  }

  /** Normalised registers take nothing more. */
  lemma FetchNormal(r: Reader, b: seq<Byte>)
    requires 0x100_0000 <= r.range
    ensures Fetch(r, b) == Some(r)
  {
  }

  lemma FetchExtended(r: Reader, b: seq<Byte>, more: seq<Byte>)
    requires Fetch(r, b).Some?
    ensures Fetch(r, b + more) == Fetch(r, b)
  {
  }

  lemma FetchFromPrefix(r: Reader, b: seq<Byte>, n: nat)
    requires n <= |b| && Fetch(r, b).Some? && Fetch(r, b).value.pos <= n
    ensures Fetch(r, b[..n]) == Fetch(r, b)
  {
  }

  lemma FetchPos(r: Reader, b: seq<Byte>)
    ensures var f := Fetch(r, b); f.Some? ==> r.pos <= f.value.pos && (r.pos <= |b| ==> f.value.pos <= |b|)
  {
  }

  function Back(r: Reader, n: nat): Reader
    requires n <= r.pos
  {
    r.(pos := r.pos - n)
  }

  /** Positions are relative: dropping input that was already taken shifts them and nothing else. */
  lemma {:induction false} ReadShifted(c: Context, s: Parse, d: Dec, b: seq<Byte>, n: nat)
    requires DecOk(c, d) && Ok(s) && n <= d.rc.pos && n <= |b|
    ensures var r := Read(c, s, d, b);
            var r' := Read(c, s, d.(rc := Back(d.rc, n)), b[n..]);
            && (r.None? <==> r'.None?)
            && (r.Some? ==> n <= r.value.1.rc.pos
                            && r'.value == (r.value.0, r.value.1.(rc := Back(r.value.1.rc, n))))
    decreases Rank(s)
  {
    var d0 := d.(rc := Back(d.rc, n));
    if !s.Done? {
      ReadStep(c, s, d, b);
      ReadStep(c, s, d0, b[n..]);
      RegsShifted(c, s, d, n);
      FetchShifted(RegsAfter(c, s, d), b, n);
      var f := Fetch(RegsAfter(c, s, d), b);
      if f.Some? {
        ReadShifted(c, Step(c, s, BitAt(c, s, d)), Dec(f.value, ProbsAfter(c, s, d)), b, n);
      }
    }
  }

  lemma RegsShifted(c: Context, s: Parse, d: Dec, n: nat)
    requires DecOk(c, d) && Ok(s) && !s.Done? && n <= d.rc.pos
    ensures var d0 := d.(rc := Back(d.rc, n));
            && BitAt(c, s, d0) == BitAt(c, s, d) && ProbsAfter(c, s, d0) == ProbsAfter(c, s, d)
            && RegsAfter(c, s, d).pos == d.rc.pos
            && RegsAfter(c, s, d0) == Back(RegsAfter(c, s, d), n)
  {
    RegsBound(c, s, d, []);
  }

  lemma FetchShifted(r: Reader, b: seq<Byte>, n: nat)
    requires n <= r.pos && n <= |b|
    ensures var f := Fetch(r, b); var f' := Fetch(Back(r, n), b[n..]);
            && (f.None? <==> f'.None?)
            && (f.Some? ==> n <= f.value.pos && f'.value == Back(f.value, n))
  {
  }

  // ---------- Reading without adapting (LzmaDec_TryDummy) ----------

  /** The same symbol with every probability left as it is; the registers after it. */
  function Probe(c: Context, s: Parse, rc: Reader, probs: seq<int>, b: seq<Byte>): Option<(Packet, Reader)>
    requires DecOk(c, Dec(rc, probs)) && Ok(s)
    decreases Rank(s)
  {
    if s.Done? then Some((s.packet, rc))
    else
      var d := Dec(rc, probs);
      RegsBound(c, s, d, b);
      StepOk(c, s, BitAt(c, s, d));
      match Fetch(RegsAfter(c, s, d), b)
      case None => None
      case Some(rc') => Probe(c, Step(c, s, BitAt(c, s, d)), rc', probs, b)
  }

  /** Because no probability is read twice, probing sees exactly what reading sees. */
  lemma {:induction false} ProbeIsRead(c: Context, s: Parse, d: Dec, probs: seq<int>, b: seq<Byte>)
    requires DecOk(c, d) && DecOk(c, Dec(d.rc, probs)) && Ok(s) && |probs| == |d.probs|
    requires forall i :: 0 <= i < |probs| && Unread(c, s, i) ==> probs[i] == d.probs[i]
    ensures Probe(c, s, d.rc, probs, b).Some? <==> Read(c, s, d, b).Some?
    ensures Read(c, s, d, b).Some? ==>
              Probe(c, s, d.rc, probs, b).value == (Read(c, s, d, b).value.0, Read(c, s, d, b).value.1.rc)
    decreases Rank(s)
  {
    if !s.Done? {
      RegsBound(c, s, d, b);
      RegsBound(c, s, Dec(d.rc, probs), b);
      IdxUnread(c, s);
      if !s.DirectBit? {
        IdxBound(c, s);
        assert probs[Idx(c, s)] == d.probs[Idx(c, s)];
      }
      var bit := BitAt(c, s, d);
      StepOk(c, s, bit);
      var f := Fetch(RegsAfter(c, s, d), b);
      if f.Some? {
        forall i | 0 <= i < |probs| && Unread(c, Step(c, s, bit), i)
          ensures probs[i] == ProbsAfter(c, s, d)[i]
        {
          ReadOnce(c, s, bit, i);
        }
        ProbeIsRead(c, Step(c, s, bit), Dec(f.value, ProbsAfter(c, s, d)), probs, b);
      }
    }
  }

  lemma IdxUnread(c: Context, s: Parse)
    requires c.Ok() && Ok(s) && !s.Done?
    ensures !s.DirectBit? ==> Unread(c, s, Idx(c, s))
  {
    if s.MatchedLitBit? {
      var plane := And100(s.offs, 2 * s.mb) + s.offs;
      assert plane == 0 || plane == 256 || plane == 512;
      assert (plane + s.sym) % 256 == s.sym;
    }
  }
}
