/** What the encoder writes for a parse: the reference that the encoder object meets and the decoder undoes. */
module LzmaCoding {
  import opened Bytes
  import opened Powers
  import opened BitModel
  import opened RangeEncoder
  import opened LzmaSyntax
  import opened LzmaLayout
  import opened LzmaOps
  import opened LzmaPackets
  import opened LzmaState

  function EncSize(p: Props): nat { ENC_LITERAL + 0x300 * p.LitCoders() }

  function EncStart(p: Props): Enc { Enc(START, seq(EncSize(p), _ => PROB_INIT)) }

  ghost predicate WriterOk(p: Props, z: Lz, e: Enc) {
    && p.Ok() && LzOk(p, z) && EncOk(e) && |e.probs| == EncSize(p)
  }

  // ---------- Every operation stays within the memory ----------

  lemma {:induction false} LitOpsOk(base: nat, sym: nat, n: nat)
    requires 0x100 <= sym && base + 256 <= n
    ensures OpsOk(LitOps(base, sym), n)
    decreases 0x10000 - sym
  {
    if sym < 0x10000 {
      LitOpsOk(base, 2 * sym, n);
    }
  }

  lemma {:induction false} MatchedOpsOk(base: nat, sym: nat, mb: nat, offs: nat, n: nat)
    requires 0x100 <= sym && (offs == 0 || offs == 256) && base + 768 <= n
    ensures OpsOk(MatchedOps(base, sym, mb, offs), n)
    decreases 0x10000 - sym
  {
    if sym < 0x10000 {
      MatchedOpsOk(base, 2 * sym, 2 * mb, AndNotXor100(offs, 2 * mb, 2 * sym), n);
    }
  }

  lemma {:induction false} SlotOpsOk(base: nat, sym: nat, n: nat)
    requires 64 <= sym && base + 64 <= n
    ensures OpsOk(SlotOps(base, sym), n)
    decreases 4096 - sym
  {
    if sym < 4096 {
      SlotOpsOk(base, 2 * sym, n);
    }
  }

  lemma LenOpsOk(base: nat, sym: nat, posState: nat, n: nat)
    requires sym < 272 && posState < 16 && base + 512 <= n
    ensures OpsOk(LenOps(base, sym, posState), n)
  {
    if sym >= 16 {
      LitOpsOk(base + 256, 0x100 + (sym - 16), n);
    }
  }

  lemma {:induction false} ReverseOpsOk(base: nat, m: nat, n: nat, sym: nat, size: nat, bound: nat)
    requires 1 <= m && (m + 1) * Pow2(n) <= 2 * bound && base + bound <= size
    ensures OpsOk(ReverseOps(base, m, n, sym), size)
    decreases n
  {
    if n != 0 {
      var p := Pow2(n - 1);
      assert (m + 1) * (2 * p) == (2 * m + 2) * p;
      assert (2 * m + sym % 2 + 1) * p <= (2 * m + 2) * p;
      assert (m + 1) * 2 <= (m + 1) * (2 * p);
      ReverseOpsOk(base, 2 * m + sym % 2, n - 1, sym / 2, size, bound);
    }
  }

  lemma {:induction false} DirectOpsOk(v: nat, n: nat, size: nat)
    requires v < Pow2(n)
    ensures OpsOk(DirectOps(v, n), size)
    decreases n
  {
    if n != 0 {
      DirectOpsOk(if v < Pow2(n - 1) then v else v - Pow2(n - 1), n - 1, size);
    }
  }

  lemma FooterOpsOk(dist: nat, size: nat)
    requires dist < 0x1_0000_0000 && ENC_LITERAL <= size
    ensures OpsOk(FooterOps(dist), size)
  {
    if 4 <= dist {
      SlotSplits(dist);
      SlotBounds(dist);
      var slot := SlotOf(dist);
      var n := slot / 2 - 1;
      var base := SlotBase(slot, n);
      if dist < 128 {
        DoubledAbove(2 + slot % 2, n);
        ReverseOpsOk(ENC_SPEC + base, 1, n, dist, size, 128);
      } else {
        FooterSplit(dist - base, n);
        DirectOpsOk((dist - base) / 16, n - 4, size);
        AlignOpsOk(dist, size);
      }
    }
  }

  lemma AlignOpsOk(dist: nat, size: nat)
    requires ENC_LITERAL <= size
    ensures OpsOk(ReverseOps(ENC_ALIGN, 1, 4, dist), size)
  {
    Pow2Values();
    assert Pow2(4) == 4 * Pow2(2);
    ReverseOpsOk(ENC_ALIGN, 1, 4, dist, size, 16);
  }

  lemma PacketOpsInside(c: Context, k: Packet, size: nat)
    requires c.Ok() && EncPacketOk(k) && ENC_LITERAL + 0x300 * (c.lit + 1) <= size
    ensures OpsOk(PacketOps(c, k), size)
  {
    hide LitOps, MatchedOps, LenOps, SlotOps, FooterOps, SlotOf;
    match k
    case Lit(b) =>
      LitOpsOk(ENC_LITERAL + 0x300 * c.lit, 0x100 + b, size);
      MatchedOpsOk(ENC_LITERAL + 0x300 * c.lit, 0x100 + b, c.matchByte, 0x100, size);
    case ShortRep =>
    case Rep(index, len) => LenOpsOk(ENC_REP_LEN, len - 2, c.posState, size);
    case Match(dist, len) =>
      SlotBounds(dist);
      LenOpsOk(ENC_LEN, len - 2, c.posState, size);
      SlotOpsOk(ENC_POS_SLOT + LenState(len - 2) * 64, 64 + SlotOf(dist), size);
      FooterOpsOk(dist, size);
  }

  /** A packet that may be coded: one the decoder accepts, or the end marker. */
  ghost predicate Codable(p: Props, z: Lz, k: Packet) {
    PacketOk(k) && (Accepts(p, z, k) || k == Match(END_DISTANCE, 2))
  }

  lemma PacketOpsOk(p: Props, z: Lz, k: Packet)
    requires p.Ok() && LzOk(p, z) && Codable(p, z, k)
    ensures ContextOf(p, z).Ok() && EncPacketOk(k)
    ensures ENC_LITERAL + 0x300 * (ContextOf(p, z).lit + 1) <= EncSize(p)
    ensures OpsOk(PacketOps(ContextOf(p, z), k), EncSize(p))
  {
    ContextOk(p, z);
    PacketOpsInside(ContextOf(p, z), k, EncSize(p));
  }

  /** The encoder after one packet. */
  ghost function CodePacket(p: Props, z: Lz, e: Enc, k: Packet): (e': Enc)
    requires WriterOk(p, z, e) && Codable(p, z, k)
    ensures EncOk(e') && |e'.probs| == |e.probs|
  {
    PacketOpsOk(p, z, k);
    EmitAll(e, PacketOps(ContextOf(p, z), k))
  }

  /** A parse: every packet is acceptable where it stands. */
  ghost predicate Parses(p: Props, z: Lz, packets: seq<Packet>)
    requires p.Ok() && LzOk(p, z)
    decreases |packets|
  {
    packets == [] ||
    (Accepts(p, z, packets[0]) && PacketOk(packets[0])
     && (ApplyOk(p, z, packets[0]); Parses(p, Apply(p, z, packets[0]), packets[1..])))
  }

  /** State and encoder after all packets. */
  ghost function CodeAll(p: Props, z: Lz, e: Enc, packets: seq<Packet>): (r: (Lz, Enc))
    requires WriterOk(p, z, e) && Parses(p, z, packets)
    ensures WriterOk(p, r.0, r.1) && z.hist <= r.0.hist
    decreases |packets|
  {
    if packets == [] then (z, e)
    else
      ApplyOk(p, z, packets[0]);
      CodeAll(p, Apply(p, z, packets[0]), CodePacket(p, z, e, packets[0]), packets[1..])
  }

  /** The encoder at the end of the stream, with or without an end marker. */
  ghost function Closed(p: Props, z: Lz, e: Enc, mark: bool): (e': Enc)
    requires WriterOk(p, z, e)
    ensures EncOk(e')
  {
    if mark then CodePacket(p, z, e, Match(END_DISTANCE, 2)) else e
  }

  /** The bytes the encoder has written when it is flushed. */
  ghost predicate Flushed(e: Enc, b: seq<Byte>) { Num(b) == e.iv.low && |b| == e.iv.shifts + 5 }

  /** The bytes that a parse stands for. */
  ghost function Plain(p: Props, packets: seq<Packet>): seq<Byte>
    requires p.Ok() && Parses(p, LZ_START, packets)
  {
    CodeAll(p, LZ_START, EncStart(p), packets).0.hist
  }

  /** `b` is what the encoder writes for the parse, with or without an end marker. */
  ghost predicate Encodes(p: Props, packets: seq<Packet>, mark: bool, b: seq<Byte>) {
    && p.Ok() && Parses(p, LZ_START, packets)
    && var (z, e) := CodeAll(p, LZ_START, EncStart(p), packets);
    && Flushed(Closed(p, z, e, mark), b) && b[0] == 0
  }

  /** A parse has one encoding: `b` is the base-256 expansion of the exact low end of the last interval. */
  lemma EncodesOnce(p: Props, packets: seq<Packet>, mark: bool, b: seq<Byte>, b': seq<Byte>)
    requires Encodes(p, packets, mark, b) && Encodes(p, packets, mark, b')
    ensures b == b'
  {
    hide CodeAll, Closed;
    NumInjective(b, b');
  }

  /** The bytes still to come for the packets of a parse. */
  ghost function Ahead(p: Props, z: Lz, e: Enc, packets: seq<Packet>): nat
    requires WriterOk(p, z, e) && Parses(p, z, packets)
  {
    |CodeAll(p, z, e, packets).0.hist| - |z.hist|
  }

  /** One unfolding of CodeAll. */
  lemma CodeAllStep(p: Props, z: Lz, e: Enc, packets: seq<Packet>)
    requires WriterOk(p, z, e) && Parses(p, z, packets) && packets != []
    ensures var k := packets[0];
            && Accepts(p, z, k) && PacketOk(k)
            && (z.hist != [] ==> 1 <= Header(z, k).1.r0 <= |z.hist|) && 0 <= Header(z, k).0
            && var z1 := Apply(p, z, k); var e1 := CodePacket(p, z, e, k);
            && WriterOk(p, z1, e1) && Parses(p, z1, packets[1..]) && z.hist < z1.hist
            && CodeAll(p, z, e, packets) == CodeAll(p, z1, e1, packets[1..])
            && Ahead(p, z, e, packets) == Ahead(p, z1, e1, packets[1..]) + (|z1.hist| - |z.hist|)
  {
    ApplyOk(p, z, packets[0]);
  }
}
