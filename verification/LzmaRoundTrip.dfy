/** The two programs undo each other: what the encoder writes for any valid parse is decoded to the same bytes. */
module LzmaRoundTrip {
  import opened Bytes
  import opened BitModel
  import opened RangeEncoder
  import opened RangeDecoder
  import opened LzmaSyntax
  import opened LzmaReader
  import opened LzmaLayout
  import opened LzmaOps
  import opened LzmaWriter
  import opened LzmaPackets
  import opened LzmaSpelling
  import opened LzmaState
  import opened LzmaStream
  import opened LzmaCoding
  import opened Wrappers

  lemma FlushedHolds(e: Enc, b: seq<Byte>)
    requires EncOk(e) && Flushed(e, b)
    ensures Holds(e.iv, b) && ReaderAt(e.iv, b).code == 0
  {
    assert b[..|b|] == b;
  }

  /** The decoder has reached the encoder's interval with the encoder's probabilities. */
  ghost predicate InStep(p: Props, z: Lz, e: Enc, m: Mach, b: seq<Byte>) {
    && WriterOk(p, z, e) && MachOk(p, m) && m.remain == 0 && m.z == z
    && Holds(e.iv, b)
    && m.range == e.iv.range && m.code == ReaderAt(e.iv, b).code && m.pending == b[e.iv.shifts + 5..]
    && Paired(e.probs, m.probs)
  }

  /** A machine in step reads the packet that the encoder codes next. */
  lemma ReadsPacket(p: Props, z: Lz, e: Enc, k: Packet, m: Mach, b: seq<Byte>)
    requires InStep(p, z, e, m, b)
    requires Codable(p, z, k)
    requires Holds(CodePacket(p, z, e, k).iv, b)
    ensures var s := Symbol(p, m); var e' := CodePacket(p, z, e, k);
            && s.Some? && s.value.0 == k
            && var d := s.value.1;
            && d.rc.range == e'.iv.range && d.rc.code == ReaderAt(e'.iv, b).code
            && d.rc.pos <= |m.pending| && m.pending[d.rc.pos..] == b[e'.iv.shifts + 5..]
            && Paired(e'.probs, d.probs) && AllProbs(d.probs) && |d.probs| == |m.probs|
  {
    hide Read, Follows, PacketOps, EmitAll, OpsOk, ContextOf, Paired, Step, AllProbs, FreshProbs, PacketOk, EncPacketOk, Accepts, Symbol;
    var c := ContextOf(p, z);
    ContextOk(p, z);
    PacketOpsOk(p, z, k);
    PacketFollows(c, k);
    var full := Dec(ReaderAt(e.iv, b), m.probs);
    FollowedIsRead(c, IsMatchBit, PacketOps(c, k), Done(k), e, m.probs, b);
    ReadsShifted(p, z, e, m, b);
  }

  /** The machine in step reads what the decoder would read from the whole stream. */
  lemma ReadsShifted(p: Props, z: Lz, e: Enc, m: Mach, b: seq<Byte>)
    requires InStep(p, z, e, m, b)
    ensures var c := ContextOf(p, z); var full := Dec(ReaderAt(e.iv, b), m.probs); var n := e.iv.shifts + 5;
            && DecOk(c, full)
            && var r := Read(c, IsMatchBit, full, b); var s := Symbol(p, m);
            && (r.Some? ==> && n <= r.value.1.rc.pos <= |b|
                            && s == Some((r.value.0, r.value.1.(rc := Back(r.value.1.rc, n))))
                            && m.pending[r.value.1.rc.pos - n..] == b[r.value.1.rc.pos..])
  {
    hide Read, Paired, AllProbs, FreshProbs;
    var c := ContextOf(p, z);
    MachContext(p, m);
    var n := e.iv.shifts + 5;
    var full := Dec(ReaderAt(e.iv, b), m.probs);
    assert full.(rc := Back(full.rc, n)) == RegsOf(m);
    ReadShifted(c, IsMatchBit, full, b, n);
    ReadOk(c, IsMatchBit, full, b);
  }

  lemma {:induction false} EarlierCodeHolds(p: Props, z: Lz, e: Enc, packets: seq<Packet>, b: seq<Byte>)
    requires WriterOk(p, z, e) && Parses(p, z, packets)
    requires Holds(CodeAll(p, z, e, packets).1.iv, b)
    ensures Holds(e.iv, b)
    decreases |packets|
  {
    if packets != [] {
      var k := packets[0];
      ApplyOk(p, z, k);
      EarlierCodeHolds(p, Apply(p, z, k), CodePacket(p, z, e, k), packets[1..], b);
      PacketOpsOk(p, z, k);
      EarlierHolds(e, PacketOps(ContextOf(p, z), k), b);
    }
  }

  /** The turn of the loop that takes a packet for which there is room. */
  lemma TurnTakes(p: Props, m: Mach, k: Packet, room: nat, end: bool)
    requires MachOk(p, m) && m.remain == 0 && Symbol(p, m).Some? && Symbol(p, m).value.0 == k
    requires Accepts(p, m.z, k) && PacketOk(k)
    ensures Symbol(p, m).value.1.rc.pos <= |m.pending|
    ensures m.z.hist != [] ==> 1 <= Header(m.z, k).1.r0 <= |m.z.hist|
    ensures 0 <= Header(m.z, k).0
    ensures var z' := Apply(p, m.z, k);
            |z'.hist| - |m.z.hist| <= room ==>
              One(p, m, room, end) == Go(After(m, Symbol(p, m).value.1, z', 0), room - (|z'.hist| - |m.z.hist|))
  {
    SymbolOk(p, m);
    ApplyOk(p, m.z, k);
    if |Apply(p, m.z, k).hist| - |m.z.hist| <= room {
      ProduceOk(p, m.z, k, room);
      assert !IsEnd(k);
    }
  }

  /** One packet of the decoding loop, in step with the encoder. */
  lemma TurnInStep(p: Props, z: Lz, e: Enc, k: Packet, m: Mach, b: seq<Byte>, room: nat, end: bool)
    requires InStep(p, z, e, m, b)
    requires PacketOk(k) && Accepts(p, z, k) && Holds(CodePacket(p, z, e, k).iv, b)
    ensures z.hist != [] ==> 1 <= Header(z, k).1.r0 <= |z.hist|
    ensures 0 <= Header(z, k).0
    ensures var z' := Apply(p, z, k);
            |z'.hist| - |z.hist| <= room ==>
              var t := One(p, m, room, end);
              t.Go? && t.room == room - (|z'.hist| - |z.hist|) && InStep(p, z', CodePacket(p, z, e, k), t.m, b)
  {
    hide One, Symbol, Paired, Accepts, PacketOk, CodePacket, Holds, LzOk, AllProbs, Header, Apply;
    ApplyOk(p, z, k);
    ReadsPacket(p, z, e, k, m, b);
    TurnTakes(p, m, k, room, end);
    OneOk(p, m, room, end);
  }

  /** The loop comes from m to `last`, with `left` of the room. */
  ghost predicate Reaches(p: Props, m: Mach, room: nat, end: bool, last: Mach, left: nat) {
    && MachOk(p, m) && m.remain == 0 && MachOk(p, last) && last.remain == 0
    && Pump(p, m, room, end) == Pump(p, last, left, end)
  }

  lemma ReachesVia(p: Props, m: Mach, room: nat, end: bool, last: Mach, left: nat)
    requires MachOk(p, m) && m.remain == 0 && One(p, m, room, end).Go?
    requires Reaches(p, One(p, m, room, end).m, One(p, m, room, end).room, end, last, left)
    ensures Reaches(p, m, room, end, last, left)
  {
    hide One;
    OneOk(p, m, room, end);
  }

  /** The loop has reached the encoder's state (z, e), the rest of the parse is `packets`, and there is room for it. */
  ghost predicate LoopAt(p: Props, z: Lz, e: Enc, packets: seq<Packet>, m: Mach, b: seq<Byte>, room: nat) {
    && InStep(p, z, e, m, b) && Parses(p, z, packets)
    && Holds(CodeAll(p, z, e, packets).1.iv, b)
    && Ahead(p, z, e, packets) <= room
  }

  lemma LoopTurn(p: Props, z: Lz, e: Enc, packets: seq<Packet>, m: Mach, b: seq<Byte>, room: nat, end: bool)
    returns (z1: Lz, e1: Enc)
    requires LoopAt(p, z, e, packets, m, b, room) && packets != []
    ensures var t := One(p, m, room, end);
            && t.Go? && LoopAt(p, z1, e1, packets[1..], t.m, b, t.room)
            && CodeAll(p, z, e, packets) == CodeAll(p, z1, e1, packets[1..])
            && room - Ahead(p, z, e, packets) == t.room - Ahead(p, z1, e1, packets[1..])
  {
    hide One, Symbol, Paired, Accepts, PacketOk, CodePacket, Holds, LzOk, AllProbs, Header, Apply, CodeAll, Ahead;
    var k := packets[0];
    CodeAllStep(p, z, e, packets);
    z1, e1 := Apply(p, z, k), CodePacket(p, z, e, k);
    EarlierCodeHolds(p, z1, e1, packets[1..], b);
    TurnInStep(p, z, e, k, m, b, room, end);
  }

  /** The loop goes on to `last`, where the whole parse has been read. */
  ghost predicate LoopEnds(p: Props, z: Lz, e: Enc, packets: seq<Packet>, m: Mach, b: seq<Byte>, room: nat, end: bool, last: Mach) {
    && LoopAt(p, z, e, packets, m, b, room)
    && InStep(p, CodeAll(p, z, e, packets).0, CodeAll(p, z, e, packets).1, last, b)
    && Reaches(p, m, room, end, last, room - Ahead(p, z, e, packets))
  }

  lemma LoopDone(p: Props, z: Lz, e: Enc, m: Mach, b: seq<Byte>, room: nat, end: bool)
    requires LoopAt(p, z, e, [], m, b, room)
    ensures LoopEnds(p, z, e, [], m, b, room, end, m)
  {
    hide Pump;
    assert Ahead(p, z, e, []) == 0;
  }

  lemma LoopGoesOn(p: Props, z: Lz, e: Enc, packets: seq<Packet>, m: Mach, b: seq<Byte>, room: nat, end: bool,
                   z1: Lz, e1: Enc, last: Mach)
    requires LoopAt(p, z, e, packets, m, b, room) && packets != [] && One(p, m, room, end).Go?
    requires var t := One(p, m, room, end);
             && LoopEnds(p, z1, e1, packets[1..], t.m, b, t.room, end, last)
             && CodeAll(p, z, e, packets) == CodeAll(p, z1, e1, packets[1..])
             && room - Ahead(p, z, e, packets) == t.room - Ahead(p, z1, e1, packets[1..])
    ensures LoopEnds(p, z, e, packets, m, b, room, end, last)
  {
    hide One, CodeAll, Ahead, LzOk, AllProbs, Paired, Pump, Parses, Holds;
    ReachesVia(p, m, room, end, last, room - Ahead(p, z, e, packets));
  }

  /** The decoding loop follows the whole parse. */
  lemma {:induction false} LoopReadsBack(p: Props, z: Lz, e: Enc, packets: seq<Packet>, m: Mach, b: seq<Byte>,
                                         room: nat, end: bool) returns (last: Mach)
    requires LoopAt(p, z, e, packets, m, b, room)
    ensures LoopEnds(p, z, e, packets, m, b, room, end, last)
    decreases |packets|
  {
    if packets == [] {
      last := m;
      LoopDone(p, z, e, m, b, room, end);
    } else {
      hide One, CodeAll, Ahead, LzOk, AllProbs, Paired, Pump, Parses, Holds, Reaches, LoopEnds;
      var z1, e1 := LoopTurn(p, z, e, packets, m, b, room, end);
      var t := One(p, m, room, end);
      last := LoopReadsBack(p, z1, e1, packets[1..], t.m, b, t.room, end);
      LoopGoesOn(p, z, e, packets, m, b, room, end, z1, e1, last);
    }
  }

  lemma {:induction false} NumLeadingZero(s: seq<Byte>)
    requires s != [] && s[0] == 0
    ensures Num(s) == Num(s[1..])
    decreases |s|
  {
    var n := |s| - 1;
    if n == 0 {
      assert s[..0] == [] && s[1..] == [];
    } else {
      NumLeadingZero(s[..n]);
      assert s[1..][..n - 1] == s[..n][1..];
    }
  }

  lemma StartInStep(p: Props, b: seq<Byte>)
    requires p.Ok() && Holds(START, b) && b[0] == 0
    ensures InStep(p, LZ_START, EncStart(p), StartMach(p, b), b)
  {
    NumLeadingZero(b[..5]);
    assert b[..5][1..] == b[1..5];
    PairedStart(0x300 * p.LitCoders());
  }

  /** How decoding the closed stream ends: all of the data, and the machine at the end of `b`. */
  ghost predicate EndsWell(data: seq<Byte>, mark: bool, m: Mach, s: Status, room: nat, end: bool, more: seq<Byte>) {
    && m.z.hist == data
    && (!mark ==> s == MaybeFinished && m.pending == more)
    && (mark && room > |data| ==> s == Finished && m.pending == more)
    && (mark && room == |data| ==> s == MaybeFinished || (s == Finished && m.pending == more) || (s == NotFinished && !end))
  }

  /** What the loop does once it has read the whole parse. */
  lemma ClosingReadsBack(p: Props, z: Lz, e: Enc, mark: bool, last: Mach, b: seq<Byte>, room: nat, end: bool)
    requires InStep(p, z, e, last, b) && Flushed(Closed(p, z, e, mark), b)
    requires !mark ==> room == 0
    ensures var (m, s) := Pump(p, last, room, end);
            && m.z.hist == z.hist
            && (!mark ==> s == MaybeFinished && m.pending == [])
            && (mark && room > 0 ==> s == Finished && m.pending == [])
            && (mark && room == 0 ==> s == MaybeFinished || (s == Finished && m.pending == []) || (s == NotFinished && !end))
  {
    FlushedHolds(Closed(p, z, e, mark), b);
    if mark {
      ReadsPacket(p, z, e, Match(END_DISTANCE, 2), last, b);
    }
  }

  /** The round trip. The bytes `b` of any parse, closed with an end marker or not, decode in any room that is
      large enough to exactly the bytes of the parse, and nothing of `b` is left over. With a marker and room
      beyond the data the decoder finishes; with exactly enough room it may stop just before the marker. Without
      a marker it reports that the stream may be finished. */
  lemma RoundTrip(p: Props, packets: seq<Packet>, mark: bool, b: seq<Byte>, room: nat, end: bool)
    requires Encodes(p, packets, mark, b)
    requires |Plain(p, packets)| <= room && (!mark ==> room == |Plain(p, packets)|)
    ensures MachOk(p, StartMach(p, b))
    ensures var (m, s) := Resume(p, StartMach(p, b), room, end);
            EndsWell(Plain(p, packets), mark, m, s, room, end, [])
  {
    hide CodeAll, Pump, Closed, Holds, Flushed, Parses, InStep;
    var (z, e) := CodeAll(p, LZ_START, EncStart(p), packets);
    ClosedHolds(p, z, e, mark, b);
    EarlierCodeHolds(p, LZ_START, EncStart(p), packets, b);
    StartInStep(p, b);
    var m0 := StartMach(p, b);
    var last := LoopReadsBack(p, LZ_START, EncStart(p), packets, m0, b, room, end);
    ClosingReadsBack(p, z, e, mark, last, b, room - |z.hist|, end);
  }

  lemma ClosedHolds(p: Props, z: Lz, e: Enc, mark: bool, b: seq<Byte>)
    requires WriterOk(p, z, e) && Flushed(Closed(p, z, e, mark), b)
    ensures Holds(e.iv, b)
  {
    FlushedHolds(Closed(p, z, e, mark), b);
    if mark {
      PacketOpsOk(p, z, Match(END_DISTANCE, 2));
      EarlierHolds(e, PacketOps(ContextOf(p, z), Match(END_DISTANCE, 2)), b);
    }
  }

  /** Bytes after the stream change nothing and are left over. */
  lemma RoundTripWithTrailer(p: Props, packets: seq<Packet>, mark: bool, b: seq<Byte>, more: seq<Byte>, room: nat, end: bool)
    requires Encodes(p, packets, mark, b)
    requires |Plain(p, packets)| <= room && (!mark ==> room == |Plain(p, packets)|)
    ensures MachOk(p, StartMach(p, b + more))
    ensures var (m, s) := Resume(p, StartMach(p, b + more), room, end);
            EndsWell(Plain(p, packets), mark, m, s, room, end, more)
  {
    hide Resume, MachOk, Plain, CodeAll, Parses, Closed, Flushed, StartMach;
    EncodedLength(p, packets, mark, b);
    RoundTrip(p, packets, mark, b, room, end);
    StartWithTrailer(p, b, more);
    ResumeChunks(p, StartMach(p, b), room, end, more);
  }

  lemma EncodedLength(p: Props, packets: seq<Packet>, mark: bool, b: seq<Byte>)
    requires Encodes(p, packets, mark, b)
    ensures 5 <= |b|
  {
  }

  lemma StartWithTrailer(p: Props, b: seq<Byte>, more: seq<Byte>)
    requires 5 <= |b|
    ensures StartMach(p, b + more) == More(StartMach(p, b), more)
  {
    assert (b + more)[1..5] == b[1..5];
    assert (b + more)[5..] == b[5..] + more;
  }
}
