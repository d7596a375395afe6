/** One symbol of the decoding loop, as the decoder meets it: at a position of a buffer, perhaps with more input
    behind the buffer, and perhaps with less room than there will be in the end. */
module LzmaProgress {
  import opened Bytes
  import opened Powers
  import opened BitModel
  import opened RangeEncoder
  import opened RangeDecoder
  import opened LzmaSyntax
  import opened LzmaReader
  import opened LzmaState
  import opened LzmaStream
  import opened LzmaBudget
  import opened Wrappers

  /** The machine whose input is the rest of a buffer and what comes behind it. */
  ghost function MachAt(z: Lz, remain: nat, now: Dec, input: seq<Byte>, beyond: seq<Byte>): (m: Mach)
    requires now.rc.pos <= |input|
    ensures m.z == z && m.code == now.rc.code
  {
    Mach(z, remain, now.rc.range, now.rc.code, now.probs, input[now.rc.pos..] + beyond)
  }

  /** `k`, `d` is the symbol at this position of the buffer. */
  ghost predicate SymbolAt(p: Props, z: Lz, now: Dec, input: seq<Byte>, k: Packet, d: Dec) {
    && p.Ok() && DecOk(ContextOf(p, z), now) && now.rc.pos <= |input|
    && Read(ContextOf(p, z), IsMatchBit, now, input) == Some((k, d))
  }

  /** The symbol of the buffer is the symbol of the machine, and it leaves the machine at its end. */
  lemma SymbolHere(p: Props, z: Lz, now: Dec, input: seq<Byte>, beyond: seq<Byte>, k: Packet, d: Dec)
    requires SymbolAt(p, z, now, input, k, d) && MachOk(p, MachAt(z, 0, now, input, beyond))
    ensures now.rc.pos <= d.rc.pos <= |input| && PacketOk(k) && DecOk(ContextOf(p, z), d) && |d.probs| == |now.probs|
    ensures Symbol(p, MachAt(z, 0, now, input, beyond)) == Some((k, d.(rc := Back(d.rc, now.rc.pos))))
  {
    var m := MachAt(z, 0, now, input, []);
    var n := now.rc.pos;
    ReadOk(ContextOf(p, z), IsMatchBit, now, input);
    ReadShifted(ContextOf(p, z), IsMatchBit, now, input, n);
    assert now.(rc := Back(now.rc, n)) == RegsOf(m);
    hide Read, FreshProbs;
    assert input[n..] + [] == input[n..];
    SymbolMore(p, m, beyond);
    assert More(m, beyond) == MachAt(z, 0, now, input, beyond);
  }

  lemma AfterHere(z: Lz, now: Dec, input: seq<Byte>, beyond: seq<Byte>, d: Dec, z': Lz, remain: nat)
    requires now.rc.pos <= d.rc.pos <= |input|
    ensures After(MachAt(z, 0, now, input, beyond), d.(rc := Back(d.rc, now.rc.pos)), z', remain)
            == MachAt(z', remain, d, input, beyond)
  {
    var n := now.rc.pos;
    assert (input[n..] + beyond)[d.rc.pos - n..] == input[d.rc.pos..] + beyond;
  }

  /** Decoding from m and from m' gives the same. */
  ghost predicate Resumes(p: Props, m: Mach, room: nat, end: bool, m': Mach, room': nat) {
    && MachOk(p, m) && MachOk(p, m') && Resume(p, m, room, end) == Resume(p, m', room', end)
  }

  /** Producing the bytes of a copy in less room than there is, and copying the rest later. */
  lemma ProduceInPart(p: Props, z: Lz, k: Packet, part: nat, room: nat)
    requires p.Ok() && Accepts(p, z, k) && 0 < part <= room && 0 <= Header(z, k).0
    requires (z.hist != [] ==> 1 <= Header(z, k).1.r0 <= |z.hist|) && (z.hist == [] ==> k.Lit?)
    ensures var (z1, rest) := Produce(p, z, k, part);
            && (rest == 0 ==> Produce(p, z, k, room) == (z1, 0))
            && (rest > 0 ==> 1 <= z1.reps.r0 <= |z1.hist| && |z1.hist| == |z.hist| + part && Produce(p, z, k, room) ==
                             (z1.(hist := Copy(z1.hist, z1.reps.r0, Min(rest, room - part))), rest - Min(rest, room - part)))
  {
    hide Accepts;
    if !k.Lit? {
      ProduceCopy(p, z, k, part);
      ProduceCopy(p, z, k, room);
      hide Produce, Header, Copy;
      var r0, len := Header(z, k).1.r0, Header(z, k).2;
      if len > part {
        CopySplit(z.hist, r0, part, Min(len - part, room - part));
      }
    }
  }

  lemma ProduceCopy(p: Props, z: Lz, k: Packet, room: nat)
    requires p.Ok() && Accepts(p, z, k) && 0 <= Header(z, k).0 && z.hist != [] && !k.Lit?
    requires 1 <= Header(z, k).1.r0 <= |z.hist|
    ensures var (state, reps, len) := Header(z, k);
            Produce(p, z, k, room) == (Lz(state, reps, Copy(z.hist, reps.r0, Min(len, room))), len - Min(len, room))
  {
  }

  lemma ProduceInPartOk(p: Props, z: Lz, k: Packet, part: nat, room: nat)
    requires p.Ok() && LzOk(p, z) && Accepts(p, z, k) && PacketOk(k) && 0 < part <= room
    ensures Header(z, k).0 >= 0 && (z.hist != [] ==> 1 <= Header(z, k).1.r0 <= |z.hist|) && (z.hist == [] ==> k.Lit?)
    ensures var (z1, rest) := Produce(p, z, k, part);
            && LzOk(p, z1) && |z.hist| < |z1.hist| <= |z.hist| + part
            && (rest == 0 ==> Produce(p, z, k, room) == (z1, 0))
            && (rest > 0 ==> 1 <= z1.reps.r0 <= |z1.hist| && |z1.hist| == |z.hist| + part && Produce(p, z, k, room) ==
                             (z1.(hist := Copy(z1.hist, z1.reps.r0, Min(rest, room - part))), rest - Min(rest, room - part)))
  {
    hide LzOk, Accepts, PacketOk, Copy, Apply, Header, Produce;
    ProduceOk(p, z, k, part);
    ProduceInPart(p, z, k, part, room);
  }

  /** How one symbol, or a run of symbols, ended. */
  datatype Verdict = Fine | EndMark | BadData

  /** What taking packet k has done: the output is what Produce says, or k is the end marker, or k is bad. */
  ghost predicate Outcome(p: Props, z: Lz, k: Packet, room: nat, z': Lz, rest: nat, verdict: Verdict) {
    match verdict
    case EndMark => IsEnd(k) && z' == z && rest == 0
    case BadData => !IsEnd(k) && (!Accepts(p, z, k) || room == 0) && z'.hist == z.hist
    case Fine =>
      && p.Ok() && Accepts(p, z, k) && 0 < room
      && (z.hist != [] ==> 1 <= Header(z, k).1.r0 <= |z.hist|) && 0 <= Header(z, k).0 && (z.hist == [] ==> k.Lit?)
      && (z', rest) == Produce(p, z, k, room)
  }

  /** The decoder has come to machine m1 with room1 left, or to an end: this is where decoding from m goes. */
  ghost predicate Agrees(p: Props, m: Mach, room: nat, end: bool, m1: Mach, room1: nat, verdict: Verdict) {
    match verdict
    case Fine => Resumes(p, m, room, end, m1, room1)
    case EndMark => MachOk(p, m) && Resume(p, m, room, end) == (m1, if m1.code == 0 then Finished else DataError)
    case BadData => MachOk(p, m) && Resume(p, m, room, end).1 == DataError && Resume(p, m, room, end).0.z.hist == m1.z.hist
  }

  /** Where a turn of the loop goes. */
  ghost function Goes(p: Props, t: Turn, end: bool): (Mach, Status)
    requires t.Go? ==> MachOk(p, t.m) && t.m.remain == 0
  {
    if t.Stop? then (t.m, t.status) else Pump(p, t.m, t.room, end)
  }

  /** Copying what is left of a packet, as a turn of the loop. */
  function RestTurn(p: Props, m: Mach, room: nat, end: bool): Turn
    requires MachOk(p, m)
  {
    CopyRestOk(p, m, room);
    var m' := CopyRest(p, m, room);
    if m'.remain > 0 then Stop(m', if end then NotAtEnd else NotFinished)
    else Go(m', room - (|m'.z.hist| - |m.z.hist|))
  }

  lemma ResumeIsRestTurn(p: Props, m: Mach, room: nat, end: bool)
    requires MachOk(p, m)
    ensures RestTurn(p, m, room, end).Go? ==> MachOk(p, RestTurn(p, m, room, end).m) && RestTurn(p, m, room, end).m.remain == 0
    ensures Resume(p, m, room, end) == Goes(p, RestTurn(p, m, room, end), end)
  {
    hide MachOk, Pump, CopyRest;
    CopyRestOk(p, m, room);
  }

  /** Taking a packet in less room than there is, and the rest of its copy later, is taking it. */
  lemma TakeInPart(p: Props, m: Mach, k: Packet, d: Dec, part: nat, room: nat, end: bool, z: Lz, rest: nat)
    requires MachOk(p, m) && m.remain == 0 && Accepts(p, m.z, k) && PacketOk(k) && 0 < part <= room
    requires DecOk(ContextOf(p, m.z), d) && |d.probs| == |m.probs| && d.rc.pos <= |m.pending|
    requires Outcome(p, m.z, k, part, z, rest, Fine)
    ensures MachOk(p, After(m, d, z, rest))
    ensures |m.z.hist| < |z.hist| <= |m.z.hist| + part && (rest > 0 ==> |z.hist| == |m.z.hist| + part)
    ensures TakePacket(p, m, k, d, room, end) == RestTurn(p, After(m, d, z, rest), room - (|z.hist| - |m.z.hist|), end)
  {
    hide Accepts, PacketOk, FreshProbs, Produce, Header, Copy, LzOk, AllProbs;
    ProduceInPartOk(p, m.z, k, part, room);
  }

  lemma OneTakes(p: Props, m: Mach, k: Packet, d: Dec, room: nat, end: bool)
    requires MachOk(p, m) && m.remain == 0 && Symbol(p, m) == Some((k, d)) && d.rc.pos <= |m.pending|
    requires Accepts(p, m.z, k) && PacketOk(k) && 0 < room
    ensures One(p, m, room, end) == TakePacket(p, m, k, d, room, end)
    ensures var t := TakePacket(p, m, k, d, room, end); t.Go? ==> MachOk(p, t.m) && t.m.remain == 0
  {
    hide TakePacket, Symbol, LzOk, FreshProbs, AllProbs;
    assert !IsEnd(k);
    OneOk(p, m, room, end);
  }

  lemma ResumeTakes(p: Props, m: Mach, k: Packet, d: Dec, room: nat, end: bool)
    requires MachOk(p, m) && m.remain == 0 && Symbol(p, m) == Some((k, d)) && d.rc.pos <= |m.pending|
    requires Accepts(p, m.z, k) && PacketOk(k) && 0 < room
    ensures var t := TakePacket(p, m, k, d, room, end);
            && (t.Go? ==> MachOk(p, t.m) && t.m.remain == 0)
            && Resume(p, m, room, end) == Goes(p, t, end)
  {
    hide One, TakePacket, MachOk, CopyRest, Accepts, PacketOk, Symbol;
    OneTakes(p, m, k, d, room, end);
    NothingToCopy(p, m, room);
  }

  /** Accepted packets keep the decoding going to the same end. */
  lemma PacketResumes(p: Props, z: Lz, now: Dec, input: seq<Byte>, beyond: seq<Byte>, k: Packet, d: Dec,
                      part: nat, room: nat, end: bool, z': Lz, rest: nat)
    requires SymbolAt(p, z, now, input, k, d) && MachOk(p, MachAt(z, 0, now, input, beyond))
    requires Outcome(p, z, k, part, z', rest, Fine) && part <= room
    ensures now.rc.pos <= d.rc.pos <= |input|
    ensures |z.hist| < |z'.hist| <= |z.hist| + part && (rest > 0 ==> |z'.hist| == |z.hist| + part)
    ensures Resumes(p, MachAt(z, 0, now, input, beyond), room, end,
                    MachAt(z', rest, d, input, beyond), room - (|z'.hist| - |z.hist|))
  {
    hide Symbol, Produce, Read, MachOk, PacketOk, DecOk, ContextOf, TakePacket, RestTurn, Goes, Resume, Header, SymbolAt, After;
    SymbolHere(p, z, now, input, beyond, k, d);
    var m, m1 := MachAt(z, 0, now, input, beyond), MachAt(z', rest, d, input, beyond);
    SymbolOk(p, m);
    var d0 := d.(rc := Back(d.rc, now.rc.pos));
    TakeInPart(p, m, k, d0, part, room, end, z', rest);
    AfterHere(z, now, input, beyond, d, z', rest);
    ResumeTakes(p, m, k, d0, room, end);
    ResumeIsRestTurn(p, m1, room - (|z'.hist| - |z.hist|), end);
  }

  lemma NothingToCopy(p: Props, m: Mach, room: nat)
    requires MachOk(p, m) && m.remain == 0
    ensures CopyRest(p, m, room) == m
  {
  }

  /** A packet that is not accepted, or anything but an end marker when there is no room, ends decoding. */
  lemma BadPacketStops(p: Props, z: Lz, now: Dec, input: seq<Byte>, beyond: seq<Byte>, k: Packet, d: Dec, room: nat, end: bool)
    requires SymbolAt(p, z, now, input, k, d) && MachOk(p, MachAt(z, 0, now, input, beyond))
    requires !IsEnd(k) && (!Accepts(p, z, k) || room == 0)
    requires room == 0 ==> end && now.rc.code != 0 && k.Match?
    ensures var m := MachAt(z, 0, now, input, beyond); Resume(p, m, room, end) == (m, DataError)
  {
    SymbolHere(p, z, now, input, beyond, k, d);
  }

  /** An end marker ends it well if nothing but zero is left in the code register. */
  lemma EndMarkStops(p: Props, z: Lz, now: Dec, input: seq<Byte>, beyond: seq<Byte>, k: Packet, d: Dec, room: nat, end: bool)
    requires SymbolAt(p, z, now, input, k, d) && MachOk(p, MachAt(z, 0, now, input, beyond))
    requires IsEnd(k)
    requires room == 0 ==> end && now.rc.code != 0
    ensures now.rc.pos <= d.rc.pos <= |input|
    ensures Resume(p, MachAt(z, 0, now, input, beyond), room, end) ==
            (MachAt(z, 0, d, input, beyond), if d.rc.code == 0 then Finished else DataError)
  {
    SymbolHere(p, z, now, input, beyond, k, d);
    AfterHere(z, now, input, beyond, d, z, 0);
  }

  lemma RestShort(p: Props, z: Lz, k: Packet, room: nat, z': Lz, rest: nat)
    requires Outcome(p, z, k, room, z', rest, Fine) && PacketOk(k)
    ensures rest <= 272
  {
  }

  lemma PacketAgrees(p: Props, z: Lz, now: Dec, input: seq<Byte>, beyond: seq<Byte>, k: Packet, d: Dec,
                     part: nat, room: nat, end: bool, z': Lz, rest: nat)
    requires SymbolAt(p, z, now, input, k, d) && MachOk(p, MachAt(z, 0, now, input, beyond))
    requires Outcome(p, z, k, part, z', rest, Fine) && part <= room
    ensures now.rc.pos <= d.rc.pos <= |input| && rest <= 272
    ensures |z.hist| < |z'.hist| <= |z.hist| + part && (rest > 0 ==> |z'.hist| == |z.hist| + part)
    ensures Agrees(p, MachAt(z, 0, now, input, beyond), room, end, MachAt(z', rest, d, input, beyond), room - (|z'.hist| - |z.hist|), Fine)
  {
    hide MachOk, Resume, Produce, SymbolAt, Accepts, Header, MachAt, Resumes, PacketOk, DecOk, ContextOf, LzOk;
    SymbolHere(p, z, now, input, beyond, k, d);
    RestShort(p, z, k, part, z', rest);
    PacketResumes(p, z, now, input, beyond, k, d, part, room, end, z', rest);
  }

  lemma MarkAgrees(p: Props, z: Lz, now: Dec, input: seq<Byte>, beyond: seq<Byte>, k: Packet, d: Dec, room: nat, room1: nat, end: bool)
    requires SymbolAt(p, z, now, input, k, d) && MachOk(p, MachAt(z, 0, now, input, beyond)) && IsEnd(k)
    requires room == 0 ==> end && now.rc.code != 0
    ensures now.rc.pos <= d.rc.pos <= |input|
    ensures Agrees(p, MachAt(z, 0, now, input, beyond), room, end, MachAt(z, 0, d, input, beyond), room1, EndMark)
  {
    hide MachOk, Resume, SymbolAt, MachAt;
    EndMarkStops(p, z, now, input, beyond, k, d, room, end);
  }

  lemma BadAgrees(p: Props, z: Lz, now: Dec, input: seq<Byte>, beyond: seq<Byte>, k: Packet, d: Dec, z': Lz, room: nat, room1: nat, end: bool)
    requires SymbolAt(p, z, now, input, k, d) && MachOk(p, MachAt(z, 0, now, input, beyond))
    requires !IsEnd(k) && (!Accepts(p, z, k) || room == 0) && z'.hist == z.hist
    requires room == 0 ==> end && now.rc.code != 0 && k.Match?
    ensures now.rc.pos <= d.rc.pos <= |input|
    ensures Agrees(p, MachAt(z, 0, now, input, beyond), room, end, MachAt(z', 0, d, input, beyond), room1, BadData)
  {
    hide MachOk, Resume, SymbolAt, MachAt, Accepts, PacketOk, DecOk, ContextOf;
    SymbolHere(p, z, now, input, beyond, k, d);
    BadPacketStops(p, z, now, input, beyond, k, d, room, end);
  }

  /** One symbol agrees with decoding, even when its copy is cut short. */
  lemma OutcomeAgrees(p: Props, z: Lz, now: Dec, input: seq<Byte>, beyond: seq<Byte>, k: Packet, d: Dec,
                      part: nat, room: nat, end: bool, z': Lz, rest: nat, verdict: Verdict)
    requires SymbolAt(p, z, now, input, k, d) && MachOk(p, MachAt(z, 0, now, input, beyond))
    requires Outcome(p, z, k, part, z', rest, verdict) && part <= room
    requires part == 0 ==> room == 0 && end && now.rc.code != 0 && k.Match?
    ensures now.rc.pos <= d.rc.pos <= |input|
    ensures verdict == Fine ==> |z.hist| < |z'.hist| <= |z.hist| + part && (rest > 0 ==> |z'.hist| == |z.hist| + part)
    ensures verdict != Fine ==> z'.hist == z.hist && (verdict == EndMark ==> z' == z && rest == 0)
    ensures verdict == Fine ==> rest <= 272
    ensures var m1 := MachAt(z', if verdict == Fine then rest else 0, d, input, beyond);
            Agrees(p, MachAt(z, 0, now, input, beyond), room, end, m1, room - (|z'.hist| - |z.hist|), verdict)
  {
    hide MachOk, SymbolAt, MachAt, Accepts, Agrees, Produce, Header;
    var room1 := room - (|z'.hist| - |z.hist|);
    match verdict
    case Fine => PacketAgrees(p, z, now, input, beyond, k, d, part, room, end, z', rest);
    case EndMark => MarkAgrees(p, z, now, input, beyond, k, d, room, room1, end);
    case BadData => BadAgrees(p, z, now, input, beyond, k, d, z', room, room1, end);
  }

  lemma AgreesFails(p: Props, m: Mach, room: nat, end: bool, m1: Mach, room1: nat)
    requires Agrees(p, m, room, end, m1, room1, BadData)
    ensures MachOk(p, m) && Resume(p, m, room, end).1 == DataError && Resume(p, m, room, end).0.z.hist == m1.z.hist
  {
  }

  lemma AgreesThen(p: Props, m: Mach, room: nat, end: bool, m1: Mach, room1: nat, m2: Mach, room2: nat, verdict: Verdict)
    requires Resumes(p, m, room, end, m1, room1) && Agrees(p, m1, room1, end, m2, room2, verdict)
    ensures Agrees(p, m, room, end, m2, room2, verdict)
  {
    hide MachOk, Resume;
  }

  /** With 20 bytes left in the buffer the next symbol is complete in it. */
  lemma EnoughHere(p: Props, z: Lz, now: Dec, input: seq<Byte>, beyond: seq<Byte>)
    requires now.rc.pos + LZMA_REQUIRED_INPUT_MAX <= |input| && MachOk(p, MachAt(z, 0, now, input, beyond))
    ensures DecOk(ContextOf(p, z), now) && Read(ContextOf(p, z), IsMatchBit, now, input).Some?
  {
    var m := MachAt(z, 0, now, input, []);
    var n := now.rc.pos;
    MachContext(p, m);
    TwentyBytesSuffice(p, m);
    assert input[n..] + [] == input[n..];
    assert now.(rc := Back(now.rc, n)) == RegsOf(m);
    hide Read, FreshProbs;
    ReadShifted(ContextOf(p, z), IsMatchBit, now, input, n);
  }

  /** Copying the rest of a packet keeps the decoding going to the same end. */
  lemma RestResumes(p: Props, m: Mach, room: nat, end: bool)
    requires MachOk(p, m)
    ensures var m' := CopyRest(p, m, room);
            && |m.z.hist| <= |m'.z.hist| <= |m.z.hist| + room
            && Resumes(p, m, room, end, m', room - (|m'.z.hist| - |m.z.hist|))
  {
    hide MachOk, Pump, CopyRest;
    CopyRestOk(p, m, room);
    var m' := CopyRest(p, m, room);
    if m'.remain > 0 {
      RestAgain(p, m');
    } else {
      NothingToCopy(p, m', room - (|m'.z.hist| - |m.z.hist|));
    }
  }

  lemma RestAgain(p: Props, m: Mach)
    requires MachOk(p, m) && 0 < m.remain
    ensures CopyRest(p, m, 0) == m
  {
  }

  /** The same where the decoder stands. */
  lemma RestHere(p: Props, m0: Mach, room0: nat, end: bool, z: Lz, remain: nat, now: Dec, input: seq<Byte>,
                 beyond: seq<Byte>, room: nat)
    requires now.rc.pos <= |input| && 0 < remain
    requires Resumes(p, m0, room0, end, MachAt(z, remain, now, input, beyond), room)
    ensures z.hist != [] && 1 <= z.reps.r0 <= |z.hist|
    ensures var n := Min(remain, room);
            Resumes(p, m0, room0, end, MachAt(z.(hist := Copy(z.hist, z.reps.r0, n)), remain - n, now, input, beyond), room - n)
  {
    hide Resume, MachOk, MachAt, CopyRest;
    var n := Min(remain, room);
    RestResumes(p, MachAt(z, remain, now, input, beyond), room, end);
    CopyRestHere(p, z, remain, now, input, beyond, room);
  }

  lemma CopyRestHere(p: Props, z: Lz, remain: nat, now: Dec, input: seq<Byte>, beyond: seq<Byte>, room: nat)
    requires now.rc.pos <= |input| && 0 < remain && MachOk(p, MachAt(z, remain, now, input, beyond))
    ensures z.hist != [] && 1 <= z.reps.r0 <= |z.hist|
    ensures var n := Min(remain, room);
            CopyRest(p, MachAt(z, remain, now, input, beyond), room)
            == MachAt(z.(hist := Copy(z.hist, z.reps.r0, n)), remain - n, now, input, beyond)
  {
    hide Copy;
  }

  // ---------- The first symbol ----------

  /** What kind of packet can still come. */
  ghost predicate KindOk(s: Parse, k: Packet) {
    match s
    case LitBit(_) => k.Lit?
    case MatchedLitBit(_, _, _) => k.Lit?
    case IsMatchBit => true
    case IsRepBit => !k.Lit?
    case IsRepG0Bit => k.Rep? || k.ShortRep?
    case IsRep0LongBit => k.Rep? || k.ShortRep?
    case IsRepG1Bit => k.Rep?
    case IsRepG2Bit => k.Rep?
    case ChoiceBit(use) => if use.ForRep? then k.Rep? else k.Match?
    case Choice2Bit(use) => if use.ForRep? then k.Rep? else k.Match?
    case LowBit(use, _) => if use.ForRep? then k.Rep? else k.Match?
    case MidBit(use, _) => if use.ForRep? then k.Rep? else k.Match?
    case HighBit(use, _) => if use.ForRep? then k.Rep? else k.Match?
    case Done(q) => k == q
    case _ => k.Match?
  }

  lemma KindStep(c: Context, s: Parse, bit: int, k: Packet)
    requires Ok(s) && !s.Done? && IsBit(bit) && KindOk(Step(c, s, bit), k)
    ensures KindOk(s, k)
  {
  }

  lemma {:induction false} KindOfRead(c: Context, s: Parse, d: Dec, b: seq<Byte>)
    requires DecOk(c, d) && Ok(s) && Read(c, s, d, b).Some?
    ensures KindOk(s, Read(c, s, d, b).value.0)
    decreases Rank(s)
  {
    if !s.Done? {
      hide Step, KindOk, Ok, Rank, BitAt, RegsAfter, ProbsAfter;
      ReadStep(c, s, d, b);
      var f := Fetch(RegsAfter(c, s, d), b);
      KindOfRead(c, Step(c, s, BitAt(c, s, d)), Dec(f.value, ProbsAfter(c, s, d)), b);
      KindStep(c, s, BitAt(c, s, d), Read(c, s, d, b).value.0);
    }
  }

  /** The code from which on the first symbol is a repetition: kBadRepCode. */
  const BAD_REP_CODE: nat := 0xBFFF_FC00

  /** On fresh probabilities the first symbol is a repetition exactly if the code is large. */
  lemma FirstIsRep(p: Props, now: Dec, input: seq<Byte>, k: Packet, d: Dec)
    requires SymbolAt(p, LZ_START, now, input, k, d) && now.rc.range == FULL_RANGE && now.probs == FreshProbs(p)
    ensures BAD_REP_CODE <= now.rc.code <==> k.Rep? || k.ShortRep?
  {
    var c := ContextOf(p, LZ_START);
    assert c.state == 0 && c.posState == 0 by { Pow2Small(); }
    FirstBit(c, now);
    ReadStep(c, IsMatchBit, now, input);
    var bit := BitAt(c, IsMatchBit, now);
    var f := Fetch(RegsAfter(c, IsMatchBit, now), input);
    var d1 := Dec(f.value, ProbsAfter(c, IsMatchBit, now));
    hide Read, FreshProbs, RegsAfter, ProbsAfter;
    KindOfRead(c, Step(c, IsMatchBit, bit), d1, input);
    if bit == 1 {
      SecondBit(c, d1);
      ReadStep(c, IsRepBit, d1, input);
      var bit1 := BitAt(c, IsRepBit, d1);
      var f1 := Fetch(RegsAfter(c, IsRepBit, d1), input);
      KindOfRead(c, Step(c, IsRepBit, bit1), Dec(f1.value, ProbsAfter(c, IsRepBit, d1)), input);
    }
  }

  lemma FirstBit(c: Context, now: Dec)
    requires DecOk(c, now) && c.state == 0 && c.posState == 0 && now.rc.range == FULL_RANGE
    requires forall i :: 0 <= i < |now.probs| ==> now.probs[i] == PROB_INIT
    ensures BitAt(c, IsMatchBit, now) == (if now.rc.code < 0x7FFF_FC00 then 0 else 1)
    ensures BitAt(c, IsMatchBit, now) == 1 ==>
              && RegsAfter(c, IsMatchBit, now) == now.rc.(range := 0x8000_03FF, code := now.rc.code - 0x7FFF_FC00)
              && ProbsAfter(c, IsMatchBit, now)[IS_REP] == PROB_INIT
  {
  }

  lemma SecondBit(c: Context, d: Dec)
    requires DecOk(c, d) && c.state == 0 && d.rc.range == 0x8000_03FF && d.probs[IS_REP] == PROB_INIT
    ensures BitAt(c, IsRepBit, d) == (if d.rc.code < 0x4000_0000 then 0 else 1)
  {
  }

  // ---------- Where decoding stops for want of room or input ----------

  /** Without room decoding stops: perhaps at the end, perhaps in the middle. */
  lemma FullStops(p: Props, m: Mach, end: bool)
    requires MachOk(p, m)
    ensures 0 < m.remain ==> Resume(p, m, 0, end) == (m, if end then NotAtEnd else NotFinished)
    ensures m.remain == 0 && m.code == 0 ==> Resume(p, m, 0, end) == (m, MaybeFinished)
    ensures m.remain == 0 && m.code != 0 && !end ==> Resume(p, m, 0, end) == (m, NotFinished)
  {
    if m.remain > 0 {
      RestAgain(p, m);
    }
  }

  /** Without a complete symbol it stops for input, if there is room or an end marker is asked for. */
  lemma StarvedStops(p: Props, m: Mach, room: nat, end: bool)
    requires MachOk(p, m) && m.remain == 0 && Symbol(p, m).None? && (room == 0 ==> end && m.code != 0)
    ensures Resume(p, m, room, end) == (m, NeedsInput)
  {
  }

  /** Where an end marker is asked for, any other symbol than a match is refused. */
  lemma WrongSymbolStops(p: Props, m: Mach)
    requires MachOk(p, m) && m.remain == 0 && Symbol(p, m).Some? && !Symbol(p, m).value.0.Match? && m.code != 0
    ensures Resume(p, m, 0, true) == (m, NotAtEnd)
  {
  }

  /** The same machine, with its buffer behind it. */
  lemma Unload(z: Lz, remain: nat, now: Dec, input: seq<Byte>, beyond: seq<Byte>)
    requires now.rc.pos <= |input|
    ensures MachAt(z, remain, now, input, beyond)
            == Mach(z, remain, now.rc.range, now.rc.code, now.probs, input[now.rc.pos..] + beyond)
            == MachAt(z, remain, now.(rc := now.rc.(pos := 0)), [], input[now.rc.pos..] + beyond)
  {
    assert [][0..] + (input[now.rc.pos..] + beyond) == input[now.rc.pos..] + beyond;
  }
}
