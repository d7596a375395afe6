/** Decoding a stream that arrives in pieces into an output of limited room: the reference for
    LzmaDec_DecodeToDic. */
module LzmaStream {
  import opened Bytes
  import opened BitModel
  import opened RangeDecoder
  import opened LzmaSyntax
  import opened LzmaReader
  import opened LzmaState
  import opened Wrappers

  /** Why decoding stopped. NotAtEnd is the data error reported with status "not finished". */
  datatype Status = NeedsInput | NotFinished | MaybeFinished | Finished | NotAtEnd | DataError

  /** A decoder between two symbols: the rest of a copy that did not fit, the normalised registers, the
      probabilities, and the input not yet decoded. */
  datatype Mach = Mach(z: Lz, remain: nat, range: nat, code: nat, probs: seq<int>, pending: seq<Byte>)

  const FULL_RANGE: nat := 0xFFFF_FFFF

  function FreshProbs(p: Props): seq<int> { seq(LITERAL + 0x300 * p.LitCoders(), _ => PROB_INIT) }

  /** The decoder after the first five bytes of `b`. */
  function StartMach(p: Props, b: seq<Byte>): Mach
    requires 5 <= |b|
  {
    Mach(LZ_START, 0, FULL_RANGE, Num(b[1..5]), FreshProbs(p), b[5..])
  }

  ghost predicate MachOk(p: Props, m: Mach) {
    && p.Ok() && LzOk(p, m.z)
    && (m.z.hist == [] ==> m.remain == 0 && m.range == FULL_RANGE && m.probs == FreshProbs(p))
    && 0x100_0000 <= m.range < 0x1_0000_0000 && m.code < 0x1_0000_0000
    && AllProbs(m.probs) && |m.probs| == LITERAL + 0x300 * p.LitCoders()
  }

  function RegsOf(m: Mach): Dec { Dec(Reader(m.range, m.code, 0), m.probs) }

  lemma MachContext(p: Props, m: Mach)
    requires MachOk(p, m)
    ensures DecOk(ContextOf(p, m.z), RegsOf(m))
  {
    ContextOk(p, m.z);
  }

  /** The next symbol, if the input holds all of it. */
  ghost function Symbol(p: Props, m: Mach): Option<(Packet, Dec)>
    requires MachOk(p, m)
  {
    MachContext(p, m);
    Read(ContextOf(p, m.z), IsMatchBit, RegsOf(m), m.pending)
  }

  lemma SymbolOk(p: Props, m: Mach)
    requires MachOk(p, m)
    ensures var s := Symbol(p, m);
            s.Some? ==> PacketOk(s.value.0) && DecOk(ContextOf(p, m.z), s.value.1)
                        && |s.value.1.probs| == |m.probs| && s.value.1.rc.pos <= |m.pending|
  {
    MachContext(p, m);
    ReadOk(ContextOf(p, m.z), IsMatchBit, RegsOf(m), m.pending);
  }

  function IsEnd(k: Packet): bool { k.Match? && k.dist == END_DISTANCE }

  /** The machine with the symbol's registers and probabilities, and z, remain as given. */
  function After(m: Mach, d: Dec, z: Lz, remain: nat): Mach
    requires d.rc.pos <= |m.pending|
  {
    Mach(z, remain, d.rc.range, d.rc.code, d.probs, m.pending[d.rc.pos..])
  }

  /** Applies an accepted packet as far as there is room for its bytes. */
  function Produce(p: Props, z: Lz, k: Packet, room: nat): (r: (Lz, nat))
    requires p.Ok() && Accepts(p, z, k)
    requires z.hist != [] ==> 1 <= Header(z, k).1.r0 <= |z.hist|
    requires 0 <= Header(z, k).0 && (z.hist == [] ==> k.Lit?)
  {
    var (state, reps, len) := Header(z, k);
    if k.Lit? then (Lz(state, reps, z.hist + [k.b]), 0)
    else
      var n := Min(len, room);
      (Lz(state, reps, Copy(z.hist, reps.r0, n)), len - n)
  }

  lemma ProduceOk(p: Props, z: Lz, k: Packet, room: nat)
    requires p.Ok() && LzOk(p, z) && Accepts(p, z, k) && PacketOk(k) && 0 < room
    ensures z.hist != [] ==> 1 <= Header(z, k).1.r0 <= |z.hist|
    ensures 0 <= Header(z, k).0 && (z.hist == [] ==> k.Lit?)
    ensures var (z', remain) := Produce(p, z, k, room);
            && LzOk(p, z') && z.hist < z'.hist && |z'.hist| <= |z.hist| + room
            && (remain > 0 ==> |z'.hist| == |z.hist| + room)
            && (remain == 0 ==> z' == Apply(p, z, k))
  {
    HeaderOk(p, z, k);
  }

  /** Stop with a status, or go on with less room. */
  datatype Turn = Stop(m: Mach, status: Status) | Go(m: Mach, room: nat)

  /** One turn of the decoding loop: the reasons to stop before, at and after a symbol. */
  ghost function One(p: Props, m: Mach, room: nat, end: bool): Turn
    requires MachOk(p, m) && m.remain == 0
  {
    SymbolOk(p, m);
    if room == 0 && m.code == 0 then Stop(m, MaybeFinished)
    else if room == 0 && !end then Stop(m, NotFinished)
    else if Symbol(p, m).None? then Stop(m, NeedsInput)
    else
      var (k, d) := Symbol(p, m).value;
      if room == 0 && !k.Match? then Stop(m, NotAtEnd)
      else if IsEnd(k) then Stop(After(m, d, m.z, 0), if d.rc.code == 0 then Finished else DataError)
      else if !Accepts(p, m.z, k) || room == 0 then Stop(m, DataError)
      else TakePacket(p, m, k, d, room, end)
  }

  function TakePacket(p: Props, m: Mach, k: Packet, d: Dec, room: nat, end: bool): Turn
    requires MachOk(p, m) && m.remain == 0 && Accepts(p, m.z, k) && PacketOk(k) && 0 < room
    requires d.rc.pos <= |m.pending|
  {
    ProduceOk(p, m.z, k, room);
    var (z, remain) := Produce(p, m.z, k, room);
    if remain > 0 then Stop(After(m, d, z, remain), if end then NotAtEnd else NotFinished)
    else Go(After(m, d, z, 0), room - (|z.hist| - |m.z.hist|))
  }

  /** Decoding may be resumed after this status. */
  predicate Resumable(s: Status) { s != Finished && s != DataError }

  ghost predicate TurnOk(p: Props, m: Mach, room: nat, t: Turn) {
    && m.z.hist <= t.m.z.hist
    && (t.Go? || Resumable(t.status) ==> MachOk(p, t.m))
    && (t.Go? ==> t.m.remain == 0 && t.room < room && |t.m.z.hist| + t.room == |m.z.hist| + room)
    && (t.Stop? ==> |t.m.z.hist| <= |m.z.hist| + room)
    && (t.Stop? && t.status == NeedsInput ==> t.m == m)
  }

  lemma TakePacketOk(p: Props, m: Mach, k: Packet, d: Dec, room: nat, end: bool)
    requires MachOk(p, m) && m.remain == 0 && Accepts(p, m.z, k) && PacketOk(k) && 0 < room
    requires DecOk(ContextOf(p, m.z), d) && |d.probs| == |m.probs| && d.rc.pos <= |m.pending|
    ensures TurnOk(p, m, room, TakePacket(p, m, k, d, room, end))
    ensures TakePacket(p, m, k, d, room, end).Stop? ==> TakePacket(p, m, k, d, room, end).status != NeedsInput
  {
    ProduceOk(p, m.z, k, room);
    hide Produce, LzOk, Accepts, PacketOk;
    var (z, remain) := Produce(p, m.z, k, room);
    assert z.hist != [];
    assert MachOk(p, After(m, d, z, remain));
  }

  lemma OneOk(p: Props, m: Mach, room: nat, end: bool)
    requires MachOk(p, m) && m.remain == 0
    ensures TurnOk(p, m, room, One(p, m, room, end))
  {
    SymbolOk(p, m);
    if !(room == 0 && (m.code == 0 || !end)) && Symbol(p, m).Some? {
      var (k, d) := Symbol(p, m).value;
      if !(room == 0 && !k.Match?) && !IsEnd(k) && Accepts(p, m.z, k) && room != 0 {
        TakePacketOk(p, m, k, d, room, end);
      }
    }
  }

  /** Decodes symbols until something stops it. */
  ghost function Pump(p: Props, m: Mach, room: nat, end: bool): (r: (Mach, Status))
    requires MachOk(p, m) && m.remain == 0
    decreases room
  {
    OneOk(p, m, room, end);
    match One(p, m, room, end)
    case Stop(m', status) => (m', status)
    case Go(m', room') => Pump(p, m', room', end)
  }

  /** The rest of the last copy, as far as there is room. */
  function CopyRest(p: Props, m: Mach, room: nat): Mach
    requires MachOk(p, m)
  {
    if m.remain == 0 then m
    else
      var n := Min(m.remain, room);
      m.(z := m.z.(hist := Copy(m.z.hist, m.z.reps.r0, n)), remain := m.remain - n)
  }

  lemma CopyRestOk(p: Props, m: Mach, room: nat)
    requires MachOk(p, m)
    ensures var m' := CopyRest(p, m, room);
            && MachOk(p, m') && m.z.hist <= m'.z.hist && |m'.z.hist| <= |m.z.hist| + room
            && (m'.remain > 0 ==> |m'.z.hist| == |m.z.hist| + room)
  {
  }

  /** First the rest of the last copy, then symbols. */
  ghost function Resume(p: Props, m: Mach, room: nat, end: bool): (r: (Mach, Status))
    requires MachOk(p, m)
  {
    CopyRestOk(p, m, room);
    var m' := CopyRest(p, m, room);
    if m'.remain > 0 then (m', if end then NotAtEnd else NotFinished)
    else Pump(p, m', room - (|m'.z.hist| - |m.z.hist|), end)
  }

  function More(m: Mach, b: seq<Byte>): Mach { m.(pending := m.pending + b) }

  lemma SymbolMore(p: Props, m: Mach, b: seq<Byte>)
    requires MachOk(p, m) && Symbol(p, m).Some?
    ensures Symbol(p, More(m, b)) == Symbol(p, m)
  {
    MachContext(p, m);
    ReadExtended(ContextOf(p, m.z), IsMatchBit, RegsOf(m), m.pending, b);
  }

  /** The same turn, with more input behind it. */
  function MoreTurn(t: Turn, b: seq<Byte>): Turn {
    if t.Stop? then Stop(More(t.m, b), t.status) else Go(More(t.m, b), t.room)
  }

  lemma AfterMore(m: Mach, d: Dec, z: Lz, remain: nat, b: seq<Byte>)
    requires d.rc.pos <= |m.pending|
    ensures After(More(m, b), d, z, remain) == More(After(m, d, z, remain), b)
  {
    var n := d.rc.pos;
    assert (m.pending + b)[n..] == m.pending[n..] + b;
  }

  lemma TakeMore(p: Props, m: Mach, k: Packet, d: Dec, room: nat, end: bool, b: seq<Byte>)
    requires MachOk(p, m) && MachOk(p, More(m, b)) && m.remain == 0 && Accepts(p, m.z, k) && PacketOk(k) && 0 < room
    requires d.rc.pos <= |m.pending|
    ensures TakePacket(p, More(m, b), k, d, room, end) == MoreTurn(TakePacket(p, m, k, d, room, end), b)
  {
    hide Accepts, PacketOk, Produce, Header, LzOk, After, FreshProbs, AllProbs;
    ProduceOk(p, m.z, k, room);
    var (z, remain) := Produce(p, m.z, k, room);
    AfterMore(m, d, z, remain, b);
    AfterMore(m, d, z, 0, b);
  }

  lemma OneMore(p: Props, m: Mach, room: nat, end: bool, b: seq<Byte>)
    requires MachOk(p, m) && MachOk(p, More(m, b)) && m.remain == 0
    ensures var t := One(p, m, room, end);
            t == Stop(m, NeedsInput) || One(p, More(m, b), room, end) == MoreTurn(t, b)
  {
    hide MachOk, Symbol, TakePacket, Accepts, After, PacketOk;
    SymbolOk(p, m);
    if Symbol(p, m).Some? {
      var (k, d) := Symbol(p, m).value;
      SymbolMore(p, m, b);
      AfterMore(m, d, m.z, 0, b);
      if 0 < room && Accepts(p, m.z, k) {
        TakeMore(p, m, k, d, room, end, b);
      }
    }
  }

  /** What decoding leaves is well formed, never beyond the room, and extends the output. */
  lemma {:induction false} PumpOk(p: Props, m: Mach, room: nat, end: bool)
    requires MachOk(p, m) && m.remain == 0
    ensures var (m', s) := Pump(p, m, room, end);
            && m.z.hist <= m'.z.hist && |m'.z.hist| <= |m.z.hist| + room
            && (Resumable(s) ==> MachOk(p, m'))
            && (s == NeedsInput ==> m'.remain == 0)
    decreases room
  {
    hide One, MachOk;
    OneOk(p, m, room, end);
    var t := One(p, m, room, end);
    if t.Go? {
      PumpOk(p, t.m, t.room, end);
    }
  }

  lemma MoreOk(p: Props, m: Mach, b: seq<Byte>)
    requires MachOk(p, m)
    ensures MachOk(p, More(m, b))
  {
  }

  /** Decoding the first piece of the input and then the rest gives what decoding both together gives. */
  ghost predicate PumpsInChunks(p: Props, m: Mach, room: nat, end: bool, b: seq<Byte>) {
    && MachOk(p, m) && MachOk(p, More(m, b)) && m.remain == 0
    && var (m', s) := Pump(p, m, room, end);
    && |m.z.hist| <= |m'.z.hist| <= |m.z.hist| + room
    && (s == NeedsInput ==> MachOk(p, m') && MachOk(p, More(m', b)) && m'.remain == 0)
    && Pump(p, More(m, b), room, end) ==
       if s == NeedsInput then Pump(p, More(m', b), room - (|m'.z.hist| - |m.z.hist|), end)
       else (More(m', b), s)
  }

  lemma {:induction false} PumpChunks(p: Props, m: Mach, room: nat, end: bool, b: seq<Byte>)
    requires MachOk(p, m) && m.remain == 0
    ensures PumpsInChunks(p, m, room, end, b)
    decreases room
  {
    hide One, MachOk;
    MoreOk(p, m, b);
    PumpOk(p, m, room, end);
    OneOk(p, m, room, end);
    OneOk(p, More(m, b), room, end);
    OneMore(p, m, room, end, b);
    var t := One(p, m, room, end);
    if t.Go? {
      PumpChunks(p, t.m, t.room, end, b);
    }
  }

  lemma RestMore(p: Props, m: Mach, room: nat, b: seq<Byte>)
    requires MachOk(p, m)
    ensures MachOk(p, More(m, b)) && CopyRest(p, More(m, b), room) == More(CopyRest(p, m, room), b)
  {
  }

  /** Decoding m's input and then b, in the room that is left, is decoding both together. */
  ghost predicate ChunksAgree(p: Props, m: Mach, room: nat, end: bool, b: seq<Byte>) {
    && MachOk(p, m) && MachOk(p, More(m, b))
    && var (m', s) := Resume(p, m, room, end);
    && |m.z.hist| <= |m'.z.hist| <= |m.z.hist| + room
    && (s == NeedsInput ==>
          && MachOk(p, m') && MachOk(p, More(m', b))
          && Resume(p, More(m, b), room, end) == Resume(p, More(m', b), room - (|m'.z.hist| - |m.z.hist|), end))
    && (s != NeedsInput ==> Resume(p, More(m, b), room, end) == (More(m', b), s))
  }

  lemma ResumeOfIdle(p: Props, m: Mach, room: nat, end: bool)
    requires MachOk(p, m) && m.remain == 0
    ensures Resume(p, m, room, end) == Pump(p, m, room, end)
  {
    hide MachOk, Pump;
  }

  /** Input may arrive in any pieces. */
  lemma ResumeChunks(p: Props, m: Mach, room: nat, end: bool, b: seq<Byte>)
    requires MachOk(p, m)
    ensures ChunksAgree(p, m, room, end, b)
  {
    hide MachOk, Pump, CopyRest;
    RestMore(p, m, room, b);
    CopyRestOk(p, m, room);
    CopyRestOk(p, More(m, b), room);
    var m1 := CopyRest(p, m, room);
    if m1.remain == 0 {
      var left := room - (|m1.z.hist| - |m.z.hist|);
      PumpChunks(p, m1, left, end, b);
      var (m', s) := Pump(p, m1, left, end);
      if s == NeedsInput {
        ResumeOfIdle(p, More(m', b), left - (|m'.z.hist| - |m1.z.hist|), end);
      }
    }
  }
}
