/** The output may be drawn in pieces, too: decoding with less room and then with the rest is decoding at once. */
module LzmaPieces {
  import opened Bytes
  import opened BitModel
  import opened LzmaSyntax
  import opened LzmaReader
  import opened LzmaState
  import opened LzmaStream
  import opened LzmaProgress
  import opened Wrappers

  /** The call stopped only because the output was full. */
  predicate IsFull(s: Status) { s == NotFinished || s == MaybeFinished }

  /** Decoding in `part` of the room first leads to the same end as decoding in all of it. */
  ghost predicate InParts(p: Props, m: Mach, part: nat, room: nat, end: bool) {
    && MachOk(p, m) && part <= room
    && var (m1, s1) := Resume(p, m, part, false);
    && |m.z.hist| <= |m1.z.hist| <= |m.z.hist| + part
    && (IsFull(s1) ==> MachOk(p, m1) && |m1.z.hist| == |m.z.hist| + part
                       && Resume(p, m, room, end) == Resume(p, m1, room - part, end))
    && (!IsFull(s1) ==> Resume(p, m, room, end) == (m1, s1))
  }

  /** The same of a machine between two symbols. */
  ghost predicate PumpsInParts(p: Props, m: Mach, part: nat, room: nat, end: bool) {
    && MachOk(p, m) && m.remain == 0 && part <= room
    && var (m1, s1) := Pump(p, m, part, false);
    && |m.z.hist| <= |m1.z.hist| <= |m.z.hist| + part
    && (IsFull(s1) ==> MachOk(p, m1) && |m1.z.hist| == |m.z.hist| + part
                       && Pump(p, m, room, end) == Resume(p, m1, room - part, end))
    && (!IsFull(s1) ==> Pump(p, m, room, end) == (m1, s1))
  }


  lemma NoRoomYet(p: Props, m: Mach, room: nat, end: bool)
    requires MachOk(p, m) && m.remain == 0
    ensures PumpsInParts(p, m, 0, room, end)
  {
    hide MachOk, Symbol;
    OneOk(p, m, 0, false);
    ResumeOfIdle(p, m, room, end);
  }

  /** A turn that ends or fails does so whatever the room. */
  lemma SameStop(p: Props, m: Mach, part: nat, room: nat, end: bool)
    requires MachOk(p, m) && m.remain == 0 && 0 < part <= room
    requires Symbol(p, m).None? || IsEnd(Symbol(p, m).value.0) || !Accepts(p, m.z, Symbol(p, m).value.0)
    ensures One(p, m, part, false).Stop? && One(p, m, part, false) == One(p, m, room, end)
    ensures !IsFull(One(p, m, part, false).status) && One(p, m, part, false).m.z.hist == m.z.hist
  {
    hide MachOk, Symbol, Accepts, TakePacket;
    SymbolOk(p, m);
  }

  /** A packet taken in part of the room. */
  lemma TakeSame(p: Props, m: Mach, k: Packet, d: Dec, part: nat, room: nat, end: bool)
    requires MachOk(p, m) && m.remain == 0 && Symbol(p, m) == Some((k, d)) && !IsEnd(k) && Accepts(p, m.z, k) && 0 < part <= room
    ensures One(p, m, part, false).Stop? ==>
              var t := One(p, m, part, false);
              && t.status == NotFinished && MachOk(p, t.m) && |t.m.z.hist| == |m.z.hist| + part
              && Pump(p, m, room, end) == Resume(p, t.m, room - part, end)
    ensures One(p, m, part, false).Go? ==>
              var t := One(p, m, part, false);
              One(p, m, room, end) == Go(t.m, room - part + t.room)
  {
    hide MachOk, Symbol, Accepts, Produce, LzOk, Header, RestTurn, Resume, PacketOk, DecOk, One, Pump, Outcome;
    SymbolOk(p, m);
    OneTakes(p, m, k, d, part, false);
    OneTakes(p, m, k, d, room, end);
    var (z, rest) := Taken(p, m, k, part);
    TakeInPart(p, m, k, d, part, room, end, z, rest);
    TakenTurn(p, m, k, d, part, z, rest);
    var m1, left := After(m, d, z, rest), room - (|z.hist| - |m.z.hist|);
    ResumeIsRestTurn(p, m1, left, end);
    ResumeTakes(p, m, k, d, room, end);
    ResumeOfIdle(p, m, room, end);
    if rest == 0 {
      RestNothing(p, m1, left, end);
    }
  }

  ghost function Taken(p: Props, m: Mach, k: Packet, part: nat): (r: (Lz, nat))
    requires MachOk(p, m) && Accepts(p, m.z, k) && PacketOk(k) && 0 < part
    ensures Outcome(p, m.z, k, part, r.0, r.1, Fine)
  {
    ProduceOk(p, m.z, k, part);
    Produce(p, m.z, k, part)
  }

  lemma TakenTurn(p: Props, m: Mach, k: Packet, d: Dec, part: nat, z: Lz, rest: nat)
    requires MachOk(p, m) && m.remain == 0 && Accepts(p, m.z, k) && PacketOk(k) && 0 < part && d.rc.pos <= |m.pending|
    requires (z, rest) == Taken(p, m, k, part)
    ensures |z.hist| <= |m.z.hist| + part
    ensures TakePacket(p, m, k, d, part, false) ==
            if rest > 0 then Stop(After(m, d, z, rest), NotFinished) else Go(After(m, d, z, 0), part - (|z.hist| - |m.z.hist|))
  {
    hide AllProbs, FreshProbs, Accepts, Produce, LzOk, Header, PacketOk, Apply;
    ProduceOk(p, m.z, k, part);
  }

  lemma RestNothing(p: Props, m: Mach, room: nat, end: bool)
    requires MachOk(p, m) && m.remain == 0
    ensures RestTurn(p, m, room, end) == Go(m, room)
  {
    hide MachOk;
    NothingToCopy(p, m, room);
  }

  lemma {:induction false} PumpInParts(p: Props, m: Mach, part: nat, room: nat, end: bool)
    requires MachOk(p, m) && m.remain == 0 && part <= room
    ensures PumpsInParts(p, m, part, room, end)
    decreases part
  {
    hide MachOk, Symbol, Accepts, One, Resume;
    if part == 0 {
      NoRoomYet(p, m, room, end);
    } else if Symbol(p, m).None? || IsEnd(Symbol(p, m).value.0) || !Accepts(p, m.z, Symbol(p, m).value.0) {
      SameStop(p, m, part, room, end);
      OneOk(p, m, part, false);
      OneOk(p, m, room, end);
    } else {
      var (k, d) := Symbol(p, m).value;
      TakeSame(p, m, k, d, part, room, end);
      OneOk(p, m, part, false);
      OneOk(p, m, room, end);
      var t := One(p, m, part, false);
      if t.Go? {
        PumpInParts(p, t.m, t.room, room - part + t.room, end);
      }
    }
  }

  /** Decoding with `part` of the room, and if that was too little with the rest of it, is decoding with all of it. */
  lemma ResumeInParts(p: Props, m: Mach, part: nat, room: nat, end: bool)
    requires MachOk(p, m) && part <= room
    ensures InParts(p, m, part, room, end)
  {
    hide MachOk, CopyRest, Pump;
    CopyRestOk(p, m, part);
    var m1 := CopyRest(p, m, part);
    var n := |m1.z.hist| - |m.z.hist|;
    RestInPart(p, m, part, room, end);
    if m1.remain == 0 {
      PumpInParts(p, m1, part - n, room - n, end);
      ResumeOfIdle(p, m1, room - n, end);
    }
  }

  /** Copying the rest of a packet in part of the room first. */
  lemma RestInPart(p: Props, m: Mach, part: nat, room: nat, end: bool)
    requires MachOk(p, m) && part <= room
    ensures var m1 := CopyRest(p, m, part);
            && MachOk(p, m1) && |m.z.hist| <= |m1.z.hist| <= |m.z.hist| + part
            && Resume(p, m, room, end) == Resume(p, m1, room - (|m1.z.hist| - |m.z.hist|), end)
  {
    hide MachOk, Pump, RestTurn;
    CopyRestOk(p, m, part);
    var m1 := CopyRest(p, m, part);
    ResumeIsRestTurn(p, m, room, end);
    ResumeIsRestTurn(p, m1, room - (|m1.z.hist| - |m.z.hist|), end);
    RestOfRest(p, m, part, room, end);
  }

  lemma RestOfRest(p: Props, m: Mach, part: nat, room: nat, end: bool)
    requires MachOk(p, m) && part <= room && MachOk(p, CopyRest(p, m, part))
    ensures var m1 := CopyRest(p, m, part);
            && |m.z.hist| <= |m1.z.hist| <= |m.z.hist| + part
            && RestTurn(p, m, room, end) == RestTurn(p, m1, room - (|m1.z.hist| - |m.z.hist|), end)
  {
    hide Copy, AllProbs, FreshProbs;
    if m.remain > 0 {
      var n := Min(m.remain, part);
      CopySplit(m.z.hist, m.z.reps.r0, n, Min(m.remain - n, room - n));
      assert n + Min(m.remain - n, room - n) == Min(m.remain, room);
    }
  }

  /** Without room nothing is produced. */
  lemma NoRoomNoOutput(p: Props, m: Mach, end: bool)
    requires MachOk(p, m)
    ensures Resume(p, m, 0, end).0.z.hist == m.z.hist
  {
    hide MachOk, One;
    if m.remain == 0 {
      ResumeOfIdle(p, m, 0, end);
      PumpOk(p, m, 0, end);
    } else {
      FullStops(p, m, end);
    }
  }

  /** Decoding stops for want of room only when the room is used up. */
  lemma FullIsFull(p: Props, m: Mach, room: nat, end: bool)
    requires MachOk(p, m)
    ensures var (m1, s1) := Resume(p, m, room, end);
            IsFull(s1) ==> |m1.z.hist| == |m.z.hist| + room && m.z.hist <= m1.z.hist
  {
    hide MachOk, Resume;
    ResumeInParts(p, m, room, room, end);
    ResumeOk(p, m, room, end);
    var (m1, s1) := Resume(p, m, room, false);
    if IsFull(s1) {
      NoRoomNoOutput(p, m1, end);
    }
  }

  lemma ResumeOk(p: Props, m: Mach, room: nat, end: bool)
    requires MachOk(p, m)
    ensures var (m1, s1) := Resume(p, m, room, end);
            && m.z.hist <= m1.z.hist && |m1.z.hist| <= |m.z.hist| + room
            && (Resumable(s1) ==> MachOk(p, m1)) && (s1 == NeedsInput ==> m1.remain == 0)
  {
    hide MachOk, Pump, CopyRest;
    CopyRestOk(p, m, room);
    var m1 := CopyRest(p, m, room);
    if m1.remain == 0 {
      PumpOk(p, m1, room - (|m1.z.hist| - |m.z.hist|), end);
    }
  }

  /** A decoder that waits for input goes on waiting. */
  lemma StillStarved(p: Props, m: Mach, room: nat, end: bool)
    requires MachOk(p, m) && Resume(p, m, room, end).1 == NeedsInput
    ensures var m1 := Resume(p, m, room, end).0;
            && MachOk(p, m1) && |m.z.hist| <= |m1.z.hist| <= |m.z.hist| + room
            && Resume(p, m1, room - (|m1.z.hist| - |m.z.hist|), end) == (m1, NeedsInput)
  {
    hide MachOk, Resume;
    ResumeChunks(p, m, room, end, []);
    ResumeOk(p, m, room, end);
    var m1 := Resume(p, m, room, end).0;
    assert More(m, []) == m by { assert m.pending + [] == m.pending; }
    assert More(m1, []) == m1 by { assert m1.pending + [] == m1.pending; }
  }

  /** One call that fills a piece of the output: it stops as decoding into all of the output does, or decoding into
      the rest of it goes on from there. Only the last piece may ask for the end marker. */
  lemma PieceStep(p: Props, m: Mach, part: nat, room: nat, mode: bool, end: bool)
    requires MachOk(p, m) && part <= room && (if part < room then !mode else mode == end)
    ensures var (m1, s1) := Resume(p, m, part, mode);
            && m.z.hist <= m1.z.hist && |m1.z.hist| <= |m.z.hist| + part
            && (IsFull(s1) ==> |m1.z.hist| == |m.z.hist| + part)
            && (!IsFull(s1) || part == room ==> Resume(p, m, room, end) == (m1, s1))
            && (IsFull(s1) || s1 == NeedsInput ==>
                  MachOk(p, m1) && Resume(p, m, room, end) == Resume(p, m1, room - (|m1.z.hist| - |m.z.hist|), end))
  {
    hide MachOk, Resume;
    ResumeOk(p, m, part, mode);
    FullIsFull(p, m, part, mode);
    ResumeInParts(p, m, part, room, end);
    var (m1, s1) := Resume(p, m, part, mode);
    if s1 == NeedsInput {
      if part < room {
        assert Resume(p, m, room, end) == (m1, s1);
      }
      StillStarved(p, m, room, end);
    } else if IsFull(s1) && part == room {
      FullAgain(p, m, room, end);
    }
  }

  lemma FullAgain(p: Props, m: Mach, room: nat, end: bool)
    requires MachOk(p, m) && IsFull(Resume(p, m, room, end).1)
    ensures var (m1, s1) := Resume(p, m, room, end); MachOk(p, m1) && Resume(p, m1, 0, end) == (m1, s1)
  {
    hide MachOk, Resume;
    ResumeOk(p, m, room, end);
    FullIsFull(p, m, room, end);
    ResumeInParts(p, m, room, room, end);
    var (m2, s2) := Resume(p, m, room, false);
    if IsFull(s2) {
      StopsThere(p, m2, end);
    }
  }

  /** A full output that is not refused leaves the decoder where it is. */
  lemma StopsThere(p: Props, m: Mach, end: bool)
    requires MachOk(p, m) && IsFull(Resume(p, m, 0, end).1)
    ensures Resume(p, m, 0, end).0 == m
  {
    hide MachOk, Symbol;
    FullStops(p, m, end);
    if m.remain == 0 {
      OneOk(p, m, 0, end);
      ResumeOfIdle(p, m, 0, end);
      SymbolOk(p, m);
    }
  }

  /** The same on the way from m0. */
  lemma PieceOnTheWay(p: Props, m0: Mach, size: nat, m: Mach, part: nat, room: nat, mode: bool, end: bool)
    requires Resumes(p, m0, size, end, m, room) && part <= room && (if part < room then !mode else mode == end)
    ensures var (m1, s1) := Resume(p, m, part, mode);
            && m.z.hist <= m1.z.hist && |m1.z.hist| <= |m.z.hist| + part
            && (IsFull(s1) ==> |m1.z.hist| == |m.z.hist| + part)
            && (!IsFull(s1) || part == room ==> Resume(p, m0, size, end) == (m1, s1))
            && (IsFull(s1) || s1 == NeedsInput ==> Resumes(p, m0, size, end, m1, room - (|m1.z.hist| - |m.z.hist|)))
  {
    hide MachOk, Resume;
    PieceStep(p, m, part, room, mode, end);
  }
}
