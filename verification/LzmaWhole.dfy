/** Encoder and decoder together: whatever the encoder object writes, the decoder object reads back, in whatever pieces
    it is handed over. */
module LzmaWhole {
  import opened Bytes
  import opened LzmaCoding
  import opened LzmaDecoder
  import opened LzmaDictionary
  import opened LzmaEncoder
  import opened LzmaPackets
  import opened LzmaRoundTrip
  import opened LzmaState
  import opened LzmaPosSlot
  import opened LzmaStream
  import opened LzmaSyntax
  import opened Powers
  import opened RangeDecoder

  function Flat(chunks: seq<seq<Byte>>): seq<Byte> { if chunks == [] then [] else Flat(chunks[..|chunks| - 1]) + chunks[|chunks| - 1] }

  lemma {:induction false} FlatPrefix(chunks: seq<seq<Byte>>, i: nat)
    requires i <= |chunks|
    ensures Flat(chunks[..i]) <= Flat(chunks)
    decreases |chunks| - i
  {
    if i == |chunks| {
      assert chunks[..i] == chunks;
    } else {
      FlatPrefix(chunks, i + 1);
      assert chunks[..i + 1][..i] == chunks[..i];
    }
  }

  lemma FlatNext(chunks: seq<seq<Byte>>, i: nat)
    requires i < |chunks|
    ensures Flat(chunks[..i + 1]) == Flat(chunks[..i]) + chunks[i]
  {
    assert chunks[..i + 1][..i] == chunks[..i];
  }

  /** The decoder has been fed `fed` and wants more. */
  ghost predicate Fed(d: LzmaDec, fed: seq<Byte>, room: nat, end: bool)
    reads d, d.out, d.out.dic, d.rd, d.rd.probs
  {
    && d.out.Valid() && room <= d.out.dic.Length && d.out.dicPos == |d.out.hist| <= room
    && (|fed| < 5 ==> d.Opening() && d.tempBuf == fed && d.out.hist == [] && d.remainLen == MATCH_SPEC_LEN_START + 2)
    && (5 <= |fed| ==>
          && d.Running() && MachOk(d.prop, StartMach(d.prop, fed))
          && Resume(d.prop, StartMach(d.prop, fed), room, end) == (d.State(d.tempBuf), NeedsInput))
  }

  /** The machine that the next chunk is decoded from. */
  ghost function Entry(d: LzmaDec, fed: seq<Byte>, chunk: seq<Byte>): Mach
    reads d, d.out, d.rd, d.rd.probs
    requires 5 <= |fed + chunk|
  {
    if |fed| < 5 then StartMach(d.prop, fed + chunk) else d.State(d.tempBuf + chunk)
  }

  /** A call with the next chunk goes on where the whole input so far would be. */
  lemma EntryComes(d: LzmaDec, fed: seq<Byte>, chunk: seq<Byte>, room: nat, end: bool)
    requires Fed(d, fed, room, end) && 5 <= |fed + chunk| && (fed + chunk)[0] == 0
    ensures d.Coming(Entry(d, fed, chunk), chunk)
    ensures MachOk(d.prop, Entry(d, fed, chunk)) && MachOk(d.prop, StartMach(d.prop, fed + chunk))
    ensures Entry(d, fed, chunk).z.hist == d.out.hist
    ensures Resume(d.prop, StartMach(d.prop, fed + chunk), room, end) == Resume(d.prop, Entry(d, fed, chunk), room - |d.out.hist|, end)
  {
    hide Resume, LzmaDec.Opening, LzmaDec.Running, LzmaDec.State, MachOk;
    if |fed| < 5 {
      OpenedAnew(d, fed + chunk);
    } else {
      StartMore(d.prop, fed, chunk);
      ResumeChunks(d.prop, StartMach(d.prop, fed), room, end, chunk);
      MoreState(d, chunk);
    }
    d.ComingOk(Entry(d, fed, chunk), chunk);
  }

  lemma OpenedAnew(d: LzmaDec, head: seq<Byte>)
    requires 5 <= |head| && d.out.hist == [] && d.remainLen == MATCH_SPEC_LEN_START + 2
    ensures d.Opened(head) == StartMach(d.prop, head)
  {
  }

  lemma StartMore(p: Props, fed: seq<Byte>, chunk: seq<Byte>)
    requires 5 <= |fed|
    ensures 5 <= |fed + chunk| && StartMach(p, fed + chunk) == More(StartMach(p, fed), chunk) && StartMach(p, fed).z.hist == []
  {
    assert (fed + chunk)[1..5] == fed[1..5];
    assert (fed + chunk)[5..] == fed[5..] + chunk;
  }

  lemma MoreState(d: LzmaDec, chunk: seq<Byte>)
    ensures More(d.State(d.tempBuf), chunk) == d.State(d.tempBuf + chunk)
    ensures d.State(d.tempBuf).z.hist == d.out.hist
  {
  }

  /** The decoder has stopped, with the output that the whole input so far has. */
  ghost predicate Settled(d: LzmaDec, fed: seq<Byte>, status: Status, room: nat, end: bool)
    reads d, d.out, d.out.dic
  {
    && d.out.Valid() && d.out.dicPos == |d.out.hist| && 5 <= |fed| && MachOk(d.prop, StartMach(d.prop, fed))
    && Resume(d.prop, StartMach(d.prop, fed), room, end).0.z.hist == d.out.hist
    && Resume(d.prop, StartMach(d.prop, fed), room, end).1 == status
  }

  method NextChunk(d: LzmaDec, ghost fed: seq<Byte>, chunk: seq<Byte>, room: nat, end: bool) returns (status: Status)
    requires Fed(d, fed, room, end) && (fed + chunk != [] ==> (fed + chunk)[0] == 0)
    modifies d, d.out, d.out.dic, d.rd, d.rd.probs
    ensures status == NeedsInput ==> Fed(d, fed + chunk, room, end)
    ensures status != NeedsInput ==> Settled(d, fed + chunk, status, room, end)
  {
    hide Resume, LzmaDec.Opening, LzmaDec.Running, LzmaDec.State, MachOk, Dictionary.Valid;
    ghost var m := d.State([]);
    if 5 <= |fed + chunk| {
      EntryComes(d, fed, chunk, room, end);
      m := Entry(d, fed, chunk);
    }
    var taken;
    status, taken := d.DecodeToDic(room, chunk, end, m);
    if 5 <= |fed + chunk| && status == NeedsInput {
      assert d.tempBuf + [] == d.tempBuf;
    }
  }

  lemma BeginsWithZero(p: Props, packets: seq<Packet>, mark: bool, b: seq<Byte>)
    requires Encodes(p, packets, mark, b)
    ensures 5 <= |b| && b[0] == 0
  {
  }

  /** The input is all there is, or the decoder would have done the same with the rest as well. */
  lemma ItIsAll(d: LzmaDec, packets: seq<Packet>, mark: bool, fed: seq<Byte>, b: seq<Byte>, status: Status, room: nat, end: bool)
    requires Encodes(d.prop, packets, mark, b) && fed <= b
    requires |Plain(d.prop, packets)| <= room && (!mark ==> room == |Plain(d.prop, packets)|)
    requires if status == NeedsInput then Fed(d, fed, room, end) && fed == b else Settled(d, fed, status, room, end)
    ensures d.out.Valid() && d.out.dicPos == |d.out.hist| && d.out.hist == Plain(d.prop, packets)
    ensures mark && room > |Plain(d.prop, packets)| ==> status == Finished
    ensures !mark ==> status == MaybeFinished
  {
    hide Resume, LzmaDec.Opening, LzmaDec.Running, LzmaDec.State, MachOk, Encodes, Plain, Dictionary.Valid;
    BeginsWithZero(d.prop, packets, mark, b);
    RoundTrip(d.prop, packets, mark, b, room, end);
    if status != NeedsInput {
      var rest := b[|fed|..];
      assert fed + rest == b;
      StartMore(d.prop, fed, rest);
      ResumeChunks(d.prop, StartMach(d.prop, fed), room, end, rest);
    }
  }

  /** Hands the chunks of an encoding to a decoder, one after the other, until it asks for no more. */
  method DecodeChunks(d: LzmaDec, chunks: seq<seq<Byte>>, room: nat, end: bool, ghost packets: seq<Packet>, ghost mark: bool)
    returns (status: Status)
    requires Encodes(d.prop, packets, mark, Flat(chunks))
    requires |Plain(d.prop, packets)| <= room && (!mark ==> room == |Plain(d.prop, packets)|)
    requires d.Built() && room <= d.out.dic.Length
    modifies d, d.out, d.out.dic, d.rd, d.rd.probs
    ensures d.out.Valid() && d.out.dicPos == |d.out.hist| && d.out.hist == Plain(d.prop, packets)
    ensures mark && room > |Plain(d.prop, packets)| ==> status == Finished
    ensures !mark ==> status == MaybeFinished
  {
    hide Resume, Encodes, Plain, LzmaDec.Opening, LzmaDec.Running, LzmaDec.State, MachOk;
    d.Init();
    status := NeedsInput;
    var i := 0;
    while i < |chunks| && status == NeedsInput
      invariant i <= |chunks| && (status == NeedsInput ==> Fed(d, Flat(chunks[..i]), room, end))
      invariant status != NeedsInput ==> Settled(d, Flat(chunks[..i]), status, room, end)
    {
      FlatNext(chunks, i);
      FlatPrefix(chunks, i + 1);
      BeginsWithZero(d.prop, packets, mark, Flat(chunks));
      status := NextChunk(d, Flat(chunks[..i]), chunks[i], room, end);
      i := i + 1;
    }
    FlatPrefix(chunks, i);
    assert i == |chunks| ==> chunks[..i] == chunks;
    ItIsAll(d, packets, mark, Flat(chunks[..i]), Flat(chunks), status, room, end);
  }

  /** The bytes in pieces of the given sizes, and what is left in a last one. */
  function Pieces(b: seq<Byte>, sizes: seq<nat>): seq<seq<Byte>> {
    if sizes == [] || |b| <= sizes[0] then [b] else [b[..sizes[0]]] + Pieces(b[sizes[0]..], sizes[1..])
  }

  lemma {:induction false} FlatCons(first: seq<Byte>, chunks: seq<seq<Byte>>)
    ensures Flat([first] + chunks) == first + Flat(chunks)
    decreases |chunks|
  {
    var n := |chunks|;
    if n == 0 {
      assert ([first] + chunks)[..0] == [] && [first] + chunks == [first];
    } else {
      FlatCons(first, chunks[..n - 1]);
      assert ([first] + chunks)[..n] == [first] + chunks[..n - 1];
    }
  }

  lemma {:induction false} PiecesFlat(b: seq<Byte>, sizes: seq<nat>)
    ensures Flat(Pieces(b, sizes)) == b
    decreases |sizes|
  {
    if sizes == [] || |b| <= sizes[0] {
      assert [b][..0] == [];
    } else {
      PiecesFlat(b[sizes[0]..], sizes[1..]);
      FlatCons(b[..sizes[0]], Pieces(b[sizes[0]..], sizes[1..]));
    }
  }

  /** From bytes to bytes: whatever the parser chose, and however the compressed bytes are cut on their way. */
  method EncodeAndDecode(p: Props, logBits: nat, data: seq<Byte>, ghost packets: seq<Packet>, choices: seq<(nat, nat)>, mark: bool,
                         sizes: seq<nat>, room: nat, end: bool)
    returns (decoded: seq<Byte>, status: Status)
    requires p.Ok() && LogBitsOk(logBits) && p.dicSize <= Pow2(2 * logBits + 5)
    requires Parses(p, LZ_START, packets) && Plain(p, packets) == data
    requires |choices| == |packets| && forall i :: 0 <= i < |choices| ==> choices[i] == LzmaEnc.Choice(packets[i])
    requires |data| <= room && (!mark ==> room == |data|)
    ensures decoded == data
    ensures mark && room > |data| ==> status == Finished
    ensures !mark ==> status == MaybeFinished
  {
    hide Encodes, Plain, Parses, LzmaDec.Valid, LzmaEnc.Ready, LzmaEnc.Choice;
    var e := new LzmaEnc(p, logBits, data);
    e.EncodeStream(packets, choices, mark);
    PiecesFlat(e.rc.out, sizes);
    var d := new LzmaDec(p, room);
    d.NewIsBuilt();
    status := DecodeChunks(d, Pieces(e.rc.out, sizes), room, end, packets, mark);
    decoded := d.out.Since(0);
  }
}
