/** The delta filter (Delta.c): bytes become differences to the byte `delta` before. */
module Delta {
  import opened Bytes

  const STATE_SIZE: nat := 256

  function Minus(a: Byte, b: Byte): Byte { (a - b) % 256 }

  function Plus(a: Byte, b: Byte): Byte { (a + b) % 256 }

  /** The last |last| bytes of `last` and `data`. */
  function Later(last: seq<Byte>, data: seq<Byte>): (r: seq<Byte>)
    ensures |r| == |last|
  {
    (last + data)[|data|..]
  }

  /** The differences of `data` to what precedes it; `last` are the bytes just before. */
  function Encoded(last: seq<Byte>, data: seq<Byte>): (r: seq<Byte>)
    requires last != []
    ensures |r| == |data|
    decreases |data|
  {
    if data == [] then [] else [Minus(data[0], last[0])] + Encoded(last[1..] + [data[0]], data[1..])
  }

  function Decoded(last: seq<Byte>, data: seq<Byte>): (r: seq<Byte>)
    requires last != []
    ensures |r| == |data|
    decreases |data|
  {
    if data == [] then []
    else
      var b := Plus(last[0], data[0]);
      [b] + Decoded(last[1..] + [b], data[1..])
  }

  /** An encoded byte is what has to be added to the byte so far before it, and a decoded one is that sum. */
  lemma {:induction false} EncodedIs(last: seq<Byte>, data: seq<Byte>, i: nat)
    requires last != [] && i < |data|
    ensures (Encoded(last, data)[i] as int + (last + data)[i] as int) % 256 == data[i]
    decreases |data|
  {
    if i > 0 {
      EncodedIs(last[1..] + [data[0]], data[1..], i - 1);
      assert (last[1..] + [data[0]]) + data[1..] == (last + data)[1..];
    }
  }

  lemma {:induction false} DecodedIs(last: seq<Byte>, data: seq<Byte>, i: nat)
    requires last != [] && i < |data|
    ensures Decoded(last, data)[i] == (data[i] as int + (last + Decoded(last, data))[i] as int) % 256
    decreases |data|
  {
    var b := Plus(last[0], data[0]);
    var rest := Decoded(last[1..] + [b], data[1..]);
    assert Decoded(last, data) == [b] + rest;
    if i > 0 {
      DecodedIs(last[1..] + [b], data[1..], i - 1);
      assert (last[1..] + [b]) + rest == (last + ([b] + rest))[1..];
    }
  }

  // ---------- Round trips ----------

  lemma MinusPlus(a: Byte, b: Byte)
    ensures Plus(b, Minus(a, b)) == a && Minus(Plus(b, a), b) == a
  {
  }

  /** Decoding undoes encoding. */
  lemma {:induction false} DecodeEncode(last: seq<Byte>, data: seq<Byte>)
    requires last != []
    ensures Decoded(last, Encoded(last, data)) == data
    decreases |data|
  {
    if data != [] {
      MinusPlus(data[0], last[0]);
      DecodeEncode(last[1..] + [data[0]], data[1..]);
      assert Encoded(last, data)[1..] == Encoded(last[1..] + [data[0]], data[1..]);
    }
  }

  /** And encoding undoes decoding. */
  lemma {:induction false} EncodeDecode(last: seq<Byte>, data: seq<Byte>)
    requires last != []
    ensures Encoded(last, Decoded(last, data)) == data
    decreases |data|
  {
    if data != [] {
      var b := Plus(last[0], data[0]);
      MinusPlus(data[0], last[0]);
      EncodeDecode(last[1..] + [b], data[1..]);
      assert Decoded(last, data)[1..] == Decoded(last[1..] + [b], data[1..]);
    }
  }

  // ---------- Pieces ----------

  lemma LaterCons(last: seq<Byte>, b: Byte, data: seq<Byte>)
    requires last != []
    ensures Later(last, [b] + data) == Later(last[1..] + [b], data)
  {
    assert last + ([b] + data) == [last[0]] + ((last[1..] + [b]) + data);
  }

  lemma LaterTwice(last: seq<Byte>, a: seq<Byte>, b: seq<Byte>)
    ensures Later(Later(last, a), b) == Later(last, a + b)
  {
    assert last + (a + b) == (last + a) + b;
  }

  /** However the data is split across calls, the result is the same. */
  lemma {:induction false} EncodedInPieces(last: seq<Byte>, a: seq<Byte>, b: seq<Byte>)
    requires last != []
    ensures Encoded(last, a + b) == Encoded(last, a) + Encoded(Later(last, a), b)
    decreases |a|
  {
    if a == [] {
      assert a + b == b && Later(last, a) == last;
    } else {
      assert (a + b)[1..] == a[1..] + b && a == [a[0]] + a[1..];
      LaterCons(last, a[0], a[1..]);
      EncodedInPieces(last[1..] + [a[0]], a[1..], b);
    }
  }

  lemma {:induction false} DecodedInPieces(last: seq<Byte>, a: seq<Byte>, b: seq<Byte>)
    requires last != []
    ensures Decoded(last, a + b) == Decoded(last, a) + Decoded(Later(last, Decoded(last, a)), b)
    decreases |a|
  {
    if a == [] {
      assert a + b == b && Later(last, []) == last;
    } else {
      var c := Plus(last[0], a[0]);
      assert (a + b)[1..] == a[1..] + b;
      LaterCons(last, c, Decoded(last[1..] + [c], a[1..]));
      DecodedInPieces(last[1..] + [c], a[1..], b);
    }
  }

  // ---------- The rotating buffer ----------

  /** The buffer read from j on, round its end. */
  function Rotated(buf: seq<Byte>, j: nat): (r: seq<Byte>)
    requires j <= |buf|
    ensures |r| == |buf|
  {
    buf[j..] + buf[..j]
  }

  /** Overwriting the oldest byte makes the next one the oldest. */
  lemma RotatedStep(buf: seq<Byte>, j: nat, b: Byte)
    requires j < |buf|
    ensures Rotated(buf, j)[0] == buf[j]
    ensures Rotated(buf[j := b], j + 1) == Later(Rotated(buf, j), [b])
  {
    var r := Rotated(buf, j);
    assert r + [b] == [buf[j]] + (buf[j + 1..] + buf[..j] + [b]);
    assert buf[j := b][..j + 1] == buf[..j] + [b];
    assert Later(r, [b]) == buf[j + 1..] + (buf[..j] + [b]);
  }

  lemma RotatedTurn(buf: seq<Byte>)
    ensures Rotated(buf, |buf|) == Rotated(buf, 0) == buf
  {
  }

  /** One more byte encoded. */
  lemma EncodedNext(last: seq<Byte>, data: seq<Byte>, i: nat)
    requires last != [] && i < |data|
    ensures Encoded(last, data[..i + 1]) == Encoded(last, data[..i]) + [Minus(data[i], Later(last, data[..i])[0])]
    ensures Later(last, data[..i + 1]) == Later(Later(last, data[..i]), [data[i]])
  {
    assert data[..i + 1] == data[..i] + [data[i]];
    EncodedInPieces(last, data[..i], [data[i]]);
    LaterTwice(last, data[..i], [data[i]]);
  }

  lemma DecodedNext(last: seq<Byte>, data: seq<Byte>, i: nat)
    requires last != [] && i < |data|
    ensures var done := Decoded(last, data[..i]);
            var b := Plus(Later(last, done)[0], data[i]);
            Decoded(last, data[..i + 1]) == done + [b] && Later(last, done + [b]) == Later(Later(last, done), [b])
  {
    var done := Decoded(last, data[..i]);
    assert data[..i + 1] == data[..i] + [data[i]];
    DecodedInPieces(last, data[..i], [data[i]]);
    LaterTwice(last, done, [Plus(Later(last, done)[0], data[i])]);
  }

  // ---------- The routines ----------

  method Init(state: array<Byte>)
    requires state.Length == STATE_SIZE
    modifies state
    ensures state[..] == Repeat(0, STATE_SIZE)
  {
    for i := 0 to STATE_SIZE
      invariant state[..i] == Repeat(0, i)
    {
      state[i] := 0;
      assert state[..i + 1] == state[..i] + [0];
    }
    assert state[..STATE_SIZE] == state[..];
  }

  method CopyBytes(dest: array<Byte>, at: nat, src: array<Byte>, from: nat, size: nat)
    requires dest != src && at + size <= dest.Length && from + size <= src.Length
    modifies dest
    ensures dest[..] == old(dest[..at]) + src[from..from + size] + old(dest[at + size..])
  {
    for i := 0 to size
      invariant dest[..] == old(dest[..at]) + src[from..from + i] + old(dest[at + i..])
    {
      dest[at + i] := src[from + i];
    }
  }

  /** The state is the buffer, oldest byte first. */
  method StoreState(state: array<Byte>, buf: array<Byte>, delta: nat, filled: nat)
    requires state != buf && state.Length == buf.Length == STATE_SIZE && filled <= delta <= STATE_SIZE
    modifies state
    ensures state[..] == Rotated(buf[..delta], filled) + old(state[delta..])
  {
    var j := filled;
    if j == delta {
      j := 0;
      RotatedTurn(buf[..delta]);
    }
    ghost var rest := state[delta..];
    CopyBytes(state, 0, buf, j, delta - j);
    assert state[delta..] == rest && state[..delta - j] == buf[j..delta];
    CopyBytes(state, delta - j, buf, 0, j);
    assert buf[..delta][j..] == buf[j..delta] && buf[..delta][..j] == buf[..j];
  }

  /** i bytes of the data are done, and the buffer is filled up to j. */
  ghost predicate EncodesAt(last: seq<Byte>, plain: seq<Byte>, i: nat, j: nat, data: seq<Byte>, buf: seq<Byte>) {
    && last != [] && i <= |plain| == |data| && j <= |buf| == |last|
    && data == Encoded(last, plain[..i]) + plain[i..] && Rotated(buf, j) == Later(last, plain[..i])
  }

  ghost predicate DecodesAt(last: seq<Byte>, coded: seq<Byte>, i: nat, j: nat, data: seq<Byte>, buf: seq<Byte>) {
    && last != [] && i <= |coded| == |data| && j <= |buf| == |last|
    && data == Decoded(last, coded[..i]) + coded[i..] && Rotated(buf, j) == Later(last, Decoded(last, coded[..i]))
  }

  lemma Begin(last: seq<Byte>, data: seq<Byte>)
    requires last != []
    ensures EncodesAt(last, data, 0, 0, data, last) && DecodesAt(last, data, 0, 0, data, last)
  {
    assert data[..0] == [] && last + [] == last;
  }

  lemma EncodeStep(last: seq<Byte>, plain: seq<Byte>, i: nat, j: nat, data: seq<Byte>, buf: seq<Byte>)
    requires EncodesAt(last, plain, i, j, data, buf) && i < |data| && j < |buf|
    ensures EncodesAt(last, plain, i + 1, j + 1, data[i := Minus(data[i], buf[j])], buf[j := data[i]])
  {
    hide Encoded, Later, Rotated, Minus;
    RotatedStep(buf, j, plain[i]);
    EncodedNext(last, plain, i);
  }

  lemma DecodeStep(last: seq<Byte>, coded: seq<Byte>, i: nat, j: nat, data: seq<Byte>, buf: seq<Byte>)
    requires DecodesAt(last, coded, i, j, data, buf) && i < |data| && j < |buf|
    ensures DecodesAt(last, coded, i + 1, j + 1, data[i := Plus(buf[j], data[i])], buf[j := Plus(buf[j], data[i])])
  {
    hide Decoded, Later, Rotated, Plus;
    RotatedStep(buf, j, Plus(buf[j], coded[i]));
    DecodedNext(last, coded, i);
  }

  /** A full buffer is one to be filled from the start. */
  lemma TurnRound(last: seq<Byte>, whole: seq<Byte>, i: nat, data: seq<Byte>, buf: seq<Byte>)
    ensures EncodesAt(last, whole, i, |buf|, data, buf) <==> EncodesAt(last, whole, i, 0, data, buf)
    ensures DecodesAt(last, whole, i, |buf|, data, buf) <==> DecodesAt(last, whole, i, 0, data, buf)
  {
    RotatedTurn(buf);
  }

  method EncodeByte(data: array<Byte>, i: nat, buf: array<Byte>, j: nat, ghost delta: nat)
    requires data != buf && i < data.Length && j < delta <= buf.Length
    modifies data, buf
    ensures data[..] == old(data[..])[i := Minus(old(data[i]), old(buf[j]))]
    ensures buf[..delta] == old(buf[..delta])[j := old(data[i])]
  {
    var b := data[i];
    data[i] := Minus(b, buf[j]);
    buf[j] := b;
  }

  method DecodeByte(data: array<Byte>, i: nat, buf: array<Byte>, j: nat, ghost delta: nat)
    requires data != buf && i < data.Length && j < delta <= buf.Length
    modifies data, buf
    ensures data[..] == old(data[..])[i := Plus(old(buf[j]), old(data[i]))]
    ensures buf[..delta] == old(buf[..delta])[j := Plus(old(buf[j]), old(data[i]))]
  {
    data[i] := Plus(buf[j], data[i]);
    buf[j] := data[i];
  }

  lemma EncodedAll(last: seq<Byte>, plain: seq<Byte>, i: nat, j: nat, data: seq<Byte>, buf: seq<Byte>)
    requires EncodesAt(last, plain, i, j, data, buf) && i == |plain|
    ensures data == Encoded(last, plain) && j <= |buf| && Rotated(buf, j) == Later(last, plain)
  {
    assert plain[..i] == plain;
  }

  lemma DecodedAll(last: seq<Byte>, coded: seq<Byte>, i: nat, j: nat, data: seq<Byte>, buf: seq<Byte>)
    requires DecodesAt(last, coded, i, j, data, buf) && i == |coded|
    ensures data == Decoded(last, coded) && j <= |buf| && Rotated(buf, j) == Later(last, data)
  {
    assert coded[..i] == coded;
  }

  /** The loops over the data; the buffer is filled round and round. */
  method EncodeLoop(buf: array<Byte>, delta: nat, data: array<Byte>) returns (j: nat)
    requires buf != data && 1 <= delta <= buf.Length
    modifies buf, data
    ensures EncodesAt(old(buf[..delta]), old(data[..]), data.Length, j, data[..], buf[..delta])
  {
    hide EncodesAt, DecodesAt, Encoded, Decoded, Later, Rotated, Minus, Plus;
    ghost var last, whole := buf[..delta], data[..];
    Begin(last, whole);
    var i := 0;
    j := 0;
    while i < data.Length
      invariant i <= data.Length && j <= delta
      invariant EncodesAt(last, whole, i, j, data[..], buf[..delta])
      invariant i < data.Length ==> j == 0 || j == delta
    {
      TurnRound(last, whole, i, data[..], buf[..delta]);
      ghost var start := i;
      j := 0;
      while j < delta && i < data.Length
        invariant i <= data.Length && j <= delta
        invariant EncodesAt(last, whole, i, j, data[..], buf[..delta])
        invariant start < i || (start == i < data.Length && j == 0)
        decreases data.Length - i
      {
        EncodeStep(last, whole, i, j, data[..], buf[..delta]);
        EncodeByte(data, i, buf, j, delta);
        i, j := i + 1, j + 1;
      }
    }
  }

  method Encode(state: array<Byte>, delta: nat, data: array<Byte>)
    requires state.Length == STATE_SIZE && state != data && 1 <= delta <= STATE_SIZE
    modifies state, data
    ensures data[..] == Encoded(old(state[..delta]), old(data[..]))
    ensures state[..] == Later(old(state[..delta]), old(data[..])) + old(state[delta..])
  {
    hide EncodesAt, DecodesAt, Encoded, Decoded, Later, Rotated;
    var buf := new Byte[STATE_SIZE];
    CopyBytes(buf, 0, state, 0, delta);
    assert buf[..delta] == state[..delta];
    ghost var whole := data[..];
    var j := EncodeLoop(buf, delta, data);
    EncodedAll(old(state[..delta]), whole, data.Length, j, data[..], buf[..delta]);
    StoreState(state, buf, delta, j);
  }

  /** The loops over the data; the buffer is filled round and round. */
  method DecodeLoop(buf: array<Byte>, delta: nat, data: array<Byte>) returns (j: nat)
    requires buf != data && 1 <= delta <= buf.Length
    modifies buf, data
    ensures DecodesAt(old(buf[..delta]), old(data[..]), data.Length, j, data[..], buf[..delta])
  {
    hide EncodesAt, DecodesAt, Encoded, Decoded, Later, Rotated, Minus, Plus;
    ghost var last, whole := buf[..delta], data[..];
    Begin(last, whole);
    var i := 0;
    j := 0;
    while i < data.Length
      invariant i <= data.Length && j <= delta
      invariant DecodesAt(last, whole, i, j, data[..], buf[..delta])
      invariant i < data.Length ==> j == 0 || j == delta
    {
      TurnRound(last, whole, i, data[..], buf[..delta]);
      ghost var start := i;
      j := 0;
      while j < delta && i < data.Length
        invariant i <= data.Length && j <= delta
        invariant DecodesAt(last, whole, i, j, data[..], buf[..delta])
        invariant start < i || (start == i < data.Length && j == 0)
        decreases data.Length - i
      {
        DecodeStep(last, whole, i, j, data[..], buf[..delta]);
        DecodeByte(data, i, buf, j, delta);
        i, j := i + 1, j + 1;
      }
    }
  }

  method Decode(state: array<Byte>, delta: nat, data: array<Byte>)
    requires state.Length == STATE_SIZE && state != data && 1 <= delta <= STATE_SIZE
    modifies state, data
    ensures data[..] == Decoded(old(state[..delta]), old(data[..]))
    ensures state[..] == Later(old(state[..delta]), data[..]) + old(state[delta..])
  {
    hide EncodesAt, DecodesAt, Encoded, Decoded, Later, Rotated;
    var buf := new Byte[STATE_SIZE];
    CopyBytes(buf, 0, state, 0, delta);
    assert buf[..delta] == state[..delta];
    ghost var whole := data[..];
    var j := DecodeLoop(buf, delta, data);
    DecodedAll(old(state[..delta]), whole, data.Length, j, data[..], buf[..delta]);
    StoreState(state, buf, delta, j);
  }
}
