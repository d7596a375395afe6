/** The error correction of a whole sector (libchdr_cdrom.c): 86 columns P and 52 diagonals Q, computed and checked in
    place. */
module CdSector {
  import opened CdEcc

  const SECTOR: nat := 2352
  const SYNC_NUM_BYTES: nat := 12
  const MODE_OFFSET: nat := 15
  const P_OFFSET: nat := 0x81c
  const P_NUM: nat := 86
  const P_COMP: nat := 24
  const Q_OFFSET: nat := 2248
  const Q_NUM: nat := 52
  const Q_COMP: nat := 43

  /** ecc_source_byte: in mode 2 the header counts as 0. */
  function SourceByte(s: seq<bv8>, offset: nat): bv8
    requires |s| == SECTOR && offset < SECTOR - SYNC_NUM_BYTES
  {
    if s[MODE_OFFSET] == 2 && offset < 4 then 0 else s[SYNC_NUM_BYTES + offset]
  }

  /** The table poffsets. */
  function PRow(b: nat): (r: seq<nat>)
    requires b < P_NUM
    ensures |r| == P_COMP && forall c :: 0 <= c < P_COMP ==> r[c] == b + 86 * c < 2064
  {
    seq(P_COMP, c => b + 86 * c)
  }

  /** The table qoffsets. */
  function QRow(b: nat): (r: seq<nat>)
    requires b < Q_NUM
    ensures |r| == Q_COMP && forall c :: 0 <= c < Q_COMP ==> r[c] < 2236
  {
    seq(Q_COMP, c => (86 * (b / 2) + b % 2 + 88 * c) % 2236)
  }

  ghost predicate IsRow(row: seq<nat>) { forall c :: 0 <= c < |row| ==> row[c] < SECTOR - SYNC_NUM_BYTES }

  function Read(s: seq<bv8>, row: seq<nat>): (r: seq<bv8>)
    requires |s| == SECTOR && IsRow(row)
    ensures |r| == |row| && forall c :: 0 <= c < |row| ==> r[c] == SourceByte(s, row[c])
  {
    seq(|row|, c requires 0 <= c < |row| => SourceByte(s, row[c]))
  }

  /** The bytes at p and q are the parity of the row. */
  ghost predicate RowHolds(s: seq<bv8>, row: seq<nat>, p: nat, q: nat) {
    |s| == SECTOR && IsRow(row) && p < SECTOR && q < SECTOR && (s[p], s[q]) == Parity(Read(s, row))
  }

  ghost predicate PHolds(s: seq<bv8>, b: nat) { b < P_NUM && RowHolds(s, PRow(b), P_OFFSET + b, P_OFFSET + P_NUM + b) }

  ghost predicate QHolds(s: seq<bv8>, b: nat) { b < Q_NUM && RowHolds(s, QRow(b), Q_OFFSET + b, Q_OFFSET + Q_NUM + b) }

  /** All rows have their parity. */
  ghost predicate Consistent(s: seq<bv8>) {
    && |s| == SECTOR && (forall b :: 0 <= b < P_NUM ==> PHolds(s, b)) && (forall b :: 0 <= b < Q_NUM ==> QHolds(s, b))
  }

  // ---------- Frames ----------

  /** Whether a row looks at place i of the sector. */
  ghost predicate LooksAt(row: seq<nat>, i: nat) { i == MODE_OFFSET || exists c :: 0 <= c < |row| && SYNC_NUM_BYTES + row[c] == i }

  lemma ReadFrame(s: seq<bv8>, s': seq<bv8>, row: seq<nat>)
    requires |s| == |s'| == SECTOR && IsRow(row) && forall i :: 0 <= i < SECTOR && LooksAt(row, i) ==> s[i] == s'[i]
    ensures Read(s, row) == Read(s', row)
  {
    assert LooksAt(row, MODE_OFFSET);
    forall c | 0 <= c < |row|
      ensures SourceByte(s, row[c]) == SourceByte(s', row[c])
    {
      assert LooksAt(row, SYNC_NUM_BYTES + row[c]);
    }
  }

  lemma PLooksAt(b: nat, i: nat)
    requires b < P_NUM && LooksAt(PRow(b), i)
    ensures i < P_OFFSET
  {
  }

  lemma QLooksAt(b: nat, i: nat)
    requires b < Q_NUM && LooksAt(QRow(b), i)
    ensures i < Q_OFFSET
  {
  }

  /** A column depends on what precedes the parity bytes, and on its own two. */
  lemma PFrame(s: seq<bv8>, s': seq<bv8>, b: nat)
    requires |s| == |s'| == SECTOR && PHolds(s, b) && s[..P_OFFSET] == s'[..P_OFFSET]
    requires s[P_OFFSET + b] == s'[P_OFFSET + b] && s[P_OFFSET + P_NUM + b] == s'[P_OFFSET + P_NUM + b]
    ensures PHolds(s', b)
  {
    forall i | 0 <= i < SECTOR && LooksAt(PRow(b), i)
      ensures s[i] == s'[i]
    {
      PLooksAt(b, i);
      assert s[i] == s[..P_OFFSET][i] && s'[i] == s'[..P_OFFSET][i];
    }
    ReadFrame(s, s', PRow(b));
  }

  lemma QFrame(s: seq<bv8>, s': seq<bv8>, b: nat)
    requires |s| == |s'| == SECTOR && QHolds(s, b) && s[..Q_OFFSET] == s'[..Q_OFFSET]
    requires s[Q_OFFSET + b] == s'[Q_OFFSET + b] && s[Q_OFFSET + Q_NUM + b] == s'[Q_OFFSET + Q_NUM + b]
    ensures QHolds(s', b)
  {
    forall i | 0 <= i < SECTOR && LooksAt(QRow(b), i)
      ensures s[i] == s'[i]
    {
      QLooksAt(b, i);
      assert s[i] == s[..Q_OFFSET][i] && s'[i] == s'[..Q_OFFSET][i];
    }
    ReadFrame(s, s', QRow(b));
  }

  // ---------- Computing and checking ----------

  /** A byte of a row, wherever else the sector has changed since it was s. */
  method SourceOf(sector: array<bv8>, ghost s: seq<bv8>, row: seq<nat>, c: nat) returns (b: bv8)
    requires sector.Length == |s| == SECTOR && IsRow(row) && c < |row| && SameWhereLooked(sector[..], s, row)
    ensures b == Read(s, row)[c]
  {
    assert LooksAt(row, MODE_OFFSET) && LooksAt(row, SYNC_NUM_BYTES + row[c]);
    b := if sector[MODE_OFFSET] == 2 && row[c] < 4 then 0 else sector[SYNC_NUM_BYTES + row[c]];
  }

  ghost predicate SameWhereLooked(now: seq<bv8>, s: seq<bv8>, row: seq<nat>) {
    |now| == |s| == SECTOR && forall i :: 0 <= i < SECTOR && LooksAt(row, i) ==> now[i] == s[i]
  }

  method Accumulate(out: array<bv8>, val1: nat, val2: nat, b: bv8)
    requires val1 < out.Length && val2 < out.Length && val1 != val2
    modifies out
    ensures out[..] == old(out[..])[val1 := Twice(Add(old(out[val1]), b))][val2 := Add(old(out[val2]), b)]
  {
    hide Twice, Add;
    out[val1] := Add(out[val1], b);
    out[val2] := Add(out[val2], b);
    out[val1] := Twice(out[val1]);
  }

  method Finish(out: array<bv8>, val1: nat, val2: nat)
    requires val1 < out.Length && val2 < out.Length && val1 != val2
    modifies out
    ensures var p := Third(Add(Twice(old(out[val1])), old(out[val2])));
            out[..] == old(out[..])[val1 := p][val2 := Add(old(out[val2]), p)]
  {
    hide Twice, Add, Third;
    out[val1] := Third(Add(Twice(out[val1]), out[val2]));
    out[val2] := Add(out[val2], out[val1]);
  }

  /** ecc_compute_bytes: the parity of a row, accumulated where it is to be stored, which may be in the sector that is
      being read. */
  method ComputeBytes(sector: array<bv8>, row: seq<nat>, out: array<bv8>, val1: nat, val2: nat)
    requires sector.Length == SECTOR && IsRow(row) && val1 < out.Length && val2 < out.Length && val1 != val2
    requires out == sector ==> !LooksAt(row, val1) && !LooksAt(row, val2)
    modifies out
    ensures var (p, q) := Parity(Read(old(sector[..]), row)); out[..] == old(out[..])[val1 := p][val2 := q]
  {
    hide Twice, Third, Add, Read, LooksAt, Sum, Eval;
    ghost var s, o := sector[..], out[..];
    ghost var d := Read(s, row);
    out[val1], out[val2] := 0, 0;
    Nothing();
    assert d[..0] == [];
    for component := 0 to |row|
      invariant out[..] == o[val1 := Twice(Eval(d[..component]))][val2 := Sum(d[..component])]
      invariant SameWhereLooked(sector[..], s, row)
    {
      Extended(d, component);
      var b := SourceOf(sector, s, row, component);
      Accumulate(out, val1, val2, b);
      assert forall i :: 0 <= i < out.Length && i != val1 && i != val2 ==> out[i] == o[i];
    }
    assert d[..|row|] == d;
    Finish(out, val1, val2);
  }

  lemma Nothing()
    ensures Twice(Eval([])) == 0 && Sum([]) == 0
  {
  }

  lemma Extended(d: seq<bv8>, k: nat)
    requires k < |d|
    ensures Eval(d[..k + 1]) == Add(Twice(Eval(d[..k])), d[k]) && Sum(d[..k + 1]) == Add(Sum(d[..k]), d[k])
  {
    assert d[..k + 1] == d[..k] + [d[k]];
    SumAppend(d[..k], d[k]);
  }

  /** One column, and one diagonal, of ecc_verify. */
  method VerifyP(sector: array<bv8>, b: nat) returns (ok: bool)
    requires sector.Length == SECTOR && b < P_NUM
    ensures ok <==> PHolds(sector[..], b)
  {
    ghost var s := sector[..];
    var vals := new bv8[2];
    ComputeBytes(sector, PRow(b), vals, 0, 1);
    assert sector[..] == s;
    ok := sector[P_OFFSET + b] == vals[0] && sector[P_OFFSET + P_NUM + b] == vals[1];
  }

  method VerifyQ(sector: array<bv8>, b: nat) returns (ok: bool)
    requires sector.Length == SECTOR && b < Q_NUM
    ensures ok <==> QHolds(sector[..], b)
  {
    ghost var s := sector[..];
    var vals := new bv8[2];
    ComputeBytes(sector, QRow(b), vals, 0, 1);
    assert sector[..] == s;
    ok := sector[Q_OFFSET + b] == vals[0] && sector[Q_OFFSET + Q_NUM + b] == vals[1];
  }

  /** ecc_verify. */
  method Verify(sector: array<bv8>) returns (ok: bool)
    requires sector.Length == SECTOR
    ensures ok <==> Consistent(sector[..])
  {
    hide PHolds, QHolds;
    for b := 0 to P_NUM
      invariant forall j :: 0 <= j < b ==> PHolds(sector[..], j)
    {
      ok := VerifyP(sector, b);
      if !ok {
        return;
      }
    }
    for b := 0 to Q_NUM
      invariant forall j :: 0 <= j < b ==> QHolds(sector[..], j)
    {
      ok := VerifyQ(sector, b);
      if !ok {
        return;
      }
    }
    return true;
  }

  /** One column of ecc_generate. */
  method GenerateP(sector: array<bv8>, b: nat)
    requires sector.Length == SECTOR && b < P_NUM
    modifies sector
    ensures forall i :: 0 <= i < SECTOR && i != P_OFFSET + b && i != P_OFFSET + P_NUM + b ==> sector[i] == old(sector[i])
    ensures PHolds(sector[..], b)
  {
    ghost var s := sector[..];
    var p, q := P_OFFSET + b, P_OFFSET + P_NUM + b;
    if LooksAt(PRow(b), p) {
      PLooksAt(b, p);
    }
    if LooksAt(PRow(b), q) {
      PLooksAt(b, q);
    }
    ComputeBytes(sector, PRow(b), sector, p, q);
    forall i | 0 <= i < SECTOR && LooksAt(PRow(b), i)
      ensures s[i] == sector[..][i]
    {
      PLooksAt(b, i);
    }
    ReadFrame(s, sector[..], PRow(b));
  }

  method GenerateQ(sector: array<bv8>, b: nat)
    requires sector.Length == SECTOR && b < Q_NUM
    modifies sector
    ensures forall i :: 0 <= i < SECTOR && i != Q_OFFSET + b && i != Q_OFFSET + Q_NUM + b ==> sector[i] == old(sector[i])
    ensures QHolds(sector[..], b)
  {
    ghost var s := sector[..];
    var p, q := Q_OFFSET + b, Q_OFFSET + Q_NUM + b;
    if LooksAt(QRow(b), p) {
      QLooksAt(b, p);
    }
    if LooksAt(QRow(b), q) {
      QLooksAt(b, q);
    }
    ComputeBytes(sector, QRow(b), sector, p, q);
    forall i | 0 <= i < SECTOR && LooksAt(QRow(b), i)
      ensures s[i] == sector[..][i]
    {
      QLooksAt(b, i);
    }
    ReadFrame(s, sector[..], QRow(b));
  }

  /** ecc_generate: all parity bytes, in place; nothing else changes. */
  method Generate(sector: array<bv8>)
    requires sector.Length == SECTOR
    modifies sector
    ensures Consistent(sector[..]) && sector[..P_OFFSET] == old(sector[..P_OFFSET])
  {
    hide PHolds, QHolds;
    for b := 0 to P_NUM
      invariant sector[..P_OFFSET] == old(sector[..P_OFFSET])
      invariant forall j :: 0 <= j < b ==> PHolds(sector[..], j)
    {
      ghost var s := sector[..];
      GenerateP(sector, b);
      forall j | 0 <= j < b
        ensures PHolds(sector[..], j)
      {
        PFrame(s, sector[..], j);
      }
    }
    for b := 0 to Q_NUM
      invariant sector[..P_OFFSET] == old(sector[..P_OFFSET])
      invariant forall j :: 0 <= j < P_NUM ==> PHolds(sector[..], j)
      invariant forall j :: 0 <= j < b ==> QHolds(sector[..], j)
    {
      ghost var s := sector[..];
      GenerateQ(sector, b);
      forall j | 0 <= j < P_NUM
        ensures PHolds(sector[..], j)
      {
        PFrame(s, sector[..], j);
      }
      forall j | 0 <= j < b
        ensures QHolds(sector[..], j)
      {
        QFrame(s, sector[..], j);
      }
    }
  }

  /** ecc_clear. */
  method Clear(sector: array<bv8>)
    requires sector.Length == SECTOR
    modifies sector
    ensures sector[..P_OFFSET] == old(sector[..P_OFFSET])
    ensures forall i :: P_OFFSET <= i < SECTOR ==> sector[i] == 0
  {
    for i := P_OFFSET to P_OFFSET + 2 * P_NUM
      invariant sector[..P_OFFSET] == old(sector[..P_OFFSET])
      invariant forall j :: P_OFFSET <= j < i ==> sector[j] == 0
    {
      sector[i] := 0;
    }
    for i := Q_OFFSET to Q_OFFSET + 2 * Q_NUM
      invariant sector[..P_OFFSET] == old(sector[..P_OFFSET])
      invariant forall j :: P_OFFSET <= j < i ==> sector[j] == 0
    {
      sector[i] := 0;
    }
  }

  // ---------- One sector for the data ----------

  /** The parity bytes are determined by the rest of the sector. */
  lemma ParityIsUnique(s: seq<bv8>, s': seq<bv8>)
    requires Consistent(s) && Consistent(s') && s[..P_OFFSET] == s'[..P_OFFSET]
    ensures s == s'
  {
    hide Parity;
    forall i | P_OFFSET <= i < Q_OFFSET
      ensures s[i] == s'[i]
    {
      var b := (i - P_OFFSET) % P_NUM;
      assert PHolds(s, b) && PHolds(s', b);
      SamePRow(s, s', b);
    }
    assert s[..Q_OFFSET] == s[..P_OFFSET] + s[P_OFFSET..Q_OFFSET] && s'[..Q_OFFSET] == s'[..P_OFFSET] + s'[P_OFFSET..Q_OFFSET];
    forall i | Q_OFFSET <= i < SECTOR
      ensures s[i] == s'[i]
    {
      var b := (i - Q_OFFSET) % Q_NUM;
      assert QHolds(s, b) && QHolds(s', b);
      SameQRow(s, s', b);
    }
    assert s == s[..Q_OFFSET] + s[Q_OFFSET..] && s' == s'[..Q_OFFSET] + s'[Q_OFFSET..];
  }

  lemma SamePRow(s: seq<bv8>, s': seq<bv8>, b: nat)
    requires |s| == |s'| == SECTOR && b < P_NUM && s[..P_OFFSET] == s'[..P_OFFSET]
    ensures Read(s, PRow(b)) == Read(s', PRow(b))
  {
    forall i | 0 <= i < SECTOR && LooksAt(PRow(b), i)
      ensures s[i] == s'[i]
    {
      PLooksAt(b, i);
      assert s[i] == s[..P_OFFSET][i] && s'[i] == s'[..P_OFFSET][i];
    }
    ReadFrame(s, s', PRow(b));
  }

  lemma SameQRow(s: seq<bv8>, s': seq<bv8>, b: nat)
    requires |s| == |s'| == SECTOR && b < Q_NUM && s[..Q_OFFSET] == s'[..Q_OFFSET]
    ensures Read(s, QRow(b)) == Read(s', QRow(b))
  {
    forall i | 0 <= i < SECTOR && LooksAt(QRow(b), i)
      ensures s[i] == s'[i]
    {
      QLooksAt(b, i);
      assert s[i] == s[..Q_OFFSET][i] && s'[i] == s'[..Q_OFFSET][i];
    }
    ReadFrame(s, s', QRow(b));
  }

  // ---------- Detection of errors ----------

  /** A column with its two parity bytes: the bytes 86 apart. */
  function PWord(s: seq<bv8>, b: nat): (r: seq<bv8>)
    requires |s| == SECTOR && b < P_NUM
    ensures |r| == P_COMP + 2 && forall c :: 0 <= c < P_COMP + 2 ==> r[c] == SourceByte(s, b + 86 * c)
  {
    seq(P_COMP + 2, c requires 0 <= c < P_COMP + 2 => SourceByte(s, b + 86 * c))
  }

  lemma PWordIs(s: seq<bv8>, b: nat)
    requires |s| == SECTOR && b < P_NUM
    ensures PHolds(s, b) <==> IsWord(PWord(s, b))
  {
    hide Parity;
    var p, q := s[P_OFFSET + b], s[P_OFFSET + P_NUM + b];
    assert PWord(s, b) == Read(s, PRow(b)) + [p, q];
    ParityCompletes(Read(s, PRow(b)), p, q);
  }

  /** A diagonal with its two parity bytes. */
  function QWord(s: seq<bv8>, b: nat): (r: seq<bv8>)
    requires |s| == SECTOR && b < Q_NUM
    ensures |r| == Q_COMP + 2 && forall c :: 0 <= c < Q_COMP ==> r[c] == SourceByte(s, QRow(b)[c])
    ensures r[Q_COMP] == SourceByte(s, 2236 + b) && r[Q_COMP + 1] == SourceByte(s, 2236 + Q_NUM + b)
  {
    Read(s, QRow(b)) + [s[Q_OFFSET + b], s[Q_OFFSET + Q_NUM + b]]
  }

  lemma QWordIs(s: seq<bv8>, b: nat)
    requires |s| == SECTOR && b < Q_NUM
    ensures QHolds(s, b) <==> IsWord(QWord(s, b))
  {
    hide Parity;
    ParityCompletes(Read(s, QRow(b)), s[Q_OFFSET + b], s[Q_OFFSET + Q_NUM + b]);
  }

  /** The sectors agree but for the places x and y, and these count. */
  ghost predicate DifferAt(s: seq<bv8>, s': seq<bv8>, x: nat, y: nat) {
    && |s| == |s'| == SECTOR && x < SECTOR && y < SECTOR && s[MODE_OFFSET] == s'[MODE_OFFSET]
    && (forall i :: 0 <= i < SECTOR && i != x && i != y ==> s[i] == s'[i])
    && Counts(s, x) && Counts(s, y)
  }

  /** The sync bytes are not covered, nor in mode 2 the header; the mode byte says what is covered. */
  predicate Counts(s: seq<bv8>, x: nat)
    requires |s| == SECTOR
  {
    SYNC_NUM_BYTES <= x && x != MODE_OFFSET && (s[MODE_OFFSET] == 2 ==> SYNC_NUM_BYTES + 4 <= x)
  }

  /** An error before the Q bytes shows in its column. */
  lemma ColumnShows(s: seq<bv8>, s': seq<bv8>, x: nat, y: nat)
    requires DifferAt(s, s', x, y) && s[x] != s'[x] && x < Q_OFFSET && PHolds(s, (x - SYNC_NUM_BYTES) % 86)
    ensures !PHolds(s', (x - SYNC_NUM_BYTES) % 86)
  {
    hide Parity, IsWord;
    var b, i := (x - SYNC_NUM_BYTES) % 86, (x - SYNC_NUM_BYTES) / 86;
    var j := if y < Q_OFFSET && (y - SYNC_NUM_BYTES) % 86 == b then (y - SYNC_NUM_BYTES) / 86 else i;
    PWordIs(s, b);
    PWordIs(s', b);
    var c, c' := PWord(s, b), PWord(s', b);
    assert c[i] == s[x] && c'[i] == s'[x];
    forall k | 0 <= k < |c| && k != i && k != j
      ensures c[k] == c'[k]
    {
      assert SYNC_NUM_BYTES + b + 86 * k != x && SYNC_NUM_BYTES + b + 86 * k != y;
    }
    TwoErrorsDetected(c, c', i, j);
  }

  /** An error in the Q bytes shows in its diagonal, if there is none before them. */
  lemma DiagonalShows(s: seq<bv8>, s': seq<bv8>, x: nat, y: nat)
    requires DifferAt(s, s', x, y) && s[x] != s'[x] && Q_OFFSET <= x && (Q_OFFSET <= y || s[y] == s'[y]) && QHolds(s, (x - Q_OFFSET) % 52)
    ensures !QHolds(s', (x - Q_OFFSET) % 52)
  {
    hide Parity, IsWord;
    var b := (x - Q_OFFSET) % 52;
    QWordIs(s, b);
    QWordIs(s', b);
    assert s[..Q_OFFSET] == s'[..Q_OFFSET];
    SameQRow(s, s', b);
    TwoErrorsDetected(QWord(s, b), QWord(s', b), Q_COMP, Q_COMP + 1);
  }

  /** Any change of one or two bytes of a good sector is detected. */
  lemma ChangesDetected(s: seq<bv8>, s': seq<bv8>, x: nat, y: nat)
    requires Consistent(s) && DifferAt(s, s', x, y) && s != s'
    ensures !Consistent(s')
  {
    hide PHolds, QHolds;
    var u, v := if s[x] != s'[x] then x else y, if s[x] != s'[x] then y else x;
    var first, other := if Q_OFFSET <= u && s[v] != s'[v] then v else u, if Q_OFFSET <= u && s[v] != s'[v] then u else v;
    assert DifferAt(s, s', first, other) && s[first] != s'[first];
    if first < Q_OFFSET {
      assert PHolds(s, (first - SYNC_NUM_BYTES) % 86);
      ColumnShows(s, s', first, other);
    } else {
      assert QHolds(s, (first - Q_OFFSET) % 52);
      DiagonalShows(s, s', first, other);
    }
  }
}
