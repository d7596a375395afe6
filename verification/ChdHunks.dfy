/** Reading a hunk of a CHD of version 5 (hunk_read_into_memory): stored in the file, the same as another hunk, or a part of
    the parent. */
module ChdHunks {
  import opened Bytes
  import opened ChdMap
  import opened Powers
  import opened Wrappers

  datatype Error = NoError | HunkOutOfRange | ReadError | DecompressionError | RequiresParent

  datatype Result = Ok(value: seq<Byte>) | Err(error: Error)

  /** A file, its map, its codecs, and the file it is based on. */
  datatype Chd = Chd(hunkBytes: nat, unitBytes: nat, hunkCount: nat, compressed: bool, rawmap: seq<Byte>, file: seq<Byte>,
                     codec: (nat, seq<Byte>) -> Option<seq<Byte>>, parent: Option<Chd>)

  function MapEntry(c: Chd, k: nat): Entry
    requires k < c.hunkCount && |c.rawmap| == 12 * c.hunkCount
  {
    EntryAt(c.rawmap, k)
  }

  /** Where a hunk of an uncompressed file is; 0 if it is not there. */
  function BlockOf(c: Chd, k: nat): nat
    requires k < c.hunkCount && |c.rawmap| == 4 * c.hunkCount
  {
    Num(c.rawmap[4 * k..4 * k + 4]) * c.hunkBytes
  }

  /** Four bytes for each hunk, the most significant first, count in hunks of the file. */
  lemma BlockIs(c: Chd, k: nat)
    requires k < c.hunkCount && |c.rawmap| == 4 * c.hunkCount
    ensures var m, at := c.rawmap, 4 * k;
            BlockOf(c, k) == (0x100_0000 * m[at] + 0x1_0000 * m[at + 1] + 0x100 * m[at + 2] + m[at + 3]) * c.hunkBytes
  {
    hide Num;
    NumOfNone();
    var m := c.rawmap[4 * k..4 * k + 4];
    assert m == [m[0]] + [m[1]] + [m[2]] + [m[3]];
    NumAppend([], m[0]);
    NumAppend([m[0]], m[1]);
    NumAppend([m[0]] + [m[1]], m[2]);
    NumAppend([m[0]] + [m[1]] + [m[2]], m[3]);
    assert [] + [m[0]] == [m[0]];
  }

  lemma NumOfNone()
    ensures Num([]) == 0
  {
  }

  /** References within the file do not go round in circles. */
  ghost predicate Ranked(c: Chd, rank: seq<nat>) {
    && |rank| == c.hunkCount
    && (c.compressed ==>
          && |c.rawmap| == 12 * c.hunkCount
          && forall k: nat :: k < c.hunkCount && MapEntry(c, k).kind == COMPRESSION_SELF && MapEntry(c, k).offset < c.hunkCount ==>
               rank[MapEntry(c, k).offset] < rank[k])
  }

  /** In particular when each refers to an earlier hunk. */
  lemma EarlierIsRanked(c: Chd)
    requires c.compressed && |c.rawmap| == 12 * c.hunkCount
    requires forall k: nat :: k < c.hunkCount && MapEntry(c, k).kind == COMPRESSION_SELF ==> MapEntry(c, k).offset < k
    ensures exists rank: seq<nat> :: Ranked(c, rank)
  {
    hide MapEntry;
    assert Ranked(c, seq(c.hunkCount, k => k));
  }

  /** The units of a hunk, which the reader keeps in one byte. */
  function UnitsInHunk(c: Chd): nat
    requires 1 <= c.unitBytes
  {
    c.hunkBytes / c.unitBytes % 256
  }

  /** What a map entry must be like: of a base type; uncompressed hunks have all their bytes; parents have units. */
  ghost predicate EntryFine(c: Chd, k: nat)
    requires k < c.hunkCount && |c.rawmap| == 12 * c.hunkCount && 1 <= c.unitBytes
  {
    var e := MapEntry(c, k);
    && e.kind <= COMPRESSION_PARENT && (e.kind == COMPRESSION_NONE ==> e.length == c.hunkBytes)
    && (e.kind == COMPRESSION_PARENT ==> 1 <= UnitsInHunk(c) && c.hunkBytes % c.unitBytes == 0 && c.hunkBytes / c.unitBytes < 256)
  }

  ghost predicate Fine(c: Chd)
    decreases c
  {
    && 1 <= c.hunkBytes && 1 <= c.unitBytes
    && (exists rank: seq<nat> :: Ranked(c, rank))
    && (forall kind: nat, b: seq<Byte> :: c.codec(kind, b).Some? ==> |c.codec(kind, b).value| == c.hunkBytes)
    && (if c.compressed then |c.rawmap| == 12 * c.hunkCount && forall k: nat :: k < c.hunkCount ==> EntryFine(c, k)
        else |c.rawmap| == 4 * c.hunkCount && forall k: nat :: k < c.hunkCount && BlockOf(c, k) != 0 ==> BlockOf(c, k) + c.hunkBytes <= |c.file|)
    && (c.parent.Some? ==> c.parent.value.hunkBytes == c.hunkBytes && Fine(c.parent.value))
  }

  ghost function RankOf(c: Chd, k: nat): nat
    requires Fine(c)
  {
    var rank: seq<nat> :| Ranked(c, rank);
    if k < c.hunkCount then rank[k] + 1 else 0
  }

  lemma RankFalls(c: Chd, k: nat)
    requires Fine(c) && c.compressed && k < c.hunkCount && MapEntry(c, k).kind == COMPRESSION_SELF
    ensures RankOf(c, MapEntry(c, k).offset) < RankOf(c, k)
  {
    hide MapEntry;
  }

  function Zeros(n: nat): (s: seq<Byte>)
    ensures |s| == n && forall i :: 0 <= i < n ==> s[i] == 0
  {
    seq(n, _ => 0)
  }

  /** The bytes of a hunk that is in the file. */
  function ReadStored(c: Chd, e: Entry): (r: Result) {
    if e.offset + e.length > |c.file| then Err(ReadError)
    else
      var bytes := c.file[e.offset..e.offset + e.length];
      if e.kind == COMPRESSION_NONE then Ok(bytes)
      else if c.codec(e.kind, bytes).Some? then Ok(c.codec(e.kind, bytes).value)
      else Err(DecompressionError)
  }

  lemma StoredHasSize(c: Chd, k: nat)
    requires Fine(c) && c.compressed && k < c.hunkCount && MapEntry(c, k).kind <= COMPRESSION_NONE
    ensures var r := ReadStored(c, MapEntry(c, k)); r.Ok? ==> |r.value| == c.hunkBytes
  {
    hide MapEntry, Ranked;
    assert EntryFine(c, k);
  }

  /** The end of one hunk and the beginning of the next. */
  function Spliced(first: Result, second: Result, split: nat): Result {
    if first.Err? then first
    else if second.Err? then second
    else if split <= |first.value| && split <= |second.value| then Ok(first.value[split..] + second.value[..split])
    else Err(ReadError)
  }

  lemma Parts(c: Chd)
    requires Fine(c)
    ensures 1 <= c.hunkBytes && 1 <= c.unitBytes && |c.rawmap| == (if c.compressed then 12 else 4) * c.hunkCount
    ensures c.parent.Some? ==> c.parent.value.hunkBytes == c.hunkBytes && Fine(c.parent.value)
    ensures !c.compressed ==> forall k: nat :: k < c.hunkCount && BlockOf(c, k) != 0 ==> BlockOf(c, k) + c.hunkBytes <= |c.file|
    ensures c.compressed ==> forall k: nat :: k < c.hunkCount ==> EntryFine(c, k)
  {
    hide MapEntry, Ranked, EntryFine, BlockOf;
  }

  /** Which hunk of the parent a reference leads to, and how many bytes of it come before. */
  function HunkOf(c: Chd, offset: nat): nat
    requires 1 <= c.unitBytes && 1 <= UnitsInHunk(c)
  {
    offset / UnitsInHunk(c)
  }

  function SplitOf(c: Chd, offset: nat): nat
    requires 1 <= c.unitBytes && 1 <= UnitsInHunk(c)
  {
    offset % UnitsInHunk(c) * c.unitBytes
  }

  predicate Aligned(c: Chd, offset: nat)
    requires 1 <= c.unitBytes && 1 <= UnitsInHunk(c)
  {
    offset % UnitsInHunk(c) == 0
  }

  /** The bytes of a hunk, or the error. */
  ghost function Read(c: Chd, k: nat): (r: Result)
    requires Fine(c)
    ensures r.Ok? ==> |r.value| == c.hunkBytes
    decreases c, RankOf(c, k)
  {
    hide Fine, EntryAt, RankOf, Zeros, UnitsInHunk, Ranked, HunkOf, SplitOf, Aligned, ReadStored, BlockOf;
    Parts(c);
    if k >= c.hunkCount then Err(HunkOutOfRange)
    else if !c.compressed then
      var o := BlockOf(c, k);
      if o != 0 then Ok(c.file[o..o + c.hunkBytes])
      else if c.parent.Some? then Read(c.parent.value, k)
      else Ok(Zeros(c.hunkBytes))
    else
      assert EntryFine(c, k);
      var e := MapEntry(c, k);
      if e.kind <= COMPRESSION_NONE then
        StoredHasSize(c, k);
        ReadStored(c, e)
      else if e.kind == COMPRESSION_SELF then
        RankFalls(c, k);
        Read(c, e.offset)
      else if c.parent.None? then Err(RequiresParent)
      else
        if Aligned(c, e.offset) then Read(c.parent.value, HunkOf(c, e.offset))
        else Spliced(Read(c.parent.value, HunkOf(c, e.offset)), Read(c.parent.value, HunkOf(c, e.offset) + 1), SplitOf(c, e.offset))
  }

  lemma SplitInside(c: Chd, offset: nat)
    requires 1 <= c.unitBytes && c.hunkBytes % c.unitBytes == 0 && c.hunkBytes / c.unitBytes < 256 && 1 <= UnitsInHunk(c)
    ensures UnitsInHunk(c) * c.unitBytes == c.hunkBytes && SplitOf(c, offset) <= c.hunkBytes
    ensures (UnitsInHunk(c) - offset % UnitsInHunk(c)) * c.unitBytes == c.hunkBytes - SplitOf(c, offset)
  {
    var units, u := UnitsInHunk(c), offset % UnitsInHunk(c);
    assert units * c.unitBytes == c.hunkBytes;
    assert (units - u) * c.unitBytes == units * c.unitBytes - u * c.unitBytes;
    assert (units - u) * c.unitBytes >= 0;
  }

  // ---------- The method ----------

  /** memcpy */
  method CopyTo(dest: array<Byte>, at: nat, bytes: seq<Byte>)
    requires at + |bytes| <= dest.Length
    modifies dest
    ensures dest[..] == old(dest[..at]) + bytes + old(dest[at + |bytes|..])
  {
    for i := 0 to |bytes|
      invariant dest[..] == old(dest[..at]) + bytes[..i] + old(dest[at + i..])
    {
      dest[at + i] := bytes[i];
    }
    assert bytes[..|bytes|] == bytes;
  }

  /** The outcome is that of Read. */
  ghost predicate Gives(r: Result, error: Error, dest: seq<Byte>) {
    match r
    case Ok(value) => error == NoError && dest == value
    case Err(e) => error == e
  }

  /** What Read is, case by case. */
  lemma ReadCases(c: Chd, k: nat)
    requires Fine(c)
    ensures k >= c.hunkCount ==> Read(c, k) == Err(HunkOutOfRange)
    ensures k < c.hunkCount && c.compressed ==>
              && EntryFine(c, k)
              && var e := MapEntry(c, k);
              && (e.kind <= COMPRESSION_NONE ==> Read(c, k) == ReadStored(c, e))
              && (e.kind == COMPRESSION_SELF ==> Read(c, k) == Read(c, e.offset))
              && (e.kind == COMPRESSION_PARENT && c.parent.None? ==> Read(c, k) == Err(RequiresParent))
              && (e.kind == COMPRESSION_PARENT && c.parent.Some? ==>
                    var first := Read(c.parent.value, HunkOf(c, e.offset));
                    Read(c, k) == if Aligned(c, e.offset) then first
                                  else Spliced(first, Read(c.parent.value, HunkOf(c, e.offset) + 1), SplitOf(c, e.offset)))
  {
    hide Fine, EntryAt, RankOf, Zeros, UnitsInHunk, Ranked, HunkOf, SplitOf, Aligned, ReadStored, BlockOf, Spliced;
    Parts(c);
    if k < c.hunkCount && c.compressed {
      assert EntryFine(c, k);
    }
  }

  lemma UncompressedCases(c: Chd, k: nat)
    requires Fine(c) && k < c.hunkCount && !c.compressed
    ensures BlockOf(c, k) != 0 ==> BlockOf(c, k) + c.hunkBytes <= |c.file| && Read(c, k) == Ok(c.file[BlockOf(c, k)..BlockOf(c, k) + c.hunkBytes])
    ensures BlockOf(c, k) == 0 ==> Read(c, k) == if c.parent.Some? then Read(c.parent.value, k) else Ok(Zeros(c.hunkBytes))
  {
    hide Fine, EntryAt, RankOf, Zeros, UnitsInHunk, Ranked, HunkOf, SplitOf, Aligned, ReadStored, BlockOf, Spliced;
    Parts(c);
  }

  method ReadIntoMemory(c: Chd, hunknum: nat, dest: array<Byte>) returns (error: Error)
    requires Fine(c) && dest.Length == c.hunkBytes
    modifies dest
    ensures Gives(Read(c, hunknum), error, dest[..])
    decreases c, RankOf(c, hunknum), 1
  {
    hide Fine, Read, EntryAt, RankOf, UnitsInHunk, Ranked, HunkOf, SplitOf, Aligned, ReadStored, BlockOf;
    Parts(c);
    ReadCases(c, hunknum);
    if hunknum >= c.hunkCount {
      return HunkOutOfRange;
    }
    if !c.compressed {
      error := ReadUncompressed(c, hunknum, dest);
      return;
    }
    var e := MapEntry(c, hunknum);
    if e.kind <= COMPRESSION_NONE {
      StoredHasSize(c, hunknum);
      error := ReadStoredInto(c, e, dest);
    } else if e.kind == COMPRESSION_SELF {
      RankFalls(c, hunknum);
      error := ReadIntoMemory(c, e.offset, dest);
    } else if c.parent.None? {
      error := RequiresParent;
    } else if Aligned(c, e.offset) {
      error := ReadIntoMemory(c.parent.value, HunkOf(c, e.offset), dest);
    } else {
      error := ReadSpliced(c, hunknum, e.offset, dest);
    }
  }

  method ReadUncompressed(c: Chd, hunknum: nat, dest: array<Byte>) returns (error: Error)
    requires Fine(c) && dest.Length == c.hunkBytes && hunknum < c.hunkCount && !c.compressed
    modifies dest
    ensures Gives(Read(c, hunknum), error, dest[..])
    decreases c, RankOf(c, hunknum), 0
  {
    hide Fine, Read, EntryAt, RankOf, BlockOf;
    Parts(c);
    UncompressedCases(c, hunknum);
    var blockoffs := BlockOf(c, hunknum);
    if blockoffs != 0 {
      CopyTo(dest, 0, c.file[blockoffs..blockoffs + c.hunkBytes]);
    } else if c.parent.Some? {
      error := ReadIntoMemory(c.parent.value, hunknum, dest);
      return;
    } else {
      CopyTo(dest, 0, Zeros(c.hunkBytes));
    }
    return NoError;
  }

  /** The end of one hunk of the parent, and the beginning of the next. */
  method ReadSpliced(c: Chd, ghost hunknum: nat, offset: nat, dest: array<Byte>) returns (error: Error)
    requires Fine(c) && dest.Length == c.hunkBytes && c.parent.Some? && 1 <= c.unitBytes && 1 <= UnitsInHunk(c)
    requires c.hunkBytes % c.unitBytes == 0 && c.hunkBytes / c.unitBytes < 256 && !Aligned(c, offset)
    modifies dest
    ensures Gives(Spliced(Read(c.parent.value, HunkOf(c, offset)), Read(c.parent.value, HunkOf(c, offset) + 1), SplitOf(c, offset)), error, dest[..])
    decreases c, RankOf(c, hunknum), 0
  {
    hide Fine, Read, RankOf, UnitsInHunk, HunkOf, SplitOf, Aligned;
    Parts(c);
    SplitInside(c, offset);
    var buf := new Byte[c.hunkBytes];
    error := ReadIntoMemory(c.parent.value, HunkOf(c, offset), buf);
    if error != NoError {
      NotAnError(c.parent.value, HunkOf(c, offset));
      return;
    }
    NotAnError(c.parent.value, HunkOf(c, offset));
    NotAnError(c.parent.value, HunkOf(c, offset) + 1);
    var split := SplitOf(c, offset);
    ghost var first := buf[..];
    CopyTo(dest, 0, buf[split..]);
    ghost var left := dest[..c.hunkBytes - split];
    assert left == first[split..];
    error := ReadIntoMemory(c.parent.value, HunkOf(c, offset) + 1, buf);
    if error != NoError {
      return;
    }
    CopyTo(dest, c.hunkBytes - split, buf[..split]);
    assert dest[..] == left + buf[..split];
  }

  /** An error that is returned is one. */
  lemma {:induction false} NotAnError(c: Chd, k: nat)
    requires Fine(c)
    ensures Read(c, k) != Err(NoError)
    decreases c, RankOf(c, k)
  {
    hide Fine, Read, EntryAt, RankOf, BlockOf, UnitsInHunk, Ranked, HunkOf, SplitOf, Aligned;
    Parts(c);
    ReadCases(c, k);
    if k < c.hunkCount {
      if !c.compressed {
        UncompressedCases(c, k);
        if BlockOf(c, k) == 0 && c.parent.Some? {
          NotAnError(c.parent.value, k);
        }
      } else {
        var e := MapEntry(c, k);
        if e.kind == COMPRESSION_SELF {
          RankFalls(c, k);
          NotAnError(c, e.offset);
        } else if e.kind == COMPRESSION_PARENT && c.parent.Some? {
          NotAnError(c.parent.value, HunkOf(c, e.offset));
          NotAnError(c.parent.value, HunkOf(c, e.offset) + 1);
        }
      }
    }
  }

  method ReadStoredInto(c: Chd, e: Entry, dest: array<Byte>) returns (error: Error)
    requires var r := ReadStored(c, e); r.Ok? ==> |r.value| == dest.Length
    modifies dest
    ensures Gives(ReadStored(c, e), error, dest[..])
  {
    if e.offset + e.length > |c.file| {
      return ReadError;
    }
    var bytes := c.file[e.offset..e.offset + e.length];
    if e.kind == COMPRESSION_NONE {
      CopyTo(dest, 0, bytes);
      return NoError;
    }
    var plain := c.codec(e.kind, bytes);
    if plain.None? {
      return DecompressionError;
    }
    CopyTo(dest, 0, plain.value);
    return NoError;
  }

  // ---------- The contents of the disk ----------

  /** Where a hunk begins on the disk. */
  function Start(c: Chd, k: nat): nat { k * c.hunkBytes }

  function Hunk(c: Chd, disk: seq<Byte>, k: nat): (h: seq<Byte>)
    requires k < c.hunkCount && |disk| == c.hunkCount * c.hunkBytes
    ensures |h| == c.hunkBytes
  {
    HunkInside(k, c.hunkCount, c.hunkBytes);
    disk[Start(c, k)..Start(c, k) + c.hunkBytes]
  }

  lemma HunkInside(k: nat, n: nat, size: nat)
    requires k < n
    ensures k * size + size <= n * size
  {
    assert (k + 1) * size <= n * size;
  }

  predicate PartOf(h: seq<Byte>, all: seq<Byte>, at: nat) { at + |h| <= |all| && h == all[at..at + |h|] }

  /** The file holds these bytes at the entry's offset: as they are, or as the codec of the entry's type reads them from so
      many bytes as the entry says. */
  ghost predicate StoredAs(c: Chd, e: Entry, h: seq<Byte>) {
    && e.offset + e.length <= |c.file|
    && (e.kind == COMPRESSION_NONE ==> |h| == e.length && PartOf(h, c.file, e.offset))
    && (e.kind != COMPRESSION_NONE ==>
          exists packed: seq<Byte> :: |packed| == e.length && PartOf(packed, c.file, e.offset) && c.codec(e.kind, packed) == Some(h))
  }

  lemma StoredIsRead(c: Chd, e: Entry, h: seq<Byte>)
    ensures StoredAs(c, e, h) <==> ReadStored(c, e) == Ok(h)
  {
    if e.offset + e.length <= |c.file| {
      var bytes := c.file[e.offset..e.offset + e.length];
      assert PartOf(bytes, c.file, e.offset);
    }
  }

  /** A hunk has these bytes: what the file holds, decompressed; what another hunk has; or what the disk of the parent has
      from a unit on. */
  ghost predicate Has(c: Chd, disk: seq<Byte>, below: seq<Byte>, k: nat)
    requires Fine(c) && k < c.hunkCount && |disk| == c.hunkCount * c.hunkBytes
  {
    Parts(c);
    var h := Hunk(c, disk, k);
    if !c.compressed then
      if BlockOf(c, k) != 0 then PartOf(h, c.file, BlockOf(c, k))
      else if c.parent.Some? then PartOf(h, below, Start(c, k))
      else h == Zeros(c.hunkBytes)
    else
      var e := MapEntry(c, k);
      if e.kind <= COMPRESSION_NONE then StoredAs(c, e, h)
      else if e.kind == COMPRESSION_SELF then e.offset < c.hunkCount && h == Hunk(c, disk, e.offset)
      else c.parent.Some? && PartOf(h, below, e.offset * c.unitBytes)
  }

  /** The map describes this disk, and the parent's describes the one below it. */
  ghost predicate Represents(c: Chd, disk: seq<Byte>)
    requires Fine(c)
    decreases c
  {
    && |disk| == c.hunkCount * c.hunkBytes
    && exists below: seq<Byte> :: HasAll(c, disk, below) && (c.parent.Some? ==> Represents(c.parent.value, below))
  }

  ghost predicate HasAll(c: Chd, disk: seq<Byte>, below: seq<Byte>)
    requires Fine(c) && |disk| == c.hunkCount * c.hunkBytes
  {
    forall k: nat :: k < c.hunkCount ==> Has(c, disk, below, k)
  }

  /** A part of the disk that begins at a multiple of the hunk size. */
  lemma WholeHunk(c: Chd, h: seq<Byte>, disk: seq<Byte>, q: nat)
    requires PartOf(h, disk, Start(c, q)) && |h| == c.hunkBytes >= 1 && |disk| == c.hunkCount * c.hunkBytes
    ensures q < c.hunkCount && h == Hunk(c, disk, q)
  {
    OneMore(q, c.hunkBytes);
    CancelAtMost(q + 1, c.hunkCount, c.hunkBytes);
  }

  lemma OneMore(q: nat, size: nat)
    ensures (q + 1) * size == q * size + size
  {
  }

  /** Any other part of this size is the end of a hunk and the beginning of the next. */
  lemma {:induction false} TwoHunks(c: Chd, h: seq<Byte>, disk: seq<Byte>, q: nat, split: nat)
    requires PartOf(h, disk, Start(c, q) + split) && |h| == c.hunkBytes && |disk| == c.hunkCount * c.hunkBytes && 1 <= split < c.hunkBytes
    ensures q + 1 < c.hunkCount && h == Hunk(c, disk, q)[split..] + Hunk(c, disk, q + 1)[..split]
  {
    hide Hunk, PartOf, Start;
    PartIs(h, disk, Start(c, q) + split);
    RoomForNext(c, q, split);
    HunkIs(c, disk, q);
    HunkIs(c, disk, q + 1);
    Sliced(h, disk, Hunk(c, disk, q), Hunk(c, disk, q + 1), Start(c, q), c.hunkBytes, split);
  }

  lemma {:induction false} RoomForNext(c: Chd, q: nat, split: nat)
    requires Start(c, q) + split + c.hunkBytes <= c.hunkCount * c.hunkBytes && 1 <= split && 1 <= c.hunkBytes
    ensures q + 1 < c.hunkCount && Start(c, q + 1) == Start(c, q) + c.hunkBytes && Start(c, q + 1) + c.hunkBytes <= c.hunkCount * c.hunkBytes
  {
    OneMore(q, c.hunkBytes);
    CancelAtMost(q + 1, c.hunkCount, c.hunkBytes);
    assert q + 1 != c.hunkCount;
    HunkInside(q + 1, c.hunkCount, c.hunkBytes);
  }

  lemma {:induction false} HunkIs(c: Chd, disk: seq<Byte>, k: nat)
    requires k < c.hunkCount && |disk| == c.hunkCount * c.hunkBytes
    ensures Start(c, k) + c.hunkBytes <= |disk| && Hunk(c, disk, k) == disk[Start(c, k)..Start(c, k) + c.hunkBytes]
  {
    HunkInside(k, c.hunkCount, c.hunkBytes);
  }

  lemma Sliced(h: seq<Byte>, disk: seq<Byte>, a: seq<Byte>, b: seq<Byte>, at: nat, size: nat, split: nat)
    requires split <= size && at + size + size <= |disk| && a == disk[at..at + size] && b == disk[at + size..at + size + size]
    requires h == disk[at + split..at + split + size]
    ensures h == a[split..] + b[..split]
  {
    assert a[split..] == disk[at + split..at + size];
    assert b[..split] == disk[at + size..at + size + split];
  }

  /** Where a unit is. */
  lemma UnitPlace(c: Chd, offset: nat)
    requires 1 <= c.unitBytes && c.hunkBytes % c.unitBytes == 0 && c.hunkBytes / c.unitBytes < 256 && 1 <= UnitsInHunk(c)
    ensures offset * c.unitBytes == HunkOf(c, offset) * c.hunkBytes + SplitOf(c, offset) && SplitOf(c, offset) < c.hunkBytes
    ensures Aligned(c, offset) <==> SplitOf(c, offset) == 0
  {
    hide UnitsInHunk;
    var units := UnitsInHunk(c);
    SplitInside(c, offset);
    Quotient(offset, units);
    InUnits(offset / units, offset % units, units, c.unitBytes);
  }

  /** With the number of units in one byte, the place that is computed is right for every unit just if there are less than
      256 in a hunk. */
  lemma {:induction false} UnitsFit(c: Chd)
    requires 1 <= c.unitBytes && 1 <= c.hunkBytes && c.hunkBytes % c.unitBytes == 0 && 1 <= UnitsInHunk(c)
    ensures (forall offset: nat :: HunkOf(c, offset) * c.hunkBytes + SplitOf(c, offset) == offset * c.unitBytes) <==> c.hunkBytes / c.unitBytes < 256
  {
    hide HunkOf, SplitOf, UnitsInHunk;
    var u := UnitsInHunk(c);
    if c.hunkBytes / c.unitBytes < 256 {
      forall offset: nat
        ensures HunkOf(c, offset) * c.hunkBytes + SplitOf(c, offset) == offset * c.unitBytes
      {
        UnitPlace(c, offset);
      }
    } else {
      FirstWrapped(c);
      FewerUnits(c.hunkBytes, c.unitBytes);
      assert u == c.hunkBytes / c.unitBytes % 256 by {
        UnitsAre(c);
      }
      assert HunkOf(c, u) * c.hunkBytes + SplitOf(c, u) != u * c.unitBytes;
    }
  }

  lemma UnitsAre(c: Chd)
    requires 1 <= c.unitBytes
    ensures UnitsInHunk(c) == c.hunkBytes / c.unitBytes % 256
  {
  }

  lemma FewerUnits(hunkBytes: nat, unitBytes: nat)
    requires 1 <= unitBytes && 256 <= hunkBytes / unitBytes
    ensures hunkBytes / unitBytes % 256 * unitBytes < hunkBytes
  {
    var all := hunkBytes / unitBytes;
    Quotient(hunkBytes, unitBytes);
    FewerTimes(all % 256, all, unitBytes);
  }

  lemma FewerTimes(a: nat, b: nat, c: nat)
    requires a < b && 1 <= c
    ensures a * c < b * c
  {
  }

  lemma FirstWrapped(c: Chd)
    requires 1 <= c.unitBytes && 1 <= UnitsInHunk(c)
    ensures HunkOf(c, UnitsInHunk(c)) == 1 && SplitOf(c, UnitsInHunk(c)) == 0
  {
    hide UnitsInHunk;
    ModOfSum(1, UnitsInHunk(c), 0);
  }

  lemma InUnits(q: nat, u: nat, units: nat, size: nat)
    requires u < units && 1 <= size
    ensures (q * units + u) * size == q * (units * size) + u * size && u * size < units * size && (u == 0 <==> u * size == 0)
  {
    Regroup(q, units, size);
    assert (q * units + u) * size == q * units * size + u * size;
    assert (u + 1) * size <= units * size;
  }

  lemma RankPositive(c: Chd, k: nat)
    requires Fine(c) && k < c.hunkCount
    ensures 1 <= RankOf(c, k)
  {
    hide MapEntry;
  }

  /** Reading gives the contents of the disk, hunk by hunk. */
  lemma {:induction false} ReadIsContent(c: Chd, disk: seq<Byte>, k: nat)
    requires Fine(c) && Represents(c, disk) && k < c.hunkCount
    ensures Read(c, k) == Ok(Hunk(c, disk, k))
    decreases c, RankOf(c, k)
  {
    hide Fine, Read, EntryAt, RankOf, BlockOf, UnitsInHunk, Ranked, HunkOf, SplitOf, Aligned, Hunk, PartOf, Spliced, ReadStored, StoredAs;
    Parts(c);
    ReadCases(c, k);
    var below: seq<Byte> :| HasAll(c, disk, below) && (c.parent.Some? ==> Represents(c.parent.value, below));
    RankPositive(c, k);
    assert Has(c, disk, below, k);
    var h := Hunk(c, disk, k);
    if !c.compressed {
      UncompressedCases(c, k);
      if BlockOf(c, k) != 0 {
        PartIs(h, c.file, BlockOf(c, k));
      } else if c.parent.Some? {
        WholeHunk(c.parent.value, h, below, k);
        ReadIsContent(c.parent.value, below, k);
      }
    } else {
      var e := MapEntry(c, k);
      if e.kind == COMPRESSION_SELF {
        RankFalls(c, k);
        ReadIsContent(c, disk, e.offset);
      } else if e.kind > COMPRESSION_SELF {
        ParentContent(c, h, below, e.offset);
      } else {
        StoredIsRead(c, e, h);
      }
    }
  }

  lemma PartIs(h: seq<Byte>, all: seq<Byte>, at: nat)
    requires PartOf(h, all, at)
    ensures at + |h| <= |all| && h == all[at..at + |h|]
  {
  }

  /** A part of the parent's disk is read from one hunk or from two. */
  lemma {:induction false} ParentContent(c: Chd, h: seq<Byte>, below: seq<Byte>, offset: nat)
    requires Fine(c) && c.parent.Some? && Fine(c.parent.value) && Represents(c.parent.value, below)
    requires 1 <= c.unitBytes && c.hunkBytes % c.unitBytes == 0 && c.hunkBytes / c.unitBytes < 256 && 1 <= UnitsInHunk(c)
    requires |h| == c.hunkBytes && PartOf(h, below, offset * c.unitBytes)
    ensures var first := Read(c.parent.value, HunkOf(c, offset));
            Ok(h) == if Aligned(c, offset) then first
                     else Spliced(first, Read(c.parent.value, HunkOf(c, offset) + 1), SplitOf(c, offset))
    decreases c, 0
  {
    hide Fine, Read, EntryAt, RankOf, BlockOf, UnitsInHunk, Ranked, HunkOf, SplitOf, Aligned, Hunk, PartOf, Has;
    Parts(c);
    UnitPlace(c, offset);
    var q, split, p := HunkOf(c, offset), SplitOf(c, offset), c.parent.value;
    if split == 0 {
      WholeHunk(p, h, below, q);
      ReadIsContent(p, below, q);
    } else {
      TwoHunks(p, h, below, q, split);
      ReadIsContent(p, below, q);
      ReadIsContent(p, below, q + 1);
    }
  }

  /** So a map describes one disk at most. */
  lemma OneDisk(c: Chd, disk: seq<Byte>, disk': seq<Byte>)
    requires Fine(c) && Represents(c, disk) && Represents(c, disk')
    ensures disk == disk'
  {
    hide Fine, Read, Has, Hunk;
    Parts(c);
    forall i | 0 <= i < |disk|
      ensures disk[i] == disk'[i]
    {
      var k := i / c.hunkBytes;
      assert i == k * c.hunkBytes + i % c.hunkBytes;
      DivBelow(i, c.hunkCount, c.hunkBytes);
      ReadIsContent(c, disk, k);
      ReadIsContent(c, disk', k);
      ByteOfHunk(c, disk, k, i % c.hunkBytes);
      ByteOfHunk(c, disk', k, i % c.hunkBytes);
    }
  }

  lemma ByteOfHunk(c: Chd, disk: seq<Byte>, k: nat, j: nat)
    requires k < c.hunkCount && |disk| == c.hunkCount * c.hunkBytes && j < c.hunkBytes
    ensures k * c.hunkBytes + j < |disk| && Hunk(c, disk, k)[j] == disk[k * c.hunkBytes + j]
  {
    HunkInside(k, c.hunkCount, c.hunkBytes);
  }
}
