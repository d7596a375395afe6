/** The compressed map of a CHD of version 5 (decompress_v5_map): what each hunk is, and where its bytes are. */
module ChdMap {
  import opened Bytes
  import opened BitStream
  import opened ChdHuffman
  import opened CodeLengths
  import opened Powers

  const COMPRESSION_NONE: nat := 4
  const COMPRESSION_SELF: nat := 5
  const COMPRESSION_PARENT: nat := 6
  const COMPRESSION_RLE_SMALL: nat := 7
  const COMPRESSION_RLE_LARGE: nat := 8
  const COMPRESSION_SELF_0: nat := 9
  const COMPRESSION_SELF_1: nat := 10
  const COMPRESSION_PARENT_SELF: nat := 11
  const COMPRESSION_PARENT_0: nat := 12
  const COMPRESSION_PARENT_1: nat := 13

  // ---------- The types of the hunks ----------

  /** A code of 16 symbols that leaves no bits without a meaning. */
  ghost predicate Complete(lens: seq<nat>) { |lens| == 16 && Accepted(lens, 8) && Kraft(lens, 8) == Pow2(8) }

  lemma SomeComes(data: seq<Byte>, pos: nat, lens: seq<nat>)
    requires Complete(lens)
    ensures exists i :: 0 <= i < |lens| && Comes(data, pos, lens, i)
    ensures forall i, j :: 0 <= i < |lens| && 0 <= j < |lens| && Comes(data, pos, lens, i) && Comes(data, pos, lens, j) ==> i == j
  {
    hide Kraft, Accepted, Comes;
    var i := SomeCodeComes(data, pos, lens, 8);
    HasCode(data, pos, lens, i);
  }

  lemma HasCode(data: seq<Byte>, pos: nat, lens: seq<nat>, i: nat)
    requires Comes(data, pos, lens, i)
    ensures i < |lens|
  {
  }

  /** The symbol whose code comes. */
  ghost function Symbol(data: seq<Byte>, lens: seq<nat>, pos: nat): (i: nat)
    requires Complete(lens)
    ensures i < 16 && Comes(data, pos, lens, i)
  {
    SomeComes(data, pos, lens);
    var i: nat :| i < |lens| && Comes(data, pos, lens, i);
    i
  }

  /** The types of n hunks, and where they end, when `rep` more are to be like the last. */
  ghost function Types(data: seq<Byte>, lens: seq<nat>, pos: nat, n: nat, last: nat, rep: nat): (r: (seq<nat>, nat))
    requires Complete(lens)
    ensures |r.0| == n
    decreases n
  {
    if n == 0 then ([], pos)
    else if rep > 0 then
      var rest := Types(data, lens, pos, n - 1, last, rep - 1);
      ([last] + rest.0, rest.1)
    else
      var val := Symbol(data, lens, pos);
      var pos1 := pos + lens[val];
      if val == COMPRESSION_RLE_SMALL then
        var few := Symbol(data, lens, pos1);
        var rest := Types(data, lens, pos1 + lens[few], n - 1, last, 2 + few);
        ([last] + rest.0, rest.1)
      else if val == COMPRESSION_RLE_LARGE then
        var high := Symbol(data, lens, pos1);
        var pos2 := pos1 + lens[high];
        var low := Symbol(data, lens, pos2);
        var rest := Types(data, lens, pos2 + lens[low], n - 1, last, 18 + 16 * high + low);
        ([last] + rest.0, rest.1)
      else
        var rest := Types(data, lens, pos1, n - 1, val, 0);
        ([val] + rest.0, rest.1)
  }

  /** Repetitions have gone. */
  lemma {:induction false} TypesPlain(data: seq<Byte>, lens: seq<nat>, pos: nat, n: nat, last: nat, rep: nat)
    requires Complete(lens) && last < 16 && last != COMPRESSION_RLE_SMALL && last != COMPRESSION_RLE_LARGE
    ensures forall k :: 0 <= k < n ==>
      var t := Types(data, lens, pos, n, last, rep).0[k];
      t < 16 && t != COMPRESSION_RLE_SMALL && t != COMPRESSION_RLE_LARGE
    decreases n
  {
    hide Complete, Comes;
    if n > 0 {
      if rep > 0 {
        TypesPlain(data, lens, pos, n - 1, last, rep - 1);
      } else {
        SixteenLengths(lens);
        var val := Symbol(data, lens, pos);
        var pos1 := pos + lens[val];
        if val == COMPRESSION_RLE_SMALL {
          var few := Symbol(data, lens, pos1);
          TypesPlain(data, lens, pos1 + lens[few], n - 1, last, 2 + few);
        } else if val == COMPRESSION_RLE_LARGE {
          var high := Symbol(data, lens, pos1);
          var pos2 := pos1 + lens[high];
          var low := Symbol(data, lens, pos2);
          TypesPlain(data, lens, pos2 + lens[low], n - 1, last, 18 + 16 * high + low);
        } else {
          TypesPlain(data, lens, pos1, n - 1, val, 0);
        }
      }
    }
  }

  lemma SixteenLengths(lens: seq<nat>)
    requires Complete(lens)
    ensures |lens| == 16
  {
  }

  /** A symbol is read. */
  method ReadSymbol(d: Decoder, r: Reader) returns (value: nat)
    requires d.Valid() && d.Built(d.numbits.Length) && r.Valid() && Complete(d.numbits[..])
    modifies r
    ensures r.Valid() && value == Symbol(r.data, d.numbits[..], old(r.Pos())) && r.Pos() == old(r.Pos()) + d.numbits[value]
  {
    hide Accepted, Comes, Complete;
    SixteenLengths(d.numbits[..]);
    SomeComes(r.data, r.Pos(), d.numbits[..]);
    ghost var lens, pos: nat := d.numbits[..], r.Pos();
    value := d.DecodeOne(r);
    assert d.numbits[..] == lens;
    assert Comes(r.data, pos, lens, Symbol(r.data, lens, pos));
  }

  lemma TypesUnfold(data: seq<Byte>, lens: seq<nat>, pos: nat, n: nat, last: nat, rep: nat)
    requires Complete(lens) && 0 < n
    ensures |lens| == 16
    ensures rep > 0 ==>
              var rest := Types(data, lens, pos, n - 1, last, rep - 1);
              Types(data, lens, pos, n, last, rep) == ([last] + rest.0, rest.1)
    ensures rep == 0 ==>
              var val := Symbol(data, lens, pos);
              var pos1 := pos + lens[val];
              && (val != COMPRESSION_RLE_SMALL && val != COMPRESSION_RLE_LARGE ==>
                    var rest := Types(data, lens, pos1, n - 1, val, 0);
                    Types(data, lens, pos, n, last, rep) == ([val] + rest.0, rest.1))
              && (val == COMPRESSION_RLE_SMALL ==>
                    var few := Symbol(data, lens, pos1);
                    var rest := Types(data, lens, pos1 + lens[few], n - 1, last, 2 + few);
                    Types(data, lens, pos, n, last, rep) == ([last] + rest.0, rest.1))
              && (val == COMPRESSION_RLE_LARGE ==>
                    var high := Symbol(data, lens, pos1);
                    var pos2 := pos1 + lens[high];
                    var low := Symbol(data, lens, pos2);
                    var rest := Types(data, lens, pos2 + lens[low], n - 1, last, 18 + 16 * high + low);
                    Types(data, lens, pos, n, last, rep) == ([last] + rest.0, rest.1))
  {
    hide Complete, Symbol;
    SixteenLengths(lens);
  }

  /** The first byte of each entry is its type. */
  method ReadTypes(d: Decoder, r: Reader, rawmap: array<Byte>, hunkCount: nat)
    requires d.Valid() && d.Built(d.numbits.Length) && r.Valid() && Complete(d.numbits[..]) && rawmap.Length == 12 * hunkCount
    modifies r, rawmap
    ensures r.Valid()
    ensures var found := Types(r.data, d.numbits[..], old(r.Pos()), hunkCount, 0, 0);
            r.Pos() == found.1 && forall k :: 0 <= k < hunkCount ==> rawmap[12 * k] == found.0[k]
  {
    hide Accepted, Comes, Complete, Types, Symbol;
    ghost var lens, found := d.numbits[..], Types(r.data, d.numbits[..], r.Pos(), hunkCount, 0, 0);
    var repcount: nat, lastcomp: Byte := 0, 0;
    ghost var types: seq<nat> := [];
    for hunknum := 0 to hunkCount
      invariant r.Valid() && d.numbits[..] == lens && |types| == hunknum
      invariant forall k :: 0 <= k < hunknum ==> rawmap[12 * k] == types[k]
      invariant var rest := Types(r.data, lens, r.Pos(), hunkCount - hunknum, lastcomp, repcount);
                types + rest.0 == found.0 && rest.1 == found.1
    {
      ghost var left: nat := hunkCount - hunknum - 1;
      ghost var now := Types(r.data, lens, r.Pos(), left + 1, lastcomp, repcount);
      lastcomp, repcount := NextType(d, r, lastcomp, repcount, left);
      ghost var rest := Types(r.data, lens, r.Pos(), left, lastcomp, repcount);
      assert now == ([lastcomp as nat] + rest.0, rest.1);
      rawmap[12 * hunknum] := lastcomp;
      assert types + ([lastcomp as nat] + rest.0) == (types + [lastcomp as nat]) + rest.0;
      types := types + [lastcomp];
    }
    TypesNone(r.data, lens, r.Pos(), lastcomp, repcount);
  }

  lemma TypesNone(data: seq<Byte>, lens: seq<nat>, pos: nat, last: nat, rep: nat)
    requires Complete(lens)
    ensures Types(data, lens, pos, 0, last, rep) == ([], pos)
  {
  }

  /** The type of one hunk, and how many more are like it. */
  method NextType(d: Decoder, r: Reader, lastcomp: Byte, repcount: nat, ghost n: nat) returns (comp: Byte, rep: nat)
    requires d.Valid() && d.Built(d.numbits.Length) && r.Valid() && Complete(d.numbits[..])
    modifies r
    ensures r.Valid()
    ensures var rest := Types(r.data, d.numbits[..], r.Pos(), n, comp, rep);
            Types(r.data, d.numbits[..], old(r.Pos()), n + 1, lastcomp, repcount) == ([comp as nat] + rest.0, rest.1)
  {
    hide Accepted, Comes, Complete, Types, Symbol;
    ghost var lens, pos: nat := d.numbits[..], r.Pos();
    SixteenLengths(lens);
    if repcount > 0 {
      comp, rep := lastcomp, repcount - 1;
    } else {
      var val := ReadSymbol(d, r);
      if val == COMPRESSION_RLE_SMALL {
        var few := ReadSymbol(d, r);
        comp, rep := lastcomp, 2 + few;
      } else if val == COMPRESSION_RLE_LARGE {
        var high := ReadSymbol(d, r);
        var low := ReadSymbol(d, r);
        comp, rep := lastcomp, 2 + 16 + high * 16 + low;
      } else {
        comp, rep := val, 0;
      }
    }
    TypesUnfold(r.data, lens, pos, n + 1, lastcomp, repcount);
  }

  // ---------- Numbers in the map ----------

  /** The n last digits to base 256, most significant first. */
  function Digits(v: nat, n: nat): (s: seq<Byte>)
    ensures |s| == n
  {
    if n == 0 then [] else Digits(v / 256, n - 1) + [v % 256]
  }

  lemma {:induction false} DigitsRead(v: nat, n: nat)
    ensures Num(Digits(v, n)) == v % Pow2(8 * n)
    decreases n
  {
    if n > 0 {
      DigitsRead(v / 256, n - 1);
      NumAppend(Digits(v / 256, n - 1), v % 256);
      Pow2Add(8, 8 * (n - 1));
      Pow2Small();
      LowDigit(v, Pow2(8 * (n - 1)));
    }
  }

  lemma LowDigit(v: nat, m: nat)
    requires 1 <= m
    ensures v % (256 * m) == v / 256 % m * 256 + v % 256
  {
    var q, r0 := v / 256, v % 256;
    Quotient(q, m);
    var h, r := q / m, q % m;
    assert v == h * (256 * m) + (r * 256 + r0) by {
      Regroup(h, 256, m);
      assert (h * m + r) * 256 == h * m * 256 + r * 256;
      assert h * m * 256 == h * 256 * m;
    }
    ModOfSum(h, 256 * m, r * 256 + r0);
  }

  lemma {:induction false} DigitAt(v: nat, n: nat, i: nat)
    requires i < n
    ensures Digits(v, n)[i] == v / Pow2(8 * (n - 1 - i)) % 256
    decreases n
  {
    if i == n - 1 {
      assert Pow2(0) == 1;
    } else {
      DigitAt(v / 256, n - 1, i);
      Pow2Add(8, 8 * (n - 2 - i));
      Pow2Small();
      DivDiv(v, 256, Pow2(8 * (n - 2 - i)));
    }
  }

  /** A mask for the digits that are written changes nothing. */
  lemma {:induction false} DigitsMasked(v: nat, n: nat)
    ensures Digits(v % Pow2(8 * n), n) == Digits(v, n)
    decreases n
  {
    hide Pow2;
    if n > 0 {
      Pow2Add(8, 8 * (n - 1));
      Pow2Small();
      MaskedLow(v, Pow2(8 * (n - 1)));
      DigitsMasked(v / 256, n - 1);
    }
  }

  lemma MaskedLow(v: nat, m: nat)
    requires 1 <= m
    ensures v % (256 * m) / 256 == v / 256 % m && v % (256 * m) % 256 == v % 256
  {
    LowDigit(v, m);
    ModOfSum(v / 256 % m, 256, v % 256);
  }

  /** (v >> s) & 255, for m = 2^s. */
  function Digit(v: nat, m: nat): Byte
    requires 1 <= m
  {
    v / m % 256
  }

  lemma DigitIs(v: nat, n: nat, i: nat, m: nat)
    requires i < n && m == Pow2(8 * (n - 1 - i))
    ensures 1 <= m && Digits(v, n)[i] == Digit(v, m)
  {
    DigitAt(v, n, i);
  }

  /** put_bigendian_uint24 */
  method PutUint24(base: array<Byte>, at: nat, value: nat)
    requires at + 3 <= base.Length
    modifies base
    ensures base[at..at + 3] == Digits(value, 3)
    ensures forall i :: 0 <= i < base.Length && !(at <= i < at + 3) ==> base[i] == old(base[i])
  {
    hide Digits, Digit, Pow2;
    var v := value % 0x100_0000;
    PowersOf256();
    DigitsMasked(value, 3);
    DigitIs(v, 3, 0, 0x1_0000);
    DigitIs(v, 3, 1, 256);
    DigitIs(v, 3, 2, 1);
    base[at] := Digit(v, 0x1_0000);
    base[at + 1] := Digit(v, 256);
    base[at + 2] := Digit(v, 1);
  }

  lemma PowersOf256()
    ensures Pow2(0) == 1 && Pow2(8) == 256 && Pow2(16) == 0x1_0000 && Pow2(24) == 0x100_0000 && Pow2(32) == 0x1_0000_0000
    ensures Pow2(40) == 0x100_0000_0000 && Pow2(48) == 0x1_0000_0000_0000
  {
    Pow2Small();
    Pow2Add(8, 8);
    Pow2Add(8, 16);
    Pow2Add(8, 24);
    Pow2Add(8, 32);
    Pow2Add(8, 40);
  }

  /** put_bigendian_uint48 */
  method PutUint48(base: array<Byte>, at: nat, value: nat)
    requires at + 6 <= base.Length
    modifies base
    ensures base[at..at + 6] == Digits(value, 6)
    ensures forall i :: 0 <= i < base.Length && !(at <= i < at + 6) ==> base[i] == old(base[i])
  {
    hide Digits, Digit, Pow2;
    var v := value % 0x1_0000_0000_0000;
    PowersOf256();
    DigitsMasked(value, 6);
    DigitIs(v, 6, 0, 0x100_0000_0000);
    DigitIs(v, 6, 1, 0x1_0000_0000);
    DigitIs(v, 6, 2, 0x100_0000);
    DigitIs(v, 6, 3, 0x1_0000);
    DigitIs(v, 6, 4, 256);
    DigitIs(v, 6, 5, 1);
    base[at] := Digit(v, 0x100_0000_0000);
    base[at + 1] := Digit(v, 0x1_0000_0000);
    base[at + 2] := Digit(v, 0x100_0000);
    base[at + 3] := Digit(v, 0x1_0000);
    base[at + 4] := Digit(v, 256);
    base[at + 5] := Digit(v, 1);
  }

  /** put_bigendian_uint16 */
  method PutUint16(base: array<Byte>, at: nat, value: nat)
    requires at + 2 <= base.Length
    modifies base
    ensures base[at..at + 2] == Digits(value, 2)
    ensures forall i :: 0 <= i < base.Length && !(at <= i < at + 2) ==> base[i] == old(base[i])
  {
    hide Digits, Digit, Pow2;
    PowersOf256();
    DigitIs(value, 2, 0, 256);
    DigitIs(value, 2, 1, 1);
    base[at] := Digit(value, 256);
    base[at + 1] := Digit(value, 1);
  }

  // ---------- Entries ----------

  datatype Entry = Entry(kind: nat, length: nat, offset: nat, crc: nat)

  /** The entry of a hunk, as it is read from the map (get_bigendian_uint24 and the like). */
  function EntryAt(map_: seq<Byte>, k: nat): Entry
    requires 12 * k + 12 <= |map_|
  {
    Entry(map_[12 * k], Num(map_[12 * k + 1..12 * k + 4]), Num(map_[12 * k + 4..12 * k + 10]), Num(map_[12 * k + 10..12 * k + 12]))
  }

  /** What is left of an entry in its 12 bytes. */
  function Stored(e: Entry): Entry { Entry(e.kind, e.length % Pow2(24), e.offset % Pow2(48), e.crc % Pow2(16)) }

  datatype Params = Params(lengthBits: nat, selfBits: nat, parentBits: nat, hunkBytes: nat, unitBytes: nat) {
    predicate Ok() { lengthBits <= 25 && selfBits <= 25 && parentBits <= 25 && 1 <= unitBytes && hunkBytes < 0x1_0000_0000 }

    function Units(): nat
      requires Ok()
    {
      hunkBytes / unitBytes
    }

    /** The unit in the parent where this hunk begins. */
    function UnitOf(hunknum: nat): nat
      requires Ok()
    {
      hunknum * hunkBytes / unitBytes
    }
  }

  /** Where the next stored hunk begins, and what the last references were. */
  datatype Cursor = Cursor(offset: nat, self: nat, parent: nat)

  /** Sums in 32 and 64 bits. */
  function Sum32(a: nat, b: nat): nat { (a + b) % 0x1_0000_0000 }
  function Sum64(a: nat, b: nat): nat { (a + b) % 0x1_0000_0000_0000_0000 }

  /** How many bits of the map belong to an entry. */
  function EntryBits(p: Params, t: nat): nat {
    if t < COMPRESSION_NONE then p.lengthBits + 16
    else if t == COMPRESSION_NONE then 16
    else if t == COMPRESSION_SELF then p.selfBits
    else if t == COMPRESSION_PARENT then p.parentBits
    else 0
  }

  /** One turn of the second loop. */
  function Next(p: Params, data: seq<Byte>, pos: nat, t: nat, hunknum: nat, c: Cursor): (Entry, Cursor)
    requires p.Ok()
  {
    if t < COMPRESSION_NONE then
      var length := Flat(data, pos, p.lengthBits);
      (Entry(t, length, c.offset, Flat(data, pos + p.lengthBits, 16)), c.(offset := Sum64(c.offset, length)))
    else if t == COMPRESSION_NONE then
      (Entry(t, p.hunkBytes, c.offset, Flat(data, pos, 16)), c.(offset := Sum64(c.offset, p.hunkBytes)))
    else if t == COMPRESSION_SELF then
      var o := Flat(data, pos, p.selfBits);
      (Entry(t, 0, o, 0), c.(self := o))
    else if t == COMPRESSION_PARENT then
      var o := Flat(data, pos, p.parentBits);
      (Entry(t, 0, o, 0), c.(parent := o))
    else if t == COMPRESSION_SELF_1 then
      (Entry(COMPRESSION_SELF, 0, Sum32(c.self, 1), 0), c.(self := Sum32(c.self, 1)))
    else if t == COMPRESSION_SELF_0 then (Entry(COMPRESSION_SELF, 0, c.self, 0), c)
    else if t == COMPRESSION_PARENT_SELF then
      var o := p.UnitOf(hunknum);
      (Entry(COMPRESSION_PARENT, 0, o, 0), c.(parent := o))
    else if t == COMPRESSION_PARENT_1 then
      var o := Sum64(c.parent, p.Units());
      (Entry(COMPRESSION_PARENT, 0, o, 0), c.(parent := o))
    else if t == COMPRESSION_PARENT_0 then (Entry(COMPRESSION_PARENT, 0, c.parent, 0), c)
    else (Entry(t, 0, c.offset, 0), c)
  }

  /** Where in the bits an entry begins, and the cursor there. */
  function PosAt(p: Params, types: seq<nat>, start: nat, k: nat): nat
    requires k <= |types|
  {
    if k == 0 then start else PosAt(p, types, start, k - 1) + EntryBits(p, types[k - 1])
  }

  function CursorAt(p: Params, data: seq<Byte>, types: seq<nat>, start: nat, first: nat, k: nat): Cursor
    requires p.Ok() && k <= |types|
  {
    if k == 0 then Cursor(first, 0, 0)
    else Next(p, data, PosAt(p, types, start, k - 1), types[k - 1], k - 1, CursorAt(p, data, types, start, first, k - 1)).1
  }

  function Decoded(p: Params, data: seq<Byte>, types: seq<nat>, start: nat, first: nat, k: nat): Entry
    requires p.Ok() && k < |types|
  {
    Next(p, data, PosAt(p, types, start, k), types[k], k, CursorAt(p, data, types, start, first, k)).0
  }

  /** An entry gets its numbers; the others keep theirs. */
  method PutEntry(rawmap: array<Byte>, k: nat, kind: Byte, length: nat, offset: nat, crc: nat)
    requires 12 * k + 12 <= rawmap.Length
    modifies rawmap
    ensures EntryAt(rawmap[..], k) == Stored(Entry(kind, length, offset, crc))
    ensures forall i :: 0 <= i < rawmap.Length && !(12 * k <= i < 12 * k + 12) ==> rawmap[i] == old(rawmap[i])
  {
    hide Digits, Pow2, Num;
    rawmap[12 * k] := kind;
    PutUint24(rawmap, 12 * k + 1, length);
    ghost var a := rawmap[12 * k + 1..12 * k + 4];
    PutUint48(rawmap, 12 * k + 4, offset);
    ghost var b := rawmap[12 * k + 4..12 * k + 10];
    assert rawmap[12 * k + 1..12 * k + 4] == a;
    PutUint16(rawmap, 12 * k + 10, crc);
    assert rawmap[12 * k + 1..12 * k + 4] == a;
    assert rawmap[12 * k + 4..12 * k + 10] == b;
    DigitsRead(length, 3);
    DigitsRead(offset, 6);
    DigitsRead(crc, 2);
  }

  /** Other entries read as before. */
  lemma SameEntry(before: seq<Byte>, after: seq<Byte>, j: nat, k: nat)
    requires |before| == |after| && j != k && 12 * j + 12 <= |before|
    requires forall i :: 0 <= i < |before| && !(12 * k <= i < 12 * k + 12) ==> after[i] == before[i]
    ensures EntryAt(after, j) == EntryAt(before, j)
  {
    hide Num;
    assert after[12 * j + 1..12 * j + 4] == before[12 * j + 1..12 * j + 4];
    assert after[12 * j + 4..12 * j + 10] == before[12 * j + 4..12 * j + 10];
    assert after[12 * j + 10..12 * j + 12] == before[12 * j + 10..12 * j + 12];
  }

  /** One hunk: its type becomes a base type, and its numbers are found. */
  method ReadEntry(r: Reader, t: Byte, k: nat, p: Params, c: Cursor)
    returns (kind: Byte, length: nat, offset: nat, crc: nat, c': Cursor)
    requires r.Valid() && p.Ok()
    modifies r
    ensures r.Valid() && r.Pos() == old(r.Pos()) + EntryBits(p, t)
    ensures Next(p, r.data, old(r.Pos()), t, k, c) == (Entry(kind, length, offset, crc), c')
  {
    hide Flat, Sum32, Sum64, Params.Units, Params.UnitOf;
    kind, length, offset, crc := t, 0, c.offset, 0;
    c' := c;
    if kind < COMPRESSION_NONE {
      length := r.Read(p.lengthBits);
      c' := c'.(offset := Sum64(c.offset, length));
      crc := r.Read(16);
    } else if kind == COMPRESSION_NONE {
      length := p.hunkBytes;
      c' := c'.(offset := Sum64(c.offset, length));
      crc := r.Read(16);
    } else if kind == COMPRESSION_SELF {
      offset := r.Read(p.selfBits);
      c' := c'.(self := offset);
    } else if kind == COMPRESSION_PARENT {
      offset := r.Read(p.parentBits);
      c' := c'.(parent := offset);
    } else if kind == COMPRESSION_SELF_1 || kind == COMPRESSION_SELF_0 {
      if kind == COMPRESSION_SELF_1 {
        c' := c'.(self := Sum32(c.self, 1));
      }
      kind := COMPRESSION_SELF;
      offset := c'.self;
    } else if kind == COMPRESSION_PARENT_SELF {
      kind := COMPRESSION_PARENT;
      offset := p.UnitOf(k);
      c' := c'.(parent := offset);
    } else if kind == COMPRESSION_PARENT_1 || kind == COMPRESSION_PARENT_0 {
      if kind == COMPRESSION_PARENT_1 {
        c' := c'.(parent := Sum64(c.parent, p.Units()));
      }
      kind := COMPRESSION_PARENT;
      offset := c'.parent;
    }
  }

  method FillEntry(r: Reader, rawmap: array<Byte>, k: nat, p: Params, c: Cursor) returns (c': Cursor)
    requires r.Valid() && p.Ok() && 12 * k + 12 <= rawmap.Length
    modifies r, rawmap
    ensures r.Valid() && r.Pos() == old(r.Pos()) + EntryBits(p, old(rawmap[12 * k]))
    ensures var next := Next(p, r.data, old(r.Pos()), old(rawmap[12 * k]), k, c); EntryAt(rawmap[..], k) == Stored(next.0) && c' == next.1
    ensures forall i :: 0 <= i < rawmap.Length && !(12 * k <= i < 12 * k + 12) ==> rawmap[i] == old(rawmap[i])
  {
    hide Flat, Pow2, Stored, Next, EntryBits, EntryAt;
    var kind, length, offset, crc;
    kind, length, offset, crc, c' := ReadEntry(r, rawmap[12 * k], k, p, c);
    PutEntry(rawmap, k, kind, length, offset, crc);
  }

  /** The second loop. */
  method FillMap(r: Reader, rawmap: array<Byte>, hunkCount: nat, p: Params, firstoffs: nat, ghost types: seq<nat>)
    requires r.Valid() && p.Ok() && rawmap.Length == 12 * hunkCount && |types| == hunkCount
    requires forall k :: 0 <= k < hunkCount ==> rawmap[12 * k] == types[k]
    modifies r, rawmap
    ensures forall k :: 0 <= k < hunkCount ==> EntryAt(rawmap[..], k) == Stored(Decoded(p, r.data, types, old(r.Pos()), firstoffs, k))
  {
    hide Flat, Pow2, Stored, Next, EntryBits, EntryAt;
    ghost var start: nat := r.Pos();
    var c := Cursor(firstoffs, 0, 0);
    for hunknum := 0 to hunkCount
      invariant r.Valid() && r.Pos() == PosAt(p, types, start, hunknum) && c == CursorAt(p, r.data, types, start, firstoffs, hunknum)
      invariant forall k :: hunknum <= k < hunkCount ==> rawmap[12 * k] == types[k]
      invariant forall k :: 0 <= k < hunknum ==> EntryAt(rawmap[..], k) == Stored(Decoded(p, r.data, types, start, firstoffs, k))
    {
      ghost var before := rawmap[..];
      c := FillEntry(r, rawmap, hunknum, p, c);
      forall k | 0 <= k < hunknum
        ensures EntryAt(rawmap[..], k) == EntryAt(before, k)
      {
        SameEntry(before, rawmap[..], k, hunknum);
      }
    }
  }

  // ---------- What the map says ----------

  /** A map that has been filled from these types. */
  ghost predicate Filled(m: seq<Byte>, p: Params, data: seq<Byte>, types: seq<nat>, start: nat, first: nat) {
    && p.Ok() && |m| == 12 * |types|
    && forall k :: 0 <= k < |types| ==> EntryAt(m, k) == Stored(Decoded(p, data, types, start, first, k))
  }

  /** Every entry is of a base type, just if its type in the bits was a valid one. */
  lemma BaseTypes(m: seq<Byte>, p: Params, data: seq<Byte>, types: seq<nat>, start: nat, first: nat, k: nat)
    requires Filled(m, p, data, types, start, first) && k < |types|
    requires types[k] != COMPRESSION_RLE_SMALL && types[k] != COMPRESSION_RLE_LARGE
    ensures EntryAt(m, k).kind <= COMPRESSION_PARENT <==> types[k] <= COMPRESSION_PARENT_1
  {
    hide Flat, Pow2, CursorAt, PosAt, EntryAt;
    assert EntryAt(m, k) == Stored(Decoded(p, data, types, start, first, k));
  }

  /** How many bytes the stored hunks before this one have. */
  function Extent(m: seq<Byte>, k: nat): nat
    requires 12 * k <= |m|
  {
    if k == 0 then 0
    else Extent(m, k - 1) + if EntryAt(m, k - 1).kind <= COMPRESSION_NONE then EntryAt(m, k - 1).length else 0
  }

  lemma {:induction false} ExtentMono(m: seq<Byte>, k: nat, n: nat)
    requires k <= n && 12 * n <= |m|
    ensures Extent(m, k) <= Extent(m, n)
    decreases n
  {
    hide EntryAt;
    if k < n {
      ExtentMono(m, k, n - 1);
    }
  }

  /** What a stored hunk adds is what its entry says. */
  lemma StoredLength(p: Params, data: seq<Byte>, pos: nat, t: nat, hunknum: nat, c: Cursor)
    requires p.Ok() && p.lengthBits <= 24 && p.hunkBytes < 0x100_0000
    ensures var next := Next(p, data, pos, t, hunknum, c);
            && (next.0.kind <= COMPRESSION_NONE <==> t <= COMPRESSION_NONE)
            && (t <= COMPRESSION_NONE ==> Stored(next.0).length == next.0.length && next.1.offset == Sum64(c.offset, next.0.length))
            && (t > COMPRESSION_NONE ==> next.1.offset == c.offset)
            && (t <= COMPRESSION_NONE ==> next.0.offset == c.offset)
  {
    hide Flat, Pow2, Sum32, Sum64, Params.Units, Params.UnitOf;
    FlatBound(data, pos, p.lengthBits);
    Pow2Mono(p.lengthBits, 24);
    PowersOf256();
  }

  lemma {:induction false} OffsetIsExtent(m: seq<Byte>, p: Params, data: seq<Byte>, types: seq<nat>, start: nat, first: nat, k: nat)
    requires Filled(m, p, data, types, start, first) && k <= |types| && p.lengthBits <= 24 && p.hunkBytes < 0x100_0000
    requires first + Extent(m, |types|) < Pow2(48)
    ensures CursorAt(p, data, types, start, first, k).offset == first + Extent(m, k)
    decreases k
  {
    hide Next, Stored, Pow2, PosAt, EntryAt;
    ExtentMono(m, k, |types|);
    if k > 0 {
      OffsetIsExtent(m, p, data, types, start, first, k - 1);
      var c, pos := CursorAt(p, data, types, start, first, k - 1), PosAt(p, types, start, k - 1);
      StoredLength(p, data, pos, types[k - 1], k - 1, c);
      assert EntryAt(m, k - 1) == Stored(Next(p, data, pos, types[k - 1], k - 1, c).0);
      KindStays(Next(p, data, pos, types[k - 1], k - 1, c).0);
      PowersOf256();
    }
  }

  lemma KindStays(e: Entry)
    ensures Stored(e).kind == e.kind && (e.offset < Pow2(48) ==> Stored(e).offset == e.offset)
  {
    hide Pow2;
  }

  /** The stored hunks lie one behind the other in the file, from the first offset on, in the order of the map. */
  lemma HunksTile(m: seq<Byte>, p: Params, data: seq<Byte>, types: seq<nat>, start: nat, first: nat, k: nat)
    requires Filled(m, p, data, types, start, first) && k < |types| && p.lengthBits <= 24 && p.hunkBytes < 0x100_0000
    requires first + Extent(m, |types|) < Pow2(48) && EntryAt(m, k).kind <= COMPRESSION_NONE
    ensures EntryAt(m, k).offset == first + Extent(m, k)
  {
    hide Next, Stored, Pow2, PosAt, EntryAt, Extent;
    OffsetIsExtent(m, p, data, types, start, first, k);
    ExtentMono(m, k, |types|);
    var c, pos := CursorAt(p, data, types, start, first, k), PosAt(p, types, start, k);
    StoredLength(p, data, pos, types[k], k, c);
    KindStays(Next(p, data, pos, types[k], k, c).0);
  }

  /** Where the last entry of a kind points, or 0. */
  function LastOf(m: seq<Byte>, kind: nat, k: nat): nat
    requires 12 * k <= |m|
  {
    if k == 0 then 0 else if EntryAt(m, k - 1).kind == kind then EntryAt(m, k - 1).offset else LastOf(m, kind, k - 1)
  }

  lemma NextReferences(p: Params, data: seq<Byte>, pos: nat, t: nat, hunknum: nat, c: Cursor)
    requires p.Ok()
    ensures var next := Next(p, data, pos, t, hunknum, c);
            && next.1.self == (if next.0.kind == COMPRESSION_SELF then next.0.offset else c.self)
            && next.1.parent == (if next.0.kind == COMPRESSION_PARENT then next.0.offset else c.parent)
  {
    hide Flat, Sum32, Sum64, Params.Units, Params.UnitOf;
  }

  lemma {:induction false} CursorIsLast(m: seq<Byte>, p: Params, data: seq<Byte>, types: seq<nat>, start: nat, first: nat, k: nat)
    requires Filled(m, p, data, types, start, first) && k <= |types|
    requires forall i :: 0 <= i < |types| ==> Decoded(p, data, types, start, first, i).offset < Pow2(48)
    ensures CursorAt(p, data, types, start, first, k).self == LastOf(m, COMPRESSION_SELF, k)
    ensures CursorAt(p, data, types, start, first, k).parent == LastOf(m, COMPRESSION_PARENT, k)
    decreases k
  {
    hide Next, Stored, Pow2, PosAt, EntryAt;
    if k > 0 {
      CursorIsLast(m, p, data, types, start, first, k - 1);
      var c, pos := CursorAt(p, data, types, start, first, k - 1), PosAt(p, types, start, k - 1);
      NextReferences(p, data, pos, types[k - 1], k - 1, c);
      assert EntryAt(m, k - 1) == Stored(Decoded(p, data, types, start, first, k - 1));
      KindStays(Decoded(p, data, types, start, first, k - 1));
    }
  }

  /** The short forms mean what the entries before them say: the same as the last reference, or the next after it. */
  lemma References(m: seq<Byte>, p: Params, data: seq<Byte>, types: seq<nat>, start: nat, first: nat, k: nat)
    requires Filled(m, p, data, types, start, first) && k < |types|
    requires forall i :: 0 <= i < |types| ==> Decoded(p, data, types, start, first, i).offset < Pow2(48)
    ensures types[k] == COMPRESSION_SELF_0 ==> EntryAt(m, k).kind == COMPRESSION_SELF && EntryAt(m, k).offset == LastOf(m, COMPRESSION_SELF, k)
    ensures types[k] == COMPRESSION_SELF_1 ==>
              EntryAt(m, k).kind == COMPRESSION_SELF && EntryAt(m, k).offset == Sum32(LastOf(m, COMPRESSION_SELF, k), 1)
    ensures types[k] == COMPRESSION_PARENT_0 ==>
              EntryAt(m, k).kind == COMPRESSION_PARENT && EntryAt(m, k).offset == LastOf(m, COMPRESSION_PARENT, k)
    ensures types[k] == COMPRESSION_PARENT_1 ==>
              EntryAt(m, k).kind == COMPRESSION_PARENT && EntryAt(m, k).offset == Sum64(LastOf(m, COMPRESSION_PARENT, k), p.Units())
    ensures types[k] == COMPRESSION_PARENT_SELF ==> EntryAt(m, k).kind == COMPRESSION_PARENT && EntryAt(m, k).offset == p.UnitOf(k)
  {
    hide Flat, Stored, Pow2, PosAt, EntryAt, LastOf, Sum32, Sum64, Params.Units, Params.UnitOf;
    CursorIsLast(m, p, data, types, start, first, k);
    var e := Decoded(p, data, types, start, first, k);
    assert EntryAt(m, k) == Stored(e);
    KindStays(e);
  }

  // ---------- The whole ----------

  /** If the lengths at this place are accepted, they are those of a complete code. */
  ghost predicate GoodCode(data: seq<Byte>, pos: nat) {
    var found := Lengths(data, pos, Width(8), 16, []);
    found.Some? && Accepted(found.value.0, 8) ==> Kraft(found.value.0, 8) == Pow2(8)
  }

  lemma GoodFits(data: seq<Byte>, pos: nat)
    requires GoodCode(data, pos)
    ensures var found := Lengths(data, pos, Width(8), 16, []);
            found.Some? && Accepted(found.value.0, 8) ==> Fits(found.value.0)
  {
    hide Lengths, Kraft, Accepted, Fits, Pow2;
    var found := Lengths(data, pos, Width(8), 16, []);
    if found.Some? && Accepted(found.value.0, 8) {
      FitsIsKraft(found.value.0, 8);
    }
  }

  lemma GoodIsComplete(data: seq<Byte>, pos: nat, lens: seq<nat>)
    requires GoodCode(data, pos) && Lengths(data, pos, Width(8), 16, []).Some? && Lengths(data, pos, Width(8), 16, []).value.0 == lens
    requires |lens| == 16 && Accepted(lens, 8)
    ensures Complete(lens)
  {
    hide Lengths, Kraft, Accepted, Pow2;
  }

  /** The code, the types, and then the entries. */
  method DecompressMap(r: Reader, hunkCount: nat, p: Params, firstoffs: nat)
    returns (error: Error, rawmap: array<Byte>, ghost types: seq<nat>, ghost start: nat)
    requires r.Valid() && p.Ok() && GoodCode(r.data, r.Pos())
    modifies r
    ensures fresh(rawmap)
    ensures error == NoError ==>
              && Filled(rawmap[..], p, r.data, types, start, firstoffs) && |types| == hunkCount
              && var found := Lengths(r.data, old(r.Pos()), Width(8), 16, []);
              && found.Some? && Complete(found.value.0)
              && (types, start) == Types(r.data, found.value.0, found.value.1, hunkCount, 0, 0)
  {
    hide Lengths, Kraft, Accepted, Fits, Flat, Pow2, GoodCode, Types, Complete, EntryAt, Stored, Decoded;
    GoodFits(r.data, r.Pos());
    ghost var before: nat := r.Pos();
    rawmap := new Byte[12 * hunkCount](_ => 0);
    types, start := [], 0;
    var d := new Decoder(16, 8);
    error := d.ImportTreeRle(r);
    if error != NoError {
      return;
    }
    GoodIsComplete(r.data, before, d.numbits[..]);
    ghost var lens, pos: nat := d.numbits[..], r.Pos();
    ReadTypes(d, r, rawmap, hunkCount);
    types, start := Types(r.data, lens, pos, hunkCount, 0, 0).0, Types(r.data, lens, pos, hunkCount, 0, 0).1;
    FillMap(r, rawmap, hunkCount, p, firstoffs, types);
  }
}
