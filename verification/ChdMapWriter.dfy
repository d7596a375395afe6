/** A writer's view of the map: whatever it lays out in the bits is what the filled map says. */
module ChdMapWriter {
  import opened BitStream
  import opened Bytes
  import opened ChdHuffman
  import opened ChdMap
  import opened CodeLengths
  import opened Powers

  // ---------- Bits laid out ----------

  /** The n bits of a number, the highest first. */
  function BitsOf(v: nat, n: nat): (s: seq<nat>)
    ensures |s| == n
  {
    if n == 0 then [] else BitsOf(v / 2, n - 1) + [v % 2]
  }

  /** The stream has these bits at this position. */
  ghost predicate HasBits(data: seq<Byte>, pos: nat, bits: seq<nat>) { forall i :: 0 <= i < |bits| ==> BitAt(data, pos + i) == bits[i] }

  lemma {:induction false} BitsRead(data: seq<Byte>, pos: nat, v: nat, n: nat)
    requires HasBits(data, pos, BitsOf(v, n)) && v < Pow2(n)
    ensures Flat(data, pos, n) == v
    decreases n
  {
    hide BitAt;
    if n > 0 {
      var bits, upper := BitsOf(v, n), BitsOf(v / 2, n - 1);
      assert bits[n - 1] == v % 2;
      forall i | 0 <= i < n - 1
        ensures BitAt(data, pos + i) == upper[i]
      {
        assert bits[i] == upper[i];
      }
      BitsRead(data, pos, v / 2, n - 1);
    }
  }

  lemma BitsInParts(data: seq<Byte>, pos: nat, a: seq<nat>, b: seq<nat>)
    ensures HasBits(data, pos, a + b) <==> HasBits(data, pos, a) && HasBits(data, pos + |a|, b)
  {
    hide BitAt;
    if HasBits(data, pos, a + b) {
      forall i | 0 <= i < |a|
        ensures BitAt(data, pos + i) == a[i]
      {
        assert (a + b)[i] == a[i];
      }
      forall i | 0 <= i < |b|
        ensures BitAt(data, pos + |a| + i) == b[i]
      {
        assert (a + b)[|a| + i] == b[i];
      }
    }
    if HasBits(data, pos, a) && HasBits(data, pos + |a|, b) {
      forall i | 0 <= i < |a + b|
        ensures BitAt(data, pos + i) == (a + b)[i]
      {
        if i >= |a| {
          assert BitAt(data, pos + |a| + (i - |a|)) == b[i - |a|];
        }
      }
    }
  }

  // ---------- Entries ----------

  /** What the writer has to say of a hunk. The forms without a field are short for references. */
  datatype Hunk =
    | Compressed(codec: nat, length: nat, crc: nat)
    | Plain(crc: nat)
    | SelfAt(hunk: nat)
    | ParentAt(unit: nat)
    | SameSelf
    | NextSelf
    | OwnPlace
    | SameParent
    | NextParent

  /** The type under which it is listed: four codecs, then 4 to 6 and 9 to 13. */
  function TypeOf(h: Hunk): nat {
    match h
    case Compressed(codec, _, _) => codec
    case Plain(_) => 4
    case SelfAt(_) => 5
    case ParentAt(_) => 6
    case SameSelf => 9
    case NextSelf => 10
    case OwnPlace => 11
    case SameParent => 12
    case NextParent => 13
  }

  /** Its fields: a length and then a checksum, a checksum alone, or a reference alone. */
  function FieldBits(p: Params, h: Hunk): seq<nat> {
    match h
    case Compressed(_, length, crc) => BitsOf(length, p.lengthBits) + BitsOf(crc, 16)
    case Plain(crc) => BitsOf(crc, 16)
    case SelfAt(hunk) => BitsOf(hunk, p.selfBits)
    case ParentAt(unit) => BitsOf(unit, p.parentBits)
    case _ => []
  }

  function AllFields(p: Params, hunks: seq<Hunk>): seq<nat> {
    if hunks == [] then [] else AllFields(p, hunks[..|hunks| - 1]) + FieldBits(p, hunks[|hunks| - 1])
  }

  /** The numbers fit their fields. */
  predicate Writable(p: Params, h: Hunk) {
    match h
    case Compressed(codec, length, crc) => codec < 4 && length < Pow2(p.lengthBits) && crc < 0x1_0000
    case Plain(crc) => crc < 0x1_0000
    case SelfAt(hunk) => hunk < Pow2(p.selfBits)
    case ParentAt(unit) => unit < Pow2(p.parentBits)
    case _ => true
  }

  lemma FieldsTaken(p: Params, h: Hunk)
    requires Writable(p, h)
    ensures |FieldBits(p, h)| == EntryBits(p, TypeOf(h))
  {
  }

  /** The fields of hunk k lie where the reader looks for them. */
  lemma {:induction false} FieldsAt(p: Params, data: seq<Byte>, start: nat, types: seq<nat>, hunks: seq<Hunk>, n: nat)
    requires n <= |hunks| == |types| && forall i :: 0 <= i < |hunks| ==> Writable(p, hunks[i]) && types[i] == TypeOf(hunks[i])
    ensures PosAt(p, types, start, n) == start + |AllFields(p, hunks[..n])|
    decreases n
  {
    hide EntryBits, FieldBits, Writable, TypeOf;
    if n > 0 {
      FieldsAt(p, data, start, types, hunks, n - 1);
      FieldsTaken(p, hunks[n - 1]);
      assert hunks[..n][..n - 1] == hunks[..n - 1];
    }
  }

  lemma {:induction false} FieldsHeld(p: Params, data: seq<Byte>, start: nat, hunks: seq<Hunk>, k: nat, n: nat)
    requires k < n <= |hunks| && HasBits(data, start, AllFields(p, hunks[..n]))
    ensures HasBits(data, start + |AllFields(p, hunks[..k])|, FieldBits(p, hunks[k]))
    decreases n
  {
    hide FieldBits, HasBits;
    assert hunks[..n][..n - 1] == hunks[..n - 1];
    BitsInParts(data, start, AllFields(p, hunks[..n - 1]), FieldBits(p, hunks[n - 1]));
    if k < n - 1 {
      FieldsHeld(p, data, start, hunks, k, n - 1);
    }
  }

  /** What an entry says of it. */
  ghost predicate Says(p: Params, e: ChdMap.Entry, h: Hunk) {
    match h
    case Compressed(codec, length, crc) => e.kind == codec && e.length == length && e.crc == crc
    case Plain(crc) => e.kind == 4 && e.length == p.hunkBytes && e.crc == crc
    case SelfAt(hunk) => e.kind == 5 && e.offset == hunk && e.length == 0 && e.crc == 0
    case ParentAt(unit) => e.kind == 6 && e.offset == unit && e.length == 0 && e.crc == 0
    case SameSelf => e.kind == 5 && e.length == 0 && e.crc == 0
    case NextSelf => e.kind == 5 && e.length == 0 && e.crc == 0
    case _ => e.kind == 6 && e.length == 0 && e.crc == 0
  }

  lemma ReadEntryBack(p: Params, data: seq<Byte>, pos: nat, hunknum: nat, c: Cursor, h: Hunk)
    requires p.Ok() && Writable(p, h) && HasBits(data, pos, FieldBits(p, h))
    ensures Says(p, Next(p, data, pos, TypeOf(h), hunknum, c).0, h)
  {
    hide Flat, HasBits, BitsOf, Pow2, Sum32, Sum64, Params.UnitOf, Params.Units;
    Pow2Small();
    Pow2Add(8, 8);
    match h {
      case Compressed(_, length, crc) =>
        BitsInParts(data, pos, BitsOf(length, p.lengthBits), BitsOf(crc, 16));
        BitsRead(data, pos, length, p.lengthBits);
        BitsRead(data, pos + p.lengthBits, crc, 16);
      case Plain(crc) =>
        BitsRead(data, pos, crc, 16);
      case SelfAt(hunk) =>
        BitsRead(data, pos, hunk, p.selfBits);
      case ParentAt(unit) =>
        BitsRead(data, pos, unit, p.parentBits);
      case _ =>
    }
  }

  /** An entry keeps it all in its 12 bytes. */
  lemma SaysStored(p: Params, e: ChdMap.Entry, h: Hunk)
    requires p.Ok() && Writable(p, h) && p.lengthBits <= 24 && p.hunkBytes < 0x100_0000 && Says(p, e, h)
    ensures Says(p, Stored(e), h)
  {
    hide Pow2;
    PowersOf256();
    Pow2Mono(p.lengthBits, 24);
    Pow2Mono(p.selfBits, 32);
    Pow2Mono(p.parentBits, 32);
  }

  /** A map filled from what a writer has laid out says of each hunk what the writer said. */
  lemma EntriesReadBack(m: seq<Byte>, p: Params, data: seq<Byte>, types: seq<nat>, start: nat, first: nat, hunks: seq<Hunk>, k: nat)
    requires Filled(m, p, data, types, start, first) && p.lengthBits <= 24 && p.hunkBytes < 0x100_0000
    requires |hunks| == |types| && forall i :: 0 <= i < |hunks| ==> Writable(p, hunks[i]) && types[i] == TypeOf(hunks[i])
    requires HasBits(data, start, AllFields(p, hunks)) && k < |hunks|
    ensures Says(p, EntryAt(m, k), hunks[k])
  {
    hide HasBits, Next, CursorAt, Stored, EntryAt, Says, Writable, FieldBits, TypeOf;
    assert hunks[..|hunks|] == hunks;
    FieldsHeld(p, data, start, hunks, k, |hunks|);
    FieldsAt(p, data, start, types, hunks, k);
    ReadEntryBack(p, data, PosAt(p, types, start, k), k, CursorAt(p, data, types, start, first, k), hunks[k]);
    SaysStored(p, Decoded(p, data, types, start, first, k), hunks[k]);
  }

  // ---------- Types ----------

  /** A type by itself, or so many more of the last one. */
  datatype Listed = Single(kind: nat) | Repeats(count: nat)

  predicate Listable(t: Listed) {
    match t
    case Single(kind) => kind < 16 && kind != 7 && kind != 8
    case Repeats(count) => 3 <= count < 275
  }

  /** The symbols it is written with: 3 to 18 more take two, 19 to 274 more take three. */
  function SymbolsOf(t: Listed): seq<nat>
    requires Listable(t)
  {
    match t
    case Single(kind) => [kind]
    case Repeats(count) => if count < 19 then [7, count - 3] else [8, (count - 19) / 16, (count - 19) % 16]
  }

  ghost predicate AllListable(list: seq<Listed>) { forall i :: 0 <= i < |list| ==> Listable(list[i]) }

  function AllSymbols(list: seq<Listed>): seq<nat>
    requires AllListable(list)
  {
    if list == [] then [] else SymbolsOf(list[0]) + AllSymbols(list[1..])
  }

  /** The types that are listed, after `last`. */
  function Meant(list: seq<Listed>, last: nat): seq<nat> {
    if list == [] then []
    else match list[0]
      case Single(kind) => [kind] + Meant(list[1..], kind)
      case Repeats(count) => Copies(last, count) + Meant(list[1..], last)
  }

  /** The codes of these symbols come one after the other. */
  ghost predicate AllCome(data: seq<Byte>, pos: nat, lens: seq<nat>, symbols: seq<nat>, end: nat)
    decreases |symbols|
  {
    if symbols == [] then pos == end
    else symbols[0] < |lens| && Comes(data, pos, lens, symbols[0]) && AllCome(data, pos + lens[symbols[0]], lens, symbols[1..], end)
  }

  lemma SymbolIs(data: seq<Byte>, lens: seq<nat>, pos: nat, i: nat)
    requires Complete(lens) && Comes(data, pos, lens, i)
    ensures i < |lens| == 16 && Symbol(data, lens, pos) == i
  {
    hide Complete, Comes;
    HasCode(data, pos, lens, i);
    SixteenLengths(lens);
    SomeComes(data, pos, lens);
  }

  /** While repetitions are left, the last type is taken. */
  lemma {:induction false} Repeated(data: seq<Byte>, lens: seq<nat>, pos: nat, n: nat, last: nat, rep: nat)
    requires Complete(lens) && rep <= n
    ensures Types(data, lens, pos, n, last, rep)
            == (Copies(last, rep) + Types(data, lens, pos, n - rep, last, 0).0, Types(data, lens, pos, n - rep, last, 0).1)
    decreases rep
  {
    hide Complete, Types;
    var rest := Types(data, lens, pos, n - rep, last, 0).0;
    if rep == 0 {
      assert Copies(last, 0) + rest == rest;
    } else {
      Repeated(data, lens, pos, n - 1, last, rep - 1);
      TypesUnfold(data, lens, pos, n, last, rep);
      assert [last] + (Copies(last, rep - 1) + rest) == Copies(last, rep) + rest;
    }
  }

  /** The first listed is read. */
  lemma ReadListed(data: seq<Byte>, lens: seq<nat>, pos: nat, n: nat, last: nat, t: Listed, mid: nat)
    requires Complete(lens) && Listable(t) && AllCome(data, pos, lens, SymbolsOf(t), mid)
    ensures t.Single? && 1 <= n ==>
      var rest := Types(data, lens, mid, n - 1, t.kind, 0); Types(data, lens, pos, n, last, 0) == ([t.kind] + rest.0, rest.1)
    ensures t.Repeats? && t.count <= n ==>
      var rest := Types(data, lens, mid, n - t.count, last, 0); Types(data, lens, pos, n, last, 0) == (Copies(last, t.count) + rest.0, rest.1)
  {
    hide Complete, Types, Comes, Symbol;
    SixteenLengths(lens);
    match t {
      case Single(kind) =>
        SymbolIs(data, lens, pos, kind);
        assert SymbolsOf(t)[1..] == [];
        if 1 <= n {
          TypesUnfold(data, lens, pos, n, last, 0);
        }
      case Repeats(count) =>
        if count <= n {
          RunRead(data, lens, pos, n, last, count, mid);
          Repeated(data, lens, mid, n - 1, last, count - 1);
          var rest := Types(data, lens, mid, n - count, last, 0).0;
          assert [last] + (Copies(last, count - 1) + rest) == Copies(last, count) + rest;
        }
    }
  }

  lemma RunRead(data: seq<Byte>, lens: seq<nat>, pos: nat, n: nat, last: nat, count: nat, mid: nat)
    requires Complete(lens) && 3 <= count < 275 && count <= n && AllCome(data, pos, lens, SymbolsOf(Repeats(count)), mid)
    ensures var rest := Types(data, lens, mid, n - 1, last, count - 1); Types(data, lens, pos, n, last, 0) == ([last] + rest.0, rest.1)
  {
    hide Complete, Types, Comes, Symbol;
    SixteenLengths(lens);
    TypesUnfold(data, lens, pos, n, last, 0);
    var s := SymbolsOf(Repeats(count));
    SymbolIs(data, lens, pos, s[0]);
    var pos1 := pos + lens[s[0]];
    assert AllCome(data, pos1, lens, s[1..], mid) && s[1..][0] == s[1];
    SymbolIs(data, lens, pos1, s[1]);
    var pos2 := pos1 + lens[s[1]];
    assert AllCome(data, pos2, lens, s[1..][1..], mid);
    if count < 19 {
      assert s[1..][1..] == [] && pos2 == mid && 2 + s[1] == count - 1;
    } else {
      assert s[1..][1..] == [s[2]] && 18 + 16 * s[1] + s[2] == count - 1;
      SymbolIs(data, lens, pos2, s[2]);
      assert [s[2]][1..] == [] && AllCome(data, pos2 + lens[s[2]], lens, [s[2]][1..], mid);
    }
  }

  /** Symbols in two parts. */
  lemma {:induction false} ComeInParts(data: seq<Byte>, pos: nat, lens: seq<nat>, a: seq<nat>, b: seq<nat>, end: nat) returns (mid: nat)
    requires AllCome(data, pos, lens, a + b, end)
    ensures AllCome(data, pos, lens, a, mid) && AllCome(data, mid, lens, b, end)
    decreases |a|
  {
    hide Comes;
    if a == [] {
      mid := pos;
      assert [] + b == b;
    } else {
      assert (a + b)[1..] == a[1..] + b;
      mid := ComeInParts(data, pos + lens[a[0]], lens, a[1..], b, end);
    }
  }

  /** However types are listed, they are read back. */
  lemma {:induction false} TypesReadBack(data: seq<Byte>, lens: seq<nat>, pos: nat, list: seq<Listed>, last: nat, end: nat)
    requires Complete(lens) && AllListable(list) && AllCome(data, pos, lens, AllSymbols(list), end)
    ensures Types(data, lens, pos, |Meant(list, last)|, last, 0) == (Meant(list, last), end)
    decreases |list|
  {
    hide Complete, Types, Comes, SymbolsOf;
    if list == [] {
      TypesNone(data, lens, pos, last, 0);
    } else {
      var t := list[0];
      var mid := ComeInParts(data, pos, lens, SymbolsOf(t), AllSymbols(list[1..]), end);
      ReadListed(data, lens, pos, |Meant(list, last)|, last, t, mid);
      TypesReadBack(data, lens, mid, list[1..], if t.Single? then t.kind else last, end);
    }
  }

  // ---------- The whole map ----------

  /** Whatever a writer lays out as code lengths, listed types and fields, a map that DecompressMap has filled from it says
      of each hunk what the writer said. */
  lemma MapReadBack(m: seq<Byte>, p: Params, data: seq<Byte>, pos: nat, first: nat, items: seq<Item>, list: seq<Listed>, hunks: seq<Hunk>,
                    types: seq<nat>, start: nat, end: nat, k: nat)
    requires Filled(m, p, data, types, start, first) && |types| == |hunks| == |Meant(list, 0)|
    requires var found := Lengths(data, pos, Width(8), 16, []);
             && found.Some? && Complete(found.value.0)
             && (types, start) == Types(data, found.value.0, found.value.1, |hunks|, 0, 0)
    requires AllWritten(data, pos, 4, items) && |AllMeaning(items)| == 16
    requires AllListable(list) && AllCome(data, pos + AllSize(items) * 4, AllMeaning(items), AllSymbols(list), end)
    requires forall i :: 0 <= i < |hunks| ==> Writable(p, hunks[i]) && Meant(list, 0)[i] == TypeOf(hunks[i])
    requires HasBits(data, end, AllFields(p, hunks)) && p.lengthBits <= 24 && p.hunkBytes < 0x100_0000 && k < |hunks|
    ensures 12 * k + 12 <= |m| && Says(p, EntryAt(m, k), hunks[k])
  {
    hide HasBits, AllCome, AllWritten, AllMeaning, Complete, Types, Lengths, EntryAt, Says, AllFields, Writable, TypeOf, Meant, Decoded, Stored;
    assert [] + AllMeaning(items) == AllMeaning(items);
    LengthsReadBack(data, pos, 4, 16, [], items);
    TypesReadBack(data, AllMeaning(items), pos + AllSize(items) * 4, list, 0, end);
    EntriesReadBack(m, p, data, types, start, first, hunks, k);
  }

  // ---------- The bytes of an entry ----------

  lemma {:induction false} DigitsOfNum(s: seq<Byte>)
    ensures Digits(Num(s), |s|) == s
    decreases |s|
  {
    if s != [] {
      var n := |s| - 1;
      DigitsOfNum(s[..n]);
      assert Num(s) / 256 == Num(s[..n]) && Num(s) % 256 == s[n];
      assert s == s[..n] + [s[n]];
    }
  }

  /** The type, the length in three bytes, the offset in six and the checksum in two, most significant bytes first. */
  lemma EntryLayout(m: seq<Byte>, k: nat)
    requires 12 * k + 12 <= |m|
    ensures var e := EntryAt(m, k);
            e.kind < 256 && m[12 * k..12 * k + 12] == [e.kind] + Digits(e.length, 3) + Digits(e.offset, 6) + Digits(e.crc, 2)
  {
    hide Digits, Num;
    DigitsOfNum(m[12 * k + 1..12 * k + 4]);
    DigitsOfNum(m[12 * k + 4..12 * k + 10]);
    DigitsOfNum(m[12 * k + 10..12 * k + 12]);
  }
}
