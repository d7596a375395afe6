/** Canonical Huffman codes of CHD (libchdr_huffman.c): codes assigned from the longest length down, a flat lookup
    table, and decoding with it. */
module ChdHuffman {
  import opened Bytes
  import opened BitStream
  import opened CodeLengths
  import opened Powers
  import opened Wrappers

  // ---------- Codes ----------

  /** The first code of a length, and the first number after its codes. */
  function Start(lens: seq<nat>, l: nat): nat
    requires l <= 32
    decreases 32 - l, 0
  {
    if l == 32 then 0 else End(lens, l + 1) / 2
  }

  function End(lens: seq<nat>, l: nat): nat
    requires l <= 32
    decreases 32 - l, 1
  {
    Start(lens, l) + Histo(lens, l)
  }

  /** The lengths that huffman_assign_canonical_codes accepts. */
  ghost predicate Accepted(lens: seq<nat>, maxbits: nat) {
    && (forall i :: 0 <= i < |lens| ==> lens[i] <= maxbits)
    && Even(lens)
  }

  /** From length 2 on, codes come in pairs. */
  ghost predicate Even(lens: seq<nat>) { forall l :: 2 <= l <= 32 ==> End(lens, l) % 2 == 0 }

  function Code(lens: seq<nat>, i: nat): nat
    requires i < |lens| && lens[i] <= 32
  {
    Start(lens, lens[i]) + Rank(lens, i)
  }

  // ---------- Intervals ----------

  /** k << (maxbits - l) */
  function Scale(k: nat, l: nat, maxbits: nat): nat
    requires l <= maxbits
  {
    k * Pow2(maxbits - l)
  }

  lemma ScaleHalf(k: nat, l: nat, maxbits: nat)
    requires 1 <= l <= maxbits && k % 2 == 0
    ensures Scale(k, l, maxbits) == Scale(k / 2, l - 1, maxbits)
  {
    Regroup(k / 2, 2, Pow2(maxbits - l));
  }

  lemma ScaleMono(a: nat, b: nat, l: nat, maxbits: nat)
    requires a <= b && l <= maxbits
    ensures Scale(a, l, maxbits) <= Scale(b, l, maxbits)
    ensures Scale(a + 1, l, maxbits) == Scale(a, l, maxbits) + Pow2(maxbits - l)
  {
    var m := Pow2(maxbits - l);
    assert (b - a) * m >= 0;
    assert b * m == a * m + (b - a) * m;
  }

  /** The part of the table that belongs to a symbol. */
  function Low(lens: seq<nat>, maxbits: nat, i: nat): nat
    requires i < |lens| && lens[i] <= maxbits <= 32
  {
    Scale(Code(lens, i), lens[i], maxbits)
  }

  function High(lens: seq<nat>, maxbits: nat, i: nat): nat
    requires i < |lens| && lens[i] <= maxbits <= 32
  {
    Scale(Code(lens, i) + 1, lens[i], maxbits)
  }

  /** Where the codes of length l begin in the table, counted in entries; those of the next shorter length begin where
      they end. */
  function Edge(lens: seq<nat>, maxbits: nat, l: nat): nat
    requires l <= maxbits <= 32
  {
    Scale(Start(lens, l), l, maxbits)
  }

  lemma EdgeNext(lens: seq<nat>, maxbits: nat, l: nat)
    requires Accepted(lens, maxbits) && 2 <= l <= maxbits <= 32
    ensures Scale(End(lens, l), l, maxbits) == Edge(lens, maxbits, l - 1)
  {
    hide Scale, Histo;
    assert End(lens, l) % 2 == 0;
    ScaleHalf(End(lens, l), l, maxbits);
  }

  lemma {:induction false} EdgesDescend(lens: seq<nat>, maxbits: nat, l: nat, k: nat)
    requires Accepted(lens, maxbits) && 1 <= k <= l <= maxbits <= 32
    ensures Edge(lens, maxbits, l) <= Edge(lens, maxbits, k)
    decreases l
  {
    hide Scale, Accepted, Histo;
    if k < l {
      EdgeNext(lens, maxbits, l);
      ScaleMono(Start(lens, l), End(lens, l), l, maxbits);
      EdgesDescend(lens, maxbits, l - 1, k);
    }
  }

  /** A symbol's part lies between the edges of its length. */
  lemma InBetween(lens: seq<nat>, maxbits: nat, i: nat)
    requires maxbits <= 32 && i < |lens| && 1 <= lens[i] <= maxbits
    ensures Edge(lens, maxbits, lens[i]) <= Low(lens, maxbits, i) < High(lens, maxbits, i) <= Scale(End(lens, lens[i]), lens[i], maxbits)
  {
    hide Scale, Histo, Start;
    RanksDiffer(lens, i, i);
    ScaleMono(Start(lens, lens[i]), Code(lens, i), lens[i], maxbits);
    ScaleMono(Code(lens, i), Code(lens, i), lens[i], maxbits);
    ScaleMono(Code(lens, i) + 1, End(lens, lens[i]), lens[i], maxbits);
  }

  /** The parts of two symbols have no entry in common. */
  lemma Apart(lens: seq<nat>, maxbits: nat, i: nat, j: nat)
    requires Accepted(lens, maxbits) && maxbits <= 32 && i < |lens| && j < |lens| && i != j && 1 <= lens[i] && 1 <= lens[j]
    ensures High(lens, maxbits, i) <= Low(lens, maxbits, j) || High(lens, maxbits, j) <= Low(lens, maxbits, i)
  {
    hide Scale, Histo, Start, Edge;
    InBetween(lens, maxbits, i);
    InBetween(lens, maxbits, j);
    if lens[i] > lens[j] {
      EdgeNext(lens, maxbits, lens[i]);
      EdgesDescend(lens, maxbits, lens[i] - 1, lens[j]);
    } else if lens[j] > lens[i] {
      EdgeNext(lens, maxbits, lens[j]);
      EdgesDescend(lens, maxbits, lens[j] - 1, lens[i]);
    } else if i < j {
      RanksDiffer(lens, i, j);
      ScaleMono(Code(lens, i) + 1, Code(lens, j), lens[i], maxbits);
    } else {
      RanksDiffer(lens, j, i);
      ScaleMono(Code(lens, j) + 1, Code(lens, i), lens[i], maxbits);
    }
  }

  /** The code space is not over-filled: the lengths leave at most two codes of length 1. */
  ghost predicate Fits(lens: seq<nat>) { End(lens, 1) <= 2 }

  lemma HighBound(lens: seq<nat>, maxbits: nat, i: nat)
    requires Accepted(lens, maxbits) && Fits(lens) && maxbits <= 32 && i < |lens| && 1 <= lens[i]
    ensures High(lens, maxbits, i) <= Pow2(maxbits)
  {
    hide Scale, Histo, Start, Edge, End;
    InBetween(lens, maxbits, i);
    EdgeOfOne(lens, maxbits);
    if lens[i] > 1 {
      EdgeNext(lens, maxbits, lens[i]);
      EdgesDescend(lens, maxbits, lens[i] - 1, 1);
    }
  }

  lemma EdgeOfOne(lens: seq<nat>, maxbits: nat)
    requires 1 <= maxbits <= 32
    ensures Edge(lens, maxbits, 1) <= Scale(End(lens, 1), 1, maxbits)
    ensures Fits(lens) <==> Scale(End(lens, 1), 1, maxbits) <= Pow2(maxbits)
    ensures End(lens, 1) == 2 <==> Scale(End(lens, 1), 1, maxbits) == Pow2(maxbits)
  {
    hide Start, Histo, End, Scale;
    EndAbove(lens);
    ScaleMono(Start(lens, 1), End(lens, 1), 1, maxbits);
    TwoOfOne(maxbits);
    if End(lens, 1) > 2 {
      ScaleMono(2, End(lens, 1) - 1, 1, maxbits);
      ScaleMono(End(lens, 1) - 1, End(lens, 1), 1, maxbits);
      PowPositive(maxbits - 1);
    } else if End(lens, 1) < 2 {
      ScaleMono(End(lens, 1), 1, 1, maxbits);
      ScaleMono(1, 2, 1, maxbits);
      PowPositive(maxbits - 1);
    }
  }

  lemma {:induction false} TwoOfOne(maxbits: nat)
    requires 1 <= maxbits
    ensures Scale(2, 1, maxbits) == Pow2(maxbits)
  {
  }

  lemma EndAbove(lens: seq<nat>)
    ensures Start(lens, 1) <= End(lens, 1)
  {
  }

  /** No code begins with another. */
  lemma PrefixFree(lens: seq<nat>, maxbits: nat, i: nat, j: nat)
    requires Accepted(lens, maxbits) && maxbits <= 32 && i < |lens| && j < |lens| && i != j && 1 <= lens[i] <= lens[j]
    ensures Code(lens, j) / Pow2(lens[j] - lens[i]) != Code(lens, i)
  {
    hide Start, Histo, Edge, Code, Pow2, End;
    Apart(lens, maxbits, i, j);
    PowPositive(lens[j] - lens[i]);
    PowPositive(maxbits - lens[j]);
    var c, m, k := Code(lens, j), Pow2(lens[j] - lens[i]), Pow2(maxbits - lens[j]);
    if c / m == Code(lens, i) {
      Quotient(c, m);
      Pow2Add(lens[j] - lens[i], maxbits - lens[j]);
      Regroup(Code(lens, i), m, k);
      Within(Code(lens, i), m, k, c);
    }
  }

  lemma Within(a: nat, m: nat, k: nat, c: nat)
    requires 0 < k && a * m <= c < a * m + m
    ensures a * m * k <= c * k && (c + 1) * k <= (a * m + m) * k == (a + 1) * (m * k)
    ensures c * k < (c + 1) * k
  {
    Parts(a * m, m, k, c);
    Regroup(a, m, k);
    Distribute(a, 1, m * k);
  }

  lemma Parts(b: nat, m: nat, k: nat, c: nat)
    requires 0 < k && b <= c < b + m
    ensures b * k <= c * k < (c + 1) * k <= (b + m) * k == b * k + m * k
  {
    TimesMono(b, c, k);
    TimesMono(c + 1, b + m, k);
    Distribute(c, 1, k);
    Distribute(b, m, k);
  }

  // ---------- The Kraft sum ----------

  /** The same sum, over the lengths from l on. */
  function Level(lens: seq<nat>, maxbits: nat, l: nat): nat
    decreases maxbits + 1 - l
  {
    if l > maxbits then 0 else Scale(Histo(lens, l), l, maxbits) + Level(lens, maxbits, l + 1)
  }

  /** One more symbol adds its share at its own level. */
  lemma {:induction false} LevelAppend(lens: seq<nat>, x: nat, maxbits: nat, l: nat)
    requires 1 <= l
    ensures Level(lens + [x], maxbits, l) == Level(lens, maxbits, l) + if l <= x then Share(x, maxbits) else 0
    decreases maxbits + 1 - l
  {
    if l <= maxbits {
      hide Histo, Scale;
      HistoAppend(lens, x, l);
      ScaleSum(Histo(lens, l), if x == l then 1 else 0, l, maxbits);
      LevelAppend(lens, x, maxbits, l + 1);
    }
  }

  lemma ScaleSum(a: nat, b: nat, l: nat, maxbits: nat)
    requires l <= maxbits
    ensures Scale(a + b, l, maxbits) == Scale(a, l, maxbits) + Scale(b, l, maxbits)
    ensures Scale(0, l, maxbits) == 0 && Scale(1, l, maxbits) == Pow2(maxbits - l)
  {
    Distribute(a, b, Pow2(maxbits - l));
  }

  lemma {:induction false} LevelOfNone(maxbits: nat, l: nat)
    requires 1 <= l
    ensures Level([], maxbits, l) == 0
    decreases maxbits + 1 - l
  {
    if l <= maxbits {
      LevelOfNone(maxbits, l + 1);
      ScaleSum(0, 0, l, maxbits);
    }
  }

  lemma {:induction false} KraftIsLevel(lens: seq<nat>, maxbits: nat)
    ensures Kraft(lens, maxbits) == Level(lens, maxbits, 1)
    decreases |lens|
  {
    if lens == [] {
      LevelOfNone(maxbits, 1);
    } else {
      hide Level, Share;
      var n := |lens| - 1;
      KraftIsLevel(lens[..n], maxbits);
      LevelAppend(lens[..n], lens[n], maxbits, 1);
      assert lens == lens[..n] + [lens[n]];
      NoShare(lens[n], maxbits);
    }
  }

  lemma NoShare(x: nat, maxbits: nat)
    ensures x < 1 ==> Share(x, maxbits) == 0
  {
  }

  lemma {:induction false} NoneLonger(lens: seq<nat>, maxbits: nat, l: nat)
    requires maxbits < l <= 32 && forall i :: 0 <= i < |lens| ==> lens[i] <= maxbits
    ensures Start(lens, l) == 0 && End(lens, l) == 0
    decreases 32 - l
  {
    hide Histo;
    NoneOf(lens, maxbits, l);
    if l < 32 {
      NoneLonger(lens, maxbits, l + 1);
    }
  }

  /** What is used of the code space by the codes of length l and more. */
  lemma {:induction false} LevelIsEnd(lens: seq<nat>, maxbits: nat, l: nat)
    requires Accepted(lens, maxbits) && 1 <= l <= maxbits <= 32
    ensures Level(lens, maxbits, l) == Scale(End(lens, l), l, maxbits)
    decreases maxbits - l
  {
    hide Histo, Scale;
    ScaleSum(Start(lens, l), Histo(lens, l), l, maxbits);
    if l == maxbits {
      StartOfLongest(lens, maxbits);
      ScaleSum(0, 0, l, maxbits);
      assert Level(lens, maxbits, l + 1) == 0;
    } else {
      LevelIsEnd(lens, maxbits, l + 1);
      EdgeNext(lens, maxbits, l + 1);
    }
  }

  lemma StartOfLongest(lens: seq<nat>, maxbits: nat)
    requires maxbits <= 32 && forall i :: 0 <= i < |lens| ==> lens[i] <= maxbits
    ensures Start(lens, maxbits) == 0
  {
    if maxbits < 32 {
      NoneLonger(lens, maxbits, maxbits + 1);
    }
  }

  /** Accepted lengths over-fill the code space exactly if their Kraft sum exceeds it. The check of the code lengths
      leaves length 1 out, and so does not exclude that. */
  lemma FitsIsKraft(lens: seq<nat>, maxbits: nat)
    requires Accepted(lens, maxbits) && 1 <= maxbits <= 32
    ensures Fits(lens) <==> Kraft(lens, maxbits) <= Pow2(maxbits)
    ensures End(lens, 1) == 2 <==> Kraft(lens, maxbits) == Pow2(maxbits)
  {
    hide Level, Scale, Histo, End, Kraft;
    KraftIsLevel(lens, maxbits);
    LevelIsEnd(lens, maxbits, 1);
    EdgeOfOne(lens, maxbits);
  }

  /** Three codes of length 1 are accepted, and do not fit. */
  lemma AcceptedAndOverFull()
    ensures Accepted([1, 1, 1], 1) && !Fits([1, 1, 1])
  {
    var lens := [1, 1, 1];
    assert Histo(lens, 1) == 3 by {
      assert lens[..2] == [1, 1] && [1, 1][..1] == [1] && [1][..0] == [];
      assert Histo([1], 1) == 1;
      assert Histo([1, 1], 1) == 2;
    }
    forall l | 2 <= l <= 32
      ensures End(lens, l) % 2 == 0
    {
      NoneLonger(lens, 1, l);
    }
    NoneLonger(lens, 1, 2);
    assert Start(lens, 1) == 0;
  }

  // ---------- Complete codes ----------

  /** If the Kraft sum is full, every entry of the table belongs to a symbol. */
  lemma {:induction false} SymbolAt(lens: seq<nat>, maxbits: nat, x: nat, l: nat) returns (i: nat)
    requires Accepted(lens, maxbits) && 1 <= l <= maxbits <= 32 && x < Scale(End(lens, l), l, maxbits)
    ensures i < |lens| && 1 <= lens[i] && Low(lens, maxbits, i) <= x < High(lens, maxbits, i)
    decreases maxbits - l
  {
    hide Histo, Scale, Pow2;
    if x < Edge(lens, maxbits, l) {
      if l == maxbits {
        StartOfLongest(lens, maxbits);
        ScaleSum(0, 0, l, maxbits);
        assert false;
      }
      EdgeNext(lens, maxbits, l + 1);
      i := SymbolAt(lens, maxbits, x, l + 1);
    } else {
      var c := Pick(x, l, maxbits, Start(lens, l), End(lens, l));
      i := SymbolOfRank(lens, l, c - Start(lens, l));
    }
  }

  lemma Pick(x: nat, l: nat, maxbits: nat, a: nat, b: nat) returns (c: nat)
    requires l <= maxbits && Scale(a, l, maxbits) <= x < Scale(b, l, maxbits)
    ensures a <= c < b && Scale(c, l, maxbits) <= x < Scale(c + 1, l, maxbits)
    decreases b
  {
    hide Scale;
    if a >= b {
      ScaleMono(b, a, l, maxbits);
      assert false;
    } else if Scale(b - 1, l, maxbits) <= x {
      c := b - 1;
    } else {
      c := Pick(x, l, maxbits, a, b - 1);
    }
  }

  lemma EveryEntry(lens: seq<nat>, maxbits: nat, x: nat) returns (i: nat)
    requires Accepted(lens, maxbits) && 1 <= maxbits <= 32 && Kraft(lens, maxbits) == Pow2(maxbits) && x < Pow2(maxbits)
    ensures i < |lens| && 1 <= lens[i] && Low(lens, maxbits, i) <= x < High(lens, maxbits, i)
  {
    hide Scale, End, Histo, Kraft;
    FitsIsKraft(lens, maxbits);
    EdgeOfOne(lens, maxbits);
    i := SymbolAt(lens, maxbits, x, 1);
  }

  // ---------- Bits and the table ----------

  /** The bits ahead begin with the code of i. */
  ghost predicate Comes(data: seq<Byte>, pos: nat, lens: seq<nat>, i: nat) {
    i < |lens| && 1 <= lens[i] <= 32 && Flat(data, pos, lens[i]) == Code(lens, i)
  }

  /** Then, and only then, the next maxbits bits lead to its part of the table. */
  lemma ComesToPart(data: seq<Byte>, pos: nat, lens: seq<nat>, maxbits: nat, i: nat)
    requires i < |lens| && 1 <= lens[i] <= maxbits <= 32
    ensures Comes(data, pos, lens, i) <==> Low(lens, maxbits, i) <= Flat(data, pos, maxbits) < High(lens, maxbits, i)
  {
    hide Flat, Code, Pow2;
    var l := lens[i];
    var m := Pow2(maxbits - l);
    FlatParts(data, pos, l, maxbits - l);
    FlatBound(data, pos + l, maxbits - l);
    SameQuotient(Flat(data, pos, l), Flat(data, pos + l, maxbits - l), m, Code(lens, i));
  }

  lemma SameQuotient(a: nat, rest: nat, m: nat, c: nat)
    requires rest < m
    ensures a == c <==> c * m <= a * m + rest < (c + 1) * m
  {
    Distribute(c, 1, m);
    Distribute(a, 1, m);
    if a < c {
      TimesMono(a + 1, c, m);
    } else if a > c {
      TimesMono(c + 1, a, m);
    }
  }

  /** With a full Kraft sum, whatever bits come, they begin with exactly one code. */
  lemma SomeCodeComes(data: seq<Byte>, pos: nat, lens: seq<nat>, maxbits: nat) returns (i: nat)
    requires Accepted(lens, maxbits) && 1 <= maxbits <= 32 && Kraft(lens, maxbits) == Pow2(maxbits)
    ensures Comes(data, pos, lens, i)
    ensures forall j :: 0 <= j < |lens| && Comes(data, pos, lens, j) ==> j == i
  {
    hide Flat, Code, Low, High, Pow2, Kraft;
    FlatBound(data, pos, maxbits);
    i := EveryEntry(lens, maxbits, Flat(data, pos, maxbits));
    ComesToPart(data, pos, lens, maxbits, i);
    forall j | 0 <= j < |lens| && Comes(data, pos, lens, j)
      ensures j == i
    {
      ComesToPart(data, pos, lens, maxbits, j);
      if j != i {
        Apart(lens, maxbits, i, j);
      }
    }
  }

  // ---------- Code lengths in a stream ----------

  /** How wide a code length is in the stream. */
  function Width(maxbits: nat): nat { if maxbits >= 16 then 5 else if maxbits >= 8 then 4 else 3 }

  /** It is the least number of bits, but at least 3, that holds every length up to maxbits. */
  lemma WidthHolds(maxbits: nat, w: nat)
    requires maxbits < 32
    ensures w == Width(maxbits) <==> 3 <= w && maxbits < Pow2(w) && forall v: nat :: 3 <= v < w ==> Pow2(v) <= maxbits
  {
    hide Pow2;
    Pow2Small();
    if 3 <= w && w > Width(maxbits) {
      assert maxbits < Pow2(Width(maxbits));
    }
  }

  /** The n code lengths in the stream, after those in `sofar`, and where they end. */
  function Lengths(data: seq<Byte>, pos: nat, w: nat, n: nat, sofar: seq<nat>): Option<(seq<nat>, nat)>
    decreases n - |sofar|
  {
    if |sofar| >= n then Some((sofar, pos))
    else
      var v, v2 := Flat(data, pos, w), Flat(data, pos + w, w);
      if v != 1 then Lengths(data, pos + w, w, n, sofar + [v])
      else if v2 == 1 then Lengths(data, pos + 2 * w, w, n, sofar + [1])
      else
        var count := Flat(data, pos + 2 * w, w) + 3;
        if count + |sofar| > n then None else Lengths(data, pos + 3 * w, w, n, sofar + Copies(v2, count))
  }

  /** The ways to write code lengths: 1 is an escape. */
  datatype Item = Raw(v: nat) | One | Run(v: nat, count: nat)

  function Meaning(item: Item): seq<nat> {
    match item
    case Raw(v) => [v]
    case One => [1]
    case Run(v, count) => Copies(v, count)
  }

  function Size(item: Item): nat { if item.Raw? then 1 else if item.One? then 2 else 3 }

  /** The stream holds the item at this position. */
  predicate Written(data: seq<Byte>, pos: nat, w: nat, item: Item) {
    match item
    case Raw(v) => v != 1 && Flat(data, pos, w) == v
    case One => Flat(data, pos, w) == 1 && Flat(data, pos + w, w) == 1
    case Run(v, count) =>
      v != 1 && Flat(data, pos, w) == 1 && Flat(data, pos + w, w) == v && Flat(data, pos + 2 * w, w) + 3 == count
  }

  predicate AllWritten(data: seq<Byte>, pos: nat, w: nat, items: seq<Item>)
    decreases |items|
  {
    items == [] || (Written(data, pos, w, items[0]) && AllWritten(data, pos + Size(items[0]) * w, w, items[1..]))
  }

  function AllMeaning(items: seq<Item>): seq<nat> { if items == [] then [] else Meaning(items[0]) + AllMeaning(items[1..]) }

  function AllSize(items: seq<Item>): nat { if items == [] then 0 else Size(items[0]) + AllSize(items[1..]) }

  /** However the lengths are written, they are read back. */
  lemma {:induction false} LengthsReadBack(data: seq<Byte>, pos: nat, w: nat, n: nat, sofar: seq<nat>, items: seq<Item>)
    requires AllWritten(data, pos, w, items) && |sofar + AllMeaning(items)| == n
    ensures Lengths(data, pos, w, n, sofar) == Some((sofar + AllMeaning(items), pos + AllSize(items) * w))
    decreases |items|
  {
    hide Flat;
    if items == [] {
      assert sofar + [] == sofar;
    } else {
      var first, rest := items[0], items[1..];
      assert sofar + AllMeaning(items) == (sofar + Meaning(first)) + AllMeaning(rest);
      Distribute(Size(first), AllSize(rest), w);
      LengthsReadBack(data, pos + Size(first) * w, w, n, sofar + Meaning(first), rest);
      ReadFirst(data, pos, w, n, sofar, first);
    }
  }

  lemma ReadFirst(data: seq<Byte>, pos: nat, w: nat, n: nat, sofar: seq<nat>, item: Item)
    requires Written(data, pos, w, item) && |sofar| + |Meaning(item)| <= n
    ensures Lengths(data, pos, w, n, sofar) == Lengths(data, pos + Size(item) * w, w, n, sofar + Meaning(item))
  {
    hide Flat, Copies;
  }

  // ---------- The decoder ----------

  datatype Error = NoError | InvalidData | InternalInconsistency | InputBufferTooSmall

  /** The entry for a symbol: MAKE_LOOKUP. */
  function Entry(code: nat, bits: nat): nat
    requires bits < 32
  {
    32 * code + bits
  }

  class Decoder {
    const maxbits: nat
    const numbits: array<nat>
    const codes: array<nat>
    const lookup: array<nat>

    ghost predicate Valid() {
      && maxbits <= 24 && codes.Length == numbits.Length && lookup.Length == Pow2(maxbits)
      && numbits != codes && numbits != lookup && codes != lookup
    }

    constructor (numcodes: nat, maxbits: nat)
      requires maxbits <= 24
      ensures Valid() && this.maxbits == maxbits && numbits.Length == numcodes
      ensures fresh(numbits) && fresh(codes) && fresh(lookup)
    {
      this.maxbits := maxbits;
      numbits := new nat[numcodes];
      codes := new nat[numcodes];
      lookup := new nat[Pow2(maxbits)];
    }

    /** The codes of the symbols that have one. */
    ghost predicate Coded()
      reads numbits, codes
    {
      && codes.Length == numbits.Length
      && forall i :: 0 <= i < numbits.Length && 1 <= numbits[i] <= 32 ==> codes[i] == Code(numbits[..], i)
    }

    /** huffman_assign_canonical_codes: counts the lengths; false if one is too great. */
    method CountLengths(histo: array<nat>) returns (ok: bool)
      requires Valid() && histo.Length == 33 && histo != numbits && forall l :: 0 <= l <= 32 ==> histo[l] == 0
      modifies histo
      ensures ok <==> forall i :: 0 <= i < numbits.Length ==> numbits[i] <= maxbits
      ensures ok ==> forall l :: 0 <= l <= 32 ==> histo[l] == Histo(numbits[..], l)
    {
      hide Histo;
      ghost var lens := numbits[..];
      HistoOfNone(lens);
      for i := 0 to numbits.Length
        invariant forall j :: 0 <= j < i ==> numbits[j] <= maxbits
        invariant forall l :: 0 <= l <= 32 ==> histo[l] == Histo(lens[..i], l)
      {
        if numbits[i] > maxbits {
          return false;
        }
        histo[numbits[i]] := histo[numbits[i]] + 1;
        forall l | 0 <= l <= 32
          ensures histo[l] == Histo(lens[..i + 1], l)
        {
          HistoNext(lens, i, l);
        }
      }
      assert lens[..numbits.Length] == lens;
      return true;
    }

    /** The first code of each length, from the longest down; false if a number of codes is odd where it must not be. */
    method FindStarts(histo: array<nat>) returns (ok: bool)
      requires histo.Length == 33 && histo != numbits && forall l :: 0 <= l <= 32 ==> histo[l] == Histo(numbits[..], l)
      modifies histo
      ensures ok <==> Even(numbits[..])
      ensures ok ==> forall l :: 1 <= l <= 32 ==> histo[l] == Start(numbits[..], l)
    {
      hide Histo, Start, End;
      ghost var lens := numbits[..];
      StartOfNone(lens);
      var curstart: nat, codelen: nat := 0, 32;
      while codelen > 0
        invariant codelen <= 32 && curstart == Start(lens, codelen)
        invariant forall l :: 0 <= l <= codelen ==> histo[l] == Histo(lens, l)
        invariant forall l :: codelen < l <= 32 ==> histo[l] == Start(lens, l)
        invariant forall l :: codelen < l <= 32 && 2 <= l ==> End(lens, l) % 2 == 0
      {
        StartNext(lens, codelen);
        var nextstart := (curstart + histo[codelen]) / 2;
        if codelen != 1 && nextstart * 2 != curstart + histo[codelen] {
          assert End(lens, codelen) % 2 != 0;
          assert numbits[..] == lens;
          return false;
        }
        histo[codelen] := curstart;
        curstart := nextstart;
        codelen := codelen - 1;
      }
      assert numbits[..] == lens;
      return true;
    }

    method NumberCodes(histo: array<nat>)
      requires Valid() && histo.Length == 33 && histo != numbits && histo != codes
      requires forall i :: 0 <= i < numbits.Length ==> numbits[i] <= maxbits
      requires forall l :: 1 <= l <= 32 ==> histo[l] == Start(numbits[..], l)
      modifies histo, codes
      ensures Coded()
    {
      hide Histo, Start;
      ghost var lens := numbits[..];
      HistoOfNone(lens);
      for i := 0 to numbits.Length
        invariant numbits[..] == lens
        invariant forall l :: 1 <= l <= 32 ==> histo[l] == Start(lens, l) + Histo(lens[..i], l)
        invariant forall j :: 0 <= j < i && 1 <= lens[j] ==> codes[j] == Code(lens, j)
      {
        if numbits[i] > 0 {
          codes[i] := histo[numbits[i]];
          histo[numbits[i]] := histo[numbits[i]] + 1;
        }
        forall l | 1 <= l <= 32
          ensures histo[l] == Start(lens, l) + Histo(lens[..i + 1], l)
        {
          HistoNext(lens, i, l);
        }
      }
    }

    /** huffman_assign_canonical_codes */
    method AssignCanonicalCodes() returns (error: Error)
      requires Valid()
      modifies codes
      ensures error in {NoError, InternalInconsistency}
      ensures error == NoError <==> Accepted(numbits[..], maxbits)
      ensures error == NoError ==> Coded()
    {
      hide Histo, Start, End, Code, Even;
      ghost var lens := numbits[..];
      var histo := new nat[33](_ => 0);
      var ok := CountLengths(histo);
      if !ok {
        return InternalInconsistency;
      }
      assert numbits[..] == lens;
      ok := FindStarts(histo);
      assert numbits[..] == lens;
      if !ok {
        return InternalInconsistency;
      }
      NumberCodes(histo);
      assert numbits[..] == lens;
      return NoError;
    }

    /** The table holds each symbol in all of its part. */
    ghost predicate Built(upTo: nat)
      reads numbits, lookup
    {
      && Accepted(numbits[..], maxbits) && maxbits <= 24 && upTo <= numbits.Length && lookup.Length == Pow2(maxbits)
      && forall i :: 0 <= i < upTo && 1 <= numbits[i] ==> HeldAt(numbits[..], maxbits, i, lookup[..])
    }

    /** huffman_build_lookup_table; it writes beyond the table exactly if the code space is over-filled. */
    method BuildLookupTable()
      requires Valid() && Accepted(numbits[..], maxbits) && Coded() && (maxbits == 0 || Fits(numbits[..]))
      modifies lookup
      ensures Built(numbits.Length)
    {
      hide Histo, Start, End, Code, Low, High, Pow2, HeldAt;
      ghost var lens := numbits[..];
      for curcode := 0 to numbits.Length
        invariant numbits[..] == lens && Built(curcode)
      {
        if numbits[curcode] > 0 {
          HighBound(lens, maxbits, curcode);
          PartIs(lens, maxbits, curcode);
          var shift := maxbits - numbits[curcode];
          ghost var before := lookup[..];
          FillPart(codes[curcode] * Pow2(shift), (codes[curcode] + 1) * Pow2(shift), Entry(curcode, numbits[curcode]));
          JustHeld(lens, maxbits, curcode, lookup[..]);
          forall i | 0 <= i < curcode && 1 <= lens[i]
            ensures HeldAt(lens, maxbits, i, lookup[..])
          {
            Apart(lens, maxbits, i, curcode);
            StillHeld(lens, maxbits, i, curcode, before, lookup[..]);
          }
        }
      }
    }

    method FillPart(from: nat, to: nat, value: nat)
      requires from <= to <= lookup.Length
      modifies lookup
      ensures forall x :: 0 <= x < lookup.Length ==> lookup[x] == if from <= x < to then value else old(lookup[x])
    {
      for dest := from to to
        invariant forall x :: 0 <= x < lookup.Length ==> lookup[x] == if from <= x < dest then value else old(lookup[x])
      {
        lookup[dest] := value;
      }
    }

    /** The loop of huffman_import_tree_rle. */
    method ReadLengths(r: Reader) returns (ok: bool)
      requires Valid() && r.Valid()
      modifies r, numbits
      ensures r.Valid()
      ensures var found := Lengths(r.data, old(r.Pos()), Width(maxbits), numbits.Length, []);
              && ok == found.Some? && (ok ==> found == Some((numbits[..], r.Pos())))
    {
      hide Flat, Lengths;
      var w := Width(maxbits);
      ghost var found := Lengths(r.data, r.Pos(), w, numbits.Length, []);
      var curnode: nat := 0;
      assert numbits[..0] == [];
      while curnode < numbits.Length
        invariant r.Valid() && curnode <= numbits.Length
        invariant Lengths(r.data, r.Pos(), w, numbits.Length, numbits[..curnode]) == found
      {
        ghost var pos, sofar := r.Pos(), numbits[..curnode];
        LengthsUnfold(r.data, pos, w, numbits.Length, sofar);
        var nodebits := r.Read(w);
        if nodebits != 1 {
          curnode := Store(curnode, nodebits, 1);
        } else {
          nodebits := r.Read(w);
          if nodebits == 1 {
            curnode := Store(curnode, nodebits, 1);
          } else {
            var repcount := r.Read(w);
            repcount := repcount + 3;
            if repcount + curnode > numbits.Length {
              return false;
            }
            curnode := Store(curnode, nodebits, repcount);
          }
        }
      }
      assert numbits[..curnode] == numbits[..];
      LengthsUnfold(r.data, r.Pos(), w, numbits.Length, numbits[..]);
      return true;
    }

    method Store(curnode: nat, v: nat, count: nat) returns (next: nat)
      requires curnode + count <= numbits.Length
      modifies numbits
      ensures next == curnode + count && numbits[..next] == old(numbits[..curnode]) + Copies(v, count)
      ensures count == 1 ==> numbits[..next] == old(numbits[..curnode]) + [v]
    {
      next := curnode;
      var left: nat := count;
      while left != 0
        invariant left <= count && next == curnode + (count - left) && numbits[..next] == old(numbits[..curnode]) + Copies(v, count - left)
      {
        numbits[next] := v;
        next, left := next + 1, left - 1;
      }
      OneCopy(v);
    }

    /** huffman_import_tree_rle: the code lengths, the codes and the table. */
    method ImportTreeRle(r: Reader) returns (error: Error)
      requires Valid() && r.Valid()
      requires var found := Lengths(r.data, r.Pos(), Width(maxbits), numbits.Length, []);
               found.Some? && Accepted(found.value.0, maxbits) && 1 <= maxbits ==> Fits(found.value.0)
      modifies r, numbits, codes, lookup
      ensures r.Valid()
      ensures var found := Lengths(r.data, old(r.Pos()), Width(maxbits), numbits.Length, []);
              if found.None? then error == InvalidData
              else && numbits[..] == found.value.0 && r.Pos() == found.value.1
                   && if !Accepted(numbits[..], maxbits) then error == InternalInconsistency
                      else && Coded() && Built(numbits.Length)
                           && error == if r.Pos() > 8 * |r.data| then InputBufferTooSmall else NoError
    {
      hide Flat, Lengths, Code, Accepted, Fits, HeldAt;
      var ok := ReadLengths(r);
      if !ok {
        return InvalidData;
      }
      ghost var lens := numbits[..];
      error := AssignCanonicalCodes();
      assert numbits[..] == lens;
      if error != NoError {
        return error;
      }
      BuildLookupTable();
      assert numbits[..] == lens;
      var over := r.Overflow();
      return if over then InputBufferTooSmall else NoError;
    }

    /** huffman_decode_one: where a code comes, it returns its symbol and goes on by its length. */
    method DecodeOne(r: Reader) returns (value: nat)
      requires Valid() && Built(numbits.Length) && r.Valid()
      requires exists i :: 0 <= i < numbits.Length && Comes(r.data, r.Pos(), numbits[..], i)
      modifies r
      ensures r.Valid() && value < numbits.Length && old(Comes(r.data, r.Pos(), numbits[..], value))
      ensures r.Pos() == old(r.Pos()) + numbits[value]
      ensures forall i :: 0 <= i < numbits.Length && old(Comes(r.data, r.Pos(), numbits[..], i)) ==> i == value
    {
      hide Flat, Code, Low, High, Pow2, Accepted, HeldAt;
      ghost var i: nat :| i < numbits.Length && Comes(r.data, r.Pos(), numbits[..], i);
      ghost var lens, pos: nat := numbits[..], r.Pos();
      var bits := r.Peek(maxbits);
      assert numbits[..] == lens && HeldAt(lens, maxbits, i, lookup[..]);
      FlatBound(r.data, pos, maxbits);
      var entry := lookup[bits];
      Looked(r.data, pos, lens, maxbits, i, lookup[..]);
      r.Remove(entry % 32);
      value := entry / 32;
      forall j | 0 <= j < numbits.Length && Comes(r.data, pos, lens, j)
        ensures j == value
      {
        Looked(r.data, pos, lens, maxbits, j, lookup[..]);
      }
    }
  }

  lemma OneCopy(v: nat)
    ensures Copies(v, 1) == [v]
  {
  }

  lemma LengthsUnfold(data: seq<Byte>, pos: nat, w: nat, n: nat, sofar: seq<nat>)
    ensures |sofar| >= n ==> Lengths(data, pos, w, n, sofar) == Some((sofar, pos))
    ensures |sofar| < n && Flat(data, pos, w) != 1 ==>
      Lengths(data, pos, w, n, sofar) == Lengths(data, pos + w, w, n, sofar + [Flat(data, pos, w)])
    ensures |sofar| < n && Flat(data, pos, w) == 1 && Flat(data, pos + w, w) == 1 ==>
      Lengths(data, pos, w, n, sofar) == Lengths(data, pos + w + w, w, n, sofar + [1])
    ensures |sofar| < n && Flat(data, pos, w) == 1 && Flat(data, pos + w, w) != 1 ==>
      var count := Flat(data, pos + w + w, w) + 3;
      Lengths(data, pos, w, n, sofar) ==
        if count + |sofar| > n then None
        else Lengths(data, pos + w + w + w, w, n, sofar + Copies(Flat(data, pos + w, w), count))
  {
    hide Flat, Copies;
  }

  lemma StartOfNone(lens: seq<nat>)
    ensures Start(lens, 32) == 0
  {
  }

  lemma StartNext(lens: seq<nat>, l: nat)
    requires 1 <= l <= 32
    ensures End(lens, l) == Start(lens, l) + Histo(lens, l) && Start(lens, l - 1) == End(lens, l) / 2
  {
    hide Histo;
  }

  /** All entries of i's part hold i and its length. */
  ghost predicate HeldAt(lens: seq<nat>, maxbits: nat, i: nat, table: seq<nat>) {
    && i < |lens| && 1 <= lens[i] <= maxbits <= 24
    && forall x :: Low(lens, maxbits, i) <= x < High(lens, maxbits, i) && x < |table| ==> table[x] == Entry(i, lens[i])
  }

  lemma PartIs(lens: seq<nat>, maxbits: nat, i: nat)
    requires i < |lens| && lens[i] <= maxbits <= 32
    ensures Low(lens, maxbits, i) == Code(lens, i) * Pow2(maxbits - lens[i])
    ensures High(lens, maxbits, i) == (Code(lens, i) + 1) * Pow2(maxbits - lens[i])
    ensures Low(lens, maxbits, i) <= High(lens, maxbits, i)
  {
    hide Code, Pow2;
    Distribute(Code(lens, i), 1, Pow2(maxbits - lens[i]));
  }

  lemma JustHeld(lens: seq<nat>, maxbits: nat, i: nat, table: seq<nat>)
    requires i < |lens| && 1 <= lens[i] <= maxbits <= 24
    requires forall x :: Low(lens, maxbits, i) <= x < High(lens, maxbits, i) && x < |table| ==> table[x] == Entry(i, lens[i])
    ensures HeldAt(lens, maxbits, i, table)
  {
    hide Low, High;
  }

  lemma StillHeld(lens: seq<nat>, maxbits: nat, i: nat, j: nat, before: seq<nat>, table: seq<nat>)
    requires HeldAt(lens, maxbits, i, before) && |before| == |table| && j < |lens| && lens[j] <= maxbits <= 24
    requires High(lens, maxbits, i) <= Low(lens, maxbits, j) || High(lens, maxbits, j) <= Low(lens, maxbits, i)
    requires forall x :: 0 <= x < |table| && !(Low(lens, maxbits, j) <= x < High(lens, maxbits, j)) ==> table[x] == before[x]
    ensures HeldAt(lens, maxbits, i, table)
  {
    hide Low, High;
  }

  lemma Looked(data: seq<Byte>, pos: nat, lens: seq<nat>, maxbits: nat, i: nat, table: seq<nat>)
    requires Comes(data, pos, lens, i) && |table| == Pow2(maxbits) && Flat(data, pos, maxbits) < |table| && Accepted(lens, maxbits)
    requires HeldAt(lens, maxbits, i, table)
    ensures table[Flat(data, pos, maxbits)] % 32 == lens[i] <= maxbits && table[Flat(data, pos, maxbits)] / 32 == i
  {
    hide Flat, Code, Low, High, Pow2, Accepted;
    ComesToPart(data, pos, lens, maxbits, i);
    ModOfSum(i, 32, lens[i]);
  }
}
