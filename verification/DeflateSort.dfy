/** Sorting of symbols by how often they occur (tdefl_radix_sort_syms): one stable pass for each byte of the key. */
module DeflateSort {
  import opened CodeCosts
  import opened CodeLengths
  import opened Powers

  datatype SymFreq = SymFreq(key: nat, sym: nat)

  function Keys(s: seq<SymFreq>): (k: seq<nat>)
    ensures |k| == |s| && forall i :: 0 <= i < |s| ==> k[i] == s[i].key
  {
    seq(|s|, i requires 0 <= i < |s| => s[i].key)
  }

  // ---------- Rearranging ----------

  /** t is s in another order; `from` says where each element comes from. */
  ghost predicate Rearranged<T>(s: seq<T>, t: seq<T>, from: seq<nat>) {
    && |s| == |t| == |from|
    && (forall p :: 0 <= p < |t| ==> from[p] < |s| && t[p] == s[from[p]])
    && (forall p, q :: 0 <= p < q < |t| ==> from[p] != from[q])
  }

  lemma MultisetWithout<T>(s: seq<T>, k: nat)
    requires k < |s|
    ensures multiset(s) == multiset(Without(s, k)) + multiset{s[k]}
  {
    assert s == s[..k] + [s[k]] + s[k + 1..];
  }

  lemma OneLess<T>(s: seq<T>, t: seq<T>, from: seq<nat>) returns (rest: seq<nat>)
    requires Rearranged(s, t, from) && s != []
    ensures from[|s| - 1] < |s| && Rearranged(Without(s, from[|s| - 1]), t[..|s| - 1], rest)
    ensures forall p :: 0 <= p < |s| - 1 ==> from[p] == if rest[p] < from[|s| - 1] then rest[p] else rest[p] + 1
  {
    var n := |s| - 1;
    var k := from[n];
    rest := seq(n, p requires 0 <= p < n => if from[p] < k then from[p] else if from[p] == 0 then 0 else from[p] - 1);
    assert forall p :: 0 <= p < n ==> from[p] != k;
  }

  lemma {:induction false} SameElements<T>(s: seq<T>, t: seq<T>, from: seq<nat>)
    requires Rearranged(s, t, from)
    ensures multiset(s) == multiset(t)
    decreases |s|
  {
    if s != [] {
      var n := |s| - 1;
      var k := from[n];
      var rest := OneLess(s, t, from);
      SameElements(Without(s, k), t[..n], rest);
      MultisetWithout(s, k);
      assert t == t[..n] + [t[n]];
    }
  }

  lemma Twice<T>(s: seq<T>, t: seq<T>, u: seq<T>, from: seq<nat>, from': seq<nat>) returns (both: seq<nat>)
    requires Rearranged(s, t, from) && Rearranged(t, u, from')
    ensures Rearranged(s, u, both) && forall p :: 0 <= p < |s| ==> both[p] == from[from'[p]]
  {
    both := seq(|s|, p requires 0 <= p < |s| => from[from'[p]]);
  }

  // ---------- One pass ----------

  function Digits(s: seq<SymFreq>, div: nat): (d: seq<nat>)
    requires 1 <= div
    ensures |d| == |s| && forall i :: 0 <= i < |s| ==> d[i] == s[i].key / div % 256
  {
    seq(|s|, i requires 0 <= i < |s| => s[i].key / div % 256)
  }

  /** How many digits are smaller. */
  function Start(d: seq<nat>, b: nat): nat { if b == 0 then 0 else Start(d, b - 1) + Histo(d, b - 1) }

  lemma StartIs(d: seq<nat>, b: nat)
    ensures Start(d, b) == if b == 0 then 0 else Start(d, b - 1) + Histo(d, b - 1)
  {
    hide Histo;
  }

  /** Where an element goes: behind those of smaller digits and those of its own before it. */
  function Place(d: seq<nat>, i: nat): nat
    requires i < |d|
  {
    Start(d, d[i]) + Rank(d, i)
  }

  lemma {:induction false} StartMono(d: seq<nat>, b: nat, c: nat)
    requires b < c
    ensures Start(d, b) + Histo(d, b) <= Start(d, c)
    decreases c
  {
    hide Histo;
    if b + 1 < c {
      StartMono(d, b, c - 1);
    }
  }

  lemma {:induction false} StartAppend(d: seq<nat>, x: nat, b: nat)
    ensures Start(d + [x], b) == Start(d, b) + if x < b then 1 else 0
  {
    hide Histo;
    if b > 0 {
      StartAppend(d, x, b - 1);
      HistoAppend(d, x, b - 1);
    }
  }

  lemma {:induction false} StartOfNone(b: nat)
    ensures Start([], b) == 0
  {
    if b > 0 {
      StartOfNone(b - 1);
    }
  }

  lemma {:induction false} StartIsAll(d: seq<nat>)
    requires forall i :: 0 <= i < |d| ==> d[i] < 256
    ensures Start(d, 256) == |d|
    decreases |d|
  {
    hide Start;
    if d == [] {
      StartOfNone(256);
    } else {
      var n := |d| - 1;
      assert d == d[..n] + [d[n]];
      StartIsAll(d[..n]);
      StartAppend(d[..n], d[n], 256);
    }
  }

  /** Places are in order of digits and then of position. */
  lemma PlacesOrdered(d: seq<nat>, i: nat, j: nat)
    requires i < |d| && j < |d| && (d[i] < d[j] || (d[i] == d[j] && i < j))
    ensures Place(d, i) < Place(d, j)
  {
    hide Start, Histo;
    if d[i] < d[j] {
      RanksDiffer(d, i, i);
      StartMono(d, d[i], d[j]);
    } else {
      RanksDiffer(d, i, j);
    }
  }

  lemma PlaceBound(d: seq<nat>, i: nat)
    requires i < |d| && forall k :: 0 <= k < |d| ==> d[k] < 256
    ensures Place(d, i) < |d|
  {
    hide Start, Histo;
    RanksDiffer(d, i, i);
    StartMono(d, d[i], 256);
    StartIsAll(d);
  }

  /** Every place is some element's. */
  lemma {:induction false} AtPlace(d: seq<nat>, p: nat, b: nat) returns (i: nat)
    requires p < Start(d, b)
    ensures i < |d| && Place(d, i) == p
  {
    hide Histo;
    if Start(d, b - 1) <= p {
      i := SymbolOfRank(d, b - 1, p - Start(d, b - 1));
    } else {
      i := AtPlace(d, p, b - 1);
    }
  }

  /** Where the elements come from. */
  lemma {:induction false} Sources(d: seq<nat>, n: nat) returns (from: seq<nat>)
    requires n <= |d| && forall k :: 0 <= k < |d| ==> d[k] < 256
    ensures |from| == n && forall p :: 0 <= p < n ==> from[p] < |d| && Place(d, from[p]) == p
  {
    hide Place, Start;
    if n == 0 {
      from := [];
    } else {
      from := Sources(d, n - 1);
      StartIsAll(d);
      var i := AtPlace(d, n - 1, 256);
      from := from + [i];
    }
  }

  /** What a pass does. */
  ghost predicate Passed(s: seq<SymFreq>, t: seq<SymFreq>, div: nat)
    requires 1 <= div
  {
    var d := Digits(s, div);
    |t| == |s| && forall i :: 0 <= i < |s| ==> Place(d, i) < |t| && t[Place(d, i)] == s[i]
  }

  lemma PassRearranges(s: seq<SymFreq>, t: seq<SymFreq>, div: nat) returns (from: seq<nat>)
    requires 1 <= div && Passed(s, t, div)
    ensures Rearranged(s, t, from) && forall p :: 0 <= p < |s| ==> Place(Digits(s, div), from[p]) == p
  {
    hide Place;
    var d := Digits(s, div);
    from := Sources(d, |d|);
    forall p | 0 <= p < |t|
      ensures t[p] == s[from[p]]
    {
      assert Place(d, from[p]) == p;
    }
  }

  /** In order of the bytes below m, and where these are the same in the order in which they came. */
  ghost predicate SortedBelow(s: seq<SymFreq>, from: seq<nat>, m: nat)
    requires 1 <= m
  {
    && |from| == |s|
    && forall p, q :: 0 <= p < q < |s| ==> s[p].key % m < s[q].key % m || (s[p].key % m == s[q].key % m && from[p] < from[q])
  }

  /** A pass makes one byte more count. */
  lemma PassSorts(s: seq<SymFreq>, t: seq<SymFreq>, div: nat, from: seq<nat>, from': seq<nat>, both: seq<nat>)
    requires 1 <= div && Passed(s, t, div) && SortedBelow(s, from, div) && Rearranged(s, t, from')
    requires forall p :: 0 <= p < |s| ==> Place(Digits(s, div), from'[p]) == p
    requires |both| == |s| && forall p :: 0 <= p < |s| ==> both[p] == from[from'[p]]
    ensures SortedBelow(t, both, div * 256)
  {
    hide Place, Digits;
    var d := Digits(s, div);
    forall p, q | 0 <= p < q < |t|
      ensures t[p].key % (div * 256) < t[q].key % (div * 256) || (t[p].key % (div * 256) == t[q].key % (div * 256) && both[p] < both[q])
    {
      var i, j := from'[p], from'[q];
      assert Place(d, i) < Place(d, j);
      if d[j] < d[i] || (d[i] == d[j] && j < i) {
        PlacesOrdered(d, j, i);
      }
      ByteMore(s[i].key, div);
      ByteMore(s[j].key, div);
      DigitsMono(d[i], d[j], div);
    }
  }

  lemma ByteMore(x: nat, div: nat)
    requires 1 <= div
    ensures x % (div * 256) == x / div % 256 * div + x % div && x % div < div
  {
    Quotient(x, div);
    var q, r0 := x / div, x % div;
    Quotient(q, 256);
    ByteAbove(q / 256, q % 256, div);
    assert q * div == (q / 256 * 256 + q % 256) * div;
    ByteRoom(q % 256, div, r0);
    ModOfSum(q / 256, div * 256, q % 256 * div + r0);
  }

  lemma ByteAbove(h: nat, r: nat, div: nat)
    ensures (h * 256 + r) * div == h * (div * 256) + r * div
  {
    Regroup(h, 256, div);
    assert (h * 256 + r) * div == h * 256 * div + r * div;
  }

  lemma ByteRoom(r: nat, div: nat, r0: nat)
    requires r < 256 && r0 < div
    ensures r * div + r0 < div * 256
  {
    assert r * div <= 255 * div;
  }

  lemma DigitsMono(a: nat, b: nat, div: nat)
    ensures a < b ==> a * div + div <= b * div
  {
    if a < b {
      var c: nat := b - a - 1;
      assert (a + 1 + c) * div == a * div + div + c * div;
    }
  }

  lemma {:induction false} HistoIsMultiset(d: seq<nat>, l: nat)
    ensures Histo(d, l) == multiset(d)[l]
    decreases |d|
  {
    if d != [] {
      HistoIsMultiset(d[..|d| - 1], l);
      assert d == d[..|d| - 1] + [d[|d| - 1]];
    }
  }

  /** The numbers of digits stay as they are. */
  lemma SameDigits(s: seq<SymFreq>, t: seq<SymFreq>, from: seq<nat>, div: nat)
    requires 1 <= div && Rearranged(s, t, from)
    ensures forall l :: Histo(Digits(t, div), l) == Histo(Digits(s, div), l)
  {
    hide Histo;
    assert Rearranged(Digits(s, div), Digits(t, div), from);
    SameElements(Digits(s, div), Digits(t, div), from);
    forall l: nat
      ensures Histo(Digits(t, div), l) == Histo(Digits(s, div), l)
    {
      HistoIsMultiset(Digits(s, div), l);
      HistoIsMultiset(Digits(t, div), l);
    }
  }

  lemma PlacesDiffer(d: seq<nat>, i: nat)
    requires i < |d|
    ensures forall k :: 0 <= k < i ==> Place(d, k) != Place(d, i)
  {
    hide Place;
    forall k | 0 <= k < i
      ensures Place(d, k) != Place(d, i)
    {
      if d[i] < d[k] {
        PlacesOrdered(d, i, k);
      } else {
        PlacesOrdered(d, k, i);
      }
    }
  }

  /** The offset of a digit, once the symbols before have gone, is the next one's place. */
  lemma OffsetIsPlace(d: seq<nat>, i: nat)
    requires i < |d| && forall k :: 0 <= k < |d| ==> d[k] < 256
    ensures Start(d, d[i]) + Histo(d[..i], d[i]) == Place(d, i) < |d|
    ensures forall b :: Histo(d[..i + 1], b) == Histo(d[..i], b) + if d[i] == b then 1 else 0
  {
    hide Histo, Start;
    PlaceBound(d, i);
    forall b: nat
      ensures Histo(d[..i + 1], b) == Histo(d[..i], b) + if d[i] == b then 1 else 0
    {
      HistoNext(d, i, b);
    }
  }

  /** The numbers of the digits at this byte. */
  ghost predicate HistOf(hist: seq<nat>, base: nat, s: seq<SymFreq>, div: nat)
    requires 1 <= div
  {
    base + 256 <= |hist| && forall b :: 0 <= b < 256 ==> hist[base + b] == Histo(Digits(s, div), b)
  }

  method Pass(cur: array<SymFreq>, next: array<SymFreq>, hist: array<nat>, base: nat, div: nat)
    requires cur != next && cur.Length == next.Length && 1 <= div && HistOf(hist[..], base, cur[..], div)
    modifies next
    ensures Passed(cur[..], next[..], div)
  {
    hide Histo, Place, Digits;
    ghost var s, d := cur[..], Digits(cur[..], div);
    var offsets := Offsets(hist, base, d);
    HistoOfNone(d);
    for i := 0 to cur.Length
      invariant cur[..] == s && offsets.Length == 256 && fresh(offsets)
      invariant forall b :: 0 <= b < 256 ==> offsets[b] == Start(d, b) + Histo(d[..i], b)
      invariant forall k :: 0 <= k < i ==> Place(d, k) < next.Length && next[Place(d, k)] == s[k]
    {
      var digit := cur[i].key / div % 256;
      OffsetIsPlace(d, i);
      PlacesDiffer(d, i);
      next[offsets[digit]] := cur[i];
      offsets[digit] := offsets[digit] + 1;
    }
  }

  method Offsets(hist: array<nat>, base: nat, ghost d: seq<nat>) returns (offsets: array<nat>)
    requires base + 256 <= hist.Length && forall b :: 0 <= b < 256 ==> hist[base + b] == Histo(d, b)
    ensures fresh(offsets) && offsets.Length == 256 && forall b :: 0 <= b < 256 ==> offsets[b] == Start(d, b)
  {
    hide Histo, Start;
    offsets := new nat[256](_ => 0);
    var curOfs := 0;
    StartIs(d, 0);
    for i := 0 to 256
      invariant curOfs == Start(d, i) && forall b :: 0 <= b < i ==> offsets[b] == Start(d, b)
    {
      StartIs(d, i + 1);
      offsets[i] := curOfs;
      curOfs := curOfs + hist[base + i];
    }
  }

  method CountDigits(syms: array<SymFreq>) returns (hist: array<nat>)
    ensures fresh(hist) && hist.Length == 512 && HistOf(hist[..], 0, syms[..], 1) && HistOf(hist[..], 256, syms[..], 256)
  {
    hide Histo, Digits;
    ghost var s, d, e := syms[..], Digits(syms[..], 1), Digits(syms[..], 256);
    hist := new nat[512](_ => 0);
    HistoOfNone(d);
    HistoOfNone(e);
    for i := 0 to syms.Length
      invariant forall b :: 0 <= b < 256 ==> hist[b] == Histo(d[..i], b)
      invariant forall k :: 256 <= k < 512 ==> hist[k] == Histo(e[..i], k - 256)
    {
      var freq := syms[i].key;
      OneMore(d, i);
      OneMore(e, i);
      var low, high := freq % 256, freq / 256 % 256;
      assert d[i] == low && e[i] == high;
      hist[low] := hist[low] + 1;
      hist[256 + high] := hist[256 + high] + 1;
    }
    assert d[..syms.Length] == d && e[..syms.Length] == e;
  }

  lemma OneMore(d: seq<nat>, i: nat)
    requires i < |d|
    ensures forall b :: Histo(d[..i + 1], b) == Histo(d[..i], b) + if d[i] == b then 1 else 0
  {
    hide Histo;
    forall b: nat
      ensures Histo(d[..i + 1], b) == Histo(d[..i], b) + if d[i] == b then 1 else 0
    {
      HistoNext(d, i, b);
    }
  }

  /** When all have this digit there is nothing to do. */
  lemma {:induction false} AllOfOne(d: seq<nat>, b: nat)
    ensures Histo(d, b) <= |d|
    ensures Histo(d, b) == |d| ==> forall i :: 0 <= i < |d| ==> d[i] == b
    decreases |d|
  {
    if d != [] {
      AllOfOne(d[..|d| - 1], b);
    }
  }

  ghost predicate Ascending(s: seq<SymFreq>) { forall p, q :: 0 <= p < q < |s| ==> s[p].key <= s[q].key }

  /** Equal keys have kept their order. */
  ghost predicate Stable(t: seq<SymFreq>, from: seq<nat>) {
    |from| == |t| && forall p, q :: 0 <= p < q < |t| && t[p].key == t[q].key ==> from[p] < from[q]
  }

  /** Sorted by all bytes that matter is sorted. */
  lemma SortedByAll(s: seq<SymFreq>, t: seq<SymFreq>, from: seq<nat>, passes: nat)
    requires Rearranged(s, t, from) && forall i :: 0 <= i < |s| ==> s[i].key < 0x1_0000
    requires passes == 1 || passes == 2
    requires SortedBelow(t, from, if passes == 1 then 256 else 0x1_0000)
    requires passes == 1 ==> Histo(Digits(s, 256), 0) == |s|
    ensures Ascending(t) && Stable(t, from)
  {
    hide Histo;
    if passes == 1 {
      AllOfOne(Digits(s, 256), 0);
      forall i | 0 <= i < |s|
        ensures s[i].key < 256
      {
        assert Digits(s, 256)[i] == 0;
      }
    }
  }

  /** The symbols in ascending order, in one of the two arrays; those that occur equally often stay in their order. */
  method RadixSort(syms0: array<SymFreq>, syms1: array<SymFreq>) returns (cur: array<SymFreq>, ghost from: seq<nat>)
    requires syms0 != syms1 && syms0.Length == syms1.Length && forall i :: 0 <= i < syms0.Length ==> syms0[i].key < 0x1_0000
    modifies syms0, syms1
    ensures (cur == syms0 || cur == syms1) && Rearranged(old(syms0[..]), cur[..], from) && Ascending(cur[..])
    ensures Stable(cur[..], from)
  {
    hide Histo, Digits, Passed, SortedBelow, Ascending, Stable, Place;
    ghost var s := syms0[..];
    var hist := CountDigits(syms0);
    var totalPasses := 2;
    while totalPasses > 1 && syms0.Length == hist[(totalPasses - 1) * 256]
      invariant 1 <= totalPasses <= 2 && (totalPasses == 1 ==> Histo(Digits(s, 256), 0) == |s|)
    {
      totalPasses := totalPasses - 1;
    }
    var next: array<SymFreq>;
    cur, next := syms0, syms1;
    from := seq(|s|, i => i);
    SortedByNothing(s, from);
    for pass := 0 to totalPasses
      invariant {cur, next} == {syms0, syms1} && cur != next && cur.Length == next.Length == |s|
      invariant Rearranged(s, cur[..], from) && SortedBelow(cur[..], from, Byte(pass))
      invariant HistOf(hist[..], 0, s, 1) && HistOf(hist[..], 256, s, 256)
    {
      SameDigits(s, cur[..], from, Byte(pass));
      Pass(cur, next, hist, 256 * pass, Byte(pass));
      ghost var from' := PassRearranges(cur[..], next[..], Byte(pass));
      ghost var both := Twice(s, cur[..], next[..], from, from');
      PassSorts(cur[..], next[..], Byte(pass), from, from', both);
      from := both;
      cur, next := next, cur;
    }
    SortedByAll(s, cur[..], from, totalPasses);
  }

  /** The place value of a byte. */
  function Byte(pass: nat): nat
    requires pass <= 2
  {
    if pass == 0 then 1 else if pass == 1 then 256 else 0x1_0000
  }

  lemma SortedByNothing(s: seq<SymFreq>, from: seq<nat>)
    requires |from| == |s| && forall i :: 0 <= i < |s| ==> from[i] == i
    ensures SortedBelow(s, from, 1)
  {
  }
}
