/** From how often each symbol occurs to its code (tdefl_optimize_huffman_table). */
module DeflateOptimize {
  import opened CodeCosts
  import opened CodeLengths
  import opened DeflateBest
  import opened DeflateCodes
  import opened DeflateJoins
  import opened DeflateLimit
  import opened DeflateRedundancy
  import opened DeflateSort
  import opened DeflateTable
  import opened DeflateTies
  import opened Powers

  // ---------- The symbols that occur ----------

  /** The symbols that occur, in the order of the alphabet. */
  ghost predicate Occurring(counts: seq<nat>, m: nat, used: seq<SymFreq>) {
    && m <= |counts|
    && (forall i :: 0 <= i < |used| ==> used[i].sym < m && used[i].key == counts[used[i].sym] > 0)
    && (forall i, k :: 0 <= i < k < |used| ==> used[i].sym < used[k].sym)
    && (forall s :: 0 <= s < m && counts[s] > 0 ==> exists i :: 0 <= i < |used| && used[i].sym == s)
  }

  lemma KeysAppend(s: seq<SymFreq>, x: SymFreq)
    ensures Sum(Keys(s + [x])) == Sum(Keys(s)) + x.key
  {
    assert Keys(s + [x]) == Keys(s) + [x.key];
    SumAppend(Keys(s), x.key);
  }

  lemma SumNext(counts: seq<nat>, m: nat)
    requires m < |counts|
    ensures Sum(counts[..m + 1]) == Sum(counts[..m]) + counts[m]
    ensures Used(counts[..m + 1]) == Used(counts[..m]) + if counts[m] > 0 then 1 else 0
  {
    assert counts[..m + 1] == counts[..m] + [counts[m]];
    assert counts[..m + 1][..m] == counts[..m];
    SumAppend(counts[..m], counts[m]);
  }

  lemma {:induction false} OneOccurs(counts: seq<nat>, m: nat, used: seq<SymFreq>)
    requires Occurring(counts, m, used) && m < |counts|
    ensures Occurring(counts, m + 1, if counts[m] > 0 then used + [SymFreq(counts[m], m)] else used)
  {
    if counts[m] > 0 {
      OneMoreOccurs(counts, m, used);
    }
  }

  lemma {:induction false} OneMoreOccurs(counts: seq<nat>, m: nat, used: seq<SymFreq>)
    requires Occurring(counts, m, used) && m < |counts| && counts[m] > 0
    ensures Occurring(counts, m + 1, used + [SymFreq(counts[m], m)])
  {
    var used' := used + [SymFreq(counts[m], m)];
    assert used'[|used|].sym == m;
    forall s | 0 <= s < m && counts[s] > 0
      ensures exists i :: 0 <= i < |used'| && used'[i].sym == s
    {
      var i :| 0 <= i < |used| && used[i].sym == s;
      assert used'[i].sym == s;
    }
  }

  method Collect(counts: array<nat>) returns (used: seq<SymFreq>)
    ensures Occurring(counts[..], counts.Length, used) && Sum(Keys(used)) == Sum(counts[..]) && |used| == Used(counts[..])
  {
    hide Occurring, Sum, Keys, Used;
    ghost var c := counts[..];
    used := [];
    NothingOccurs(c);
    for i := 0 to counts.Length
      invariant Occurring(c, i, used) && Sum(Keys(used)) == Sum(c[..i]) && |used| == Used(c[..i])
    {
      OneOccurs(c, i, used);
      SumNext(c, i);
      KeysAppend(used, SymFreq(c[i], i));
      if counts[i] != 0 {
        used := used + [SymFreq(counts[i], i)];
      }
    }
    assert c[..counts.Length] == c;
  }

  lemma NothingOccurs(c: seq<nat>)
    ensures Occurring(c, 0, []) && Sum(Keys([])) == Sum(c[..0]) && Used(c[..0]) == 0
  {
  }

  // ---------- The order does not matter to the sum ----------

  lemma {:induction false} SumWithout(s: seq<nat>, k: nat)
    requires k < |s|
    ensures Sum(s) == Sum(Without(s, k)) + s[k]
    decreases k
  {
    if k == 0 {
      assert Without(s, 0) == s[1..];
    } else {
      SumWithout(s[1..], k - 1);
      assert Without(s, k)[1..] == Without(s[1..], k - 1);
    }
  }

  lemma {:induction false} SumRearranged(s: seq<nat>, t: seq<nat>, from: seq<nat>)
    requires Rearranged(s, t, from)
    ensures Sum(s) == Sum(t)
    decreases |s|
  {
    if s != [] {
      var n := |s| - 1;
      var rest := OneLess(s, t, from);
      SumRearranged(Without(s, from[n]), t[..n], rest);
      SumWithout(s, from[n]);
      assert t == t[..n] + [t[n]];
      SumAppend(t[..n], t[n]);
    }
  }

  /** What is known of the symbols once they are sorted. */
  ghost predicate Sorted(counts: seq<nat>, s: seq<SymFreq>) {
    Ascending(s) && TiesInOrder(s) && Sum(Keys(s)) == Sum(counts) && AllSymbols(counts, s)
  }

  /** Symbols that occur equally often are in the order of the alphabet. */
  ghost predicate TiesInOrder(s: seq<SymFreq>) { forall i, k :: 0 <= i < k < |s| && s[i].key == s[k].key ==> s[i].sym < s[k].sym }

  lemma SortedNow(counts: seq<nat>, used: seq<SymFreq>, s: seq<SymFreq>, from: seq<nat>)
    requires Occurring(counts, |counts|, used) && Sum(Keys(used)) == Sum(counts) && Rearranged(used, s, from) && Ascending(s)
    requires Stable(s, from)
    ensures Sorted(counts, s)
  {
    hide Sum, Keys, Ascending, TiesInOrder, AllSymbols, Occurring, Rearranged;
    TiesStay(counts, used, s, from);
    KeysRearranged(used, s, from);
    SumRearranged(Keys(used), Keys(s), from);
    AllThere(counts, used, s, from);
  }

  lemma KeysRearranged(used: seq<SymFreq>, s: seq<SymFreq>, from: seq<nat>)
    requires Rearranged(used, s, from)
    ensures Rearranged(Keys(used), Keys(s), from)
  {
  }

  lemma TiesStay(counts: seq<nat>, used: seq<SymFreq>, s: seq<SymFreq>, from: seq<nat>)
    requires Occurring(counts, |counts|, used) && Rearranged(used, s, from) && Stable(s, from)
    ensures TiesInOrder(s)
  {
    forall i, k | 0 <= i < k < |s| && s[i].key == s[k].key
      ensures s[i].sym < s[k].sym
    {
      assert used[from[i]].sym < used[from[k]].sym;
    }
  }

  lemma AllThere(counts: seq<nat>, used: seq<SymFreq>, s: seq<SymFreq>, from: seq<nat>)
    requires Occurring(counts, |counts|, used) && Rearranged(used, s, from)
    ensures AllSymbols(counts, s)
  {
    forall i, k | 0 <= i < k < |s|
      ensures s[i].sym != s[k].sym
    {
      assert from[i] != from[k];
      assert used[from[i]].sym != used[from[k]].sym;
    }
    forall x | 0 <= x < |counts| && counts[x] > 0
      ensures Present(s, x)
    {
      var u :| 0 <= u < |used| && used[u].sym == x;
      var i := Target(used, s, from, u);
      assert s[i].sym == x;
    }
  }

  /** Each element has gone somewhere. */
  lemma {:induction false} Target<T>(s: seq<T>, t: seq<T>, from: seq<nat>, u: nat) returns (i: nat)
    requires Rearranged(s, t, from) && u < |s|
    ensures i < |t| && from[i] == u
    decreases |s|
  {
    var n := |s| - 1;
    var k := from[n];
    if k == u {
      i := n;
    } else {
      var rest := OneLess(s, t, from);
      i := Target(Without(s, k), t[..n], rest, if u < k then u else u - 1);
    }
  }

  // ---------- Lengths are given out ----------

  /** Symbols from j on have lengths, the longer the rarer; there are as many of each length as there should be. */
  ghost predicate Given(sizes: seq<nat>, s: seq<SymFreq>, j: nat, limit: nat) {
    && j <= |s| && SymsBelow(s, |sizes|)
    && (forall i :: 0 <= i < j ==> sizes[s[i].sym] == 0)
    && (forall i :: j <= i < |s| ==> 1 <= sizes[s[i].sym] <= limit)
    && (forall i, k :: j <= i <= k < |s| ==> sizes[s[k].sym] <= sizes[s[i].sym])
    && (forall x :: 0 <= x < |sizes| && sizes[x] > 0 ==> Present(s, x))
  }

  lemma GiveOne(sizes: seq<nat>, s: seq<SymFreq>, j: nat, limit: nat, len: nat)
    requires Given(sizes, s, j, limit) && 0 < j && 1 <= len <= limit
    requires forall i, k :: 0 <= i < k < |s| ==> s[i].sym != s[k].sym
    requires j < |s| ==> sizes[s[j].sym] <= len
    ensures s[j - 1].sym < |sizes| && sizes[s[j - 1].sym] == 0 && Given(sizes[s[j - 1].sym := len], s, j - 1, limit)
  {
    assert s[j - 1].sym < |sizes|;
    var sizes' := sizes[s[j - 1].sym := len];
    forall x | 0 <= x < |sizes'| && sizes'[x] > 0
      ensures Present(s, x)
    {
      if x == s[j - 1].sym {
        assert s[j - 1].sym == x;
      }
    }
  }

  lemma HistoUpdated(d: seq<nat>, k: nat, v: nat)
    requires k < |d| && d[k] == 0 && 1 <= v
    ensures forall l :: 1 <= l ==> Histo(d[k := v], l) == Histo(d, l) + if v == l then 1 else 0
  {
    hide Histo;
    forall l: nat | 1 <= l
      ensures Histo(d[k := v], l) == Histo(d, l) + if v == l then 1 else 0
    {
      HistoUpdate(d, k, v, l);
    }
  }

  /** Lengths below i have been given out as often as they should be, and others not at all. */
  ghost predicate AsCounted(sizes: seq<nat>, c: seq<nat>, i: nat)
    requires i <= |c|
  {
    && (forall l :: 1 <= l < i ==> Histo(sizes, l) == c[l])
    && (forall l :: i <= l && 1 <= l ==> Histo(sizes, l) == 0)
  }

  ghost predicate AtMost(sizes: seq<nat>, b: nat) { forall x :: 0 <= x < |sizes| ==> sizes[x] <= b }

  lemma {:induction false} CountMono(c: seq<nat>, m: nat, n: nat)
    requires m <= n < |c|
    ensures Count(c, m) <= Count(c, n)
    decreases n
  {
    if m < n {
      CountMono(c, m, n - 1);
    }
  }

  /** One symbol gets this length. */
  lemma GiveNext(sizes: seq<nat>, s: seq<SymFreq>, j: nat, limit: nat, len: nat, sizes': seq<nat>)
    requires Given(sizes, s, j, limit) && 0 < j && 1 <= len <= limit && SymsDiffer(s) && AtMost(sizes, len)
    requires s[j - 1].sym < |sizes| && sizes' == sizes[s[j - 1].sym := len]
    ensures Given(sizes', s, j - 1, limit) && AtMost(sizes', len)
    ensures forall l :: 1 <= l ==> Histo(sizes', l) == Histo(sizes, l) + if len == l then 1 else 0
  {
    hide Histo;
    GiveOne(sizes, s, j, limit, len);
    HistoUpdated(sizes, s[j - 1].sym, len);
  }

  lemma InAlphabet(sizes: seq<nat>, s: seq<SymFreq>, j: nat, limit: nat)
    requires Given(sizes, s, j, limit) && 0 < j
    ensures j <= |s| && s[j - 1].sym < |sizes|
  {
  }

  /** This length is given out. */
  method GiveLength(cur: array<SymFreq>, sizes: array<nat>, len: nat, count: nat, j: nat, ghost limit: nat) returns (j': nat)
    requires 1 <= len <= limit && count <= j && Given(sizes[..], cur[..], j, limit) && AtMost(sizes[..], len) && SymsDiffer(cur[..])
    modifies sizes
    ensures j' == j - count && Given(sizes[..], cur[..], j', limit) && AtMost(sizes[..], len)
    ensures forall l :: 1 <= l ==> Histo(sizes[..], l) == Histo(old(sizes[..]), l) + if len == l then count else 0
  {
    hide Given, AtMost, SymsDiffer, Histo;
    j' := j;
    var l := count;
    ghost var s := cur[..];
    while l > 0
      invariant 0 <= l <= count && j' == j - (count - l) && Given(sizes[..], s, j', limit) && AtMost(sizes[..], len)
      invariant forall k :: 1 <= k ==> Histo(sizes[..], k) == Histo(old(sizes[..]), k) + if len == k then count - l else 0
    {
      InAlphabet(sizes[..], s, j', limit);
      ghost var before := sizes[..];
      j' := j' - 1;
      sizes[cur[j'].sym] := len;
      GiveNext(before, s, j' + 1, limit, len, sizes[..]);
      l := l - 1;
    }
  }

  lemma NothingGiven(sizes: seq<nat>, s: seq<SymFreq>, limit: nat, c: seq<nat>)
    requires (forall x :: 0 <= x < |sizes| ==> sizes[x] == 0) && (forall i :: 0 <= i < |s| ==> s[i].sym < |sizes|) && 1 <= |c|
    ensures Given(sizes, s, |s|, limit) && AtMost(sizes, 0) && AsCounted(sizes, c, 1)
  {
    hide Histo;
    forall l | 1 <= l
      ensures Histo(sizes, l) == 0
    {
      NoneSuch(sizes, l);
    }
  }

  lemma AtMostMore(sizes: seq<nat>, a: nat, b: nat)
    requires AtMost(sizes, a) && a <= b
    ensures AtMost(sizes, b)
  {
  }

  /** The rarest symbols come last, and get what is left of the longest lengths. */
  method GiveLengths(cur: array<SymFreq>, numCodes: array<nat>, limit: nat, sizes: array<nat>)
    requires 1 <= limit < numCodes.Length && Count(numCodes[..], limit) == cur.Length && sizes != numCodes
    requires SymsDiffer(cur[..]) && forall i :: 0 <= i < cur.Length ==> cur[i].sym < sizes.Length
    modifies sizes
    ensures Given(sizes[..], cur[..], 0, limit) && AtMost(sizes[..], limit) && AsCounted(sizes[..], numCodes[..], limit + 1)
  {
    hide Given, AtMost, SymsDiffer, Histo;
    ghost var c, s := numCodes[..], cur[..];
    for x := 0 to sizes.Length
      invariant forall k :: 0 <= k < x ==> sizes[k] == 0
    {
      sizes[x] := 0;
    }
    NothingGiven(sizes[..], s, limit, c);
    var j := cur.Length;
    for i := 1 to limit + 1
      invariant 0 <= j <= |s| && j + Count(c, i - 1) == |s| && Given(sizes[..], s, j, limit) && AtMost(sizes[..], i - 1)
      invariant AsCounted(sizes[..], c, i)
    {
      CountMono(c, i, limit);
      AtMostMore(sizes[..], i - 1, i);
      j := GiveLength(cur, sizes, i, numCodes[i], j, limit);
    }
  }

  // ---------- They are the lengths of a code ----------

  lemma {:induction false} UnitsDouble(c: seq<nat>, m: nat, max: nat)
    requires m < |c| && m <= max
    ensures Units(c, m, max + 1) == 2 * Units(c, m, max)
  {
    hide Pow2;
    if m > 0 {
      UnitsDouble(c, m - 1, max);
      Halves(max + 1, m);
      Regroup(2, c[m], Pow2(max - m));
      Regroup(c[m], 2, Pow2(max - m));
    }
  }

  lemma {:induction false} KraftIsUnits(sizes: seq<nat>, c: seq<nat>, m: nat)
    requires m < |c| && forall l :: 1 <= l <= m ==> Histo(sizes, l) == c[l]
    ensures Kraft(sizes, m) == Units(c, m, m)
  {
    hide Kraft, Histo;
    if m == 0 {
      KraftOfNothing(sizes);
    } else {
      KraftIsUnits(sizes, c, m - 1);
      KraftDoubles(sizes, m);
      UnitsDouble(c, m - 1, m - 1);
      Pow2OfNone(c[m], 0);
    }
  }

  /** Where there are no longer ones, more bits change nothing. */
  lemma {:induction false} KraftOfMore(sizes: seq<nat>, limit: nat, m: nat)
    requires AtMost(sizes, limit) && limit <= m
    ensures Kraft(sizes, m) == Kraft(sizes, limit) * Pow2(m - limit)
    decreases m
  {
    hide Kraft, Histo;
    if limit < m {
      KraftOfMore(sizes, limit, m - 1);
      KraftDoubles(sizes, m);
      NoneOf(sizes, limit, m);
      Regroup(2, Kraft(sizes, limit), Pow2(m - 1 - limit));
      Regroup(Kraft(sizes, limit), 2, Pow2(m - 1 - limit));
    }
  }

  /** The inflater takes these lengths: they fill the space of codes, or there is only one. */
  lemma GoodSizes(sizes: seq<nat>, c: seq<nat>, s: seq<SymFreq>, limit: nat)
    requires 1 <= limit <= 15 && limit < |c| && AtMost(sizes, limit) && AsCounted(sizes, c, limit + 1)
    requires Given(sizes, s, 0, limit) && Count(c, limit) == |s| <= Pow2(limit)
    requires |s| > 1 ==> Units(c, limit, limit) == Pow2(limit)
    ensures SizesGood(sizes) && (|s| > 1 ==> Full(sizes))
  {
    hide Kraft, Histo, First, Pow2, Units, Count, Given, OnlyOne, AtMost, AsCounted;
    SizesAre(sizes, c, s, limit);
    SpaceTaken(sizes, c, limit);
    if |s| <= 1 {
      UnitsBound(c, limit, limit);
      TimesMono(|s|, 1, Pow2(limit));
      FewAreOne(sizes, s, limit);
    }
    SpaceFits(Units(c, limit, limit), limit);
  }

  lemma SizesAre(sizes: seq<nat>, c: seq<nat>, s: seq<SymFreq>, limit: nat)
    requires 1 <= limit <= 15 && limit < |c| && AtMost(sizes, limit) && AsCounted(sizes, c, limit + 1)
    ensures Sized(sizes) && forall l :: 1 <= l <= limit ==> Histo(sizes, l) == c[l]
  {
    hide Histo;
  }

  /** What the codes take of the space for 15 bits. */
  lemma SpaceTaken(sizes: seq<nat>, c: seq<nat>, limit: nat)
    requires 1 <= limit <= 15 && limit < |c| && AtMost(sizes, limit) && forall l :: 1 <= l <= limit ==> Histo(sizes, l) == c[l]
    ensures First(sizes, 15) + Histo(sizes, 15) == Units(c, limit, limit) * Pow2(15 - limit)
  {
    hide Kraft, Histo, First, Pow2, Units;
    KraftIsUnits(sizes, c, limit);
    KraftOfMore(sizes, limit, 15);
    ReachIsKraft(sizes, 15);
  }

  lemma SpaceFits(units: nat, limit: nat)
    requires 1 <= limit <= 15 && units <= Pow2(limit)
    ensures units * Pow2(15 - limit) <= 0x8000 && (units == Pow2(limit) ==> units * Pow2(15 - limit) == 0x8000)
  {
    hide Pow2;
    Pow2Add(limit, 15 - limit);
    Pow2Fifteen();
    TimesMono(units, Pow2(limit), Pow2(15 - limit));
  }

  lemma FewAreOne(sizes: seq<nat>, s: seq<SymFreq>, limit: nat)
    requires Given(sizes, s, 0, limit) && |s| <= 1
    ensures OnlyOne(sizes)
  {
    assert forall x :: 0 <= x < |sizes| && sizes[x] > 0 ==> Present(s, x);
  }

  // ---------- The whole ----------

  method CountLengths(keys: array<nat>) returns (numCodes: array<nat>)
    requires forall i :: 0 <= i < keys.Length ==> keys[i] <= 32
    ensures fresh(numCodes) && numCodes.Length == 33 && Counts(numCodes[..], keys[..])
  {
    hide Histo;
    ghost var lens := keys[..];
    numCodes := new nat[33](_ => 0);
    HistoOfNone(lens);
    for i := 0 to keys.Length
      invariant forall l :: 0 <= l <= 32 ==> numCodes[l] == Histo(lens[..i], l)
    {
      OneMore(lens, i);
      numCodes[keys[i]] := numCodes[keys[i]] + 1;
    }
    assert lens[..keys.Length] == lens;
  }

  /** The symbols that occur, sorted, and their keys in an array of their own. */
  method SortedSymbols(counts: array<nat>) returns (cur: array<SymFreq>, keys: array<nat>)
    requires Sum(counts[..]) < KEY_SIZE
    ensures fresh(cur) && fresh(keys) && Sorted(counts[..], cur[..]) && keys[..] == Keys(cur[..]) && cur.Length == Used(counts[..])
  {
    hide Occurring, Sum, Used, Ascending, Sorted, Rearranged, Stable;
    ghost var c := counts[..];
    var used := Collect(counts);
    KeysFit(c, used);
    var n := |used|;
    var syms0 := new SymFreq[n](i requires 0 <= i < n => used[i]);
    var syms1 := new SymFreq[n](_ => SymFreq(0, 0));
    assert syms0[..] == used;
    ghost var from;
    cur, from := RadixSort(syms0, syms1);
    SortedNow(c, used, cur[..], from);
    ghost var s := cur[..];
    keys := new nat[n];
    forall i | 0 <= i < n {
      keys[i] := cur[i].key;
    }
    assert counts[..] == c && cur[..] == s;
  }

  lemma {:induction false} PartOfSum(s: seq<nat>, i: nat)
    requires i < |s|
    ensures s[i] <= Sum(s)
    decreases i
  {
    if i > 0 {
      PartOfSum(s[1..], i - 1);
    }
  }

  lemma KeysFit(counts: seq<nat>, used: seq<SymFreq>)
    requires Sum(Keys(used)) == Sum(counts) < KEY_SIZE
    ensures forall i :: 0 <= i < |used| ==> used[i].key < 0x1_0000
  {
    forall i | 0 <= i < |used|
      ensures used[i].key < 0x1_0000
    {
      PartOfSum(Keys(used), i);
    }
  }

  lemma KeysAscend(counts: seq<nat>, s: seq<SymFreq>)
    requires Sorted(counts, s) && Sum(counts) < KEY_SIZE
    ensures (forall i, k :: 0 <= i <= k < |s| ==> 1 <= Keys(s)[i] <= Keys(s)[k]) && Sum(Keys(s)) == Sum(counts) < KEY_SIZE
    ensures SymsDiffer(s) && forall i :: 0 <= i < |s| ==> s[i].sym < |counts|
  {
    hide Sum;
  }

  lemma NumbersOfCodes(lens: seq<nat>, c: seq<nat>, limit: nat)
    requires Counts(c, lens) && (|lens| == 1 ==> lens[0] == 1) && (|lens| >= 2 ==> FullLengths(lens)) && 1 <= limit <= 32
    ensures Count(c, 32) == |lens| && (|lens| > 1 ==> Units(c, 32, 32) == Pow2(32)) && (|lens| <= 1 ==> Count(c, limit) == |lens|)
  {
    hide Units, Kraft, Pow2;
    UnitsAreKraft(c, lens);
    CountMono(c, 1, limit);
    CountMono(c, limit, 32);
    if |lens| == 1 {
      assert c[1] == Histo(lens, 1) == 1;
      assert Count(c, 1) == Count(c, 0) + c[1];
    }
  }

  /** Just the symbols that occur have codes; more frequent ones do not have longer ones, and of equally frequent ones the
      later do not. */
  ghost predicate LengthsFit(counts: seq<nat>, sizes: seq<nat>, limit: nat) {
    && |sizes| == |counts|
    && (forall x :: 0 <= x < |sizes| ==> sizes[x] <= limit && (sizes[x] > 0 <==> counts[x] > 0))
    && (forall x, y :: 0 <= x < |sizes| && 0 <= y < |sizes| && Rarer(counts, x, y) ==> sizes[y] <= sizes[x])
  }

  /** In the order of the sort. */
  predicate Rarer(counts: seq<nat>, x: nat, y: nat)
    requires x < |counts| && y < |counts|
  {
    0 < counts[x] <= counts[y] && (counts[x] == counts[y] ==> x < y)
  }

  lemma GivenFits(counts: seq<nat>, sizes: seq<nat>, s: seq<SymFreq>, limit: nat)
    requires Sorted(counts, s) && Given(sizes, s, 0, limit) && |sizes| == |counts|
    ensures LengthsFit(counts, sizes, limit)
  {
    hide Sum, Ascending, Present;
    forall x | 0 <= x < |sizes|
      ensures sizes[x] <= limit && (sizes[x] > 0 <==> counts[x] > 0)
    {
      if sizes[x] > 0 || counts[x] > 0 {
        var i := Where(s, x);
        assert s[i].key == counts[x];
      }
    }
    forall x, y | 0 <= x < |sizes| && 0 <= y < |sizes| && Rarer(counts, x, y)
      ensures sizes[y] <= sizes[x]
    {
      var i := Where(s, x);
      var k := Where(s, y);
      Earlier(s, i, k);
    }
  }

  lemma Where(s: seq<SymFreq>, x: nat) returns (i: nat)
    requires Present(s, x)
    ensures i < |s| && s[i].sym == x
  {
    i :| i < |s| && s[i].sym == x;
  }

  lemma Earlier(s: seq<SymFreq>, i: nat, k: nat)
    requires Ascending(s) && TiesInOrder(s) && i < |s| && k < |s|
    requires s[i].key <= s[k].key && (s[i].key == s[k].key ==> s[i].sym < s[k].sym)
    ensures i < k
  {
  }

  // ---------- The best code ----------

  /** With few symbols in all, no length needs to be limited. */
  lemma FewAreShort(t: seq<nat>, total: nat, c: seq<nat>, limit: nat)
    requires Shallow(t, total) && total < Fib(limit + 3) && Counts(c, t)
    ensures NoneLonger(c, limit) && AtMost(t, limit)
  {
    hide Fib, Histo;
    forall i | 0 <= i < |t|
      ensures t[i] <= limit
    {
      if limit < t[i] {
        FibMono(limit + 3, t[i] + 2);
      }
    }
    forall l | limit < l < |c|
      ensures c[l] == 0
    {
      if 1 <= Histo(t, l) {
        var k := SomeOfHisto(t, l);
        assert false;
      }
    }
  }

  /** Then each symbol gets the length that is best for its weight. */
  lemma LengthsKept(sizes: seq<nat>, s: seq<SymFreq>, t: seq<nat>, c: seq<nat>, limit: nat)
    requires |c| == 33 && limit < 33 && Given(sizes, s, 0, limit) && SymsDiffer(s) && AsCounted(sizes, c, limit + 1)
    requires Counts(c, t) && AtMost(t, limit) && |t| == |s| && FullLengths(t)
    ensures SymsBelow(s, |sizes|) && LengthsOf(sizes, s) == t
  {
    hide Histo, Kraft;
    var r := LengthsOf(sizes, s);
    forall l: nat
      ensures Histo(r, l) == Histo(t, l)
    {
      if l == 0 || limit < l {
        NoneSuch(r, l);
        NoneSuch(t, l);
      } else {
        TakenHisto(sizes, s, l);
      }
    }
    SameLengths(r, t);
  }

  lemma NoBetterCode(counts: seq<nat>, sizes: seq<nat>, s: seq<SymFreq>, t: seq<nat>, c: seq<nat>, limit: nat)
    requires |c| == 33 && limit < 33 && |sizes| == |counts| && Sorted(counts, s) && Given(sizes, s, 0, limit)
    requires AsCounted(sizes, c, limit + 1) && Counts(c, t) && AtMost(t, limit) && |t| == |s| && FullLengths(t)
    requires Cheapest(Keys(s), t) && Flattest(Keys(s), t)
    ensures BestFor(counts, sizes) && FlattestFor(counts, sizes)
  {
    hide Given, AsCounted, Counts, AtMost, FullLengths, Cheapest, Flattest, Sum, Keys;
    LengthsKept(sizes, s, t, c, limit);
    BestOfAll(counts, s, sizes);
    FlattestOfAll(counts, s, sizes);
  }

  /** For any symbols that occur less than 2^16 times together, and are not more than there are codes of the greatest
      length, this makes a code that the inflater takes; if they occur so rarely that no length needs to be limited, there
      is no better one, and of those as good none has less bits. */
  method OptimizeHuffmanTable(counts: array<nat>, limit: nat, sizes: array<nat>, codes: array<nat>)
    requires counts != sizes && counts != codes && sizes != codes && counts.Length == sizes.Length == codes.Length
    requires 1 <= limit <= 15 && Sum(counts[..]) < KEY_SIZE && Used(counts[..]) <= Pow2(limit)
    modifies sizes, codes
    ensures SizesGood(sizes[..]) && (Used(counts[..]) >= 2 ==> Full(sizes[..]))
    ensures LengthsFit(counts[..], sizes[..], limit)
    ensures 2 <= Used(counts[..]) && Sum(counts[..]) < Fib(limit + 3) ==>
      BestFor(counts[..], sizes[..]) && FlattestFor(counts[..], sizes[..])
    ensures forall x :: 0 <= x < sizes.Length && 1 <= sizes[x] ==> codes[x] == Number(Path(sizes[..], x))
  {
    hide Sum, Used, Sorted, Keys, Counts, Count, Units, Pow2, Histo, FullLengths, Given, AtMost, AsCounted, SymsDiffer, Full, Fits;
    hide Fib, Cheapest, Flattest, Shallow, BestFor, FlattestFor, NoneLonger, KeptIfRoom;
    ghost var c := counts[..];
    var cur, keys := SortedSymbols(counts);
    KeysAscend(c, cur[..]);
    MinimumRedundancy(keys);
    LengthsBounded(keys[..]);
    var numCodes := CountLengths(keys);
    NumbersOfCodes(keys[..], numCodes[..], limit);
    ghost var t, numbers := keys[..], numCodes[..];
    EnforceMaxCodeSize(numCodes, cur.Length, limit);
    GiveLengths(cur, numCodes, limit, sizes);
    GoodSizes(sizes[..], numCodes[..], cur[..], limit);
    GivenFits(c, sizes[..], cur[..], limit);
    if 2 <= Used(c) && Sum(c) < Fib(limit + 3) {
      FewAreShort(t, Sum(c), numbers, limit);
      NoBetterCode(c, sizes[..], cur[..], t, numbers, limit);
    }
    CountsForCodes(sizes[..], numCodes[..], limit);
    AssignCodes(sizes, limit, numCodes, codes);
  }

  lemma CountsForCodes(sizes: seq<nat>, c: seq<nat>, limit: nat)
    requires limit < |c| && AtMost(sizes, limit) && AsCounted(sizes, c, limit + 1)
    ensures (forall i :: 0 <= i < |sizes| ==> sizes[i] <= limit) && forall l :: 1 <= l <= limit ==> c[l] == Histo(sizes, l)
  {
    hide Histo;
  }

  lemma LengthsBounded(lens: seq<nat>)
    requires (|lens| == 1 ==> lens[0] == 1) && (|lens| >= 2 ==> FullLengths(lens))
    ensures forall i :: 0 <= i < |lens| ==> lens[i] <= 32
  {
    hide Kraft;
  }
}
