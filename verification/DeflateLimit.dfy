/** Limiting the lengths of codes (tdefl_huffman_enforce_max_code_size), on the numbers of codes of each length. */
module DeflateLimit {
  import opened CodeLengths
  import opened Powers

  /** How many codes there are of lengths 1 to m. */
  function Count(c: seq<nat>, m: nat): nat
    requires m < |c|
  {
    if m == 0 then 0 else Count(c, m - 1) + c[m]
  }

  /** What the codes of lengths 1 to m take of the code space, of which 2^max is all. */
  function Units(c: seq<nat>, m: nat, max: nat): nat
    requires m < |c| && m <= max
  {
    if m == 0 then 0 else Units(c, m - 1, max) + c[m] * Pow2(max - m)
  }

  lemma {:induction false} CountUpdate(c: seq<nat>, m: nat, k: nat, v: nat)
    requires m < |c| && 1 <= k < |c|
    ensures Count(c[k := v], m) == if k <= m then Count(c, m) - c[k] + v else Count(c, m)
  {
    if m > 0 {
      CountUpdate(c, m - 1, k, v);
    }
  }

  lemma {:induction false} UnitsUpdate(c: seq<nat>, m: nat, max: nat, k: nat, v: nat)
    requires m < |c| && m <= max && 1 <= k < |c|
    ensures k > m ==> Units(c[k := v], m, max) == Units(c, m, max)
    ensures k <= m ==> Units(c[k := v], m, max) + c[k] * Pow2(max - k) == Units(c, m, max) + v * Pow2(max - k)
  {
    hide Pow2;
    if m > 0 {
      UnitsUpdate(c, m - 1, max, k, v);
    }
  }

  /** The numbers of codes of these lengths. */
  ghost predicate Counts(c: seq<nat>, lens: seq<nat>) { |c| == 33 && forall l :: 0 <= l <= 32 ==> c[l] == Histo(lens, l) }

  lemma {:induction false} UnitsOfNone(c: seq<nat>, m: nat, max: nat)
    requires m < |c| && m <= max && forall l :: 0 <= l < |c| ==> c[l] == 0
    ensures Units(c, m, max) == 0 && Count(c, m) == 0
  {
    if m > 0 {
      UnitsOfNone(c, m - 1, max);
    }
  }

  /** They take what the codes take, and there are as many. */
  lemma {:induction false} UnitsAreKraft(c: seq<nat>, lens: seq<nat>)
    requires Counts(c, lens) && forall i :: 0 <= i < |lens| ==> 1 <= lens[i] <= 32
    ensures Units(c, 32, 32) == Kraft(lens, 32) && Count(c, 32) == |lens|
    decreases |lens|
  {
    hide Units, Count, Pow2;
    if lens == [] {
      UnitsOfNone(c, 32, 32);
    } else {
      var l := lens[|lens| - 1];
      var c' := c[l := c[l] - 1];
      UnitsAreKraft(c', lens[..|lens| - 1]);
      assert c == c'[l := c'[l] + 1];
      UnitsUpdate(c', 32, 32, l, c'[l] + 1);
      CountUpdate(c', 32, l, c'[l] + 1);
      Regroup(c'[l], 1, Pow2(32 - l));
    }
  }

  // ---------- Folding what is too long ----------

  lemma {:induction false} UnitsScale(c: seq<nat>, m: nat, max: nat)
    requires m < |c| && m <= max <= 32
    ensures Units(c, m, 32) == Units(c, m, max) * Pow2(32 - max)
  {
    hide Pow2;
    if m > 0 {
      UnitsScale(c, m - 1, max);
      Pow2Add(max - m, 32 - max);
      Regroup(c[m], Pow2(max - m), Pow2(32 - max));
      Distribute(Units(c, m - 1, max), c[m] * Pow2(max - m), Pow2(32 - max));
    }
  }

  /** Longer codes take less. */
  lemma {:induction false} UnitsBehind(c: seq<nat>, m: nat, max: nat)
    requires |c| == 33 && max <= m <= 32
    ensures Count(c, max) <= Count(c, m) && Units(c, max, 32) <= Units(c, m, 32)
    ensures Units(c, m, 32) <= Units(c, max, 32) + (Count(c, m) - Count(c, max)) * Pow2(32 - max)
    decreases m
  {
    hide Pow2, Units, Count;
    if max < m {
      UnitsBehind(c, m - 1, max);
      UnitsNext(c, m, 32);
      Pow2Mono(32 - m, 32 - max);
      TimesMono(Pow2(32 - m), Pow2(32 - max), c[m]);
      Distribute(Count(c, m - 1) - Count(c, max), c[m], Pow2(32 - max));
    }
  }

  function Folded(c: seq<nat>, max: nat): seq<nat>
    requires |c| == 33 && 1 <= max <= 32
  {
    UnitsBehind(c, 32, max);
    c[max := c[max] + (Count(c, 32) - Count(c, max))]
  }

  /** Folded, the codes take too much, but not by more than one unit for each of the longest. */
  lemma FoldedUnits(c: seq<nat>, max: nat)
    requires |c| == 33 && 1 <= max <= 32 && Units(c, 32, 32) == Pow2(32)
    ensures var c' := Folded(c, max);
            Count(c', max) == Count(c, 32) && Pow2(max) <= Units(c', max, max) <= Pow2(max) + c'[max]
  {
    hide Pow2, Units, Count;
    var p, t := Pow2(32 - max), Count(c, 32) - Count(c, max);
    UnitsBehind(c, 32, max);
    UnitsScale(c, max, max);
    Pow2Add(max, 32 - max);
    Distribute(Units(c, max, max), t, p);
    CancelAtMost(Pow2(max), Units(c, max, max) + t, p);
    CancelAtMost(Units(c, max, max), Pow2(max), p);
    UnitsUpdate(c, max, max, max, c[max] + t);
    CountUpdate(c, max, max, c[max] + t);
    Pow2OfNone(c[max], t);
  }

  lemma Pow2OfNone(a: nat, t: nat)
    ensures Pow2(0) == 1 && a * Pow2(0) == a && (a + t) * Pow2(0) == a + t
  {
  }

  // ---------- One code of a shorter length for two of the next ----------

  lemma {:induction false} OnlyLongest(c: seq<nat>, m: nat, max: nat)
    requires m < |c| && m <= max && forall i :: 1 <= i <= m ==> c[i] == 0
    ensures Units(c, m, max) == 0 && Count(c, m) == 0
  {
    if m > 0 {
      OnlyLongest(c, m - 1, max);
    }
  }

  /** When too much is taken, not all are of the greatest length. */
  lemma SomeShorter(c: seq<nat>, max: nat)
    requires 1 <= max < |c| && Count(c, max) <= Pow2(max) < Units(c, max, max)
    ensures exists i :: 1 <= i < max && c[i] > 0
  {
    Pow2OfNone(c[max], 0);
    if forall i :: 1 <= i < max ==> c[i] == 0 {
      OnlyLongest(c, max - 1, max);
    }
  }

  /** A longest code goes; one of length i becomes two of the next. */
  function Exchanged(c: seq<nat>, max: nat, i: nat): seq<nat>
    requires 1 <= i < max < |c| && 1 <= c[max] && 1 <= c[i]
  {
    var b := c[max := c[max] - 1][i := c[i] - 1];
    b[i + 1 := b[i + 1] + 2]
  }

  lemma ExchangedUnits(c: seq<nat>, max: nat, i: nat)
    requires 1 <= i < max < |c| && 1 <= c[max] && 1 <= c[i]
    ensures var c' := Exchanged(c, max, i);
            Units(c', max, max) == Units(c, max, max) - 1 && Count(c', max) == Count(c, max) && c[max] - 1 <= c'[max]
  {
    hide Pow2, Units, Count;
    var a := c[max := c[max] - 1];
    var b := a[i := c[i] - 1];
    UnitsUpdate(c, max, max, max, c[max] - 1);
    CountUpdate(c, max, max, c[max] - 1);
    Pow2OfNone(c[max] - 1, 1);
    UnitsUpdate(a, max, max, i, c[i] - 1);
    CountUpdate(a, max, i, c[i] - 1);
    UnitsUpdate(b, max, max, i + 1, b[i + 1] + 2);
    CountUpdate(b, max, i + 1, b[i + 1] + 2);
    Distribute(c[i] - 1, 1, Pow2(max - i));
    Distribute(b[i + 1], 2, Pow2(max - (i + 1)));
    Halves(max, i);
  }

  lemma Halves(max: nat, i: nat)
    requires i < max
    ensures Pow2(max - i) == 2 * Pow2(max - (i + 1))
  {
  }

  /** The shifts do not lose anything. */
  lemma {:induction false} UnitsBound(c: seq<nat>, m: nat, max: nat)
    requires m < |c| && m <= max
    ensures Units(c, m, max) <= Count(c, m) * Pow2(max)
  {
    hide Pow2;
    if m > 0 {
      UnitsBound(c, m - 1, max);
      Pow2Mono(max - m, max);
      TimesMono(Pow2(max - m), Pow2(max), c[m]);
      Distribute(Count(c, m - 1), c[m], Pow2(max));
    }
  }

  lemma TotalFits(c: seq<nat>, max: nat)
    requires 1 <= max < |c| && max <= 15 && Count(c, max) <= Pow2(max)
    ensures Units(c, max, max) < 0x1_0000_0000
  {
    hide Pow2, Units, Count;
    UnitsBound(c, max, max);
    Pow2Mono(max, 15);
    Pow2Small();
    Pow2Add(8, 7);
    TimesMono(Count(c, max), 0x8000, Pow2(max));
    TimesMono(Pow2(max), 0x8000, 0x8000);
  }

  // ---------- Nothing to limit ----------

  ghost predicate NoneLonger(c: seq<nat>, max: nat) { forall i :: max < i < |c| ==> c[i] == 0 }

  lemma {:induction false} NoneBehind(c: seq<nat>, m: nat, max: nat)
    requires max <= m < |c| && m <= 32 && NoneLonger(c, max)
    ensures Count(c, m) == Count(c, max) && Units(c, m, 32) == Units(c, max, 32)
    decreases m
  {
    hide Pow2;
    if max < m {
      NoneBehind(c, m - 1, max);
    }
  }

  lemma NothingToLimit(c: seq<nat>, max: nat)
    requires |c| == 33 && 1 <= max <= 32 && NoneLonger(c, max) && Units(c, 32, 32) == Pow2(32)
    ensures Folded(c, max) == c && Units(c, max, max) == Pow2(max)
  {
    hide Pow2, Units, Count;
    NoneBehind(c, 32, max);
    UnitsScale(c, max, max);
    Pow2Add(max, 32 - max);
    CancelAtMost(Units(c, max, max), Pow2(max), Pow2(32 - max));
    CancelAtMost(Pow2(max), Units(c, max, max), Pow2(32 - max));
    assert c[max := c[max] + 0] == c;
  }

  // ---------- Which lengths are kept ----------

  ghost predicate KeptTo(c: seq<nat>, c': seq<nat>, l: nat) {
    l < |c| && l < |c'| && forall i :: 1 <= i <= l ==> c'[i] == c[i]
  }

  /** The codes of up to l bits leave room for one code of the greatest length for each of the others. */
  predicate Room(c: seq<nat>, l: nat, max: nat)
    requires |c| == 33 && l <= max <= 32
  {
    Units(c, l, max) + Count(c, 32) <= Pow2(max) + Count(c, l)
  }

  lemma {:induction false} SameUnits(c: seq<nat>, c': seq<nat>, l: nat, max: nat)
    requires KeptTo(c, c', l) && l <= max
    ensures Units(c', l, max) == Units(c, l, max) && Count(c', l) == Count(c, l)
    decreases l
  {
    hide Pow2;
    if l > 0 {
      SameUnits(c, c', l - 1, max);
    }
  }

  /** Every code takes a unit at least. */
  lemma {:induction false} UnitsAtLeast(c: seq<nat>, l: nat, m: nat, max: nat)
    requires l <= m < |c| && m <= max
    ensures Units(c, l, max) + Count(c, m) <= Units(c, m, max) + Count(c, l)
    decreases m
  {
    hide Pow2;
    if l < m {
      UnitsAtLeast(c, l, m - 1, max);
      PowPositive(max - m);
      TimesMono(1, Pow2(max - m), c[m]);
    }
  }

  lemma {:induction false} OnlyLongestBehind(c: seq<nat>, l: nat, m: nat, max: nat)
    requires l <= m < |c| && m <= max && forall i :: l < i <= m ==> c[i] == 0
    ensures Units(c, m, max) == Units(c, l, max) && Count(c, m) == Count(c, l)
    decreases m
  {
    hide Pow2;
    if l < m {
      OnlyLongestBehind(c, l, m - 1, max);
    }
  }

  /** A code of up to l bits is not lengthened while there is room for them. */
  lemma RoomIsKept(c0: seq<nat>, c: seq<nat>, l: nat, max: nat, i: nat)
    requires |c0| == |c| == 33 && 1 <= l < max <= 15 && Room(c0, l, max) && KeptTo(c0, c, l)
    requires Count(c, max) == Count(c0, 32) && Pow2(max) < Units(c, max, max)
    requires 1 <= i < max && forall k :: i < k < max ==> c[k] == 0
    ensures l < i
  {
    hide Pow2, Units, Count;
    if i <= l {
      SameUnits(c0, c, l, max);
      OnlyLongestBehind(c, l, max - 1, max);
      UnitsNext(c, max, max);
      Pow2OfNone(c[max], 0);
    }
  }

  lemma ExchangedKeeps(c0: seq<nat>, c: seq<nat>, l: nat, max: nat, i: nat)
    requires KeptTo(c0, c, l) && l < i < max < |c| && 1 <= c[max] && 1 <= c[i]
    ensures KeptTo(c0, Exchanged(c, max, i), l)
  {
  }

  /** What has room has been kept so far. */
  ghost predicate AllRoomKept(c0: seq<nat>, c: seq<nat>, max: nat) {
    |c0| == 33 && max <= 32 && forall l :: 1 <= l < max && Room(c0, l, max) ==> KeptTo(c0, c, l)
  }

  lemma SplitKeeps(c0: seq<nat>, c: seq<nat>, max: nat, i: nat)
    requires AllRoomKept(c0, c, max) && |c| == 33 && 1 <= i < max <= 15 && 1 <= c[max] && 1 <= c[i]
    requires Count(c, max) == Count(c0, 32) && Pow2(max) < Units(c, max, max) && forall k :: i < k < max ==> c[k] == 0
    ensures AllRoomKept(c0, Exchanged(c, max, i), max)
  {
    hide Pow2, Units, Count, Exchanged, Room, KeptTo;
    forall l | 1 <= l < max && Room(c0, l, max)
      ensures KeptTo(c0, Exchanged(c, max, i), l)
    {
      RoomIsKept(c0, c, l, max, i);
      ExchangedKeeps(c0, c, l, max, i);
    }
  }

  /** The lengths up to l are kept exactly if there is room for the others behind them. */
  ghost predicate KeptIfRoom(c0: seq<nat>, c: seq<nat>, max: nat)
    requires |c0| == 33 && max <= 32
  {
    forall l :: 1 <= l < max ==> (KeptTo(c0, c, l) <==> Room(c0, l, max))
  }

  lemma KeptHasRoom(c0: seq<nat>, c: seq<nat>, max: nat)
    requires AllRoomKept(c0, c, max) && |c| == 33 && max <= 15 && Count(c, max) == Count(c0, 32) && Units(c, max, max) == Pow2(max)
    ensures KeptIfRoom(c0, c, max)
  {
    hide Pow2, Units, Count;
    forall l | 1 <= l < max && KeptTo(c0, c, l)
      ensures Room(c0, l, max)
    {
      SameUnits(c0, c, l, max);
      UnitsAtLeast(c, l, max, max);
    }
  }

  // ---------- The method ----------

  method Fold(numCodes: array<nat>, max: nat)
    requires numCodes.Length == 33 && 1 <= max <= 32
    modifies numCodes
    ensures numCodes[..] == Folded(old(numCodes[..]), max)
  {
    ghost var c := numCodes[..];
    UnitsBehind(c, max, max);
    for i := max + 1 to 33
      invariant Count(c, max) <= Count(c, i - 1) && numCodes[..] == c[max := c[max] + (Count(c, i - 1) - Count(c, max))]
    {
      numCodes[max] := numCodes[max] + numCodes[i];
    }
  }

  method Total(numCodes: array<nat>, max: nat) returns (total: nat)
    requires numCodes.Length == 33 && 1 <= max <= 15 && Count(numCodes[..], max) <= Pow2(max)
    ensures total == Units(numCodes[..], max, max)
  {
    hide Pow2, Units, Count;
    total := 0;
    var i := max;
    TotalFits(numCodes[..], max);
    while i > 0
      invariant 0 <= i <= max && total + Units(numCodes[..], i, max) == Units(numCodes[..], max, max)
    {
      UnitsNext(numCodes[..], i, max);
      total := (total + numCodes[i] * Pow2(max - i)) % 0x1_0000_0000;
      i := i - 1;
    }
    NoUnits(numCodes[..], max);
  }

  lemma {:induction false} UnitsNext(c: seq<nat>, m: nat, max: nat)
    requires 1 <= m < |c| && m <= max
    ensures Units(c, m, max) == Units(c, m - 1, max) + c[m] * Pow2(max - m) && Count(c, m) == Count(c, m - 1) + c[m]
  {
  }

  lemma {:induction false} NoUnits(c: seq<nat>, max: nat)
    requires 0 < |c|
    ensures Units(c, 0, max) == 0
  {
  }

  /** No code stays longer than `max`; the numbers of codes are those of a full code of as many symbols; and no more codes
      are lengthened than must be, the longest first. */
  method EnforceMaxCodeSize(numCodes: array<nat>, codeListLen: nat, max: nat)
    requires numCodes.Length == 33 && 1 <= max <= 15 && Count(numCodes[..], 32) == codeListLen <= Pow2(max)
    requires codeListLen > 1 ==> Units(numCodes[..], 32, 32) == Pow2(32)
    modifies numCodes
    ensures codeListLen <= 1 ==> numCodes[..] == old(numCodes[..])
    ensures codeListLen > 1 ==> Count(numCodes[..], max) == codeListLen && Units(numCodes[..], max, max) == Pow2(max)
    ensures codeListLen > 1 ==> KeptIfRoom(old(numCodes[..]), numCodes[..], max)
    ensures NoneLonger(old(numCodes[..]), max) ==> numCodes[..] == old(numCodes[..])
  {
    hide Pow2, Units, Count, Folded, Exchanged, NoneLonger, AllRoomKept, KeptIfRoom;
    if codeListLen <= 1 {
      return;
    }
    ghost var was := numCodes[..];
    FoldedUnits(was, max);
    if NoneLonger(was, max) {
      NothingToLimit(was, max);
    }
    Fold(numCodes, max);
    FoldKeeps(was, max);
    var total := Total(numCodes, max);
    while total != Pow2(max)
      invariant total == Units(numCodes[..], max, max) && Pow2(max) <= total <= Pow2(max) + numCodes[max]
      invariant Count(numCodes[..], max) == codeListLen && (NoneLonger(was, max) ==> numCodes[..] == was)
      invariant AllRoomKept(was, numCodes[..], max)
    {
      ghost var c := numCodes[..];
      SomeShorter(c, max);
      ghost var i := SplitOne(numCodes, max);
      ExchangedUnits(c, max, i);
      SplitKeeps(was, c, max, i);
      total := total - 1;
    }
    KeptHasRoom(was, numCodes[..], max);
  }

  lemma FoldKeeps(c: seq<nat>, max: nat)
    requires |c| == 33 && 1 <= max <= 32
    ensures AllRoomKept(c, Folded(c, max), max)
  {
    hide Units, Count, Pow2;
  }

  /** The longest of the shorter codes becomes two that are one bit longer; one of these is for a code of the greatest
      length. */
  method SplitOne(numCodes: array<nat>, max: nat) returns (ghost split: nat)
    requires numCodes.Length == 33 && 1 <= max <= 15 && numCodes[max] >= 1 && exists i :: 1 <= i < max && numCodes[i] > 0
    modifies numCodes
    ensures var c := old(numCodes[..]);
            && 1 <= split < max && 1 <= c[split] && (forall k :: split < k < max ==> c[k] == 0)
            && numCodes[..] == Exchanged(c, max, split)
  {
    ghost var c := numCodes[..];
    numCodes[max] := numCodes[max] - 1;
    var i := max - 1;
    split := i;
    while i > 0
      invariant 0 <= i < max && numCodes[..] == c[max := c[max] - 1]
      invariant (exists k :: 1 <= k <= i && c[k] > 0) && forall k :: i < k < max ==> c[k] == 0
    {
      if numCodes[i] > 0 {
        numCodes[i] := numCodes[i] - 1;
        numCodes[i + 1] := numCodes[i + 1] + 2;
        split := i;
        return;
      }
      i := i - 1;
    }
  }
}
