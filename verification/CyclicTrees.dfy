/** Suffix trees kept in a cyclic array of pairs of references: the walk of GetMatchesSpec1 and SkipMatchesSpec, and
    that it splits the tree it walks down. */
module CyclicTrees {
  import opened Bytes
  import opened Powers
  import opened SuffixTrees

  /** The text, the position n in it, the reference `pos` that stands for n, and n's place in a cyclic array of
      `cyc` pairs. */
  datatype Window = Window(text: seq<Byte>, n: nat, pos: nat, cyc: nat, cyclicPos: nat) {
    predicate Ok() { n <= |text| && 0 < cyc && cyclicPos == n % cyc }

    /** A reference to an earlier position that the array still holds. */
    predicate Live(v: nat) { v < pos && pos - v < cyc }

    /** A reference that refers to a position of the text, if it is live. */
    predicate RefOk(v: nat) { v < pos && (Live(v) ==> pos - v <= n) }

    /** The position that a live reference stands for. */
    function Abs(v: nat): nat
      requires v < pos && pos - v <= n
    {
      n - (pos - v)
    }
  }

  ghost predicate ArrayOk(w: Window, son: seq<nat>) {
    |son| == 2 * w.cyc && forall i :: 0 <= i < |son| ==> w.RefOk(son[i])
  }

  function Slot(w: Window, q: nat): (s: nat)
    requires 0 < w.cyc
    ensures s < w.cyc
  {
    q % w.cyc
  }

  /** cyclicPos - delta, taken round the array. */
  lemma SlotOfDelta(w: Window, delta: nat)
    requires w.Ok() && 1 <= delta < w.cyc && delta <= w.n
    ensures w.cyclicPos - delta + (if delta > w.cyclicPos then w.cyc else 0) == Slot(w, w.n - delta)
  {
    var k := w.n / w.cyc;
    assert w.n == k * w.cyc + w.cyclicPos;
    if delta > w.cyclicPos {
      assert (k - 1) * w.cyc == k * w.cyc - w.cyc;
      assert k != 0;
      ModOfSum(k - 1, w.cyc, w.cyclicPos - delta + w.cyc);
    } else {
      ModOfSum(k, w.cyc, w.cyclicPos - delta);
    }
  }

  /** Positions that share a slot are cyc apart. */
  lemma OneSlotEach(w: Window, x: nat, y: nat)
    requires 0 < w.cyc && Slot(w, x) == Slot(w, y) && x <= y < x + w.cyc
    ensures x == y
  {
    var i, j := x / w.cyc, y / w.cyc;
    Quotient(x, w.cyc);
    Quotient(y, w.cyc);
    var d := j - i;
    assert y - x == d * w.cyc;
  }

  // ---------- The walk ----------

  /** The local variables of the walk: p1 and p0 are the places where the parts below and above n are hung, cur is the
      subtree still to be split, cut is how many nodes may still be met, and the nodes below and above share len1 and
      len0 bytes with n. */
  datatype Place = Place(p0: nat, p1: nat, cur: nat, cut: nat, len0: nat, len1: nat)

  ghost predicate CanWalk(w: Window, limit: nat, son: seq<nat>, at: Place) {
    && w.Ok() && w.cyc <= w.pos && w.n + limit <= |w.text| && ArrayOk(w, son) && w.RefOk(at.cur)
    && at.p0 < |son| && at.p1 < |son| && at.len0 < limit && at.len1 < limit
  }

  predicate Stops(w: Window, at: Place) { at.cut == 0 || w.pos - at.cur >= w.cyc }

  /** A node is met. */
  predicate Meets(w: Window, limit: nat, at: Place) {
    && 0 < w.cyc && w.n + limit <= |w.text| && at.cur < w.pos && w.pos - at.cur <= w.n && w.pos - at.cur < w.cyc
    && at.cut != 0 && at.len0 < limit && at.len1 < limit
  }

  /** The node. */
  function Met(w: Window, at: Place): (q: nat)
    requires at.cur < w.pos && w.pos - at.cur <= w.n
    ensures q < w.n
  {
    w.n - (w.pos - at.cur)
  }

  /** The bytes it shares with n; those shared by the nodes on both sides need no look. */
  function Agreed(w: Window, limit: nat, at: Place): (len: nat)
    requires Meets(w, limit, at)
    ensures len <= limit && (len < limit ==> w.text[Met(w, at) + len] != w.text[w.n + len])
  {
    hide Same;
    Scan(w.text, Met(w, at), w.n, if at.len0 < at.len1 then at.len0 else at.len1, limit)
  }

  predicate IsBelow(w: Window, limit: nat, at: Place)
    requires Meets(w, limit, at) && Agreed(w, limit, at) < limit
  {
    w.text[Met(w, at) + Agreed(w, limit, at)] < w.text[w.n + Agreed(w, limit, at)]
  }

  /** The array and the variables once the node has been hung. */
  function Hung(w: Window, limit: nat, son: seq<nat>, at: Place): (r: seq<nat>)
    requires Meets(w, limit, at) && Agreed(w, limit, at) < limit && at.p0 < |son| && at.p1 < |son|
    ensures |r| == |son|
  {
    if IsBelow(w, limit, at) then son[at.p1 := at.cur] else son[at.p0 := at.cur]
  }

  function Next(w: Window, limit: nat, son: seq<nat>, at: Place): (r: Place)
    requires Meets(w, limit, at) && Agreed(w, limit, at) < limit && |son| == 2 * w.cyc && at.p0 < |son| && at.p1 < |son|
    ensures r.cut == at.cut - 1
  {
    var len, pair, s := Agreed(w, limit, at), 2 * Slot(w, Met(w, at)), Hung(w, limit, son, at);
    if IsBelow(w, limit, at) then Place(at.p0, pair + 1, s[pair + 1], at.cut - 1, at.len0, len)
    else Place(pair, at.p1, s[pair], at.cut - 1, len, at.len1)
  }

  lemma ItMeets(w: Window, limit: nat, son: seq<nat>, at: Place)
    requires CanWalk(w, limit, son, at) && !Stops(w, at)
    ensures Meets(w, limit, at) && |son| == 2 * w.cyc && at.p0 < |son| && at.p1 < |son|
  {
  }

  /** Hanging a reference keeps the array in order, and the pair of a node holds references. */
  lemma ItGoesOn(w: Window, limit: nat, son: seq<nat>, at: Place)
    requires CanWalk(w, limit, son, at) && !Stops(w, at) && Meets(w, limit, at) && Agreed(w, limit, at) < limit
    ensures |son| == 2 * w.cyc && CanWalk(w, limit, Hung(w, limit, son, at), Next(w, limit, son, at))
  {
    hide Slot, Agreed;
  }

  /** What a node that cannot be told from n leaves: its children. */
  function Childless(w: Window, son: seq<nat>, at: Place): (r: seq<nat>)
    requires 0 < w.cyc && |son| == 2 * w.cyc && at.p0 < |son| && at.p1 < |son| && at.cur < w.pos && w.pos - at.cur <= w.n
    ensures |r| == |son|
  {
    var pair := 2 * Slot(w, Met(w, at));
    var s := son[at.p1 := son[pair]];
    s[at.p0 := s[pair + 1]]
  }

  lemma ChildlessOk(w: Window, son: seq<nat>, at: Place)
    requires w.Ok() && w.cyc <= w.pos && ArrayOk(w, son) && at.p0 < |son| && at.p1 < |son| && at.cur < w.pos && w.pos - at.cur <= w.n
    ensures ArrayOk(w, Childless(w, son, at))
  {
    hide Slot;
  }

  /** What the walk leaves in the array. */
  function Walk(w: Window, limit: nat, son: seq<nat>, at: Place): (r: seq<nat>)
    requires CanWalk(w, limit, son, at)
    ensures ArrayOk(w, r)
    decreases at.cut
  {
    if Stops(w, at) then son[at.p1 := 0][at.p0 := 0]
    else
      ItMeets(w, limit, son, at);
      if Agreed(w, limit, at) == limit then ChildlessOk(w, son, at); Childless(w, son, at)
      else ItGoesOn(w, limit, son, at); Walk(w, limit, Hung(w, limit, son, at), Next(w, limit, son, at))
  }

  function Report(w: Window, limit: nat, at: Place, maxLen: nat): seq<Pair>
    requires Meets(w, limit, at)
  {
    if maxLen < Agreed(w, limit, at) then [Pair(Agreed(w, limit, at), w.pos - at.cur - 1)] else []
  }

  function Max(a: nat, b: nat): nat { if a < b then b else a }

  /** The pairs that the walk reports. */
  function Found(w: Window, limit: nat, son: seq<nat>, at: Place, maxLen: nat): seq<Pair>
    requires CanWalk(w, limit, son, at) && maxLen < limit
    decreases at.cut
  {
    if Stops(w, at) then []
    else
      ItMeets(w, limit, son, at);
      if Agreed(w, limit, at) == limit then Report(w, limit, at, maxLen)
      else
        ItGoesOn(w, limit, son, at);
        Report(w, limit, at, maxLen) + Found(w, limit, Hung(w, limit, son, at), Next(w, limit, son, at), Max(maxLen, Agreed(w, limit, at)))
  }

  lemma WalkUnfolds(w: Window, limit: nat, son: seq<nat>, at: Place)
    requires CanWalk(w, limit, son, at)
    ensures Stops(w, at) ==> Walk(w, limit, son, at) == son[at.p1 := 0][at.p0 := 0]
    ensures !Stops(w, at) ==> Meets(w, limit, at) && |son| == 2 * w.cyc
    ensures !Stops(w, at) && Agreed(w, limit, at) == limit ==> Walk(w, limit, son, at) == Childless(w, son, at)
    ensures !Stops(w, at) && Agreed(w, limit, at) != limit ==>
      && CanWalk(w, limit, Hung(w, limit, son, at), Next(w, limit, son, at))
      && Walk(w, limit, son, at) == Walk(w, limit, Hung(w, limit, son, at), Next(w, limit, son, at))
  {
    hide Agreed, Hung, Next, Childless, ArrayOk;
    if !Stops(w, at) {
      ItMeets(w, limit, son, at);
      if Agreed(w, limit, at) != limit {
        ItGoesOn(w, limit, son, at);
      }
    }
  }

  lemma FoundUnfolds(w: Window, limit: nat, son: seq<nat>, at: Place, maxLen: nat)
    requires CanWalk(w, limit, son, at) && maxLen < limit
    ensures Stops(w, at) ==> Found(w, limit, son, at, maxLen) == []
    ensures !Stops(w, at) ==> Meets(w, limit, at) && |son| == 2 * w.cyc
    ensures !Stops(w, at) && Agreed(w, limit, at) == limit ==> Found(w, limit, son, at, maxLen) == Report(w, limit, at, maxLen)
    ensures !Stops(w, at) && Agreed(w, limit, at) != limit ==>
      && CanWalk(w, limit, Hung(w, limit, son, at), Next(w, limit, son, at))
      && Found(w, limit, son, at, maxLen) ==
         Report(w, limit, at, maxLen) + Found(w, limit, Hung(w, limit, son, at), Next(w, limit, son, at), Max(maxLen, Agreed(w, limit, at)))
  {
    hide Agreed, Hung, Next, Report, ArrayOk;
    if !Stops(w, at) {
      ItMeets(w, limit, son, at);
      if Agreed(w, limit, at) != limit {
        ItGoesOn(w, limit, son, at);
      }
    }
  }

  // ---------- Trees in the array ----------

  /** The array holds the tree t at the reference v. */
  ghost predicate Rep(w: Window, son: seq<nat>, v: nat, t: Tree)
    requires 0 < w.cyc && |son| == 2 * w.cyc
    decreases t
  {
    match t
    case Leaf => !w.Live(v)
    case Node(q, l, r) =>
      && w.Live(v) && w.pos - v <= w.n && w.Abs(v) == q
      && Rep(w, son, son[2 * Slot(w, q)], l) && Rep(w, son, son[2 * Slot(w, q) + 1], r)
  }

  /** A node of t has this slot. */
  ghost predicate Uses(w: Window, t: Tree, slot: nat)
    requires 0 < w.cyc
    decreases t
  {
    t.Node? && (Slot(w, t.at) == slot || Uses(w, t.left, slot) || Uses(w, t.right, slot))
  }

  /** Whether two arrays agree outside the pairs of t and the places p0 and p1. */
  ghost predicate AgreeOutside(w: Window, son: seq<nat>, son': seq<nat>, t: Tree, p0: nat, p1: nat)
    requires 0 < w.cyc && |son| == |son'| == 2 * w.cyc
  {
    forall c :: 0 <= c < |son| && c != p0 && c != p1 && !Uses(w, t, c / 2) ==> son'[c] == son[c]
  }

  // ---------- Frames ----------

  /** A tree is not affected by changes elsewhere. */
  lemma {:induction false} RepFrame(w: Window, son: seq<nat>, son': seq<nat>, v: nat, t: Tree)
    requires 0 < w.cyc && |son| == |son'| == 2 * w.cyc && Rep(w, son, v, t)
    requires forall c :: 0 <= c < |son| && Uses(w, t, c / 2) ==> son'[c] == son[c]
    ensures Rep(w, son', v, t)
    decreases t
  {
    if t.Node? {
      var s := Slot(w, t.at);
      assert (2 * s) / 2 == s && (2 * s + 1) / 2 == s;
      RepFrame(w, son, son', son[2 * s], t.left);
      RepFrame(w, son, son', son[2 * s + 1], t.right);
    }
  }

  lemma {:induction false} RepWindow(w: Window, son: seq<nat>, v: nat, t: Tree)
    requires 0 < w.cyc && |son| == 2 * w.cyc && Rep(w, son, v, t)
    ensures InWindow(w, t)
    decreases t
  {
    if t.Node? {
      RepWindow(w, son, son[2 * Slot(w, t.at)], t.left);
      RepWindow(w, son, son[2 * Slot(w, t.at) + 1], t.right);
    }
  }

  /** All nodes are in the last cyc positions before n. */
  ghost predicate InWindow(w: Window, t: Tree) { forall x :: x in Nodes(t) ==> x < w.n && w.n - x < w.cyc }

  lemma {:induction false} UserOf(w: Window, t: Tree, slot: nat) returns (x: nat)
    requires 0 < w.cyc && Uses(w, t, slot)
    ensures x in Nodes(t) && Slot(w, x) == slot
    decreases t
  {
    if Slot(w, t.at) == slot {
      x := t.at;
    } else if Uses(w, t.left, slot) {
      x := UserOf(w, t.left, slot);
    } else {
      x := UserOf(w, t.right, slot);
    }
  }

  /** Trees without a common node have no common slot. */
  lemma OwnSlots(w: Window, a: Tree, b: Tree, slot: nat)
    requires 0 < w.cyc && InWindow(w, a) && InWindow(w, b) && Nodes(a) !! Nodes(b) && Uses(w, a, slot)
    ensures !Uses(w, b, slot)
  {
    if Uses(w, b, slot) {
      var x := UserOf(w, a, slot);
      var y := UserOf(w, b, slot);
      if x <= y {
        OneSlotEach(w, x, y);
      } else {
        OneSlotEach(w, y, x);
      }
    }
  }

  lemma OwnSlot(w: Window, q: nat, b: Tree)
    requires 0 < w.cyc && q < w.n && w.n - q < w.cyc && InWindow(w, b) && q !in Nodes(b)
    ensures !Uses(w, b, Slot(w, q))
  {
    hide Slot;
    OwnSlots(w, Node(q, Leaf, Leaf), b, Slot(w, q));
  }

  // ---------- The walk splits the tree ----------

  /** The bound shares len bytes with n; without a bound nothing is known. */
  ghost predicate SharesUpTo(text: seq<Byte>, n: nat, limit: nat, b: Bound, len: nat)
    requires n + limit <= |text|
  {
    len < limit && (b.Free? ==> len == 0) && (b.At? ==> b.pos + limit <= |text| && Same(text, b.pos, n, len))
  }

  /** The tree t at cur is ready to be split, and the parts are to hang at p1 and p0. */
  ghost predicate Ready(w: Window, limit: nat, son: seq<nat>, at: Place, t: Tree, lo: Bound, hi: Bound) {
    && CanWalk(w, limit, son, at) && |son| == 2 * w.cyc
    && Rep(w, son, at.cur, t) && Aged(t, w.n) && Distinct(t) && Ordered(w.text, limit, t, lo, hi)
    && at.p0 != at.p1 && !Uses(w, t, at.p0 / 2) && !Uses(w, t, at.p1 / 2)
    && SharesUpTo(w.text, w.n, limit, lo, at.len1) && SharesUpTo(w.text, w.n, limit, hi, at.len0)
  }

  /** The array after the walk: the parts hang at p1 and p0, and nothing else has changed. */
  ghost predicate Splits(w: Window, son: seq<nat>, son': seq<nat>, p0: nat, p1: nat, t: Tree, l: Tree, r: Tree) {
    && 0 < w.cyc && |son| == |son'| == 2 * w.cyc && p0 < |son| && p1 < |son|
    && AgreeOutside(w, son, son', t, p0, p1)
    && Rep(w, son', son'[p1], l) && Rep(w, son', son'[p0], r)
  }

  /** Skipping the shorter of the two known prefixes is sound. */
  lemma PrefixSkipped(w: Window, limit: nat, son: seq<nat>, at: Place, t: Tree, lo: Bound, hi: Bound)
    requires Ready(w, limit, son, at, t, lo, hi) && Meets(w, limit, at) && t.Node?
    ensures t.at == Met(w, at) && t.at + limit <= |w.text|
    ensures Agreed(w, limit, at) == Shared(w.text, t.at, w.n, limit)
  {
    hide Shared, Le, Same, Scan, ArrayOk, Uses, Slot;
    var m := if at.len0 < at.len1 then at.len0 else at.len1;
    if lo.At? && hi.At? {
      SameShorter(w.text, lo.pos, w.n, m, at.len1);
      SameShorter(w.text, hi.pos, w.n, m, at.len0);
      Between(w.text, lo.pos, t.at, hi.pos, w.n, m, limit);
    } else {
      NothingShared(w.text, t.at, w.n);
    }
    LateStart(w.text, t.at, w.n, m, limit);
  }

  lemma NothingShared(text: seq<Byte>, a: nat, b: nat)
    requires a <= |text| && b <= |text|
    ensures Same(text, a, b, 0)
  {
  }

  /** The children of a node do not use its slot or each other's. */
  lemma ApartHere(w: Window, son: seq<nat>, cur: nat, t: Tree)
    requires 0 < w.cyc && |son| == 2 * w.cyc && Rep(w, son, cur, t) && t.Node? && Aged(t, w.n) && Distinct(t)
    ensures InWindow(w, t.left) && InWindow(w, t.right)
    ensures !Uses(w, t.left, Slot(w, t.at)) && !Uses(w, t.right, Slot(w, t.at))
    ensures forall s :: !(Uses(w, t.left, s) && Uses(w, t.right, s))
  {
    hide Slot;
    RepWindow(w, son, cur, t);
    NodesBelow(t.left, t.at);
    NodesBelow(t.right, t.at);
    OwnSlot(w, t.at, t.left);
    OwnSlot(w, t.at, t.right);
    forall s | Uses(w, t.left, s)
      ensures !Uses(w, t.right, s)
    {
      OwnSlots(w, t.left, t.right, s);
    }
  }

  lemma AgreedIsSame(w: Window, limit: nat, at: Place, t: Tree)
    requires Meets(w, limit, at) && t.Node? && t.at == Met(w, at) && t.at + limit <= |w.text|
    requires Agreed(w, limit, at) == Shared(w.text, t.at, w.n, limit)
    ensures Same(w.text, t.at, w.n, Agreed(w, limit, at))
  {
  }

  /** The node goes below n: it is hung at p1, and its right child is split next. */
  lemma GoRight(w: Window, limit: nat, son: seq<nat>, at: Place, t: Tree, lo: Bound, hi: Bound)
    requires Ready(w, limit, son, at, t, lo, hi) && at.p0 < |son| && at.p1 < |son| && Meets(w, limit, at) && t.Node? && t.at == Met(w, at)
    requires Agreed(w, limit, at) < limit && IsBelow(w, limit, at) && Same(w.text, t.at, w.n, Agreed(w, limit, at))
    requires CanWalk(w, limit, Hung(w, limit, son, at), Next(w, limit, son, at))
    ensures Ready(w, limit, Hung(w, limit, son, at), Next(w, limit, son, at), t.right, At(t.at), hi)
  {
    hide Slot, Same, Le, Nodes, Agreed, CanWalk, IsBelow, Shared, Scan;
    ApartHere(w, son, at.cur, t);
    var slot := Slot(w, t.at);
    PlacesOf(slot);
    AgedLater(t.right, t.at, w.n);
    RepFrame(w, son, son[at.p1 := at.cur], son[2 * slot + 1], t.right);
  }

  lemma GoLeft(w: Window, limit: nat, son: seq<nat>, at: Place, t: Tree, lo: Bound, hi: Bound)
    requires Ready(w, limit, son, at, t, lo, hi) && at.p0 < |son| && at.p1 < |son| && Meets(w, limit, at) && t.Node? && t.at == Met(w, at)
    requires Agreed(w, limit, at) < limit && !IsBelow(w, limit, at) && Same(w.text, t.at, w.n, Agreed(w, limit, at))
    requires CanWalk(w, limit, Hung(w, limit, son, at), Next(w, limit, son, at))
    ensures Ready(w, limit, Hung(w, limit, son, at), Next(w, limit, son, at), t.left, lo, At(t.at))
  {
    hide Slot, Same, Le, Nodes, Agreed, CanWalk, IsBelow, Shared, Scan;
    ApartHere(w, son, at.cur, t);
    var slot := Slot(w, t.at);
    PlacesOf(slot);
    AgedLater(t.left, t.at, w.n);
    RepFrame(w, son, son[at.p0 := at.cur], son[2 * slot], t.left);
  }

  /** The places of a pair. */
  lemma PlacesOf(slot: nat)
    ensures (2 * slot) / 2 == slot && (2 * slot + 1) / 2 == slot
  {
  }

  lemma UsesOwn(w: Window, t: Tree, slot: nat)
    requires 0 < w.cyc && t.Node?
    ensures Uses(w, t, Slot(w, t.at))
    ensures Uses(w, t.left, slot) || Uses(w, t.right, slot) ==> Uses(w, t, slot)
  {
  }

  /** What a subtree does not use and lies elsewhere keeps its value. */
  lemma Kept(w: Window, son: seq<nat>, son': seq<nat>, t: Tree, p0: nat, p1: nat, c: nat)
    requires 0 < w.cyc && |son| == |son'| == 2 * w.cyc && AgreeOutside(w, son, son', t, p0, p1)
    requires c < |son| && c != p0 && c != p1 && !Uses(w, t, c / 2)
    ensures son'[c] == son[c]
  {
  }

  /** After a write at one of the two places and the split of a child, nothing else has changed. */
  lemma AgreeChild(w: Window, son: seq<nat>, son': seq<nat>, t: Tree, child: Tree, p0: nat, p1: nat, p: nat, cur: nat, e0: nat, e1: nat)
    requires 0 < w.cyc && |son| == |son'| == 2 * w.cyc && t.Node? && (child == t.left || child == t.right)
    requires (p == p0 || p == p1) && p < |son|
    requires (e0 == p0 || e0 / 2 == Slot(w, t.at)) && (e1 == p1 || e1 / 2 == Slot(w, t.at))
    requires AgreeOutside(w, son[p := cur], son', child, e0, e1)
    ensures AgreeOutside(w, son, son', t, p0, p1)
  {
    hide Slot, Uses;
    forall c | 0 <= c < |son| && c != p0 && c != p1 && !Uses(w, t, c / 2)
      ensures son'[c] == son[c]
    {
      UsesOwn(w, t, c / 2);
    }
  }

  lemma RepLeft(w: Window, son: seq<nat>, v: nat, t: Tree)
    requires 0 < w.cyc && |son| == 2 * w.cyc && Rep(w, son, v, t) && t.Node?
    ensures Rep(w, son, son[2 * Slot(w, t.at)], t.left) && Rep(w, son, son[2 * Slot(w, t.at) + 1], t.right)
  {
    hide Slot;
  }

  /** Where the split of the right child has left the node, the places of its pair, and what hangs there. */
  lemma KeptRight(w: Window, son: seq<nat>, son': seq<nat>, p0: nat, p1: nat, cur: nat, t: Tree)
    requires 0 < w.cyc && |son| == |son'| == 2 * w.cyc && Rep(w, son, cur, t) && t.Node? && Aged(t, w.n) && Distinct(t)
    requires p0 < |son| && p1 < |son| && p0 != p1 && !Uses(w, t, p0 / 2) && !Uses(w, t, p1 / 2)
    requires AgreeOutside(w, son[p1 := cur], son', t.right, p0, 2 * Slot(w, t.at) + 1)
    ensures son'[p1] == cur && son'[2 * Slot(w, t.at)] == son[2 * Slot(w, t.at)]
    ensures Rep(w, son', son[2 * Slot(w, t.at)], t.left)
  {
    hide Slot, Uses, Nodes, Aged, Distinct, AgreeOutside, Rep;
    ApartHere(w, son, cur, t);
    RepLeft(w, son, cur, t);
    var slot := Slot(w, t.at);
    PlacesOf(slot);
    UsesOwn(w, t, p0 / 2);
    UsesOwn(w, t, p1 / 2);
    Kept(w, son[p1 := cur], son', t.right, p0, 2 * slot + 1, p1);
    Kept(w, son[p1 := cur], son', t.right, p0, 2 * slot + 1, 2 * slot);
    forall c | 0 <= c < |son| && Uses(w, t.left, c / 2)
      ensures son'[c] == son[c]
    {
      UsesOwn(w, t, c / 2);
      Kept(w, son[p1 := cur], son', t.right, p0, 2 * slot + 1, c);
    }
    RepFrame(w, son, son', son[2 * slot], t.left);
  }

  lemma KeptLeft(w: Window, son: seq<nat>, son': seq<nat>, p0: nat, p1: nat, cur: nat, t: Tree)
    requires 0 < w.cyc && |son| == |son'| == 2 * w.cyc && Rep(w, son, cur, t) && t.Node? && Aged(t, w.n) && Distinct(t)
    requires p0 < |son| && p1 < |son| && p0 != p1 && !Uses(w, t, p0 / 2) && !Uses(w, t, p1 / 2)
    requires AgreeOutside(w, son[p0 := cur], son', t.left, 2 * Slot(w, t.at), p1)
    ensures son'[p0] == cur && son'[2 * Slot(w, t.at) + 1] == son[2 * Slot(w, t.at) + 1]
    ensures Rep(w, son', son[2 * Slot(w, t.at) + 1], t.right)
  {
    hide Slot, Uses, Nodes, Aged, Distinct, AgreeOutside, Rep;
    ApartHere(w, son, cur, t);
    RepLeft(w, son, cur, t);
    var slot := Slot(w, t.at);
    PlacesOf(slot);
    UsesOwn(w, t, p0 / 2);
    UsesOwn(w, t, p1 / 2);
    Kept(w, son[p0 := cur], son', t.left, 2 * slot, p1, p0);
    Kept(w, son[p0 := cur], son', t.left, 2 * slot, p1, 2 * slot + 1);
    forall c | 0 <= c < |son| && Uses(w, t.right, c / 2)
      ensures son'[c] == son[c]
    {
      UsesOwn(w, t, c / 2);
      Kept(w, son[p0 := cur], son', t.left, 2 * slot, p1, c);
    }
    RepFrame(w, son, son', son[2 * slot + 1], t.right);
  }

  /** When the right child has been split, the node with the lower part hangs at p1. */
  lemma CameRight(w: Window, son: seq<nat>, son': seq<nat>, p0: nat, p1: nat, cur: nat, t: Tree, l: Tree, r: Tree)
    requires 0 < w.cyc && |son| == 2 * w.cyc && Rep(w, son, cur, t) && t.Node? && Aged(t, w.n) && Distinct(t)
    requires p0 < |son| && p1 < |son| && p0 != p1 && !Uses(w, t, p0 / 2) && !Uses(w, t, p1 / 2)
    requires Splits(w, son[p1 := cur], son', p0, 2 * Slot(w, t.at) + 1, t.right, l, r)
    ensures Splits(w, son, son', p0, p1, t, Node(t.at, t.left, l), r)
  {
    hide Slot, Uses, Nodes, Aged, Distinct, AgreeOutside;
    var slot := Slot(w, t.at);
    PlacesOf(slot);
    KeptRight(w, son, son', p0, p1, cur, t);
    AgreeChild(w, son, son', t, t.right, p0, p1, p1, cur, p0, 2 * slot + 1);
  }

  lemma CameLeft(w: Window, son: seq<nat>, son': seq<nat>, p0: nat, p1: nat, cur: nat, t: Tree, l: Tree, r: Tree)
    requires 0 < w.cyc && |son| == 2 * w.cyc && Rep(w, son, cur, t) && t.Node? && Aged(t, w.n) && Distinct(t)
    requires p0 < |son| && p1 < |son| && p0 != p1 && !Uses(w, t, p0 / 2) && !Uses(w, t, p1 / 2)
    requires Splits(w, son[p0 := cur], son', 2 * Slot(w, t.at), p1, t.left, l, r)
    ensures Splits(w, son, son', p0, p1, t, l, Node(t.at, r, t.right))
  {
    hide Slot, Uses, Nodes, Aged, Distinct, AgreeOutside;
    var slot := Slot(w, t.at);
    PlacesOf(slot);
    KeptLeft(w, son, son', p0, p1, cur, t);
    AgreeChild(w, son, son', t, t.left, p0, p1, p0, cur, 2 * slot, p1);
  }

  /** A subtree of t is not affected by writes at places that t does not use. */
  lemma WritesElsewhere(w: Window, son: seq<nat>, p0: nat, p1: nat, x: nat, y: nat, t: Tree, child: Tree, v: nat)
    requires 0 < w.cyc && |son| == 2 * w.cyc && p0 < |son| && p1 < |son| && t.Node? && (child == t.left || child == t.right)
    requires !Uses(w, t, p0 / 2) && !Uses(w, t, p1 / 2) && Rep(w, son, v, child)
    ensures Rep(w, son[p1 := x][p0 := y], v, child)
  {
    hide Rep;
    RepFrame(w, son, son[p1 := x][p0 := y], v, child);
  }

  /** A node that cannot be told from n is replaced by its children. */
  lemma Replaced(w: Window, son: seq<nat>, p0: nat, p1: nat, cur: nat, t: Tree)
    requires 0 < w.cyc && |son| == 2 * w.cyc && Rep(w, son, cur, t) && t.Node?
    requires p0 < |son| && p1 < |son| && p0 != p1 && !Uses(w, t, p0 / 2) && !Uses(w, t, p1 / 2)
    ensures var pair := 2 * Slot(w, t.at); var s := son[p1 := son[pair]];
            Splits(w, son, s[p0 := s[pair + 1]], p0, p1, t, t.left, t.right)
  {
    hide Slot, Uses;
    var slot := Slot(w, t.at);
    PlacesOf(slot);
    UsesOwn(w, t, p0 / 2);
    UsesOwn(w, t, p1 / 2);
    var l, r := son[2 * slot], son[2 * slot + 1];
    assert son[p1 := l][2 * slot + 1] == r;
    WritesElsewhere(w, son, p0, p1, l, r, t, t.left, l);
    WritesElsewhere(w, son, p0, p1, l, r, t, t.right, r);
  }

  /** What a tree that is ready says about the walk. */
  lemma ReadyFacts(w: Window, limit: nat, son: seq<nat>, at: Place, t: Tree, lo: Bound, hi: Bound)
    requires Ready(w, limit, son, at, t, lo, hi)
    ensures CanWalk(w, limit, son, at) && w.Ok() && w.cyc <= w.pos && w.n + limit <= |w.text| && |son| == 2 * w.cyc
    ensures at.p0 < |son| && at.p1 < |son| && at.p0 != at.p1
    ensures Rep(w, son, at.cur, t) && Aged(t, w.n) && Distinct(t) && !Uses(w, t, at.p0 / 2) && !Uses(w, t, at.p1 / 2)
    ensures t.Node? <==> w.pos - at.cur < w.cyc
    ensures t.Node? ==> Aged(t.left, w.n) && Aged(t.right, w.n)
  {
    hide Slot, Same, Le, Distinct, Uses;
    if t.Node? {
      AgedLater(t.left, t.at, w.n);
      AgedLater(t.right, t.at, w.n);
    }
  }

  /** The array after the split of one child, and of the whole. */
  lemma Came(w: Window, limit: nat, son: seq<nat>, son': seq<nat>, at: Place, t: Tree, l: Tree, r: Tree)
    requires 0 < w.cyc && |son| == 2 * w.cyc && Rep(w, son, at.cur, t) && t.Node? && Aged(t, w.n) && Distinct(t)
    requires at.p0 < |son| && at.p1 < |son| && at.p0 != at.p1 && !Uses(w, t, at.p0 / 2) && !Uses(w, t, at.p1 / 2)
    requires Meets(w, limit, at) && t.at == Met(w, at) && Agreed(w, limit, at) < limit
    requires var next := Next(w, limit, son, at);
             Splits(w, Hung(w, limit, son, at), son', next.p0, next.p1, if IsBelow(w, limit, at) then t.right else t.left, l, r)
    ensures if IsBelow(w, limit, at) then Splits(w, son, son', at.p0, at.p1, t, Node(t.at, t.left, l), r)
            else Splits(w, son, son', at.p0, at.p1, t, l, Node(t.at, r, t.right))
  {
    hide Slot, Splits, Agreed, IsBelow, Uses, Rep, Aged, Distinct;
    if IsBelow(w, limit, at) {
      CameRight(w, son, son', at.p0, at.p1, at.cur, t, l, r);
    } else {
      CameLeft(w, son, son', at.p0, at.p1, at.cur, t, l, r);
    }
  }

  /** The walk does to the array what Split does to the tree. */
  lemma {:induction false} WalkSplits(w: Window, limit: nat, son: seq<nat>, at: Place, t: Tree, lo: Bound, hi: Bound)
    requires Ready(w, limit, son, at, t, lo, hi)
    ensures var (l, r) := Split(w.text, w.n, limit, t, at.cut);
            Splits(w, son, Walk(w, limit, son, at), at.p0, at.p1, t, l, r)
    decreases at.cut
  {
    hide Split, Splits, Slot, Same, Shared, Scan, Ordered, Aged, Distinct, ArrayOk, Uses, Ready, Rep, Walk, CanWalk, Agreed, Hung, Next, Childless, Meets;
    ReadyFacts(w, limit, son, at, t, lo, hi);
    WalkUnfolds(w, limit, son, at);
    SplitUnfolds(w.text, w.n, limit, t, at.cut);
    if Stops(w, at) {
      CutOff(w, son, at.p0, at.p1, t);
    } else {
      PrefixSkipped(w, limit, son, at, t, lo, hi);
      if Agreed(w, limit, at) == limit {
        ChildlessReplaced(w, limit, son, at, t);
      } else {
        AgreedIsSame(w, limit, at, t);
        var s, next := Hung(w, limit, son, at), Next(w, limit, son, at);
        var child := if IsBelow(w, limit, at) then t.right else t.left;
        if IsBelow(w, limit, at) {
          GoRight(w, limit, son, at, t, lo, hi);
          WalkSplits(w, limit, s, next, child, At(t.at), hi);
        } else {
          GoLeft(w, limit, son, at, t, lo, hi);
          WalkSplits(w, limit, s, next, child, lo, At(t.at));
        }
        var (l, r) := Split(w.text, w.n, limit, child, at.cut - 1);
        Came(w, limit, son, Walk(w, limit, s, next), at, t, l, r);
      }
    }
  }

  lemma CutOff(w: Window, son: seq<nat>, p0: nat, p1: nat, t: Tree)
    requires 0 < w.cyc && |son| == 2 * w.cyc && p0 < |son| && p1 < |son| && w.cyc <= w.pos
    ensures Splits(w, son, son[p1 := 0][p0 := 0], p0, p1, t, Leaf, Leaf)
  {
    hide Uses;
  }

  lemma ChildlessReplaced(w: Window, limit: nat, son: seq<nat>, at: Place, t: Tree)
    requires 0 < w.cyc && |son| == 2 * w.cyc && Rep(w, son, at.cur, t) && t.Node? && Meets(w, limit, at) && t.at == Met(w, at)
    requires at.p0 < |son| && at.p1 < |son| && at.p0 != at.p1 && !Uses(w, t, at.p0 / 2) && !Uses(w, t, at.p1 / 2)
    ensures Splits(w, son, Childless(w, son, at), at.p0, at.p1, t, t.left, t.right)
  {
    hide Slot, Uses, Splits, Rep;
    Replaced(w, son, at.p0, at.p1, at.cur, t);
  }

  /** And it reports the matches that Matches lists. */
  lemma {:induction false} FoundAreMatches(w: Window, limit: nat, son: seq<nat>, at: Place, maxLen: nat, t: Tree, lo: Bound, hi: Bound)
    requires Ready(w, limit, son, at, t, lo, hi) && maxLen < limit
    ensures CanWalk(w, limit, son, at) && Aged(t, w.n) && w.n + limit <= |w.text|
    ensures Found(w, limit, son, at, maxLen) == Matches(w.text, w.n, limit, t, at.cut, maxLen)
    decreases at.cut
  {
    hide Matches, Slot, Same, Shared, Scan, Ordered, Aged, Distinct, ArrayOk, Uses, Ready, Rep, Found, CanWalk, Agreed, Hung, Next;
    ReadyFacts(w, limit, son, at, t, lo, hi);
    FoundUnfolds(w, limit, son, at, maxLen);
    MatchesUnfolds(w.text, w.n, limit, t, at.cut, maxLen);
    if !Stops(w, at) {
      PrefixSkipped(w, limit, son, at, t, lo, hi);
      if Agreed(w, limit, at) != limit {
        AgreedIsSame(w, limit, at, t);
        var s, next, more := Hung(w, limit, son, at), Next(w, limit, son, at), Max(maxLen, Agreed(w, limit, at));
        if IsBelow(w, limit, at) {
          GoRight(w, limit, son, at, t, lo, hi);
          FoundAreMatches(w, limit, s, next, more, t.right, At(t.at), hi);
        } else {
          GoLeft(w, limit, son, at, t, lo, hi);
          FoundAreMatches(w, limit, s, next, more, t.left, lo, At(t.at));
        }
      }
    }
  }
}
