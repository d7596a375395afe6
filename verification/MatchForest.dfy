/** The state of the match finder as a value: hash heads, and one tree for each bucket; what a step of
    Bt4_MatchFinder_GetMatches or Bt4_MatchFinder_Skip makes of it, and what it keeps. */
module MatchForest {
  import opened Bytes
  import opened CyclicTrees
  import opened MatchHashes
  import Powers
  import opened SuffixTrees

  const MAX_POS: nat := 0xFFFF_FFFF
  const NORMALIZE_STEP: nat := 0x400

  /** matchMaxLen and cutValue. */
  datatype Setup = Setup(maxLen: nat, cut: nat)

  /** The references, and the window they are relative to. */
  datatype State = State(w: Window, hash2: seq<nat>, hash3: seq<nat>, heads: seq<nat>, son: seq<nat>)

  ghost predicate RefsOk(w: Window, refs: seq<nat>) { forall i :: 0 <= i < |refs| ==> w.RefOk(refs[i]) }

  ghost predicate ShapeOk(s: State) {
    && s.w.Ok() && s.w.cyc <= s.w.pos && ArrayOk(s.w, s.son)
    && |s.hash2| == 0x400 && |s.hash3| == 0x1_0000 && 0 < |s.heads|
    && RefsOk(s.w, s.hash2) && RefsOk(s.w, s.hash3) && RefsOk(s.w, s.heads)
  }

  /** lenLimit: matches are compared no further. */
  function Limit(p: Setup, w: Window): (limit: nat)
    requires w.n <= |w.text|
    ensures w.n + limit <= |w.text|
  {
    if |w.text| - w.n < p.maxLen then |w.text| - w.n else p.maxLen
  }

  // ---------- Steps ----------

  function After(w: Window): (r: Window)
    requires w.Ok() && w.n < |w.text|
    ensures r.Ok()
  {
    NextSlot(w.n, w.cyc);
    Window(w.text, w.n + 1, w.pos + 1, w.cyc, if w.cyclicPos + 1 == w.cyc then 0 else w.cyclicPos + 1)
  }

  lemma NextSlot(n: nat, cyc: nat)
    requires 0 < cyc
    ensures (n + 1) % cyc == if n % cyc + 1 == cyc then 0 else n % cyc + 1
  {
    Powers.Quotient(n, cyc);
    var q := n / cyc;
    if n % cyc + 1 == cyc {
      assert n + 1 == (q + 1) * cyc;
      Powers.ModOfSum(q + 1, cyc, 0);
    } else {
      Powers.ModOfSum(q, cyc, n % cyc + 1);
    }
  }

  /** The walk begins at the root of a bucket's tree, and hangs the parts in n's own pair. */
  function Root(p: Setup, w: Window, v: nat): Place {
    Place(2 * w.cyclicPos + 1, 2 * w.cyclicPos, v, p.cut, 0, 0)
  }

  lemma RootCanWalk(p: Setup, s: State, limit: nat, v: nat)
    requires ShapeOk(s) && s.w.n + limit <= |s.w.text| && 0 < limit && s.w.RefOk(v)
    ensures CanWalk(s.w, limit, s.son, Root(p, s.w, v))
  {
    hide RefsOk;
  }

  /** The bytes at n are entered into the hash tables and their bucket's tree. */
  function Inserted(p: Setup, s: State): (r: State)
    requires ShapeOk(s) && s.w.n <= |s.w.text| && 4 <= Limit(p, s.w)
    ensures r.w == s.w && |r.hash2| == |s.hash2| && |r.hash3| == |s.hash3| && |r.heads| == |s.heads| && ArrayOk(s.w, r.son)
  {
    var n := s.w.n;
    var h := Hash4(s.w.text, n, |s.heads|);
    RootCanWalk(p, s, Limit(p, s.w), s.heads[h]);
    State(s.w, s.hash2[Hash2(s.w.text, n) := s.w.pos], s.hash3[Hash3(s.w.text, n) := s.w.pos], s.heads[h := s.w.pos],
          Walk(s.w, Limit(p, s.w), s.son, Root(p, s.w, s.heads[h])))
  }

  /** One position further, without regard to the width of positions. */
  function PlainStep(p: Setup, s: State): State
    requires ShapeOk(s) && s.w.n < |s.w.text|
  {
    (if Limit(p, s.w) < 4 then s else Inserted(p, s)).(w := After(s.w))
  }

  /** GetSubValue: what Normalize takes off every reference. */
  function SubValue(w: Window): (sub: nat)
    requires w.cyc <= w.pos
    ensures sub <= w.pos - w.cyc
  {
    w.pos - w.cyc - (w.pos - w.cyc) % NORMALIZE_STEP
  }

  function Reduced(refs: seq<nat>, sub: nat): (r: seq<nat>)
    ensures |r| == |refs| && forall i :: 0 <= i < |refs| ==> r[i] == if refs[i] <= sub then 0 else refs[i] - sub
  {
    seq(|refs|, i requires 0 <= i < |refs| => if refs[i] <= sub then 0 else refs[i] - sub)
  }

  function Normalized(s: State): State
    requires s.w.cyc <= s.w.pos
  {
    var sub := SubValue(s.w);
    State(s.w.(pos := s.w.pos - sub), Reduced(s.hash2, sub), Reduced(s.hash3, sub), Reduced(s.heads, sub), Reduced(s.son, sub))
  }

  /** One position further, with 32-bit positions. */
  function Step(p: Setup, s: State): State
    requires ShapeOk(s) && s.w.n < |s.w.text|
  {
    Renumbered(PlainStep(p, s))
  }

  /** Positions are lowered just before they would need more than 32 bits. */
  function Renumbered(s: State): State
    requires s.w.cyc <= s.w.pos
  {
    if s.w.pos == MAX_POS then Normalized(s) else s
  }

  // ---------- Answers ----------

  /** A distance at which the hash tables promise a match, if the first byte agrees. */
  predicate Hit(w: Window, delta: nat)
    requires w.n < |w.text|
  {
    1 <= delta < w.cyc && delta <= w.n && w.text[w.n - delta] == w.text[w.n]
  }

  /** The matches that the small hash tables promise. */
  function Promised(w: Window, d2: nat, d3: nat): (r: seq<Pair>)
    requires w.n < |w.text|
    ensures forall i :: 0 <= i < |r| ==> 2 <= r[i].len <= 3 && r[i].dist < w.n
  {
    (if Hit(w, d2) then [Pair(2, d2 - 1)] else []) + (if d2 != d3 && Hit(w, d3) then [Pair(3, d3 - 1)] else [])
  }

  /** The last of them is extended as far as it goes. */
  function HashHits(w: Window, limit: nat, d2: nat, d3: nat): (r: seq<Pair>)
    requires w.n + limit <= |w.text| && 4 <= limit
  {
    var hits := Promised(w, d2, d3);
    if hits == [] then []
    else
      var last := hits[|hits| - 1];
      hits[..|hits| - 1] + [Pair(Scan(w.text, w.n - 1 - last.dist, w.n, last.len, limit), last.dist)]
  }

  /** What GetMatches reports. */
  function Answers(p: Setup, s: State): seq<Pair>
    requires ShapeOk(s) && s.w.n <= |s.w.text|
  {
    var limit := Limit(p, s.w);
    if limit < 4 then []
    else
      var n := s.w.n;
      var hits := HashHits(s.w, limit, s.w.pos - s.hash2[Hash2(s.w.text, n)], s.w.pos - s.hash3[Hash3(s.w.text, n)]);
      var len := LastLen(hits, 0);
      if len >= limit then hits
      else
        var v := s.heads[Hash4(s.w.text, n, |s.heads|)];
        RootCanWalk(p, s, limit, v);
        hits + Found(s.w, limit, s.son, Root(p, s.w, v), Max(3, len))
  }

  // ---------- Forests ----------

  /** The tree t hangs at v. */
  ghost predicate TreeOk(w: Window, son: seq<nat>, v: nat, t: Tree, limit: nat)
    requires 0 < w.cyc && |son| == 2 * w.cyc
  {
    Rep(w, son, v, t) && Aged(t, w.n) && Distinct(t) && Ordered(w.text, limit, t, Free, Free)
  }

  ghost predicate Disjoint(f: seq<Tree>) { forall i, j :: 0 <= i < j < |f| ==> Nodes(f[i]) !! Nodes(f[j]) }

  /** f holds the trees of the buckets. */
  ghost predicate ForestOk(w: Window, son: seq<nat>, heads: seq<nat>, f: seq<Tree>, limit: nat)
    requires 0 < w.cyc && |son| == 2 * w.cyc
  {
    |f| == |heads| && (forall i :: 0 <= i < |f| ==> TreeOk(w, son, heads[i], f[i], limit)) && Disjoint(f)
  }

  /** Live entries of the small hash tables have the hash under which they are entered. */
  ghost predicate Hashes2Ok(w: Window, refs: seq<nat>)
    requires RefsOk(w, refs)
  {
    forall h :: 0 <= h < |refs| && w.Live(refs[h]) ==>
      w.Abs(refs[h]) + 2 <= |w.text| && Hash2(w.text, w.Abs(refs[h])) == h
  }

  ghost predicate Hashes3Ok(w: Window, refs: seq<nat>)
    requires RefsOk(w, refs)
  {
    forall h :: 0 <= h < |refs| && w.Live(refs[h]) ==>
      w.Abs(refs[h]) + 3 <= |w.text| && Hash3(w.text, w.Abs(refs[h])) == h
  }

  /** The invariant of the match finder. */
  ghost predicate Inv(p: Setup, s: State, f: seq<Tree>) {
    && ShapeOk(s) && s.w.n <= |s.w.text| && Hashes2Ok(s.w, s.hash2) && Hashes3Ok(s.w, s.hash3)
    && ForestOk(s.w, s.son, s.heads, f, Limit(p, s.w))
  }

  // ---------- References after a step ----------

  /** What is live after a step was live before it, or is the position just left. */
  lemma RefAfter(w: Window, v: nat)
    requires w.Ok() && w.n < |w.text| && (w.RefOk(v) || v == w.pos)
    ensures After(w).RefOk(v)
    ensures After(w).Live(v) ==> After(w).Abs(v) == if v == w.pos then w.n else w.Abs(v)
    ensures After(w).Live(v) && v != w.pos ==> w.Live(v)
  {
  }

  lemma RefsAfter(w: Window, refs: seq<nat>, h: nat)
    requires w.Ok() && w.n < |w.text| && RefsOk(w, refs)
    ensures RefsOk(After(w), refs) && (h < |refs| ==> RefsOk(After(w), refs[h := w.pos]))
  {
    hide After;
    forall v: nat | w.RefOk(v) || v == w.pos
      ensures After(w).RefOk(v)
    {
      RefAfter(w, v);
    }
  }

  lemma SonAfter(w: Window, son: seq<nat>)
    requires w.Ok() && w.n < |w.text| && ArrayOk(w, son)
    ensures ArrayOk(After(w), son)
  {
    RefsAfter(w, son, |son|);
  }

  lemma ShapeAfter(p: Setup, s: State)
    requires ShapeOk(s) && s.w.n < |s.w.text|
    ensures ShapeOk(PlainStep(p, s))
  {
    hide ArrayOk, RefsOk, Hash2, Hash3, Hash4, Walk;
    RefsAfter(s.w, s.hash2, |s.hash2|);
    RefsAfter(s.w, s.hash3, |s.hash3|);
    RefsAfter(s.w, s.heads, |s.heads|);
    SonAfter(s.w, s.son);
    if 4 <= Limit(p, s.w) {
      RefsAfter(s.w, s.hash2, Hash2(s.w.text, s.w.n));
      RefsAfter(s.w, s.hash3, Hash3(s.w.text, s.w.n));
      RefsAfter(s.w, s.heads, Hash4(s.w.text, s.w.n, |s.heads|));
      SonAfter(s.w, Inserted(p, s).son);
    }
  }

  lemma Hashes2After(w: Window, refs: seq<nat>)
    requires w.Ok() && w.n < |w.text| && RefsOk(w, refs) && Hashes2Ok(w, refs) && |refs| == 0x400
    ensures RefsOk(After(w), refs) && Hashes2Ok(After(w), refs)
    ensures w.n + 2 <= |w.text| ==>
      var r := refs[Hash2(w.text, w.n) := w.pos]; RefsOk(After(w), r) && Hashes2Ok(After(w), r)
  {
    hide Hash2, After;
    AfterText(w);
    RefsAfter(w, refs, |refs|);
    forall h | 0 <= h < |refs|
      ensures After(w).Live(refs[h]) ==> w.Live(refs[h]) && After(w).Abs(refs[h]) == w.Abs(refs[h])
    {
      RefAfter(w, refs[h]);
    }
    if w.n + 2 <= |w.text| {
      RefAfter(w, w.pos);
      RefsAfter(w, refs, Hash2(w.text, w.n));
    }
  }

  lemma Hashes3After(w: Window, refs: seq<nat>)
    requires w.Ok() && w.n < |w.text| && RefsOk(w, refs) && Hashes3Ok(w, refs) && |refs| == 0x1_0000
    ensures RefsOk(After(w), refs) && Hashes3Ok(After(w), refs)
    ensures w.n + 3 <= |w.text| ==>
      var r := refs[Hash3(w.text, w.n) := w.pos]; RefsOk(After(w), r) && Hashes3Ok(After(w), r)
  {
    hide Hash3, After;
    AfterText(w);
    RefsAfter(w, refs, |refs|);
    forall h | 0 <= h < |refs|
      ensures After(w).Live(refs[h]) ==> w.Live(refs[h]) && After(w).Abs(refs[h]) == w.Abs(refs[h])
    {
      RefAfter(w, refs[h]);
    }
    if w.n + 3 <= |w.text| {
      RefAfter(w, w.pos);
      RefsAfter(w, refs, Hash3(w.text, w.n));
    }
  }

  lemma AfterText(w: Window)
    requires w.Ok() && w.n < |w.text|
    ensures After(w).text == w.text && After(w).cyc == w.cyc && After(w).n == w.n + 1 && After(w).pos == w.pos + 1
  {
  }

  // ---------- Trees that age ----------

  /** The tree without the positions before `oldest`. */
  function Prune(t: Tree, oldest: int): Tree {
    if t.Leaf? || t.at < oldest then Leaf else Node(t.at, Prune(t.left, oldest), Prune(t.right, oldest))
  }

  lemma {:induction false} PruneNodes(t: Tree, oldest: int, bound: nat)
    requires Aged(t, bound) && Distinct(t)
    ensures Nodes(Prune(t, oldest)) <= Nodes(t) && Aged(Prune(t, oldest), bound) && Distinct(Prune(t, oldest))
    decreases t
  {
    if t.Node? {
      PruneNodes(t.left, oldest, t.at);
      PruneNodes(t.right, oldest, t.at);
    }
  }

  /** Less is compared, and less is there. */
  lemma {:induction false} PruneOrdered(text: seq<Byte>, limit: nat, less: nat, t: Tree, oldest: int, lo: Bound, hi: Bound)
    requires less <= limit && Ordered(text, limit, t, lo, hi)
    ensures Ordered(text, less, Prune(t, oldest), lo, hi)
    decreases t
  {
    if t.Node? && t.at >= oldest {
      hide Le;
      if lo.At? {
        LeShorter(text, lo.pos, t.at, limit, less);
      }
      if hi.At? {
        LeShorter(text, t.at, hi.pos, limit, less);
      }
      PruneOrdered(text, limit, less, t.left, oldest, lo, At(t.at));
      PruneOrdered(text, limit, less, t.right, oldest, At(t.at), hi);
    }
  }

  /** The first position that is live after the step. */
  function Oldest(w: Window): int { w.n + 2 - w.cyc }

  /** As the window moves, a tree loses what falls out of it: parents are younger, so whole subtrees go. */
  lemma {:induction false} RepAfter(w: Window, son: seq<nat>, v: nat, t: Tree)
    requires w.Ok() && w.n < |w.text| && ArrayOk(w, son) && w.RefOk(v) && |son| == 2 * w.cyc && Rep(w, son, v, t)
    ensures Rep(After(w), son, v, Prune(t, Oldest(w)))
    decreases t
  {
    hide Slot, After;
    AfterText(w);
    RefAfter(w, v);
    if t.Node? {
      SlotAfter(w, t.at);
      RepAfter(w, son, son[2 * Slot(w, t.at)], t.left);
      RepAfter(w, son, son[2 * Slot(w, t.at) + 1], t.right);
    }
  }

  lemma SlotAfter(w: Window, q: nat)
    requires w.Ok() && w.n < |w.text|
    ensures Slot(After(w), q) == Slot(w, q)
  {
  }

  // ---------- The trees after a step ----------

  ghost predicate AllAged(f: seq<Tree>, bound: nat) { forall i :: 0 <= i < |f| ==> Aged(f[i], bound) }

  /** The tree of bucket i when n has been entered in its bucket, before anything is pruned. */
  ghost function Grown(p: Setup, s: State, t: Tree, i: nat): Tree
    requires ShapeOk(s) && s.w.n <= |s.w.text| && Aged(t, s.w.n)
  {
    var limit := Limit(p, s.w);
    if 4 <= limit && i == Hash4(s.w.text, s.w.n, |s.heads|) then Insert(s.w.text, s.w.n, limit, t, p.cut) else t
  }

  ghost function StepForest(p: Setup, s: State, f: seq<Tree>): (r: seq<Tree>)
    requires ShapeOk(s) && s.w.n <= |s.w.text| && AllAged(f, s.w.n)
    ensures |r| == |f| && forall i :: 0 <= i < |f| ==> r[i] == Prune(Grown(p, s, f[i], i), Oldest(s.w))
  {
    hide Grown, Prune, ShapeOk, Oldest;
    seq(|f|, i requires 0 <= i < |f| => Prune(Grown(p, s, f[i], i), Oldest(s.w)))
  }

  /** A tree without regard to the references: positions below bound, and in order. */
  ghost predicate Sound(text: seq<Byte>, bound: nat, t: Tree, limit: nat) {
    Aged(t, bound) && Distinct(t) && Ordered(text, limit, t, Free, Free)
  }

  /** The new tree holds n and nodes of the old one. */
  lemma InsertSound(text: seq<Byte>, n: nat, limit: nat, t: Tree, cut: nat)
    requires n + limit <= |text| && Sound(text, n, t, limit)
    ensures Sound(text, n + 1, Insert(text, n, limit, t, cut), limit)
    ensures Nodes(Insert(text, n, limit, t, cut)) <= Nodes(t) + {n}
  {
    hide Le, Shared, Split, Nodes, Aged, Distinct, Ordered;
    SplitKeeps(text, n, limit, t, cut, n, Free, Free);
    var (l, r) := Split(text, n, limit, t, cut);
    RootSound(text, n, limit, t, l, r);
  }

  lemma RootSound(text: seq<Byte>, n: nat, limit: nat, t: Tree, l: Tree, r: Tree)
    requires n + limit <= |text| && SplitOk(text, n, limit, t, l, r, n, Free, Free)
    ensures Sound(text, n + 1, Node(n, l, r), limit) && Nodes(Node(n, l, r)) <= Nodes(t) + {n}
  {
    hide Le;
    assert forall x :: x in Nodes(l) || x in Nodes(r) ==> x in Nodes(l) + Nodes(r);
  }

  lemma GrownSound(p: Setup, s: State, t: Tree, i: nat)
    requires ShapeOk(s) && s.w.n <= |s.w.text| && Sound(s.w.text, s.w.n, t, Limit(p, s.w))
    ensures Sound(s.w.text, s.w.n + 1, Grown(p, s, t, i), Limit(p, s.w))
    ensures Nodes(Grown(p, s, t, i)) <= Nodes(t) + {s.w.n}
    ensures (4 <= Limit(p, s.w) && i == Hash4(s.w.text, s.w.n, |s.heads|)) || Grown(p, s, t, i) == t
  {
    hide ShapeOk, Hash4, Ordered, Distinct, Insert, Nodes;
    AgedLater(t, s.w.n, s.w.n + 1);
    if 4 <= Limit(p, s.w) {
      InsertSound(s.w.text, s.w.n, Limit(p, s.w), t, p.cut);
    }
  }

  lemma PruneSound(text: seq<Byte>, bound: nat, t: Tree, limit: nat, less: nat, oldest: int)
    requires Sound(text, bound, t, limit) && less <= limit
    ensures Sound(text, bound, Prune(t, oldest), less) && Nodes(Prune(t, oldest)) <= Nodes(t)
  {
    PruneNodes(t, oldest, bound);
    PruneOrdered(text, limit, less, t, oldest, Free, Free);
  }

  /** Disjoint trees stay so: only one of them gets n. */
  lemma StillDisjoint(p: Setup, s: State, f: seq<Tree>)
    requires ShapeOk(s) && s.w.n <= |s.w.text| && AllAged(f, s.w.n) && Disjoint(f)
    requires forall i :: 0 <= i < |f| ==> Sound(s.w.text, s.w.n, f[i], Limit(p, s.w))
    ensures Disjoint(StepForest(p, s, f))
  {
    hide ShapeOk, Hash4, Sound, Nodes, Aged, Grown, Prune, Oldest;
    var n, r := s.w.n, StepForest(p, s, f);
    forall i | 0 <= i < |f|
      ensures n !in Nodes(f[i]) && Nodes(r[i]) <= Nodes(f[i]) + {n}
      ensures n in Nodes(r[i]) ==> i == Hash4Of(s)
    {
      NodesBelow(f[i], n);
      GrownSound(p, s, f[i], i);
      PruneSound(s.w.text, n + 1, Grown(p, s, f[i], i), Limit(p, s.w), Limit(p, s.w), Oldest(s.w));
    }
    forall i, j | 0 <= i < j < |f|
      ensures Nodes(r[i]) !! Nodes(r[j])
    {
      assert Nodes(f[i]) !! Nodes(f[j]);
    }
  }

  function Hash4Of(s: State): int { if s.w.n + 4 <= |s.w.text| && 0 < |s.heads| then Hash4(s.w.text, s.w.n, |s.heads|) else -1 }

  // ---------- The array after a step ----------

  lemma Lengths(w: Window, son: seq<nat>)
    requires ArrayOk(w, son)
    ensures |son| == 2 * w.cyc
  {
  }

  /** The pair that n is about to get is not in use. */
  lemma PlacesFree(w: Window, t: Tree)
    requires w.Ok() && InWindow(w, t)
    ensures !Uses(w, t, w.cyclicPos)
  {
    if Uses(w, t, w.cyclicPos) {
      var x := UserOf(w, t, w.cyclicPos);
      OneSlotEach(w, x, w.n);
    }
  }

  /** What hangs in the bucket that n enters. */
  lemma BucketSplit(p: Setup, s: State, t: Tree)
    requires ShapeOk(s) && s.w.n <= |s.w.text| && 4 <= Limit(p, s.w)
    requires TreeOk(s.w, s.son, s.heads[Hash4(s.w.text, s.w.n, |s.heads|)], t, Limit(p, s.w))
    ensures var (l, r) := Split(s.w.text, s.w.n, Limit(p, s.w), t, p.cut);
            Splits(s.w, s.son, Inserted(p, s).son, 2 * s.w.cyclicPos + 1, 2 * s.w.cyclicPos, t, l, r)
  {
    hide Hash2, Hash3, Hash4, Walk, Splits, Rep, Split, Ordered, Distinct, Uses, Slot;
    var v := s.heads[Hash4(s.w.text, s.w.n, |s.heads|)];
    RepWindow(s.w, s.son, v, t);
    PlacesFree(s.w, t);
    PlacesOf(s.w.cyclicPos);
    RootCanWalk(p, s, Limit(p, s.w), v);
    WalkSplits(s.w, Limit(p, s.w), s.son, Root(p, s.w, v), t, Free, Free);
  }

  /** The trees of the other buckets are as they were. */
  lemma OthersKept(w: Window, son: seq<nat>, son': seq<nat>, t: Tree, l: Tree, r: Tree, v: nat, u: Tree)
    requires w.Ok() && |son| == 2 * w.cyc && Splits(w, son, son', 2 * w.cyclicPos + 1, 2 * w.cyclicPos, t, l, r)
    requires InWindow(w, t) && Rep(w, son, v, u) && Nodes(u) !! Nodes(t)
    ensures Rep(w, son', v, u)
  {
    hide Uses, AgreeOutside, Nodes, InWindow, Rep, Slot;
    RepWindow(w, son, v, u);
    PlacesFree(w, u);
    PlacesOf(w.cyclicPos);
    forall c | 0 <= c < |son| && Uses(w, u, c / 2)
      ensures son'[c] == son[c]
    {
      OwnSlots(w, u, t, c / 2);
      Kept(w, son, son', t, 2 * w.cyclicPos + 1, 2 * w.cyclicPos, c);
    }
    RepFrame(w, son, son', v, u);
  }

  /** The tree with n as its root hangs at n's reference after the step. */
  lemma RootAfter(w: Window, son: seq<nat>, l: Tree, r: Tree)
    requires w.Ok() && w.n < |w.text| && ArrayOk(w, son) && |son| == 2 * w.cyc
    requires Rep(w, son, son[2 * w.cyclicPos], l) && Rep(w, son, son[2 * w.cyclicPos + 1], r)
    ensures Rep(After(w), son, w.pos, Prune(Node(w.n, l, r), Oldest(w)))
  {
    hide After;
    AfterText(w);
    RefAfter(w, w.pos);
    RepAfter(w, son, son[2 * w.cyclicPos], l);
    RepAfter(w, son, son[2 * w.cyclicPos + 1], r);
  }

  /** The array holds the grown and pruned trees. */
  lemma HeldAfter(p: Setup, s: State, f: seq<Tree>, i: nat)
    requires Inv(p, s, f) && s.w.n < |s.w.text| && i < |f|
    ensures ShapeOk(PlainStep(p, s)) && Aged(f[i], s.w.n) && i < |s.heads|
    ensures var s' := PlainStep(p, s);
            |s'.son| == 2 * s'.w.cyc && i < |s'.heads| && Rep(s'.w, s'.son, s'.heads[i], Prune(Grown(p, s, f[i], i), Oldest(s.w)))
  {
    hide Hashes2Ok, Hashes3Ok, Ordered, Distinct, Nodes, Hash2, Hash3, Hash4, Split, Walk, Prune, Rep, RefsOk, Uses, After, Oldest, Limit, AgreeOutside, Slot;
    ShapeAfter(p, s);
    AfterText(s.w);
    Lengths(s.w, s.son);
    var limit := Limit(p, s.w);
    HeadOk(s, i);
    if limit < 4 {
      RepAfter(s.w, s.son, s.heads[i], f[i]);
    } else {
      var h := Hash4(s.w.text, s.w.n, |s.heads|);
      var (l, r) := Split(s.w.text, s.w.n, limit, f[h], p.cut);
      var son' := Inserted(p, s).son;
      Lengths(s.w, son');
      BucketSplit(p, s, f[h]);
      if i == h {
        RootAfter(s.w, son', l, r);
      } else {
        RepWindow(s.w, s.son, s.heads[h], f[h]);
        assert Nodes(f[i]) !! Nodes(f[h]);
        OthersKept(s.w, s.son, son', f[h], l, r, s.heads[i], f[i]);
        RepAfter(s.w, son', s.heads[i], f[i]);
      }
    }
  }

  lemma HeadOk(s: State, i: nat)
    requires ShapeOk(s) && i < |s.heads|
    ensures s.w.RefOk(s.heads[i])
  {
  }

  lemma LimitAfter(p: Setup, w: Window)
    requires w.Ok() && w.n < |w.text|
    ensures Limit(p, After(w)) <= Limit(p, w)
  {
  }

  /** A step keeps the invariant. */
  lemma PlainStepKeeps(p: Setup, s: State, f: seq<Tree>)
    requires Inv(p, s, f) && s.w.n < |s.w.text|
    ensures AllAged(f, s.w.n) && Inv(p, PlainStep(p, s), StepForest(p, s, f))
  {
    hide Ordered, Distinct, Nodes, Hash2, Hash3, Hash4, Walk, Prune, Rep, RefsOk, After, Oldest, Grown, Limit, Aged, ArrayOk, Disjoint, Hashes2Ok, Hashes3Ok;
    ShapeAfter(p, s);
    Lengths(PlainStep(p, s).w, PlainStep(p, s).son);
    AfterText(s.w);
    LimitAfter(p, s.w);
    Hashes2After(s.w, s.hash2);
    Hashes3After(s.w, s.hash3);
    var s' := PlainStep(p, s);
    StillDisjoint(p, s, f);
    forall i | 0 <= i < |f|
      ensures TreeOk(s'.w, s'.son, s'.heads[i], StepForest(p, s, f)[i], Limit(p, s'.w))
    {
      HeldAfter(p, s, f, i);
      GrownSound(p, s, f[i], i);
      PruneSound(s.w.text, s.w.n + 1, Grown(p, s, f[i], i), Limit(p, s.w), Limit(p, s'.w), Oldest(s.w));
    }
  }
}
