/** With cutValue not below the size of the history, the match finder misses nothing: of the matches in the window, it
    reports a longest one. */
module MatchLongest {
  import opened Bytes
  import opened CyclicTrees
  import opened MatchAnswers
  import opened MatchForest
  import opened MatchHashes
  import opened MatchNormalize
  import opened MatchRuns
  import opened SuffixTrees

  /** A node of the tree, not older than q, cannot be told from q. */
  ghost predicate Covered(text: seq<Byte>, n: nat, limit: nat, t: Tree, q: nat)
    requires q <= n && n + limit <= |text|
  {
    exists m: nat :: m in Nodes(t) && Covers(text, n, limit, q, m)
  }

  ghost predicate Covers(text: seq<Byte>, n: nat, limit: nat, q: nat, m: nat)
    requires q <= n && n + limit <= |text|
  {
    q <= m < n && Same(text, m, q, limit)
  }

  /** All nodes are in the window. */
  ghost predicate Recent(t: Tree, low: int) { forall x :: x in Nodes(t) ==> low <= x }

  /** Every position in the window is covered by the tree of its bucket. */
  ghost predicate Complete(p: Setup, w: Window, f: seq<Tree>) {
    && w.n <= |w.text| && 0 < |f|
    && (4 <= Limit(p, w) ==> forall q: nat :: q < w.n && w.n - q < w.cyc ==> CoveredIn(p, w, f, q))
  }

  ghost predicate CoveredIn(p: Setup, w: Window, f: seq<Tree>, q: nat)
    requires w.n <= |w.text| && 0 < |f| && 4 <= Limit(p, w) && q < w.n
  {
    Covered(w.text, w.n, Limit(p, w), f[Hash4(w.text, q, |f|)], q)
  }

  // ---------- What is lost ----------

  /** With enough to spend, splitting loses only what cannot be told from n. */
  lemma {:induction false} SplitLoses(text: seq<Byte>, n: nat, limit: nat, t: Tree, cut: nat, bound: nat, low: int, m: nat)
    requires n + limit <= |text| && Aged(t, bound) && bound <= n && Recent(t, low) && low + cut >= bound && m in Nodes(t)
    ensures Aged(t, n) && m < n
    ensures var (l, r) := Split(text, n, limit, t, cut); m in Nodes(l) || m in Nodes(r) || Same(text, m, n, limit)
    decreases t
  {
    hide Shared, Split, Same;
    AgedLater(t, bound, n);
    NodesBelow(t, n);
    AgedLater(t.left, t.at, n);
    AgedLater(t.right, t.at, n);
    SplitUnfolds(text, n, limit, t, cut);
    var k := Shared(text, t.at, n, limit);
    if m != t.at && k != limit {
      if text[t.at + k] < text[n + k] {
        if m in Nodes(t.right) {
          SplitLoses(text, n, limit, t.right, cut - 1, t.at, low, m);
        }
      } else if m in Nodes(t.left) {
        SplitLoses(text, n, limit, t.left, cut - 1, t.at, low, m);
      }
    }
  }

  lemma {:induction false} PruneLoses(t: Tree, oldest: int, bound: nat, m: nat)
    requires Aged(t, bound) && m in Nodes(t) && oldest <= m
    ensures m in Nodes(Prune(t, oldest))
    decreases t
  {
    NodesBelow(t.left, t.at);
    NodesBelow(t.right, t.at);
    if m != t.at {
      if m in Nodes(t.left) {
        PruneLoses(t.left, oldest, t.at, m);
      } else {
        PruneLoses(t.right, oldest, t.at, m);
      }
    }
  }

  lemma {:induction false} HeightBound(t: Tree, bound: nat, low: int)
    requires Aged(t, bound) && Recent(t, low) && low <= bound
    ensures low + Height(t) <= bound
    decreases t
  {
    if t.Node? {
      assert t.at in Nodes(t) && Nodes(t.left) <= Nodes(t) && Nodes(t.right) <= Nodes(t);
      HeightBound(t.left, t.at, low);
      HeightBound(t.right, t.at, low);
    }
  }

  // ---------- A step ----------

  lemma SameSelf(text: seq<Byte>, a: nat, k: nat)
    requires a + k <= |text|
    ensures Same(text, a, a, k)
  {
  }

  /** A node that cannot be told from q, n among them. */
  ghost predicate Kept(text: seq<Byte>, n: nat, limit: nat, t: Tree, q: nat)
    requires q <= n && n + limit <= |text|
  {
    exists m: nat :: m in Nodes(t) && q <= m <= n && Same(text, m, q, limit)
  }

  /** The tree that n enters still covers what it covered, and n. */
  lemma InsertCovers(text: seq<Byte>, n: nat, limit: nat, t: Tree, cut: nat, low: int, q: nat)
    requires n + limit <= |text| && n < |text| && Aged(t, n) && Recent(t, low) && low + cut >= n
    requires q == n || (q < n && Covered(text, n, limit, t, q))
    ensures Kept(text, n, limit, Insert(text, n, limit, t, cut), q)
  {
    hide Same, Split;
    var (l, r) := Split(text, n, limit, t, cut);
    assert Nodes(Insert(text, n, limit, t, cut)) == {n} + Nodes(l) + Nodes(r);
    if q == n {
      SameSelf(text, n, limit);
    } else {
      var m: nat :| m in Nodes(t) && Covers(text, n, limit, q, m);
      SplitLoses(text, n, limit, t, cut, n, low, m);
      if m !in Nodes(l) && m !in Nodes(r) {
        SameBack(text, m, n, limit);
        SameTrans(text, n, m, q, limit);
      }
    }
  }

  lemma SameBack(text: seq<Byte>, a: nat, b: nat, k: nat)
    requires a + k <= |text| && b + k <= |text| && Same(text, a, b, k)
    ensures Same(text, b, a, k)
  {
  }

  /** The trees, with n entered, keep what they covered, and n. */
  lemma GrownCovers(p: Setup, s: State, t: Tree, i: nat, q: nat)
    requires ShapeOk(s) && s.w.n < |s.w.text| && Aged(t, s.w.n) && InWindow(s.w, t) && s.w.cyc <= p.cut + 1
    requires 4 <= Limit(p, s.w) && q <= s.w.n && s.w.n + 1 - q < s.w.cyc
    requires if q < s.w.n then Covered(s.w.text, s.w.n, Limit(p, s.w), t, q) else i == Hash4(s.w.text, q, |s.heads|)
    ensures Kept(s.w.text, s.w.n, Limit(p, s.w), Grown(p, s, t, i), q)
  {
    hide Same, Hash4, Insert, Covered, ShapeOk, Nodes, Grown, InWindow, Aged;
    GrownIs(p, s, t, i);
    if i == Hash4(s.w.text, s.w.n, |s.heads|) {
      WindowRecent(s.w, t);
      InsertCovers(s.w.text, s.w.n, Limit(p, s.w), t, p.cut, s.w.n + 1 - s.w.cyc, q);
    } else {
      CoveringNode(s.w.text, s.w.n, Limit(p, s.w), t, q);
    }
  }

  lemma GrownIs(p: Setup, s: State, t: Tree, i: nat)
    requires ShapeOk(s) && s.w.n <= |s.w.text| && Aged(t, s.w.n) && 4 <= Limit(p, s.w)
    ensures 0 < |s.heads| && Grown(p, s, t, i) == if i == Hash4(s.w.text, s.w.n, |s.heads|) then Insert(s.w.text, s.w.n, Limit(p, s.w), t, p.cut) else t
  {
    hide Insert, Hash4;
  }

  lemma WindowRecent(w: Window, t: Tree)
    requires InWindow(w, t)
    ensures Recent(t, w.n + 1 - w.cyc)
  {
    hide Nodes;
  }

  lemma CoveringNode(text: seq<Byte>, n: nat, limit: nat, t: Tree, q: nat)
    requires q <= n && n + limit <= |text| && Covered(text, n, limit, t, q)
    ensures Kept(text, n, limit, t, q)
  {
    hide Same;
    var m: nat :| m in Nodes(t) && Covers(text, n, limit, q, m);
  }

  lemma LimitAfter(p: Setup, w: Window)
    requires w.Ok() && w.n < |w.text|
    ensures Limit(p, After(w)) <= Limit(p, w) && After(w).text == w.text && After(w).n == w.n + 1 && After(w).cyc == w.cyc
  {
  }

  /** A step covers the position that it leaves, and keeps the others covered. */
  lemma StepCovers(p: Setup, s: State, f: seq<Tree>)
    requires Inv(p, s, f) && s.w.n < |s.w.text| && AllAged(f, s.w.n) && s.w.cyc <= p.cut + 1 && Complete(p, s.w, f)
    ensures ShapeOk(s) && Complete(p, Step(p, s).w, StepForest(p, s, f))
  {
    hide Step, StepForest, CoveredIn, Inv, InWindow, ShapeOk;
    InvShape(p, s, f);
    InvWindow(p, s, f);
    StepWindow(p, s);
    LimitAfter(p, s.w);
    var w' := Step(p, s).w;
    if 4 <= Limit(p, w') {
      forall q: nat | q < w'.n && w'.n - q < w'.cyc
        ensures CoveredIn(p, w', StepForest(p, s, f), q)
      {
        CoveredNext(p, s, f, q);
      }
    }
  }

  lemma CoveredNext(p: Setup, s: State, f: seq<Tree>, q: nat)
    requires Inv(p, s, f) && s.w.n < |s.w.text| && AllAged(f, s.w.n) && s.w.cyc <= p.cut + 1
    requires ShapeOk(s) && |f| == |s.heads| > 0 && q <= s.w.n && s.w.n + 1 - q < s.w.cyc
    requires 4 <= Limit(p, Step(p, s).w) <= Limit(p, s.w) && (q < s.w.n ==> CoveredIn(p, s.w, f, q))
    requires var w' := Step(p, s).w; w'.text == s.w.text && w'.n == s.w.n + 1 && w'.cyc == s.w.cyc
    ensures CoveredIn(p, Step(p, s).w, StepForest(p, s, f), q)
  {
    hide Step, Covered, Kept, Inv, InWindow, Hash4, ShapeOk, Grown, Prune, Aged;
    var i := Hash4(s.w.text, q, |f|);
    InvWindow(p, s, f);
    GrownCovers(p, s, f[i], i, q);
    StillCovered(p, s, f, i, q, Limit(p, Step(p, s).w));
  }

  lemma StepWindow(p: Setup, s: State)
    requires ShapeOk(s) && s.w.n < |s.w.text|
    ensures var w' := Step(p, s).w; w'.text == s.w.text && w'.n == s.w.n + 1 && w'.cyc == s.w.cyc
    ensures Limit(p, Step(p, s).w) == Limit(p, After(s.w))
  {
    hide Hash2, Hash3, Hash4, Walk, Reduced;
  }

  lemma InvWindow(p: Setup, s: State, f: seq<Tree>)
    requires Inv(p, s, f)
    ensures |f| == |s.heads| > 0 && forall i :: 0 <= i < |f| ==> InWindow(s.w, f[i])
  {
    hide InWindow, Rep, Aged, Distinct, Ordered, Hashes2Ok, Hashes3Ok;
    forall i | 0 <= i < |f|
      ensures InWindow(s.w, f[i])
    {
      RepWindow(s.w, s.son, s.heads[i], f[i]);
    }
  }

  /** So does what is left of them in the window. */
  lemma StillCovered(p: Setup, s: State, f: seq<Tree>, i: nat, q: nat, limit': nat)
    requires Inv(p, s, f) && s.w.n < |s.w.text| && i < |f| && Aged(f[i], s.w.n)
    requires ShapeOk(s) && limit' <= Limit(p, s.w) && s.w.n + 1 + limit' <= |s.w.text| && q <= s.w.n && s.w.n + 1 - q < s.w.cyc
    requires Kept(s.w.text, s.w.n, Limit(p, s.w), Grown(p, s, f[i], i), q)
    ensures Covered(s.w.text, s.w.n + 1, limit', Prune(Grown(p, s, f[i], i), Oldest(s.w)), q)
  {
    hide Step, Grown, Same, Prune, Nodes, Inv, ShapeOk, Aged;
    var g, limit := Grown(p, s, f[i], i), Limit(p, s.w);
    var m: nat :| m in Nodes(g) && q <= m <= s.w.n && Same(s.w.text, m, q, limit);
    GrownAged(p, s, f, i);
    PruneLoses(g, Oldest(s.w), s.w.n + 1, m);
    SameShorter(s.w.text, m, q, limit', limit);
    assert Covers(s.w.text, s.w.n + 1, limit', q, m);
  }

  lemma GrownAged(p: Setup, s: State, f: seq<Tree>, i: nat)
    requires Inv(p, s, f) && i < |f|
    ensures ShapeOk(s) && Aged(f[i], s.w.n) && Aged(Grown(p, s, f[i], i), s.w.n + 1)
  {
    hide Rep, Distinct, Ordered, Aged, Grown, Nodes, ShapeOk;
    InvShape(p, s, f);
    GrownSound(p, s, f[i], i);
  }

  // ---------- The answers ----------

  /** Suffixes that share four bytes have one bucket. */
  lemma SameBucket(text: seq<Byte>, a: nat, b: nat, limit: nat, buckets: nat)
    requires a + limit <= |text| && b + limit <= |text| && 4 <= limit && 0 < buckets && 4 <= Shared(text, a, b, limit)
    ensures Hash4(text, a, buckets) == Hash4(text, b, buckets)
  {
    hide Shared, Same, Xor, Crc;
    var k := Shared(text, a, b, limit);
    SameAt(text, a, b, 0, k);
    SameAt(text, a, b, 1, k);
    SameAt(text, a, b, 2, k);
    SameAt(text, a, b, 3, k);
  }

  /** What cannot be told from q shares as much with n. */
  lemma SharedAlike(text: seq<Byte>, m: nat, q: nat, n: nat, limit: nat)
    requires m + limit <= |text| && q + limit <= |text| && n + limit <= |text| && Same(text, m, q, limit)
    ensures Shared(text, m, n, limit) == Shared(text, q, n, limit)
  {
    hide Same, Shared;
    var k := Shared(text, q, n, limit);
    SameShorter(text, m, q, k, limit);
    SameTrans(text, m, q, n, k);
    SharedIs(text, m, n, limit, k);
  }

  /** No position in the window has a longer match than the last one reported, matches of at most 3 bytes apart. */
  lemma LongestInWindow(p: Setup, s: State, f: seq<Tree>, q: nat)
    requires Inv(p, s, f) && Complete(p, s.w, f) && s.w.cyc <= p.cut + 1
    requires 4 <= Limit(p, s.w) && q < s.w.n && s.w.n - q < s.w.cyc
    ensures Shared(s.w.text, q, s.w.n, Limit(p, s.w)) <= Max(3, LastLen(Answers(p, s), 0))
  {
    hide Inv, Shared, Hash4, Answers, ShapeOk, Same, Nodes, Height;
    var text, n, limit := s.w.text, s.w.n, Limit(p, s.w);
    InvWindow(p, s, f);
    InvShape(p, s, f);
    if 4 <= Shared(text, q, n, limit) {
      var h := Hash4(text, n, |f|);
      SameBucket(text, q, n, limit, |f|);
      assert CoveredIn(p, s.w, f, q);
      var m: nat :| m in Nodes(f[h]) && Covers(text, n, limit, q, m);
      SharedAlike(text, m, q, n, limit);
      InvAged(p, s, f, h);
      HeightBound(f[h], n, if n + 1 < s.w.cyc then 0 else n + 1 - s.w.cyc);
      LongestIsReported(p, s, f);
    }
  }

  lemma InvAged(p: Setup, s: State, f: seq<Tree>, i: nat)
    requires Inv(p, s, f) && i < |f|
    ensures Aged(f[i], s.w.n)
  {
    hide Rep, Distinct, Ordered, Aged;
  }

  // ---------- Whole runs ----------

  /** No position in the window shares more with n than the last pair says, matches of at most 3 bytes apart. */
  ghost predicate Longest(w: Window, limit: nat, ms: seq<Pair>) {
    w.n + limit <= |w.text| && forall q: nat :: q < w.n && w.n - q < w.cyc ==> Shared(w.text, q, w.n, limit) <= Max(3, LastLen(ms, 0))
  }

  lemma LongestHere(p: Setup, s: State, f: seq<Tree>)
    requires Inv(p, s, f) && Complete(p, s.w, f) && s.w.cyc <= p.cut + 1
    ensures ShapeOk(s) && s.w.n <= |s.w.text| && Longest(s.w, Limit(p, s.w), Answers(p, s))
  {
    hide Inv, Complete, Shared, Answers, ShapeOk;
    InvShape(p, s, f);
    forall q: nat | q < s.w.n && s.w.n - q < s.w.cyc
      ensures Shared(s.w.text, q, s.w.n, Limit(p, s.w)) <= Max(3, LastLen(Answers(p, s), 0))
    {
      if 4 <= Limit(p, s.w) {
        LongestInWindow(p, s, f, q);
      }
    }
  }

  lemma {:induction false} RunsMissNothing(p: Setup, s: State, f: seq<Tree>, k: nat)
    requires Inv(p, s, f) && ShapeOk(s) && s.w.n + k <= |s.w.text| && Complete(p, s.w, f) && s.w.cyc <= p.cut + 1
    ensures var r := Steps(p, s, k); Longest(r.w, Limit(p, r.w), Answers(p, r))
    decreases k
  {
    hide Inv, Step, StepForest, Complete, Longest, Answers, ShapeOk;
    if k == 0 {
      LongestHere(p, s, f);
    } else {
      StepShape(p, s);
      StepWindow(p, s);
      StepKeeps(p, s, f);
      StepCovers(p, s, f);
      RunsMissNothing(p, Step(p, s), StepForest(p, s, f), k - 1);
    }
  }

  /** From the start on, whatever the text, a longest match in the window is reported. */
  lemma NothingIsMissed(p: Setup, text: seq<Byte>, cyc: nat, buckets: nat, k: nat)
    requires 0 < cyc <= p.cut + 1 && 0 < buckets && k <= |text|
    ensures ShapeOk(Start(text, cyc, buckets))
    ensures var r := Steps(p, Start(text, cyc, buckets), k); Longest(r.w, Limit(p, r.w), Answers(p, r))
  {
    hide Inv, Steps, Longest, Answers, ShapeOk;
    StartInv(p, text, cyc, buckets);
    InvShape(p, Start(text, cyc, buckets), Leaves(buckets));
    RunsMissNothing(p, Start(text, cyc, buckets), Leaves(buckets), k);
  }
}
