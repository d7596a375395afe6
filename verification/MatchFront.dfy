/** Of the matches of more than three bytes, just those are reported that are longer than every nearer one. */
module MatchFront {
  import opened Bytes
  import opened CyclicTrees
  import opened MatchAnswers
  import opened MatchForest
  import opened MatchHashes
  import opened MatchLongest
  import opened MatchNormalize
  import opened MatchRuns
  import opened MatchShort
  import opened SuffixTrees

  // ---------- In a tree ----------

  function PairOf(text: seq<Byte>, n: nat, limit: nat, x: nat): Pair
    requires n + limit <= |text| && x < n
  {
    Pair(Shared(text, x, n, limit), n - 1 - x)
  }

  /** No younger node shares as much with n. */
  ghost predicate Leads(text: seq<Byte>, n: nat, limit: nat, t: Tree, x: nat)
    requires n + limit <= |text| && x < n
  {
    forall y :: y in Nodes(t) && x < y < n ==> Shared(text, y, n, limit) < Shared(text, x, n, limit)
  }

  lemma RootLeads(text: seq<Byte>, n: nat, limit: nat, t: Tree)
    requires n + limit <= |text| && t.Node? && Aged(t, n)
    ensures t.at < n && Leads(text, n, limit, t, t.at)
  {
    hide Shared;
    NodesBelow(t.left, t.at);
    NodesBelow(t.right, t.at);
    assert forall y :: y in Nodes(t) ==> y == t.at || y in Nodes(t.left) || y in Nodes(t.right);
  }

  /** A node that shares no more than the root does not lead. */
  lemma RootStops(text: seq<Byte>, n: nat, limit: nat, t: Tree, x: nat)
    requires n + limit <= |text| && t.Node? && Aged(t, n) && x in Nodes(t) && x != t.at && x < n
    requires Shared(text, x, n, limit) <= Shared(text, t.at, n, limit)
    ensures !Leads(text, n, limit, t, x)
  {
    hide Shared;
    NodesBelow(t.left, t.at);
    NodesBelow(t.right, t.at);
    assert t.at in Nodes(t);
  }

  lemma NotOfRest(text: seq<Byte>, n: nat, limit: nat, rest: Tree, cut: nat, maxLen: nat, x: nat)
    requires n + limit <= |text| && Aged(rest, n) && maxLen < limit && x < n && x !in Nodes(rest)
    ensures PairOf(text, n, limit, x) !in Matches(text, n, limit, rest, cut, maxLen)
  {
    hide Shared, Matches, Nodes;
    MatchesAreTrue(text, n, limit, rest, cut, maxLen);
    var ms := Matches(text, n, limit, rest, cut, maxLen);
    forall i | 0 <= i < |ms|
      ensures ms[i].dist != n - 1 - x
    {
      assert MatchHere(text, n, limit, Nodes(rest), ms[i]);
    }
  }

  /** What leads among the nodes on the near side, and shares more than the root, leads among all. */
  lemma NearLeads(text: seq<Byte>, n: nat, limit: nat, t: Tree, near: Tree, far: Tree, x: nat)
    requires n + limit <= |text| && t.Node? && Aged(t, n) && Nodes(t) == {t.at} + Nodes(near) + Nodes(far)
    requires NoLonger(text, n, limit, far, Shared(text, t.at, n, limit)) && x in Nodes(near) && x < t.at
    ensures Shared(text, t.at, n, limit) < Shared(text, x, n, limit) && Leads(text, n, limit, near, x) <==> Leads(text, n, limit, t, x)
  {
    hide Shared, Nodes;
    assert t.at in Nodes(t);
  }

  /** The root leads, and is reported if it shares more than maxLen. */
  lemma RootCase(text: seq<Byte>, n: nat, limit: nat, t: Tree, cut: nat, maxLen: nat)
    requires n + limit <= |text| && t.Node? && Aged(t, n) && maxLen < limit && 0 < cut
    ensures t.at < n && Leads(text, n, limit, t, t.at)
    ensures PairOf(text, n, limit, t.at) in Matches(text, n, limit, t, cut, maxLen) <==> maxLen < Shared(text, t.at, n, limit)
  {
    hide Shared, Matches, Leads;
    MatchesUnfolds(text, n, limit, t, cut, maxLen);
    RootLeads(text, n, limit, t);
    NodesBelow(t.left, t.at);
    NodesBelow(t.right, t.at);
    var k := Shared(text, t.at, n, limit);
    if k < limit && k <= maxLen {
      NotOfRest(text, n, limit, if text[t.at + k] < text[n + k] then t.right else t.left, cut - 1, maxLen, t.at);
    }
  }

  /** The side on which n is not. */
  function Far(text: seq<Byte>, n: nat, limit: nat, t: Tree): Tree
    requires n + limit <= |text| && t.Node? && t.at < n && Shared(text, t.at, n, limit) < limit
  {
    if text[t.at + Shared(text, t.at, n, limit)] < text[n + Shared(text, t.at, n, limit)] then t.left else t.right
  }

  lemma FarBound(text: seq<Byte>, n: nat, limit: nat, t: Tree, lo: Bound, hi: Bound)
    requires n + limit <= |text| && t.Node? && t.at < n && Ordered(text, limit, t, lo, hi) && Shared(text, t.at, n, limit) < limit
    ensures NoLonger(text, n, limit, Far(text, n, limit, t), Shared(text, t.at, n, limit))
  {
    hide Shared, Le, NoLonger;
    var k := Shared(text, t.at, n, limit);
    if text[t.at + k] < text[n + k] {
      FarSide(text, n, limit, t.left, lo, At(t.at), t.at);
    } else {
      FarSide(text, n, limit, t.right, At(t.at), hi, t.at);
    }
  }

  /** A node there does not lead, and is not reported. */
  lemma FarCase(text: seq<Byte>, n: nat, limit: nat, t: Tree, cut: nat, maxLen: nat, lo: Bound, hi: Bound, x: nat)
    requires n + limit <= |text| && t.Node? && Aged(t, n) && Distinct(t) && Ordered(text, limit, t, lo, hi) && maxLen < limit && 0 < cut
    requires t.at < n && Shared(text, t.at, n, limit) < limit && x in Nodes(Far(text, n, limit, t)) && x < t.at
    ensures !Leads(text, n, limit, t, x) && PairOf(text, n, limit, x) !in Matches(text, n, limit, t, cut, maxLen)
  {
    hide Shared, Matches, Leads, NoLonger, Ordered;
    MatchesUnfolds(text, n, limit, t, cut, maxLen);
    var k := Shared(text, t.at, n, limit);
    FarBound(text, n, limit, t, lo, hi);
    FarShares(text, n, limit, Far(text, n, limit, t), k, x);
    RootStops(text, n, limit, t, x);
    NotOfRest(text, n, limit, if text[t.at + k] < text[n + k] then t.right else t.left, cut - 1, if maxLen < k then k else maxLen, x);
  }

  /** The walk reports a node just if it shares more than maxLen, and more than every younger node. */
  lemma {:induction false} MatchesLead(text: seq<Byte>, n: nat, limit: nat, t: Tree, cut: nat, maxLen: nat, lo: Bound, hi: Bound, x: nat)
    requires n + limit <= |text| && Aged(t, n) && Distinct(t) && Ordered(text, limit, t, lo, hi) && maxLen < limit
    requires Height(t) <= cut && x in Nodes(t) && x < n
    ensures PairOf(text, n, limit, x) in Matches(text, n, limit, t, cut, maxLen)
            <==> maxLen < Shared(text, x, n, limit) && Leads(text, n, limit, t, x)
    decreases t
  {
    hide Shared, Le, Matches, Leads, Same, NoLonger;
    var k := Shared(text, t.at, n, limit);
    NodesBelow(t.left, t.at);
    NodesBelow(t.right, t.at);
    if x == t.at {
      RootCase(text, n, limit, t, cut, maxLen);
    } else if k == limit {
      MatchesUnfolds(text, n, limit, t, cut, maxLen);
      RootStops(text, n, limit, t, x);
    } else if x in Nodes(Far(text, n, limit, t)) {
      FarCase(text, n, limit, t, cut, maxLen, lo, hi, x);
    } else {
      MatchesUnfolds(text, n, limit, t, cut, maxLen);
      var more := if maxLen < k then k else maxLen;
      FarBound(text, n, limit, t, lo, hi);
      if text[t.at + k] < text[n + k] {
        MatchesLead(text, n, limit, t.right, cut - 1, more, At(t.at), hi, x);
        NearLeads(text, n, limit, t, t.right, t.left, x);
      } else {
        MatchesLead(text, n, limit, t.left, cut - 1, more, lo, At(t.at), x);
        NearLeads(text, n, limit, t, t.left, t.right, x);
      }
    }
  }

  lemma FarShares(text: seq<Byte>, n: nat, limit: nat, far: Tree, k: nat, x: nat)
    requires n + limit <= |text| && NoLonger(text, n, limit, far, k) && x in Nodes(far) && x < n
    ensures Shared(text, x, n, limit) <= k
  {
    hide Shared;
  }

  // ---------- In the text ----------

  /** No nearer position shares as much with n as q does. */
  ghost predicate Nearest(text: seq<Byte>, n: nat, limit: nat, q: nat)
    requires n + limit <= |text| && q < n
  {
    forall r :: q < r < n ==> Shared(text, r, n, limit) < Shared(text, q, n, limit)
  }

  /** The tree of n's bucket decides it. */
  lemma TreeNearest(p: Setup, s: State, f: seq<Tree>, q: nat, maxLen: nat)
    requires Inv(p, s, f) && Complete(p, s.w, f) && s.w.cyc <= p.cut + 1 && 4 <= Limit(p, s.w) && 3 <= maxLen < Limit(p, s.w)
    requires q < s.w.n && s.w.n - q < s.w.cyc && maxLen < Shared(s.w.text, q, s.w.n, Limit(p, s.w)) && |f| == |s.heads| > 0
    ensures PairOf(s.w.text, s.w.n, Limit(p, s.w), q)
            in Matches(s.w.text, s.w.n, Limit(p, s.w), f[Hash4(s.w.text, s.w.n, |f|)], p.cut, maxLen)
            <==> Nearest(s.w.text, s.w.n, Limit(p, s.w), q)
  {
    hide Inv, Complete, Shared, Hash4, Same, Nodes, Matches, Height, Leads, Nearest, Aged, Distinct, Ordered;
    var text, n, limit := s.w.text, s.w.n, Limit(p, s.w);
    var t := f[Hash4(text, n, |f|)];
    BucketTree(p, s, f);
    if q in Nodes(t) {
      MatchesLead(text, n, limit, t, p.cut, maxLen, Free, Free, q);
      LeadsIsNearest(p, s, f, q);
    } else {
      NotOfRest(text, n, limit, t, p.cut, maxLen, q);
      OtherNearer(p, s, f, q);
    }
  }

  lemma BucketTree(p: Setup, s: State, f: seq<Tree>)
    requires Inv(p, s, f) && s.w.cyc <= p.cut + 1 && 4 <= Limit(p, s.w) && |f| == |s.heads| > 0
    ensures var t := f[Hash4(s.w.text, s.w.n, |f|)];
            Aged(t, s.w.n) && Distinct(t) && Ordered(s.w.text, Limit(p, s.w), t, Free, Free) && Height(t) <= p.cut
    ensures s.w.n <= |s.w.text| && InWindow(s.w, f[Hash4(s.w.text, s.w.n, |f|)])
  {
    hide Rep, Distinct, Ordered, Aged, Height, Nodes, Hashes2Ok, Hashes3Ok, Hash4;
    InvWindow(p, s, f);
    var t := f[Hash4(s.w.text, s.w.n, |f|)];
    WindowRecent(s.w, t);
    HeightBound(t, s.w.n, if s.w.n + 1 < s.w.cyc then 0 else s.w.n + 1 - s.w.cyc);
  }

  /** A position that shares four bytes is covered by a node of n's bucket that shares as much. */
  lemma CoveringNode(p: Setup, s: State, f: seq<Tree>, q: nat) returns (m: nat)
    requires Inv(p, s, f) && Complete(p, s.w, f) && 4 <= Limit(p, s.w) && |f| == |s.heads| > 0
    requires s.w.n <= |s.w.text| && q < s.w.n && s.w.n - q < s.w.cyc && 4 <= Shared(s.w.text, q, s.w.n, Limit(p, s.w))
    ensures m in Nodes(f[Hash4(s.w.text, s.w.n, |f|)]) && q <= m < s.w.n
    ensures Shared(s.w.text, m, s.w.n, Limit(p, s.w)) == Shared(s.w.text, q, s.w.n, Limit(p, s.w))
  {
    hide Inv, Shared, Hash4, Same, Nodes;
    var text, n, limit := s.w.text, s.w.n, Limit(p, s.w);
    SameBucket(text, q, n, limit, |f|);
    assert CoveredIn(p, s.w, f, q);
    m :| m in Nodes(f[Hash4(text, n, |f|)]) && Covers(text, n, limit, q, m);
    SharedAlike(text, m, q, n, limit);
  }

  /** If q itself is not in the tree, a nearer position shares as much. */
  lemma OtherNearer(p: Setup, s: State, f: seq<Tree>, q: nat)
    requires Inv(p, s, f) && Complete(p, s.w, f) && 4 <= Limit(p, s.w) && |f| == |s.heads| > 0
    requires s.w.n <= |s.w.text| && q < s.w.n && s.w.n - q < s.w.cyc && 4 <= Shared(s.w.text, q, s.w.n, Limit(p, s.w))
    requires q !in Nodes(f[Hash4(s.w.text, s.w.n, |f|)])
    ensures !Nearest(s.w.text, s.w.n, Limit(p, s.w), q)
  {
    hide Inv, Complete, Shared, Hash4, Nodes;
    var m := CoveringNode(p, s, f, q);
  }

  /** Among the nodes or among all positions. */
  lemma LeadsIsNearest(p: Setup, s: State, f: seq<Tree>, q: nat)
    requires Inv(p, s, f) && Complete(p, s.w, f) && 4 <= Limit(p, s.w) && |f| == |s.heads| > 0
    requires s.w.n <= |s.w.text| && q < s.w.n && s.w.n - q < s.w.cyc && 4 <= Shared(s.w.text, q, s.w.n, Limit(p, s.w))
    ensures Leads(s.w.text, s.w.n, Limit(p, s.w), f[Hash4(s.w.text, s.w.n, |f|)], q) <==> Nearest(s.w.text, s.w.n, Limit(p, s.w), q)
  {
    hide Inv, Complete, Shared, Hash4, Nodes;
    var text, n, limit := s.w.text, s.w.n, Limit(p, s.w);
    if Leads(text, n, limit, f[Hash4(text, n, |f|)], q) {
      forall r | q < r < n
        ensures Shared(text, r, n, limit) < Shared(text, q, n, limit)
      {
        if 4 <= Shared(text, r, n, limit) {
          var m := CoveringNode(p, s, f, r);
        }
      }
    }
  }

  // ---------- In the answers ----------

  /** The last of the pairs of the small tables is of the full length; one before it is of two bytes. */
  lemma LastHit(w: Window, limit: nat, d2: nat, d3: nat) returns (d: nat)
    requires w.Ok() && w.n + limit <= |w.text| && 4 <= limit && HashHits(w, limit, d2, d3) != []
    requires (Hit(w, d2) ==> Same(w.text, w.n - d2, w.n, 2)) && (Hit(w, d3) ==> Same(w.text, w.n - d3, w.n, 3))
    ensures (d == d2 || d == d3) && Hit(w, d)
    ensures var hits := HashHits(w, limit, d2, d3);
            && hits[|hits| - 1] == PairOf(w.text, w.n, limit, w.n - d)
            && LastLen(hits, 0) == Shared(w.text, w.n - d, w.n, limit)
            && forall i :: 0 <= i < |hits| - 1 ==> hits[i].len == 2
  {
    hide HashHits, Scan, Same, Shared;
    HitsAre(w, limit, d2, d3);
    if Hit(w, d3) && d2 != d3 {
      d := d3;
      LateStart(w.text, w.n - d, w.n, 3, limit);
    } else {
      d := d2;
      LateStart(w.text, w.n - d, w.n, 2, limit);
    }
  }

  /** Positions that share four bytes have both hashes of n. */
  lemma SameHashes(text: seq<Byte>, r: nat, n: nat, limit: nat)
    requires r < n && n + limit <= |text| && 4 <= Shared(text, r, n, limit)
    ensures n + 4 <= |text| && Hash2(text, r) == Hash2(text, n) && Hash3(text, r) == Hash3(text, n)
  {
    hide Shared, Same, Xor, Crc;
    var k := Shared(text, r, n, limit);
    SameAt(text, r, n, 0, k);
    SameAt(text, r, n, 1, k);
    SameAt(text, r, n, 2, k);
  }

  /** Nothing nearer than a latest position shares four bytes. */
  lemma LatestIsNearest(text: seq<Byte>, n: nat, limit: nat, cyc: nat, last: nat, q: nat)
    requires n + limit <= |text| && (Latest2(text, n, cyc, last) || Latest3(text, n, cyc, last))
    requires q < n && 4 <= Shared(text, q, n, limit) <= Shared(text, last, n, limit)
    ensures Nearest(text, n, limit, q) <==> q == last
  {
    hide Shared, Hash2, Hash3;
    SameHashes(text, q, n, limit);
    if q == last {
      forall r | q < r < n
        ensures Shared(text, r, n, limit) < Shared(text, q, n, limit)
      {
        if 4 <= Shared(text, r, n, limit) {
          SameHashes(text, r, n, limit);
        }
      }
    }
  }

  /** q is among the pairs just if it is the nearest position that shares as much. */
  ghost predicate Decided(w: Window, limit: nat, ms: seq<Pair>, q: nat)
    requires w.n + limit <= |w.text| && q < w.n
  {
    PairOf(w.text, w.n, limit, q) in ms <==> Nearest(w.text, w.n, limit, q)
  }

  /** By the small tables, if they have a match as long. */
  lemma HitDecides(w: Window, limit: nat, d2: nat, d3: nat, more: seq<Pair>, q: nat)
    requires w.Ok() && w.n + limit <= |w.text| && 4 <= limit && HashHits(w, limit, d2, d3) != []
    requires (Hit(w, d2) ==> Same(w.text, w.n - d2, w.n, 2) && Latest2(w.text, w.n, w.cyc, w.n - d2))
    requires (Hit(w, d3) ==> Same(w.text, w.n - d3, w.n, 3) && Latest3(w.text, w.n, w.cyc, w.n - d3))
    requires q < w.n && 4 <= Shared(w.text, q, w.n, limit) <= LastLen(HashHits(w, limit, d2, d3), 0)
    requires forall i :: 0 <= i < |more| ==> LastLen(HashHits(w, limit, d2, d3), 0) < more[i].len
    ensures Decided(w, limit, HashHits(w, limit, d2, d3) + more, q)
  {
    hide Same, Shared, HashHits, Latest2, Latest3, Nearest;
    var d := LastHit(w, limit, d2, d3);
    LatestIsNearest(w.text, w.n, limit, w.cyc, w.n - d, q);
    var hits := HashHits(w, limit, d2, d3);
    assert hits[|hits| - 1] in hits + more by {
      assert (hits + more)[|hits| - 1] == hits[|hits| - 1];
    }
  }

  lemma HitsNoLonger(w: Window, limit: nat, d2: nat, d3: nat)
    requires w.Ok() && w.n + limit <= |w.text| && 4 <= limit
    ensures var hits := HashHits(w, limit, d2, d3); forall i :: 0 <= i < |hits| ==> hits[i].len <= LastLen(hits, 0) <= limit
  {
    hide HashHits, Same;
    HitsAre(w, limit, d2, d3);
  }

  /** Of the matches of more than three bytes, just those are reported that are longer than every nearer one. */
  ghost predicate Front(w: Window, limit: nat, ms: seq<Pair>) {
    && w.n + limit <= |w.text|
    && forall q: nat :: q < w.n && w.n - q < w.cyc && 4 <= Shared(w.text, q, w.n, limit) ==> Decided(w, limit, ms, q)
  }

  /** The answers are the pairs of the small tables and, unless these are as long as can be, those of the tree. */
  lemma AnswersSplit(p: Setup, s: State, f: seq<Tree>) returns (d2: nat, d3: nat)
    requires Inv(p, s, f) && Fresh(p, s) && 4 <= Limit(p, s.w)
    ensures |f| == |s.heads| > 0 && s.w.Ok() && s.w.n <= |s.w.text| && ShapeOk(s)
    ensures Hit(s.w, d2) ==> Same(s.w.text, s.w.n - d2, s.w.n, 2) && Latest2(s.w.text, s.w.n, s.w.cyc, s.w.n - d2)
    ensures Hit(s.w, d3) ==> Same(s.w.text, s.w.n - d3, s.w.n, 3) && Latest3(s.w.text, s.w.n, s.w.cyc, s.w.n - d3)
    ensures var limit := Limit(p, s.w); var hits := HashHits(s.w, limit, d2, d3); var len := LastLen(hits, 0);
            if len >= limit then Answers(p, s) == hits
            else
              && InOrder(p, s, f)
              && Answers(p, s) == hits + Matches(s.w.text, s.w.n, limit, f[Hash4(s.w.text, s.w.n, |f|)], p.cut, Max(3, len))
  {
    hide Hash2, Hash3, Hash4, Found, Matches, HashHits, Hashes2Ok, Hashes3Ok, TreeOk, InWindow, Nodes, Latest2, Latest3, Same, Fresh;
    d2, d3 := s.w.pos - s.hash2[Hash2(s.w.text, s.w.n)], s.w.pos - s.hash3[Hash3(s.w.text, s.w.n)];
    Hit2(s.w, s.hash2, Limit(p, s.w));
    Hit3(s.w, s.hash3, Limit(p, s.w));
    if Hit(s.w, d2) {
      HitLatest2(p, s, d2);
    }
    if Hit(s.w, d3) {
      HitLatest3(p, s, d3);
    }
    var len := LastLen(HashHits(s.w, Limit(p, s.w), d2, d3), 0);
    if len < Limit(p, s.w) {
      WalkReports(p, s, f, Max(3, len));
      TreeSound(s.w, s.son, s.heads[Hash4(s.w.text, s.w.n, |s.heads|)], f[Hash4(s.w.text, s.w.n, |s.heads|)], Limit(p, s.w));
    }
  }

  ghost predicate InOrder(p: Setup, s: State, f: seq<Tree>) {
    0 < |f| && s.w.n <= |s.w.text| && 4 <= Limit(p, s.w) && Aged(f[Hash4(s.w.text, s.w.n, |f|)], s.w.n)
  }

  lemma FrontHere(p: Setup, s: State, f: seq<Tree>)
    requires Inv(p, s, f) && Complete(p, s.w, f) && Fresh(p, s) && s.w.cyc <= p.cut + 1
    ensures ShapeOk(s) && s.w.n <= |s.w.text| && Front(s.w, Limit(p, s.w), Answers(p, s))
  {
    hide Inv, Complete, Fresh, Shared, Answers, ShapeOk, Decided;
    InvShape(p, s, f);
    if 4 <= Limit(p, s.w) {
      forall q: nat | q < s.w.n && s.w.n - q < s.w.cyc && 4 <= Shared(s.w.text, q, s.w.n, Limit(p, s.w))
        ensures Decided(s.w, Limit(p, s.w), Answers(p, s), q)
      {
        FrontAt(p, s, f, q);
      }
    }
  }

  lemma FrontAt(p: Setup, s: State, f: seq<Tree>, q: nat)
    requires Inv(p, s, f) && Complete(p, s.w, f) && Fresh(p, s) && s.w.cyc <= p.cut + 1 && 4 <= Limit(p, s.w)
    requires q < s.w.n && s.w.n - q < s.w.cyc && 4 <= Shared(s.w.text, q, s.w.n, Limit(p, s.w))
    ensures ShapeOk(s) && Decided(s.w, Limit(p, s.w), Answers(p, s), q)
  {
    hide Inv, Complete, Fresh, Shared, Answers, ShapeOk, HashHits, Same, Latest2, Latest3, Matches, Hash4, Nearest, Hit, Aged;
    var limit := Limit(p, s.w);
    var d2, d3 := AnswersSplit(p, s, f);
    var hits := HashHits(s.w, limit, d2, d3);
    var len := LastLen(hits, 0);
    HitsNoLonger(s.w, limit, d2, d3);
    if len >= limit {
      assert hits + [] == hits;
      HitDecides(s.w, limit, d2, d3, [], q);
    } else {
      var ms := Matches(s.w.text, s.w.n, limit, f[Hash4(s.w.text, s.w.n, |f|)], p.cut, Max(3, len));
      MatchesLonger(s.w.text, s.w.n, limit, f[Hash4(s.w.text, s.w.n, |f|)], p.cut, Max(3, len));
      if Shared(s.w.text, q, s.w.n, limit) <= len {
        HitDecides(s.w, limit, d2, d3, ms, q);
      } else {
        TreeNearest(p, s, f, q, Max(3, len));
      }
    }
  }

  lemma MatchesLonger(text: seq<Byte>, n: nat, limit: nat, t: Tree, cut: nat, maxLen: nat)
    requires n + limit <= |text| && Aged(t, n) && maxLen < limit
    ensures var ms := Matches(text, n, limit, t, cut, maxLen); forall i :: 0 <= i < |ms| ==> maxLen < ms[i].len
  {
    hide Matches, MatchHere, Aged;
    MatchesAreTrue(text, n, limit, t, cut, maxLen);
  }

  // ---------- Whole runs ----------

  lemma {:induction false} RunsReportFront(p: Setup, s: State, f: seq<Tree>, k: nat)
    requires Inv(p, s, f) && Fresh(p, s) && ShapeOk(s) && s.w.n + k <= |s.w.text| && Complete(p, s.w, f) && s.w.cyc <= p.cut + 1
    ensures var r := Steps(p, s, k); Front(r.w, Limit(p, r.w), Answers(p, r))
    decreases k
  {
    hide Inv, Fresh, ShapeOk, Step, StepForest, Answers, Front, Complete;
    if k == 0 {
      FrontHere(p, s, f);
    } else {
      StepShape(p, s);
      StepWindow(p, s);
      StepKeeps(p, s, f);
      StepFresh(p, s);
      StepCovers(p, s, f);
      RunsReportFront(p, Step(p, s), StepForest(p, s, f), k - 1);
    }
  }

  /** From the start on, whatever the text. */
  lemma EveryFront(p: Setup, text: seq<Byte>, cyc: nat, buckets: nat, k: nat)
    requires 0 < cyc <= p.cut + 1 && 0 < buckets && k <= |text|
    ensures ShapeOk(Start(text, cyc, buckets))
    ensures var r := Steps(p, Start(text, cyc, buckets), k); Front(r.w, Limit(p, r.w), Answers(p, r))
  {
    hide Inv, Fresh, Steps, Answers, ShapeOk, Front;
    StartInv(p, text, cyc, buckets);
    InvShape(p, Start(text, cyc, buckets), Leaves(buckets));
    StartFresh(p, text, cyc, buckets);
    RunsReportFront(p, Start(text, cyc, buckets), Leaves(buckets), k);
  }
}
