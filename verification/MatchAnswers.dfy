/** What Bt4_MatchFinder_GetMatches reports: true matches within the window, longer and longer, and the longest there
    is among the nodes of the bucket's tree. */
module MatchAnswers {
  import opened Bytes
  import opened CyclicTrees
  import opened MatchForest
  import opened MatchHashes
  import opened SuffixTrees

  /** The bytes from n on repeat those at the reported distance, which the window still holds. */
  ghost predicate Repeats(w: Window, limit: nat, m: Pair) {
    && w.n + limit <= |w.text| && m.dist < w.n && m.dist + 1 < w.cyc && 2 <= m.len <= limit
    && Same(w.text, w.n - 1 - m.dist, w.n, m.len)
  }

  /** All of them do, and lengths strictly increase. */
  ghost predicate Reports(w: Window, limit: nat, ms: seq<Pair>) {
    && (forall i :: 0 <= i < |ms| ==> Repeats(w, limit, ms[i]))
    && (forall i, j :: 0 <= i < j < |ms| ==> ms[i].len < ms[j].len)
  }

  // ---------- The hash tables ----------

  lemma SameTwo(text: seq<Byte>, a: nat, b: nat)
    requires a + 2 <= |text| && b + 2 <= |text| && text[a] == text[b] && text[a + 1] == text[b + 1]
    ensures Same(text, a, b, 2)
  {
    SameLonger(text, a, b, 0);
    SameLonger(text, a, b, 1);
  }

  lemma SameThree(text: seq<Byte>, a: nat, b: nat)
    requires a + 3 <= |text| && b + 3 <= |text| && text[a] == text[b] && text[a + 1] == text[b + 1] && text[a + 2] == text[b + 2]
    ensures Same(text, a, b, 3)
  {
    SameTwo(text, a, b);
    SameLonger(text, a, b, 2);
  }

  /** An entry of the table of two bytes that agrees in the first byte agrees in both. */
  lemma Hit2(w: Window, refs: seq<nat>, limit: nat)
    requires w.Ok() && w.n + limit <= |w.text| && 4 <= limit && |refs| == 0x400 && RefsOk(w, refs) && Hashes2Ok(w, refs)
    ensures var delta := w.pos - refs[Hash2(w.text, w.n)]; Hit(w, delta) ==> Same(w.text, w.n - delta, w.n, 2)
  {
    hide Hash2;
    var v := refs[Hash2(w.text, w.n)];
    if Hit(w, w.pos - v) {
      Hash2Forces(w.text, w.Abs(v), w.n);
      SameTwo(w.text, w.Abs(v), w.n);
    }
  }

  lemma Hit3(w: Window, refs: seq<nat>, limit: nat)
    requires w.Ok() && w.n + limit <= |w.text| && 4 <= limit && |refs| == 0x1_0000 && RefsOk(w, refs) && Hashes3Ok(w, refs)
    ensures var delta := w.pos - refs[Hash3(w.text, w.n)]; Hit(w, delta) ==> Same(w.text, w.n - delta, w.n, 3)
  {
    hide Hash3;
    var v := refs[Hash3(w.text, w.n)];
    if Hit(w, w.pos - v) {
      Hash3Forces(w.text, w.Abs(v), w.n);
      SameThree(w.text, w.Abs(v), w.n);
    }
  }

  lemma HitsReport(w: Window, limit: nat, d2: nat, d3: nat)
    requires w.Ok() && w.n + limit <= |w.text| && 4 <= limit
    requires (Hit(w, d2) ==> Same(w.text, w.n - d2, w.n, 2)) && (Hit(w, d3) ==> Same(w.text, w.n - d3, w.n, 3))
    ensures Reports(w, limit, HashHits(w, limit, d2, d3))
  {
    hide Same;
  }

  // ---------- The tree ----------

  lemma MatchRepeats(w: Window, limit: nat, t: Tree, m: Pair)
    requires w.n + limit <= |w.text| && InWindow(w, t) && MatchHere(w.text, w.n, limit, Nodes(t), m) && 3 < m.len
    ensures Repeats(w, limit, m)
  {
    hide Same, Nodes;
  }

  /** Reports and longer matches together. */
  lemma Appended(w: Window, limit: nat, t: Tree, hits: seq<Pair>, ms: seq<Pair>, maxLen: nat)
    requires w.n + limit <= |w.text| && InWindow(w, t) && Reports(w, limit, hits) && LastLen(hits, 0) <= maxLen && 3 <= maxLen
    requires TrueMatches(w.text, w.n, limit, Nodes(t), ms, maxLen)
    ensures Reports(w, limit, hits + ms)
  {
    hide Nodes, MatchHere, Repeats;
    var all := hits + ms;
    forall i | 0 <= i < |all|
      ensures Repeats(w, limit, all[i]) && (if i < |hits| then all[i].len <= maxLen else maxLen < all[i].len)
    {
      if i >= |hits| {
        assert all[i] == ms[i - |hits|];
        MatchRepeats(w, limit, t, all[i]);
      }
    }
  }

  /** The reports of the walk are the matches that Matches lists for the tree of the bucket. */
  lemma WalkReports(p: Setup, s: State, f: seq<Tree>, maxLen: nat)
    requires Inv(p, s, f) && 4 <= Limit(p, s.w) && maxLen < Limit(p, s.w)
    ensures var h := Hash4(s.w.text, s.w.n, |s.heads|);
            && h < |f| && TreeOk(s.w, s.son, s.heads[h], f[h], Limit(p, s.w)) && InWindow(s.w, f[h])
            && CanWalk(s.w, Limit(p, s.w), s.son, Root(p, s.w, s.heads[h]))
            && Found(s.w, Limit(p, s.w), s.son, Root(p, s.w, s.heads[h]), maxLen)
               == Matches(s.w.text, s.w.n, Limit(p, s.w), f[h], p.cut, maxLen)
  {
    hide Hash4, Found, Matches, Rep, Ordered, Aged, Distinct, Uses, Hashes2Ok, Hashes3Ok, Slot, InWindow;
    var h := Hash4(s.w.text, s.w.n, |s.heads|);
    RepWindow(s.w, s.son, s.heads[h], f[h]);
    PlacesFree(s.w, f[h]);
    PlacesOf(s.w.cyclicPos);
    RootCanWalk(p, s, Limit(p, s.w), s.heads[h]);
    FoundAreMatches(s.w, Limit(p, s.w), s.son, Root(p, s.w, s.heads[h]), maxLen, f[h], Free, Free);
  }

  /** Every reported pair is a true match inside the window, and lengths strictly increase. */
  lemma AnswersAreTrue(p: Setup, s: State, f: seq<Tree>)
    requires Inv(p, s, f)
    ensures Reports(s.w, Limit(p, s.w), Answers(p, s))
  {
    hide Hash2, Hash3, Hash4, Found, Matches, Hit, Same, Hashes2Ok, Hashes3Ok, TreeOk, InWindow, Nodes, Reports, TrueMatches;
    var limit := Limit(p, s.w);
    if 4 <= limit {
      var d2, d3 := s.w.pos - s.hash2[Hash2(s.w.text, s.w.n)], s.w.pos - s.hash3[Hash3(s.w.text, s.w.n)];
      Hit2(s.w, s.hash2, limit);
      Hit3(s.w, s.hash3, limit);
      HitsReport(s.w, limit, d2, d3);
      var hits := HashHits(s.w, limit, d2, d3);
      var len := LastLen(hits, 0);
      if len < limit {
        var maxLen := Max(3, len);
        WalkReports(p, s, f, maxLen);
        var h := Hash4(s.w.text, s.w.n, |s.heads|);
        TreeSound(s.w, s.son, s.heads[h], f[h], limit);
        MatchesAreTrue(s.w.text, s.w.n, limit, f[h], p.cut, maxLen);
        Appended(s.w, limit, f[h], hits, Matches(s.w.text, s.w.n, limit, f[h], p.cut, maxLen), maxLen);
      }
    } else {
      NoReports(s.w, limit);
    }
  }

  lemma NoReports(w: Window, limit: nat)
    ensures Reports(w, limit, [])
  {
  }

  lemma TreeSound(w: Window, son: seq<nat>, v: nat, t: Tree, limit: nat)
    requires 0 < w.cyc && |son| == 2 * w.cyc && TreeOk(w, son, v, t, limit)
    ensures Aged(t, w.n) && Distinct(t) && Ordered(w.text, limit, t, Free, Free)
  {
  }

  /** Unless cutValue stops the walk, no node of the bucket's tree has a longer match, matches of at most 3 bytes apart. */
  lemma LongestIsReported(p: Setup, s: State, f: seq<Tree>)
    requires Inv(p, s, f) && 4 <= Limit(p, s.w)
    requires Hash4(s.w.text, s.w.n, |s.heads|) < |f| && Height(f[Hash4(s.w.text, s.w.n, |s.heads|)]) <= p.cut
    ensures var len := LastLen(Answers(p, s), 0);
            NoLonger(s.w.text, s.w.n, Limit(p, s.w), f[Hash4(s.w.text, s.w.n, |s.heads|)], Max(3, len))
  {
    hide Hash2, Hash3, Hash4, Found, Matches, Same, Hashes2Ok, Hashes3Ok, TreeOk, InWindow, Nodes, HashHits, NoLonger, Shared, Height;
    var limit, h := Limit(p, s.w), Hash4(s.w.text, s.w.n, |s.heads|);
    var hits := HashHits(s.w, limit, s.w.pos - s.hash2[Hash2(s.w.text, s.w.n)], s.w.pos - s.hash3[Hash3(s.w.text, s.w.n)]);
    var len := LastLen(hits, 0);
    if len < limit {
      var maxLen := Max(3, len);
      WalkReports(p, s, f, maxLen);
      TreeSound(s.w, s.son, s.heads[h], f[h], limit);
      LastIsLongest(s.w.text, s.w.n, limit, f[h], p.cut, maxLen, Free, Free);
    } else {
      AtMostLimit(s.w.text, s.w.n, limit, f[h]);
      NoLongerStill(s.w.text, s.w.n, limit, f[h], limit, len);
    }
  }
}
