/** Matches of two and three bytes: the small hash tables hold the latest positions, and these are reported. */
module MatchShort {
  import opened Bytes
  import opened CyclicTrees
  import opened MatchAnswers
  import opened MatchForest
  import opened MatchHashes
  import opened MatchNormalize
  import opened MatchRuns
  import opened SuffixTrees

  // ---------- The latest position of a hash ----------

  /** The hash values of the positions before n. */
  function Keys2(text: seq<Byte>, n: nat): (k: seq<nat>)
    requires n + 1 <= |text|
    ensures |k| == n && forall i :: 0 <= i < n ==> k[i] == Hash2(text, i)
  {
    seq(n, i requires 0 <= i < n => Hash2(text, i))
  }

  function Keys3(text: seq<Byte>, n: nat): (k: seq<nat>)
    requires n + 2 <= |text|
    ensures |k| == n && forall i :: 0 <= i < n ==> k[i] == Hash3(text, i)
  {
    seq(n, i requires 0 <= i < n => Hash3(text, i))
  }

  /** No later position has the key of q. */
  ghost predicate IsLatest(keys: seq<nat>, q: nat) { q < |keys| && forall r :: q < r < |keys| ==> keys[r] != keys[q] }

  /** The table holds, for each key, the latest position that has it, as long as that is in the window. */
  ghost predicate Newest(w: Window, refs: seq<nat>, keys: seq<nat>) {
    && |keys| == w.n && (forall i :: 0 <= i < |keys| ==> keys[i] < |refs|)
    && forall q :: 0 <= q < w.n && w.n - q < w.cyc && IsLatest(keys, q) ==> refs[keys[q]] + (w.n - q) == w.pos
  }

  lemma NewestStep(w: Window, refs: seq<nat>, keys: seq<nat>, h: nat)
    requires w.Ok() && w.n < |w.text| && Newest(w, refs, keys) && h < |refs|
    ensures Newest(After(w), refs[h := w.pos], keys + [h])
  {
    hide After;
    AfterText(w);
    var keys' := keys + [h];
    forall q | 0 <= q < w.n + 1 && w.n + 1 - q < w.cyc && IsLatest(keys', q)
      ensures refs[h := w.pos][keys'[q]] + (w.n + 1 - q) == w.pos + 1
    {
      if q < w.n {
        assert keys'[w.n] != keys'[q];
        assert IsLatest(keys, q) by {
          forall r | q < r < w.n
            ensures keys[r] != keys[q]
          {
            assert keys'[r] != keys'[q];
          }
        }
      }
    }
  }

  lemma NewestAlike(w: Window, w': Window, refs: seq<nat>, refs': seq<nat>, keys: seq<nat>)
    requires AlikeWindows(w, w') && AlikeRefs(w, w', refs, refs') && Newest(w, refs, keys)
    ensures Newest(w', refs', keys)
  {
    hide IsLatest;
    forall q | 0 <= q < w.n && w.n - q < w.cyc && IsLatest(keys, q)
      ensures refs'[keys[q]] + (w.n - q) == w'.pos
    {
      assert AlikeRef(w, w', refs[keys[q]], refs'[keys[q]]);
    }
  }

  /** Both small tables hold the latest positions. */
  ghost predicate Fresh(p: Setup, s: State) {
    && s.w.n <= |s.w.text|
    && (4 <= Limit(p, s.w) ==> Newest(s.w, s.hash2, Keys2(s.w.text, s.w.n)) && Newest(s.w, s.hash3, Keys3(s.w.text, s.w.n)))
  }

  lemma PlainStepFresh(p: Setup, s: State)
    requires ShapeOk(s) && s.w.n < |s.w.text| && Fresh(p, s)
    ensures Fresh(p, PlainStep(p, s))
  {
    hide Hash2, Hash3, Hash4, Walk, Newest, ArrayOk, RefsOk, After;
    AfterText(s.w);
    if 4 <= Limit(p, After(s.w)) {
      var text, n := s.w.text, s.w.n;
      NewestStep(s.w, s.hash2, Keys2(text, n), Hash2(text, n));
      NewestStep(s.w, s.hash3, Keys3(text, n), Hash3(text, n));
      assert Keys2(text, n + 1) == Keys2(text, n) + [Hash2(text, n)];
      assert Keys3(text, n + 1) == Keys3(text, n) + [Hash3(text, n)];
    }
  }

  lemma FreshAlike(p: Setup, s: State, s': State)
    requires Alike(s, s') && Fresh(p, s)
    ensures Fresh(p, s')
  {
    hide Newest, AlikeRefs, Hash2, Hash3;
    if 4 <= Limit(p, s.w) {
      NewestAlike(s.w, s'.w, s.hash2, s'.hash2, Keys2(s.w.text, s.w.n));
      NewestAlike(s.w, s'.w, s.hash3, s'.hash3, Keys3(s.w.text, s.w.n));
    }
  }

  /** Every step keeps the tables fresh. */
  lemma StepFresh(p: Setup, s: State)
    requires ShapeOk(s) && s.w.n < |s.w.text| && Fresh(p, s)
    ensures Fresh(p, Step(p, s))
  {
    hide ShapeOk, Fresh, Alike, PlainStep, Step;
    PlainStepFresh(p, s);
    StepShape(p, s);
    FreshAlike(p, PlainStep(p, s), Step(p, s));
  }

  lemma StartFresh(p: Setup, text: seq<Byte>, cyc: nat, buckets: nat)
    requires 0 < cyc
    ensures Fresh(p, Start(text, cyc, buckets))
  {
  }

  // ---------- What is reported of it ----------

  /** q is the latest position in the window with the two-byte hash of n. */
  ghost predicate Latest2(text: seq<Byte>, n: nat, cyc: nat, q: nat) {
    n + 2 <= |text| && q < n && n - q < cyc && Hash2(text, q) == Hash2(text, n) && forall r :: q < r < n ==> Hash2(text, r) != Hash2(text, n)
  }

  ghost predicate Latest3(text: seq<Byte>, n: nat, cyc: nat, q: nat) {
    n + 3 <= |text| && q < n && n - q < cyc && Hash3(text, q) == Hash3(text, n) && forall r :: q < r < n ==> Hash3(text, r) != Hash3(text, n)
  }

  /** A match of at least len bytes with q is among the pairs. */
  ghost predicate Reported(ms: seq<Pair>, n: nat, q: nat, len: nat) {
    exists i :: 0 <= i < |ms| && ms[i].dist + 1 + q == n && len <= ms[i].len
  }

  lemma ReportedAt(ms: seq<Pair>, n: nat, q: nat, len: nat, i: nat)
    requires i < |ms| && ms[i].dist + 1 + q == n && len <= ms[i].len
    ensures Reported(ms, n, q, len)
  {
  }

  lemma ReportedStill(ms: seq<Pair>, more: seq<Pair>, n: nat, q: nat, len: nat)
    requires Reported(ms, n, q, len)
    ensures Reported(ms + more, n, q, len)
  {
    var i :| 0 <= i < |ms| && ms[i].dist + 1 + q == n && len <= ms[i].len;
    assert (ms + more)[i] == ms[i];
  }

  /** The tables' entries for n. */
  lemma Entry2(p: Setup, s: State, q: nat)
    requires ShapeOk(s) && Fresh(p, s) && 4 <= Limit(p, s.w) && Latest2(s.w.text, s.w.n, s.w.cyc, q)
    ensures s.w.pos - s.hash2[Hash2(s.w.text, s.w.n)] == s.w.n - q
  {
    hide Hash2, Hash3;
    assert IsLatest(Keys2(s.w.text, s.w.n), q);
  }

  lemma Entry3(p: Setup, s: State, q: nat)
    requires ShapeOk(s) && Fresh(p, s) && 4 <= Limit(p, s.w) && Latest3(s.w.text, s.w.n, s.w.cyc, q)
    ensures s.w.pos - s.hash3[Hash3(s.w.text, s.w.n)] == s.w.n - q
  {
    hide Hash2, Hash3;
    assert IsLatest(Keys3(s.w.text, s.w.n), q);
  }

  /** What the hits are. */
  lemma HitsAre(w: Window, limit: nat, d2: nat, d3: nat)
    requires w.Ok() && w.n + limit <= |w.text| && 4 <= limit
    ensures var hits := HashHits(w, limit, d2, d3);
            && (Hit(w, d2) && Hit(w, d3) && d2 != d3 ==>
                  hits == [Pair(2, d2 - 1), Pair(Scan(w.text, w.n - d3, w.n, 3, limit), d3 - 1)])
            && (Hit(w, d2) && (!Hit(w, d3) || d2 == d3) ==> hits == [Pair(Scan(w.text, w.n - d2, w.n, 2, limit), d2 - 1)])
            && (!Hit(w, d2) && Hit(w, d3) ==> hits == [Pair(Scan(w.text, w.n - d3, w.n, 3, limit), d3 - 1)])
            && (!Hit(w, d2) && !Hit(w, d3) ==> hits == [])
  {
    hide Same, Scan;
  }

  /** Hits are reported, the last of them with as many bytes as there are. */
  lemma HitsReported(w: Window, limit: nat, d2: nat, d3: nat)
    requires w.Ok() && w.n + limit <= |w.text| && 4 <= limit
    requires (Hit(w, d2) ==> Same(w.text, w.n - d2, w.n, 2)) && (Hit(w, d3) ==> Same(w.text, w.n - d3, w.n, 3))
    ensures Hit(w, d2) ==> Reported(HashHits(w, limit, d2, d3), w.n, w.n - d2, 2)
    ensures Hit(w, d3) ==> Reported(HashHits(w, limit, d2, d3), w.n, w.n - d3, 3)
  {
    hide Same, Reported, HashHits, Scan;
    HitsAre(w, limit, d2, d3);
    if Hit(w, d2) {
      ReportedAt(HashHits(w, limit, d2, d3), w.n, w.n - d2, 2, 0);
    }
    if Hit(w, d3) {
      if d2 == d3 {
        ThreeShared(w, limit, d3);
      }
      ReportedAt(HashHits(w, limit, d2, d3), w.n, w.n - d3, 3, if Hit(w, d2) && d2 != d3 then 1 else 0);
    }
  }

  lemma ThreeShared(w: Window, limit: nat, d: nat)
    requires w.n + limit <= |w.text| && 4 <= limit && 1 <= d <= w.n && Same(w.text, w.n - d, w.n, 3)
    ensures 3 <= Scan(w.text, w.n - d, w.n, 2, limit)
  {
    hide Same;
    var r := Scan(w.text, w.n - d, w.n, 2, limit);
    if r < 3 {
      SameAt(w.text, w.n - d, w.n, 2, 3);
    }
  }

  /** The pairs of the tables, and longer ones. */
  lemma AnswersBegin(p: Setup, s: State, f: seq<Tree>) returns (more: seq<Pair>)
    requires Inv(p, s, f) && 4 <= Limit(p, s.w)
    ensures ShapeOk(s) && s.w.n <= |s.w.text|
    ensures s.hash2[Hash2(s.w.text, s.w.n)] < s.w.pos && s.hash3[Hash3(s.w.text, s.w.n)] < s.w.pos
    ensures var hits := HashHits(s.w, Limit(p, s.w), s.w.pos - s.hash2[Hash2(s.w.text, s.w.n)], s.w.pos - s.hash3[Hash3(s.w.text, s.w.n)]);
            Answers(p, s) == hits + more && forall i :: 0 <= i < |more| ==> 3 < more[i].len
  {
    hide Hash2, Hash3, Hash4, Found, Matches, HashHits, Hashes2Ok, Hashes3Ok, TreeOk, InWindow, Nodes, MatchHere;
    var limit := Limit(p, s.w);
    var hits := HashHits(s.w, limit, s.w.pos - s.hash2[Hash2(s.w.text, s.w.n)], s.w.pos - s.hash3[Hash3(s.w.text, s.w.n)]);
    var len := LastLen(hits, 0);
    more := [];
    if len >= limit {
      assert hits + [] == hits;
    } else {
      var h, maxLen := Hash4(s.w.text, s.w.n, |s.heads|), Max(3, len);
      WalkReports(p, s, f, maxLen);
      TreeSound(s.w, s.son, s.heads[h], f[h], limit);
      MatchesAreTrue(s.w.text, s.w.n, limit, f[h], p.cut, maxLen);
      more := Matches(s.w.text, s.w.n, limit, f[h], p.cut, maxLen);
    }
  }

  lemma {:induction false} LatestFrom(keys: seq<nat>, q: nat) returns (r: nat)
    requires q < |keys|
    ensures q <= r < |keys| && keys[r] == keys[q] && IsLatest(keys, r)
    decreases |keys| - q
  {
    if later :| q < later < |keys| && keys[later] == keys[q] {
      r := LatestFrom(keys, later);
    } else {
      r := q;
    }
  }

  lemma HeldIsLatest(w: Window, refs: seq<nat>, keys: seq<nat>, q: nat)
    requires Newest(w, refs, keys) && q < w.n && w.n - q < w.cyc && refs[keys[q]] + (w.n - q) == w.pos
    ensures IsLatest(keys, q)
  {
    hide IsLatest;
    var r := LatestFrom(keys, q);
  }

  /** A live entry for n's hash is the latest position that has it. */
  lemma HitLatest2(p: Setup, s: State, d2: nat)
    requires ShapeOk(s) && Hashes2Ok(s.w, s.hash2) && Fresh(p, s) && 4 <= Limit(p, s.w)
    requires d2 == s.w.pos - s.hash2[Hash2(s.w.text, s.w.n)] && Hit(s.w, d2)
    ensures Latest2(s.w.text, s.w.n, s.w.cyc, s.w.n - d2)
  {
    hide Hash2, Hash3, ArrayOk, Newest;
    var q := s.w.n - d2;
    assert q == s.w.Abs(s.hash2[Hash2(s.w.text, s.w.n)]);
    HeldIsLatest(s.w, s.hash2, Keys2(s.w.text, s.w.n), q);
  }

  lemma HitLatest3(p: Setup, s: State, d3: nat)
    requires ShapeOk(s) && Hashes3Ok(s.w, s.hash3) && Fresh(p, s) && 4 <= Limit(p, s.w)
    requires d3 == s.w.pos - s.hash3[Hash3(s.w.text, s.w.n)] && Hit(s.w, d3)
    ensures Latest3(s.w.text, s.w.n, s.w.cyc, s.w.n - d3)
  {
    hide Hash2, Hash3, ArrayOk, Newest;
    var q := s.w.n - d3;
    assert q == s.w.Abs(s.hash3[Hash3(s.w.text, s.w.n)]);
    HeldIsLatest(s.w, s.hash3, Keys3(s.w.text, s.w.n), q);
  }

  /** If the latest position with n's hash begins with n's byte, it is reported; and no other positions are reported as
      matches of two or three bytes. */
  ghost predicate ShortReported(text: seq<Byte>, n: nat, cyc: nat, ms: seq<Pair>) {
    && n < |text|
    && (forall q: nat :: Latest2(text, n, cyc, q) && text[q] == text[n] ==> Reported(ms, n, q, 2))
    && (forall q: nat :: Latest3(text, n, cyc, q) && text[q] == text[n] ==> Reported(ms, n, q, 3))
    && (forall i :: 0 <= i < |ms| && ms[i].len <= 3 ==> ms[i].dist < n && ShortAt(text, n, cyc, n - 1 - ms[i].dist, ms[i].len))
  }

  ghost predicate ShortAt(text: seq<Byte>, n: nat, cyc: nat, q: nat, len: nat) {
    Latest2(text, n, cyc, q) || (len == 3 && Latest3(text, n, cyc, q))
  }

  lemma HitsShort(w: Window, limit: nat, d2: nat, d3: nat)
    requires w.Ok() && w.n + limit <= |w.text| && 4 <= limit
    requires (Hit(w, d2) ==> Latest2(w.text, w.n, w.cyc, w.n - d2)) && (Hit(w, d3) ==> Latest3(w.text, w.n, w.cyc, w.n - d3))
    ensures var hits := HashHits(w, limit, d2, d3);
            forall i :: 0 <= i < |hits| && hits[i].len <= 3 ==> hits[i].dist < w.n && ShortAt(w.text, w.n, w.cyc, w.n - 1 - hits[i].dist, hits[i].len)
  {
    hide HashHits, Scan, Latest2, Latest3, Same;
    HitsAre(w, limit, d2, d3);
  }

  lemma ShortOnes(p: Setup, s: State, f: seq<Tree>)
    requires Inv(p, s, f) && Fresh(p, s) && 4 <= Limit(p, s.w)
    ensures ShapeOk(s) && s.w.n <= |s.w.text| && ShortReported(s.w.text, s.w.n, s.w.cyc, Answers(p, s))
  {
    hide Hash2, Hash3, Hash4, Reported, Answers, ForestOk, Fresh, Same, Hashes2Ok, Hashes3Ok, HashHits, ArrayOk, ShortAt;
    var w, limit := s.w, Limit(p, s.w);
    var d2, d3 := w.pos - s.hash2[Hash2(w.text, w.n)], w.pos - s.hash3[Hash3(w.text, w.n)];
    var hits := HashHits(w, limit, d2, d3);
    Hit2(w, s.hash2, limit);
    Hit3(w, s.hash3, limit);
    HitsReported(w, limit, d2, d3);
    var more := AnswersBegin(p, s, f);
    forall q: nat | Latest2(w.text, w.n, w.cyc, q) && w.text[q] == w.text[w.n]
      ensures Reported(Answers(p, s), w.n, q, 2)
    {
      Entry2(p, s, q);
      ReportedStill(hits, more, w.n, q, 2);
    }
    forall q: nat | Latest3(w.text, w.n, w.cyc, q) && w.text[q] == w.text[w.n]
      ensures Reported(Answers(p, s), w.n, q, 3)
    {
      Entry3(p, s, q);
      ReportedStill(hits, more, w.n, q, 3);
    }
    if Hit(w, d2) {
      HitLatest2(p, s, d2);
    }
    if Hit(w, d3) {
      HitLatest3(p, s, d3);
    }
    HitsShort(w, limit, d2, d3);
  }

  // ---------- Whole runs ----------

  lemma {:induction false} RunsReportShort(p: Setup, s: State, f: seq<Tree>, k: nat)
    requires Inv(p, s, f) && Fresh(p, s) && ShapeOk(s) && s.w.n + k <= |s.w.text|
    ensures var r := Steps(p, s, k); 4 <= Limit(p, r.w) ==> ShortReported(r.w.text, r.w.n, r.w.cyc, Answers(p, r))
    decreases k
  {
    hide Inv, Fresh, ShapeOk, Step, StepForest, Answers, ShortReported;
    if k == 0 {
      if 4 <= Limit(p, s.w) {
        ShortOnes(p, s, f);
      }
    } else {
      StepShape(p, s);
      StepKeeps(p, s, f);
      StepFresh(p, s);
      RunsReportShort(p, Step(p, s), StepForest(p, s, f), k - 1);
    }
  }

  /** From the start on, whatever the text, matches of two and three bytes are reported in this way. */
  lemma EveryShortMatch(p: Setup, text: seq<Byte>, cyc: nat, buckets: nat, k: nat)
    requires 0 < cyc && 0 < buckets && k <= |text|
    ensures ShapeOk(Start(text, cyc, buckets))
    ensures var r := Steps(p, Start(text, cyc, buckets), k);
            4 <= Limit(p, r.w) ==> ShortReported(r.w.text, r.w.n, r.w.cyc, Answers(p, r))
  {
    hide Inv, Fresh, Steps, Answers, ShapeOk, ShortReported;
    StartInv(p, text, cyc, buckets);
    InvShape(p, Start(text, cyc, buckets), Leaves(buckets));
    StartFresh(p, text, cyc, buckets);
    RunsReportShort(p, Start(text, cyc, buckets), Leaves(buckets), k);
  }
}
