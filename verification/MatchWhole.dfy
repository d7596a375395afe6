/** The match finder run over a whole stream: what it says of each position depends on the text alone. */
module MatchWhole {
  import opened Bytes
  import opened CyclicTrees
  import opened MatchAnswers
  import opened MatchFinder
  import opened MatchForest
  import opened MatchFront
  import opened MatchLongest
  import opened MatchNormalize
  import opened MatchRuns
  import opened MatchShort
  import opened MatchWindow
  import opened SuffixTrees

  /** At k, the pairs are matches with what went before, at most historySize back, ever longer ones. */
  ghost predicate TrueAt(text: seq<Byte>, k: nat, historySize: nat, maxLen: nat, ms: seq<Pair>) {
    && k <= |text|
    && (forall i :: 0 <= i < |ms| ==>
          && ms[i].dist < k && ms[i].dist < historySize && 2 <= ms[i].len <= maxLen && k + ms[i].len <= |text|
          && Same(text, k - 1 - ms[i].dist, k, ms[i].len))
    && (forall i, j :: 0 <= i < j < |ms| ==> ms[i].len < ms[j].len)
  }

  /** At k, no match of more than 3 bytes, at most historySize back, is longer than the last pair. */
  ghost predicate BestAt(text: seq<Byte>, k: nat, historySize: nat, maxLen: nat, ms: seq<Pair>) {
    forall q: nat, len: nat :: q < k <= q + historySize && 3 < len <= maxLen && k + len <= |text| && Same(text, q, k, len) ==> len <= LastLen(ms, 0)
  }

  /** How many bytes a match at k can have. */
  function LimitAt(text: seq<Byte>, k: nat, maxLen: nat): (limit: nat)
    requires k <= |text|
    ensures k + limit <= |text|
  {
    if |text| - k < maxLen then |text| - k else maxLen
  }

  /** At k, a position at most historySize back that shares four bytes is reported, with all that it shares, exactly if no
      nearer position shares as much. */
  ghost predicate FrontAt(text: seq<Byte>, k: nat, historySize: nat, maxLen: nat, ms: seq<Pair>) {
    && k <= |text|
    && forall q: nat :: q < k <= q + historySize && 4 <= Shared(text, q, k, LimitAt(text, k, maxLen)) ==>
         (PairOf(text, k, LimitAt(text, k, maxLen), q) in ms <==> Nearest(text, k, LimitAt(text, k, maxLen), q))
  }

  /** At k, matches of two and three bytes are those of the latest positions with the same small hashes; near the end of
      the text, where no match has four bytes, there are none. */
  ghost predicate ShortsAt(text: seq<Byte>, k: nat, historySize: nat, maxLen: nat, ms: seq<Pair>) {
    k <= |text| && if 4 <= LimitAt(text, k, maxLen) then ShortReported(text, k, historySize + 1, ms) else ms == []
  }

  lemma FrontIsFront(p: Setup, w: Window, ms: seq<Pair>)
    requires w.n <= |w.text| && 0 < w.cyc && Front(w, Limit(p, w), ms)
    ensures FrontAt(w.text, w.n, w.cyc - 1, p.maxLen, ms)
  {
    hide Nearest, PairOf, Shared;
    forall q: nat | q < w.n <= q + (w.cyc - 1) && 4 <= Shared(w.text, q, w.n, Limit(p, w))
      ensures PairOf(w.text, w.n, Limit(p, w), q) in ms <==> Nearest(w.text, w.n, Limit(p, w), q)
    {
      assert Decided(w, Limit(p, w), ms, q);
    }
  }

  lemma ReportsAreTrue(p: Setup, w: Window, ms: seq<Pair>)
    requires w.n <= |w.text| && 0 < w.cyc && Reports(w, Limit(p, w), ms)
    ensures TrueAt(w.text, w.n, w.cyc - 1, p.maxLen, ms)
  {
    hide Same;
    assert forall i :: 0 <= i < |ms| ==> Repeats(w, Limit(p, w), ms[i]);
  }

  lemma LongestIsBest(p: Setup, w: Window, ms: seq<Pair>)
    requires w.n <= |w.text| && 0 < w.cyc && Longest(w, Limit(p, w), ms)
    ensures BestAt(w.text, w.n, w.cyc - 1, p.maxLen, ms)
  {
    hide Same, Shared, LastLen;
    var limit := Limit(p, w);
    forall q: nat, len: nat | q < w.n <= q + (w.cyc - 1) && 3 < len <= p.maxLen && w.n + len <= |w.text| && Same(w.text, q, w.n, len)
      ensures len <= LastLen(ms, 0)
    {
      SameAt(w.text, q, w.n, Shared(w.text, q, w.n, limit), len);
    }
  }

  /** Whatever pieces the stream comes in, each position gets true matches, those of two and three bytes that the small
      tables are for, and, if cutValue allows, of the longer ones those that are longer than all nearer ones, up to the
      best there is. */
  method AllAnswers(stream: InStream, historySize: nat, keepAddBefore: nat, maxLen: nat, keepAddAfter: nat, cut: nat, buckets: nat)
    returns (all: seq<seq<Pair>>)
    requires historySize <= MAX_HISTORY && 0 < buckets
    modifies stream
    ensures |all| == |old(stream.left)|
    ensures forall k :: 0 <= k < |all| ==> TrueAt(old(stream.left), k, historySize, maxLen, all[k])
    ensures forall k :: 0 <= k < |all| ==> ShortsAt(old(stream.left), k, historySize, maxLen, all[k])
    ensures historySize <= cut ==> forall k :: 0 <= k < |all| ==> BestAt(old(stream.left), k, historySize, maxLen, all[k])
    ensures historySize <= cut ==> forall k :: 0 <= k < |all| ==> FrontAt(old(stream.left), k, historySize, maxLen, all[k])
  {
    hide TrueAt, BestAt, ShortsAt, FrontAt, Fresh, Inv, Complete, Step, StepForest, Answers, ShapeOk, Finder.Valid;
    ghost var text, p, cyc := stream.left, Setup(maxLen, cut), historySize + 1;
    var f := new Finder(stream, historySize, keepAddBefore, maxLen, keepAddAfter, cut, buckets);
    all := [];
    ghost var trees := Leaves(buckets);
    StartInv(p, text, cyc, buckets);
    StartComplete(p, text, cyc, buckets);
    StartFresh(p, text, cyc, buckets);
    while f.GetNumAvailableBytes() != 0
      invariant f.Valid() && f.setup == p && Running(p, f.Now(), trees, text, cyc) && f.win.n == |all|
      invariant fresh(f) && fresh(f.win) && fresh(f.win.base) && f.win.stream == stream
      invariant fresh(f.hash2) && fresh(f.hash3) && fresh(f.heads) && fresh(f.son)
      invariant forall k :: 0 <= k < |all| ==> TrueAt(text, k, historySize, maxLen, all[k])
      invariant forall k :: 0 <= k < |all| ==> ShortsAt(text, k, historySize, maxLen, all[k])
      invariant historySize <= cut ==> forall k :: 0 <= k < |all| ==> BestAt(text, k, historySize, maxLen, all[k])
      invariant historySize <= cut ==> forall k :: 0 <= k < |all| ==> FrontAt(text, k, historySize, maxLen, all[k])
      decreases |text| - |all|
    {
      RunOn(p, f.Now(), trees, text, cyc);
      ghost var next := StepForest(p, f.Now(), trees);
      var ms := f.GetMatches();
      trees := next;
      all := all + [ms];
    }
  }

  /** The state in the middle of the text. */
  ghost predicate Running(p: Setup, s: State, f: seq<Tree>, text: seq<Byte>, cyc: nat) {
    && Inv(p, s, f) && Fresh(p, s) && s.w.text == text && s.w.cyc == cyc && s.w.n <= |text| && (cyc <= p.cut + 1 ==> Complete(p, s.w, f))
  }

  lemma StartComplete(p: Setup, text: seq<Byte>, cyc: nat, buckets: nat)
    requires 0 < buckets
    ensures Complete(p, Start(text, cyc, buckets).w, Leaves(buckets))
  {
  }

  lemma NoAnswers(p: Setup, s: State)
    requires ShapeOk(s) && s.w.n <= |s.w.text| && Limit(p, s.w) < 4
    ensures Answers(p, s) == []
  {
    hide ShapeOk;
  }

  lemma RunOn(p: Setup, s: State, f: seq<Tree>, text: seq<Byte>, cyc: nat)
    requires Running(p, s, f, text, cyc) && s.w.n < |text| && 0 < cyc
    ensures ShapeOk(s) && AllAged(f, s.w.n) && Running(p, Step(p, s), StepForest(p, s, f), text, cyc) && Step(p, s).w.n == s.w.n + 1
    ensures TrueAt(text, s.w.n, cyc - 1, p.maxLen, Answers(p, s))
    ensures ShortsAt(text, s.w.n, cyc - 1, p.maxLen, Answers(p, s))
    ensures cyc <= p.cut + 1 ==> BestAt(text, s.w.n, cyc - 1, p.maxLen, Answers(p, s))
    ensures cyc <= p.cut + 1 ==> FrontAt(text, s.w.n, cyc - 1, p.maxLen, Answers(p, s))
  {
    hide Inv, Fresh, Complete, Step, StepForest, Answers, ShapeOk, TrueAt, BestAt, FrontAt, Reports, Longest, Front, ShortReported;
    InvShape(p, s, f);
    StepWindow(p, s);
    StepKeeps(p, s, f);
    StepFresh(p, s);
    AnswersAreTrue(p, s, f);
    if 4 <= Limit(p, s.w) {
      ShortOnes(p, s, f);
    } else {
      NoAnswers(p, s);
    }
    ReportsAreTrue(p, s.w, Answers(p, s));
    if cyc <= p.cut + 1 {
      StepCovers(p, s, f);
      LongestHere(p, s, f);
      LongestIsBest(p, s.w, Answers(p, s));
      FrontHere(p, s, f);
      FrontIsFront(p, s.w, Answers(p, s));
    }
  }
}
