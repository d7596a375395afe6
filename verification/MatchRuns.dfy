/** The invariant of the match finder over whole runs with 32-bit positions. */
module MatchRuns {
  import opened Bytes
  import opened CyclicTrees
  import opened MatchAnswers
  import opened MatchForest
  import opened MatchHashes
  import opened MatchNormalize
  import opened SuffixTrees

  /** Renumbering does not touch the trees. */
  lemma {:induction false} RepAlike(w: Window, w': Window, son: seq<nat>, son': seq<nat>, v: nat, v': nat, t: Tree)
    requires AlikeWindows(w, w') && |son| == 2 * w.cyc && AlikeRefs(w, w', son, son') && AlikeRef(w, w', v, v') && Rep(w, son, v, t)
    ensures Rep(w', son', v', t)
    decreases t
  {
    hide AlikeRefs, Slot;
    RefAt(w, w', son, son', 0);
    if t.Node? {
      SlotAlike(w, w', t.at);
      RefAt(w, w', son, son', 2 * Slot(w, t.at));
      RefAt(w, w', son, son', 2 * Slot(w, t.at) + 1);
      RepAlike(w, w', son, son', son[2 * Slot(w, t.at)], son'[2 * Slot(w, t.at)], t.left);
      RepAlike(w, w', son, son', son[2 * Slot(w, t.at) + 1], son'[2 * Slot(w, t.at) + 1], t.right);
    }
  }

  lemma HashesAlike(s: State, s': State)
    requires Alike(s, s') && ShapeOk(s) && Hashes2Ok(s.w, s.hash2) && Hashes3Ok(s.w, s.hash3)
    ensures ShapeOk(s') && Hashes2Ok(s'.w, s'.hash2) && Hashes3Ok(s'.w, s'.hash3)
  {
    hide Hash2, Hash3;
  }

  lemma ForestAlike(s: State, s': State, f: seq<Tree>, limit: nat)
    requires Alike(s, s') && |s.son| == 2 * s.w.cyc && ForestOk(s.w, s.son, s.heads, f, limit)
    ensures |s'.son| == 2 * s'.w.cyc && ForestOk(s'.w, s'.son, s'.heads, f, limit)
  {
    hide Ordered, Aged, Distinct, Disjoint, Rep, AlikeRef;
    forall i | 0 <= i < |f|
      ensures TreeOk(s'.w, s'.son, s'.heads[i], f[i], limit)
    {
      RepAlike(s.w, s'.w, s.son, s'.son, s.heads[i], s'.heads[i], f[i]);
    }
  }

  lemma InvAlike(p: Setup, s: State, s': State, f: seq<Tree>)
    requires Inv(p, s, f) && Alike(s, s')
    ensures Inv(p, s', f)
  {
    hide ForestOk, Hashes2Ok, Hashes3Ok, ArrayOk, AlikeRefs, RefsOk;
    ShapesAlike(s, s');
    Lengths(s.w, s.son);
    HashesAlike(s, s');
    ForestAlike(s, s', f, Limit(p, s.w));
  }

  /** In every reachable state, the trees are ordered by suffix, parents are younger than their children, and what the
      arrays hold are these trees. */
  lemma StepKeeps(p: Setup, s: State, f: seq<Tree>)
    requires Inv(p, s, f) && s.w.n < |s.w.text|
    ensures AllAged(f, s.w.n) && Inv(p, Step(p, s), StepForest(p, s, f))
  {
    hide Inv, Step, PlainStep, StepForest, Alike;
    InvShape(p, s, f);
    StepShape(p, s);
    PlainStepKeeps(p, s, f);
    InvAlike(p, PlainStep(p, s), Step(p, s), StepForest(p, s, f));
  }

  lemma InvShape(p: Setup, s: State, f: seq<Tree>)
    requires Inv(p, s, f)
    ensures ShapeOk(s) && s.w.n <= |s.w.text|
  {
  }

  // ---------- From the start ----------

  function Zeros(k: nat): (r: seq<nat>)
    ensures |r| == k && forall i :: 0 <= i < k ==> r[i] == 0
  {
    seq(k, _ => 0)
  }

  /** MatchFinder_Init: nothing has been entered yet, and no reference is live. */
  function Start(text: seq<Byte>, cyc: nat, buckets: nat): State {
    State(Window(text, 0, cyc, cyc, 0), Zeros(0x400), Zeros(0x1_0000), Zeros(buckets), Zeros(2 * cyc))
  }

  function Leaves(k: nat): (f: seq<Tree>)
    ensures |f| == k && forall i :: 0 <= i < k ==> f[i] == Leaf
  {
    seq(k, _ => Leaf)
  }

  lemma StartInv(p: Setup, text: seq<Byte>, cyc: nat, buckets: nat)
    requires 0 < cyc && 0 < buckets
    ensures Inv(p, Start(text, cyc, buckets), Leaves(buckets))
  {
  }

  /** Every answer of every run is true: each pair is a match in the window, and lengths strictly increase. */
  lemma {:induction false} RunsReport(p: Setup, s: State, f: seq<Tree>, k: nat)
    requires Inv(p, s, f) && ShapeOk(s) && s.w.n + k <= |s.w.text|
    ensures var r := Steps(p, s, k); Reports(r.w, Limit(p, r.w), Answers(p, r))
    decreases k
  {
    hide Inv, Step, PlainStep, StepForest, Alike, Reports, Answers, ShapeOk;
    if k == 0 {
      AnswersAreTrue(p, s, f);
    } else {
      StepShape(p, s);
      StepKeeps(p, s, f);
      RunsReport(p, Step(p, s), StepForest(p, s, f), k - 1);
    }
  }

  /** From the start on, whatever the text, every answer is true. */
  lemma EveryAnswerIsTrue(p: Setup, text: seq<Byte>, cyc: nat, buckets: nat, k: nat)
    requires 0 < cyc && 0 < buckets && k <= |text|
    ensures ShapeOk(Start(text, cyc, buckets))
    ensures var r := Steps(p, Start(text, cyc, buckets), k); Reports(r.w, Limit(p, r.w), Answers(p, r))
  {
    hide Inv, Steps, Reports, Answers, ShapeOk;
    StartInv(p, text, cyc, buckets);
    InvShape(p, Start(text, cyc, buckets), Leaves(buckets));
    RunsReport(p, Start(text, cyc, buckets), Leaves(buckets), k);
  }
}
