/** MatchFinder_Normalize: lowering all positions changes no answer, now or later. */
module MatchNormalize {
  import opened Bytes
  import opened CyclicTrees
  import opened MatchForest
  import opened MatchHashes
  import opened SuffixTrees

  /** Two references, each in its own window, that mean the same: both dead, or at the same distance. */
  predicate AlikeRef(w: Window, w': Window, v: nat, v': nat) {
    && w.RefOk(v) && w'.RefOk(v') && (w.Live(v) <==> w'.Live(v'))
    && (w.Live(v) ==> w.pos - v == w'.pos - v')
  }

  ghost predicate AlikeRefs(w: Window, w': Window, refs: seq<nat>, refs': seq<nat>) {
    |refs| == |refs'| && forall i :: 0 <= i < |refs| ==> AlikeRef(w, w', refs[i], refs'[i])
  }

  /** Windows that differ only in how they number positions. */
  ghost predicate AlikeWindows(w: Window, w': Window) {
    w.Ok() && w'.Ok() && w.cyc <= w.pos && w'.cyc <= w'.pos && w.text == w'.text && w.n == w'.n && w.cyc == w'.cyc
  }

  ghost predicate Alike(s: State, s': State) {
    && AlikeWindows(s.w, s'.w) && AlikeRefs(s.w, s'.w, s.hash2, s'.hash2) && AlikeRefs(s.w, s'.w, s.hash3, s'.hash3)
    && AlikeRefs(s.w, s'.w, s.heads, s'.heads) && AlikeRefs(s.w, s'.w, s.son, s'.son)
  }

  // ---------- The walk ----------

  lemma DeadIsAlike(w: Window, w': Window)
    requires AlikeWindows(w, w')
    ensures AlikeRef(w, w', 0, 0)
  {
  }

  lemma HungAlike(w: Window, w': Window, son: seq<nat>, son': seq<nat>, p: nat, v: nat, v': nat)
    requires AlikeRefs(w, w', son, son') && AlikeRef(w, w', v, v') && p < |son|
    ensures AlikeRefs(w, w', son[p := v], son'[p := v'])
  {
  }

  lemma ArraysAlike(w: Window, w': Window, son: seq<nat>, son': seq<nat>)
    requires AlikeWindows(w, w') && AlikeRefs(w, w', son, son') && |son| == 2 * w.cyc
    ensures ArrayOk(w, son) && ArrayOk(w', son')
  {
  }

  lemma RefAt(w: Window, w': Window, refs: seq<nat>, refs': seq<nat>, i: nat)
    requires AlikeRefs(w, w', refs, refs') && i < |refs|
    ensures |refs| == |refs'| && AlikeRef(w, w', refs[i], refs'[i]) && refs[i] < w.pos && refs'[i] < w'.pos
  {
  }

  /** Two walks at the same place of two arrays. */
  ghost predicate AlikePlaces(w: Window, w': Window, limit: nat, son: seq<nat>, son': seq<nat>, at: Place, at': Place) {
    && AlikeWindows(w, w') && AlikeRefs(w, w', son, son') && CanWalk(w, limit, son, at)
    && AlikeRef(w, w', at.cur, at'.cur) && at' == at.(cur := at'.cur)
  }

  lemma BothWalk(w: Window, w': Window, limit: nat, son: seq<nat>, son': seq<nat>, at: Place, at': Place)
    requires AlikePlaces(w, w', limit, son, son', at, at')
    ensures CanWalk(w, limit, son, at) && CanWalk(w', limit, son', at') && |son| == |son'| == 2 * w.cyc && 0 < w.cyc && w'.cyc == w.cyc
    ensures at'.p0 == at.p0 < |son| && at'.p1 == at.p1 < |son| && at'.cut == at.cut
    ensures AlikeWindows(w, w') && AlikeRefs(w, w', son, son') && (Stops(w, at) <==> Stops(w', at'))
  {
    ArraysAlike(w, w', son, son');
  }

  /** They meet the same node, agree with n as far, and hang the node on the same side. */
  lemma BothMeet(w: Window, w': Window, limit: nat, son: seq<nat>, son': seq<nat>, at: Place, at': Place)
    requires AlikePlaces(w, w', limit, son, son', at, at') && Meets(w, limit, at) && Meets(w', limit, at')
    ensures Met(w, at) == Met(w', at') && Slot(w, Met(w, at)) == Slot(w', Met(w', at')) && Agreed(w, limit, at) == Agreed(w', limit, at')
    ensures Agreed(w, limit, at) < limit ==> IsBelow(w, limit, at) == IsBelow(w', limit, at')
  {
    hide Scan, ArrayOk, AlikeRefs, Slot;
    SlotAlike(w, w', Met(w, at));
  }

  lemma BothGoOn(w: Window, w': Window, limit: nat, son: seq<nat>, son': seq<nat>, at: Place, at': Place)
    requires AlikePlaces(w, w', limit, son, son', at, at') && Meets(w, limit, at) && Meets(w', limit, at')
    requires Agreed(w, limit, at) == Agreed(w', limit, at') < limit && |son| == |son'| == 2 * w.cyc && at.p0 < |son| && at.p1 < |son|
    requires CanWalk(w, limit, Hung(w, limit, son, at), Next(w, limit, son, at))
    ensures w'.cyc == w.cyc && at'.p0 < |son'| && at'.p1 < |son'|
    ensures AlikePlaces(w, w', limit, Hung(w, limit, son, at), Hung(w', limit, son', at'), Next(w, limit, son, at), Next(w', limit, son', at'))
  {
    hide Slot, Agreed, IsBelow, CanWalk, AlikeRefs, AlikeRef, Meets;
    BothWalk(w, w', limit, son, son', at, at');
    BothMeet(w, w', limit, son, son', at, at');
    var pair := 2 * Slot(w, Met(w, at));
    if IsBelow(w, limit, at) {
      HungAlike(w, w', son, son', at.p1, at.cur, at'.cur);
      RefAt(w, w', son[at.p1 := at.cur], son'[at.p1 := at'.cur], pair + 1);
    } else {
      HungAlike(w, w', son, son', at.p0, at.cur, at'.cur);
      RefAt(w, w', son[at.p0 := at.cur], son'[at.p0 := at'.cur], pair);
    }
  }

  lemma ChildlessAlike(w: Window, w': Window, limit: nat, son: seq<nat>, son': seq<nat>, at: Place, at': Place)
    requires AlikePlaces(w, w', limit, son, son', at, at') && Meets(w, limit, at) && Meets(w', limit, at')
    requires |son| == |son'| == 2 * w.cyc && at.p0 < |son| && at.p1 < |son| && w'.cyc == w.cyc && at'.p0 < |son'| && at'.p1 < |son'|
    ensures AlikeRefs(w, w', Childless(w, son, at), Childless(w', son', at'))
  {
    hide Slot, Agreed, IsBelow, CanWalk, AlikeRefs, AlikeRef;
    BothMeet(w, w', limit, son, son', at, at');
    var pair := 2 * Slot(w, Met(w, at));
    RefAt(w, w', son, son', pair);
    HungAlike(w, w', son, son', at.p1, son[pair], son'[pair]);
    var s, s' := son[at.p1 := son[pair]], son'[at.p1 := son'[pair]];
    RefAt(w, w', s, s', pair + 1);
    HungAlike(w, w', s, s', at.p0, s[pair + 1], s'[pair + 1]);
  }

  lemma StopAlike(w: Window, w': Window, son: seq<nat>, son': seq<nat>, p0: nat, p1: nat)
    requires AlikeWindows(w, w') && AlikeRefs(w, w', son, son') && p0 < |son| && p1 < |son|
    ensures |son| == |son'| && AlikeRefs(w, w', son[p1 := 0][p0 := 0], son'[p1 := 0][p0 := 0])
  {
    hide AlikeRef;
    DeadIsAlike(w, w');
    HungAlike(w, w', son, son', p1, 0, 0);
    HungAlike(w, w', son[p1 := 0], son'[p1 := 0], p0, 0, 0);
  }

  lemma SlotAlike(w: Window, w': Window, q: nat)
    requires AlikeWindows(w, w')
    ensures Slot(w, q) == Slot(w', q)
  {
  }

  /** The walk, begun with the same in two numberings, leaves the same. */
  lemma {:induction false} WalkAlike(w: Window, w': Window, limit: nat, son: seq<nat>, son': seq<nat>, at: Place, at': Place)
    requires AlikePlaces(w, w', limit, son, son', at, at')
    ensures CanWalk(w, limit, son, at) && CanWalk(w', limit, son', at')
    ensures AlikeRefs(w, w', Walk(w, limit, son, at), Walk(w', limit, son', at'))
    decreases at.cut
  {
    hide Walk, CanWalk, AlikeWindows, AlikeRefs, AlikeRef, AlikePlaces, Slot, Agreed, IsBelow, Hung, Next, Childless, Stops, Meets;
    BothWalk(w, w', limit, son, son', at, at');
    WalkUnfolds(w, limit, son, at);
    WalkUnfolds(w', limit, son', at');
    if Stops(w, at) {
      StopAlike(w, w', son, son', at.p0, at.p1);
    } else {
      BothMeet(w, w', limit, son, son', at, at');
      if Agreed(w, limit, at) == limit {
        ChildlessAlike(w, w', limit, son, son', at, at');
      } else {
        BothGoOn(w, w', limit, son, son', at, at');
        WalkAlike(w, w', limit, Hung(w, limit, son, at), Hung(w', limit, son', at'), Next(w, limit, son, at), Next(w', limit, son', at'));
      }
    }
  }

  lemma ReportAlike(w: Window, w': Window, limit: nat, son: seq<nat>, son': seq<nat>, at: Place, at': Place, maxLen: nat)
    requires AlikePlaces(w, w', limit, son, son', at, at') && Meets(w, limit, at) && Meets(w', limit, at')
    ensures Report(w, limit, at, maxLen) == Report(w', limit, at', maxLen)
  {
    hide Slot, Agreed, IsBelow, AlikeRefs;
    BothMeet(w, w', limit, son, son', at, at');
  }

  /** And it reports the same. */
  lemma {:induction false} FoundAlike(w: Window, w': Window, limit: nat, son: seq<nat>, son': seq<nat>, at: Place, at': Place, maxLen: nat)
    requires AlikePlaces(w, w', limit, son, son', at, at') && maxLen < limit
    ensures CanWalk(w, limit, son, at) && CanWalk(w', limit, son', at')
    ensures Found(w, limit, son, at, maxLen) == Found(w', limit, son', at', maxLen)
    decreases at.cut
  {
    hide Found, CanWalk, AlikeWindows, AlikeRefs, AlikeRef, AlikePlaces, Slot, Agreed, IsBelow, Hung, Next, Stops, Meets, Report;
    BothWalk(w, w', limit, son, son', at, at');
    FoundUnfolds(w, limit, son, at, maxLen);
    FoundUnfolds(w', limit, son', at', maxLen);
    if !Stops(w, at) {
      BothMeet(w, w', limit, son, son', at, at');
      ReportAlike(w, w', limit, son, son', at, at', maxLen);
      if Agreed(w, limit, at) != limit {
        BothGoOn(w, w', limit, son, son', at, at');
        FoundAlike(w, w', limit, Hung(w, limit, son, at), Hung(w', limit, son', at'), Next(w, limit, son, at), Next(w', limit, son', at'),
                   Max(maxLen, Agreed(w, limit, at)));
      }
    }
  }

  // ---------- Steps and answers ----------

  lemma ShapesAlike(s: State, s': State)
    requires Alike(s, s') && ShapeOk(s)
    ensures ShapeOk(s')
  {
  }

  lemma HitAlike(w: Window, w': Window, v: nat, v': nat)
    requires AlikeWindows(w, w') && w.n < |w.text| && AlikeRef(w, w', v, v')
    ensures Hit(w, w.pos - v) <==> Hit(w', w'.pos - v')
    ensures Hit(w, w.pos - v) ==> w.pos - v == w'.pos - v'
  {
  }

  lemma SameHit(w: Window, w': Window, u: nat, u': nat, v: nat, v': nat)
    requires AlikeWindows(w, w') && w.n < |w.text| && AlikeRef(w, w', u, u') && AlikeRef(w, w', v, v') && Hit(w, w.pos - v)
    ensures w.pos - u == w.pos - v <==> w'.pos - u' == w'.pos - v'
  {
  }

  lemma HitBounds(w: Window, delta: nat)
    requires w.n < |w.text|
    ensures Hit(w, delta) ==> 1 <= delta <= w.n
  {
  }

  lemma PromisedAlike(w: Window, w': Window, v2: nat, v2': nat, v3: nat, v3': nat)
    requires AlikeWindows(w, w') && w.n < |w.text| && AlikeRef(w, w', v2, v2') && AlikeRef(w, w', v3, v3')
    ensures v2 < w.pos && v3 < w.pos && v2' < w'.pos && v3' < w'.pos && w'.n < |w'.text|
    ensures Promised(w, w.pos - v2, w.pos - v3) == Promised(w', w'.pos - v2', w'.pos - v3')
  {
    hide Hit;
    HitAlike(w, w', v2, v2');
    HitAlike(w, w', v3, v3');
    HitBounds(w, w.pos - v2);
    HitBounds(w, w.pos - v3);
    if Hit(w, w.pos - v3) {
      SameHit(w, w', v2, v2', v3, v3');
    }
  }

  /** The hash tables promise the same matches. */
  lemma HitsAlike(w: Window, w': Window, limit: nat, v2: nat, v2': nat, v3: nat, v3': nat)
    requires AlikeWindows(w, w') && w.n + limit <= |w.text| && 4 <= limit && AlikeRef(w, w', v2, v2') && AlikeRef(w, w', v3, v3')
    ensures v2 < w.pos && v3 < w.pos && v2' < w'.pos && v3' < w'.pos && w'.n + limit <= |w'.text|
    ensures HashHits(w, limit, w.pos - v2, w.pos - v3) == HashHits(w', limit, w'.pos - v2', w'.pos - v3')
  {
    hide Same, Scan, Promised, AlikeRef;
    PromisedAlike(w, w', v2, v2', v3, v3');
  }

  lemma AnswersAlike(p: Setup, s: State, s': State)
    requires Alike(s, s') && ShapeOk(s) && s.w.n <= |s.w.text|
    ensures ShapeOk(s') && Answers(p, s) == Answers(p, s')
  {
    hide Hash2, Hash3, Hash4, Found, HashHits, Same, ArrayOk, RefsOk, AlikeRefs, AlikeRef;
    ShapesAlike(s, s');
    Lengths(s.w, s.son);
    var limit := Limit(p, s.w);
    if 4 <= limit {
      var h2, h3, h := Hash2(s.w.text, s.w.n), Hash3(s.w.text, s.w.n), Hash4(s.w.text, s.w.n, |s.heads|);
      RefAt(s.w, s'.w, s.hash2, s'.hash2, h2);
      RefAt(s.w, s'.w, s.hash3, s'.hash3, h3);
      RefAt(s.w, s'.w, s.heads, s'.heads, h);
      HitsAlike(s.w, s'.w, limit, s.hash2[h2], s'.hash2[h2], s.hash3[h3], s'.hash3[h3]);
      var hits := HashHits(s.w, limit, s.w.pos - s.hash2[h2], s.w.pos - s.hash3[h3]);
      var len := LastLen(hits, 0);
      if len < limit {
        RootCanWalk(p, s, limit, s.heads[h]);
        FoundAlike(s.w, s'.w, limit, s.son, s'.son, Root(p, s.w, s.heads[h]), Root(p, s'.w, s'.heads[h]), Max(3, len));
      }
    }
  }

  /** References alike stay so when both windows move, and so do the references to the position just left. */
  lemma RefsMove(w: Window, w': Window, refs: seq<nat>, refs': seq<nat>)
    requires AlikeWindows(w, w') && w.n < |w.text| && AlikeRefs(w, w', refs, refs')
    ensures AlikeWindows(After(w), After(w')) && AlikeRefs(After(w), After(w'), refs, refs')
    ensures AlikeRef(After(w), After(w'), w.pos, w'.pos)
  {
    AfterText(w);
    AfterText(w');
    RefAfter(w, w.pos);
    RefAfter(w', w'.pos);
    forall i | 0 <= i < |refs|
      ensures AlikeRef(After(w), After(w'), refs[i], refs'[i])
    {
      RefAfter(w, refs[i]);
      RefAfter(w', refs'[i]);
    }
  }

  lemma StepsAlike(p: Setup, s: State, s': State)
    requires Alike(s, s') && ShapeOk(s) && s.w.n < |s.w.text|
    ensures ShapeOk(s') && Alike(PlainStep(p, s), PlainStep(p, s'))
  {
    hide Hash2, Hash3, Hash4, Walk, ArrayOk, RefsOk, AlikeRefs, AlikeRef, After;
    ShapesAlike(s, s');
    Lengths(s.w, s.son);
    RefsMove(s.w, s'.w, s.hash2, s'.hash2);
    RefsMove(s.w, s'.w, s.hash3, s'.hash3);
    RefsMove(s.w, s'.w, s.heads, s'.heads);
    RefsMove(s.w, s'.w, s.son, s'.son);
    var limit := Limit(p, s.w);
    if 4 <= limit {
      var h2, h3, h := Hash2(s.w.text, s.w.n), Hash3(s.w.text, s.w.n), Hash4(s.w.text, s.w.n, |s.heads|);
      RefAt(s.w, s'.w, s.heads, s'.heads, h);
      RefAt(s.w, s'.w, s.hash2, s'.hash2, h2);
      RefAt(s.w, s'.w, s.hash3, s'.hash3, h3);
      RootCanWalk(p, s, limit, s.heads[h]);
      WalkAlike(s.w, s'.w, limit, s.son, s'.son, Root(p, s.w, s.heads[h]), Root(p, s'.w, s'.heads[h]));
      RefsMove(s.w, s'.w, Inserted(p, s).son, Inserted(p, s').son);
      HungAlike(After(s.w), After(s'.w), s.hash2, s'.hash2, h2, s.w.pos, s'.w.pos);
      HungAlike(After(s.w), After(s'.w), s.hash3, s'.hash3, h3, s.w.pos, s'.w.pos);
      HungAlike(After(s.w), After(s'.w), s.heads, s'.heads, h, s.w.pos, s'.w.pos);
    }
  }

  // ---------- Lowering positions ----------

  lemma ReducedAlike(w: Window, refs: seq<nat>)
    requires w.Ok() && w.cyc <= w.pos && RefsOk(w, refs)
    ensures AlikeRefs(w, w.(pos := w.pos - SubValue(w)), refs, Reduced(refs, SubValue(w)))
  {
    hide SubValue;
  }

  /** Every reference keeps its in-window status and, if in the window, its distance. */
  lemma NormalizedIsAlike(s: State)
    requires ShapeOk(s)
    ensures Alike(s, Normalized(s)) && ShapeOk(Normalized(s))
    ensures Normalized(s).w.pos < s.w.cyc + NORMALIZE_STEP
  {
    hide RefsOk, AlikeRefs, Reduced;
    ReducedAlike(s.w, s.hash2);
    ReducedAlike(s.w, s.hash3);
    ReducedAlike(s.w, s.heads);
    SonRefs(s.w, s.son);
    ReducedAlike(s.w, s.son);
    ShapesAlike(s, Normalized(s));
  }

  lemma SonRefs(w: Window, son: seq<nat>)
    requires ArrayOk(w, son)
    ensures RefsOk(w, son)
  {
  }

  lemma {:induction false} AlikeTrans(s: State, t: State, u: State)
    requires Alike(s, t) && Alike(t, u)
    ensures Alike(s, u)
  {
  }

  lemma AlikeSelf(s: State)
    requires ShapeOk(s)
    ensures Alike(s, s)
  {
    hide Hash2;
  }

  // ---------- Whole runs ----------

  lemma StepShape(p: Setup, s: State)
    requires ShapeOk(s) && s.w.n < |s.w.text|
    ensures ShapeOk(Step(p, s)) && ShapeOk(PlainStep(p, s)) && Alike(PlainStep(p, s), Step(p, s))
    ensures Step(p, s).w.text == PlainStep(p, s).w.text == s.w.text && Step(p, s).w.n == PlainStep(p, s).w.n == s.w.n + 1
  {
    hide ShapeOk, Alike, Inserted;
    ShapeAfter(p, s);
    AlikeSelf(PlainStep(p, s));
    NormalizedIsAlike(PlainStep(p, s));
  }

  function Steps(p: Setup, s: State, k: nat): (r: State)
    requires ShapeOk(s) && s.w.n + k <= |s.w.text|
    ensures ShapeOk(r) && r.w.text == s.w.text && r.w.n == s.w.n + k
    decreases k
  {
    if k == 0 then s
    else
      StepShape(p, s);
      Steps(p, Step(p, s), k - 1)
  }

  /** The same with positions of any width. */
  function PlainSteps(p: Setup, s: State, k: nat): (r: State)
    requires ShapeOk(s) && s.w.n + k <= |s.w.text|
    ensures ShapeOk(r) && r.w.text == s.w.text && r.w.n == s.w.n + k
    decreases k
  {
    if k == 0 then s
    else
      StepShape(p, s);
      PlainSteps(p, PlainStep(p, s), k - 1)
  }

  /** After any number of steps, the match finder with 32-bit positions is like one with unbounded positions, and
      reports the same. */
  lemma {:induction false} RunsAlike(p: Setup, s: State, s': State, k: nat)
    requires ShapeOk(s) && Alike(s, s') && s.w.n + k <= |s.w.text|
    ensures ShapeOk(s') && Alike(PlainSteps(p, s, k), Steps(p, s', k))
    ensures Answers(p, PlainSteps(p, s, k)) == Answers(p, Steps(p, s', k))
    decreases k
  {
    hide ShapeOk, Alike, Step, PlainStep, Answers;
    ShapesAlike(s, s');
    AlikeTexts(s, s');
    if k == 0 {
      AnswersAlike(p, s, s');
    } else {
      StepShape(p, s);
      StepShape(p, s');
      StepsAlike(p, s, s');
      AlikeTrans(PlainStep(p, s), PlainStep(p, s'), Step(p, s'));
      RunsAlike(p, PlainStep(p, s), Step(p, s'), k - 1);
    }
  }

  lemma AlikeTexts(s: State, s': State)
    requires Alike(s, s')
    ensures s.w.text == s'.w.text && s.w.n == s'.w.n
  {
  }

  /** Normalizing changes no future answer. */
  lemma NormalizeChangesNothing(p: Setup, s: State, k: nat)
    requires ShapeOk(s) && s.w.n + k <= |s.w.text|
    ensures ShapeOk(Normalized(s)) && Answers(p, Steps(p, Normalized(s), k)) == Answers(p, Steps(p, s, k))
  {
    hide ShapeOk, Alike, Step, PlainStep, Answers, Steps, PlainSteps;
    AlikeSelf(s);
    NormalizedIsAlike(s);
    RunsAlike(p, s, s, k);
    RunsAlike(p, s, Normalized(s), k);
  }
}
