/** Minimum-redundancy code lengths in place (tdefl_calculate_minimum_redundancy): weights become parents, parents become
    depths, and depths become code lengths, all in one array. */
module DeflateRedundancy {
  import opened CodeCosts
  import opened CodeLengths
  import opened DeflateJoinCosts
  import opened DeflateJoins
  import opened DeflateTies
  import opened Powers

  // ---------- The second pass: parents become depths ----------

  /** Of the inner nodes, the last is the root; the others have parents. */
  ghost predicate Parents(par: seq<nat>, h: seq<nat>) {
    && |h| == |par| + 1
    && (forall i :: 0 <= i < |par| ==> i < par[i] <= |par| && h[i] < h[par[i]])
    && (forall i, k :: 0 <= i <= k < |par| ==> par[i] <= par[k])
    && (forall i, k :: 0 <= i && i + 2 <= k < |par| ==> par[i] < par[k])
    && (forall i :: 0 <= i < |h| ==> 1 <= h[i])
  }

  ghost predicate Depths(par: seq<nat>, d: seq<nat>) {
    && |d| == |par| + 1 && d[|par|] == 0
    && (forall i :: 0 <= i < |par| ==> 0 <= par[i] <= |par| && d[i] == d[par[i]] + 1)
  }

  method ToDepths(keys: array<nat>, ghost par: seq<nat>, ghost h: seq<nat>)
    requires Parents(par, h) && keys.Length == |par| + 2 && keys[..|par|] == par
    modifies keys
    ensures Depths(par, keys[..|par| + 1])
  {
    var n := keys.Length;
    keys[n - 2] := 0;
    var next := n - 3;
    while next >= 0
      invariant -1 <= next <= n - 3 && keys[n - 2] == 0
      invariant forall i :: 0 <= i <= next ==> keys[i] == par[i]
      invariant forall i :: next < i < n - 2 ==> keys[i] == keys[par[i]] + 1
    {
      keys[next] := keys[keys[next]] + 1;
      next := next - 1;
    }
  }

  lemma {:induction false} DepthMono(par: seq<nat>, h: seq<nat>, d: seq<nat>, i: nat, k: nat)
    requires Parents(par, h) && Depths(par, d) && i <= k <= |par|
    ensures d[k] <= d[i]
    decreases |par| - i
  {
    if k < |par| {
      DepthMono(par, h, d, par[i], par[k]);
    }
  }

  /** Deep nodes are not high. */
  lemma {:induction false} DepthAndHeight(par: seq<nat>, h: seq<nat>, d: seq<nat>, i: nat)
    requires Parents(par, h) && Depths(par, d) && i <= |par|
    ensures d[i] + h[i] <= h[|par|]
    decreases |par| - i
  {
    if i < |par| {
      DepthAndHeight(par, h, d, par[i]);
    }
  }

  /** Depths leave none out. */
  lemma NoGap(par: seq<nat>, h: seq<nat>, d: seq<nat>, i: nat)
    requires Parents(par, h) && Depths(par, d) && i < |par|
    ensures d[i + 1] <= d[i] <= d[i + 1] + 1
  {
    DepthMono(par, h, d, i, i + 1);
    DepthMono(par, h, d, i + 1, par[i]);
  }

  /** Each parent has two of them at most. */
  lemma {:induction false} ParentsSpread(par: seq<nat>, h: seq<nat>, i: nat, k: nat)
    requires Parents(par, h) && i <= k < |par|
    ensures k - i <= 2 * (par[k] - par[i]) + 1
    decreases k - i
  {
    if i + 2 <= k {
      ParentsSpread(par, h, i + 2, k);
    }
  }

  // ---------- The third pass: depths become code lengths ----------

  /** The nodes at the depth before this one are the `prev` ones after `root`; those up to `root` are deeper. */
  ghost predicate Level(d: seq<nat>, root: int, prev: nat, dpth: nat) {
    && -1 <= root && root + prev < |d| && (root == -1 || prev > 0)
    && (forall i :: 0 <= i <= root ==> dpth <= d[i])
    && (forall i :: root < i <= root + prev ==> d[i] + 1 == dpth)
    && (forall i :: root + prev < i < |d| ==> d[i] + 1 < dpth)
  }

  /** The next level has not more than twice as many nodes, and not none. */
  lemma NextLevel(par: seq<nat>, h: seq<nat>, d: seq<nat>, root: int, prev: nat, dpth: nat, used: nat)
    requires Parents(par, h) && Depths(par, d) && Level(d, root, prev, dpth) && used <= root + 1
    requires forall i :: root - used < i <= root ==> d[i] == dpth
    requires root - used >= 0 ==> d[root - used] != dpth
    ensures used <= 2 * prev && Level(d, root - used, used, dpth + 1)
  {
    if root >= 0 {
      assert root < |par|;
      NoGap(par, h, d, root);
      assert used > 0;
      var lo := root - used + 1;
      ParentsSpread(par, h, lo, root);
      assert d[par[root]] + 1 == d[root] && d[par[lo]] + 1 == d[lo];
      assert par[root] <= root + prev;
      assert par[lo] > root;
    }
    forall i | 0 <= i <= root - used
      ensures dpth + 1 <= d[i]
    {
      DepthMono(par, h, d, i, root - used);
    }
  }

  /** At depth 0 there is only the root. */
  lemma TopLevel(par: seq<nat>, h: seq<nat>, d: seq<nat>, used: nat)
    requires Parents(par, h) && Depths(par, d) && used <= |d|
    requires forall i :: |d| - 1 - used < i < |d| ==> d[i] == 0
    requires |d| - 1 - used >= 0 ==> d[|d| - 1 - used] != 0
    ensures used == 1 && Level(d, |d| - 2, 1, 1)
  {
    forall i | 0 <= i < |par|
      ensures 1 <= d[i]
    {
      assert d[i] == d[par[i]] + 1;
    }
    assert d[|par|] == 0 && (0 < |par| ==> 1 <= d[|par| - 1]);
    assert used >= 1;
  }

  lemma {:induction false} KraftCons(l: nat, s: seq<nat>, maxbits: nat)
    ensures Kraft([l] + s, maxbits) == Share(l, maxbits) + Kraft(s, maxbits)
    decreases |s|
  {
    hide Share;
    var t := [l] + s;
    if s == [] {
      assert t == [l] && t[..0] == [] && Kraft(t[..0], maxbits) == 0;
    } else {
      assert t[..|t| - 1] == [l] + s[..|s| - 1] && t[|t| - 1] == s[|s| - 1];
      KraftCons(l, s[..|s| - 1], maxbits);
    }
  }

  /** How many nodes are at this depth. */
  method CountLevel(keys: array<nat>, root: int, dpth: nat) returns (used: nat, root': int)
    requires -1 <= root < keys.Length
    ensures -1 <= root' == root - used && (root' >= 0 ==> keys[root'] != dpth)
    ensures forall i :: root' < i <= root ==> keys[i] == dpth
  {
    used, root' := 0, root;
    while root' >= 0 && keys[root'] == dpth
      invariant -1 <= root' == root - used
      invariant forall i :: root' < i <= root ==> keys[i] == dpth
    {
      used := used + 1;
      root' := root' - 1;
    }
  }

  /** Lengths of codes from `next` on: not increasing, none is longer than this depth, and with the `avbl` nodes at this
      depth they fill the space of codes. */
  ghost predicate Assigned(lens: seq<nat>, dpth: nat, avbl: nat) {
    && dpth <= 32 && Kraft(lens, 32) + avbl * Pow2(32 - dpth) == Pow2(32)
    && (forall i :: 0 <= i < |lens| ==> 1 <= lens[i] <= dpth)
    && (forall i, k :: 0 <= i <= k < |lens| ==> lens[k] <= lens[i])
  }

  ghost predicate Below(lens: seq<nat>, bound: nat) { forall i :: 0 <= i < |lens| ==> lens[i] < bound }

  lemma AssignOne(lens: seq<nat>, dpth: nat, avbl: nat)
    requires Assigned(lens, dpth, avbl) && 1 <= dpth && 1 <= avbl
    ensures Assigned([dpth] + lens, dpth, avbl - 1)
  {
    hide Kraft, Pow2;
    KraftCons(dpth, lens, 32);
    Regroup(avbl - 1, 1, Pow2(32 - dpth));
  }

  lemma AssignDeeper(lens: seq<nat>, dpth: nat, used: nat)
    requires Assigned(lens, dpth, used) && dpth < 32
    ensures Assigned(lens, dpth + 1, 2 * used) && Below(lens, dpth + 1)
  {
    hide Kraft;
    assert Pow2(32 - dpth) == 2 * Pow2(32 - (dpth + 1));
    Twofold(used, Pow2(32 - (dpth + 1)));
  }

  lemma Twofold(a: nat, b: nat)
    ensures a * (2 * b) == (2 * a) * b
  {
  }

  lemma NoneAssigned()
    ensures Assigned([], 0, 1) && Below([], 0)
  {
  }

  /** The nodes at this depth that are not inner ones get this length. */
  method AssignLevel(keys: array<nat>, next: int, avbl: nat, used: nat, dpth: nat) returns (next': int)
    requires used <= avbl <= next + 1 && next < keys.Length && (used < avbl ==> 1 <= dpth)
    requires Assigned(keys[next + 1..], dpth, avbl)
    modifies keys
    ensures next' == next - (avbl - used) && Assigned(keys[next' + 1..], dpth, used)
    ensures forall i :: 0 <= i < keys.Length ==> keys[i] == if next' < i <= next then dpth else old(keys[i])
  {
    hide Assigned;
    next' := next;
    var left := avbl;
    while left > used
      invariant used <= left <= avbl && next' == next - (avbl - left)
      invariant Assigned(keys[next' + 1..], dpth, left)
      invariant forall i :: 0 <= i < keys.Length ==> keys[i] == if next' < i <= next then dpth else old(keys[i])
    {
      ghost var lens := keys[next' + 1..];
      keys[next'] := dpth;
      assert keys[next'..] == [dpth] + lens;
      AssignOne(lens, dpth, left);
      next' := next' - 1;
      left := left - 1;
    }
  }

  // ---------- The lengths are the depths of the leaves ----------

  /** How many leaves there are at each depth, in the order of the leaves. */
  ghost predicate Leaves(d: seq<nat>, t: seq<nat>) {
    && |t| == |d| + 1 && (forall i :: 0 <= i < |t| ==> 1 <= t[i]) && (forall i, k :: 0 <= i <= k < |t| ==> t[k] <= t[i])
    && forall v: nat :: Histo(t, v + 1) + Histo(d, v + 1) == 2 * Histo(d, v)
  }

  /** Behind `next` they have been assigned; the others are not less deep than this. */
  ghost predicate LeavesUpTo(a: seq<nat>, t: seq<nat>, next: int, dpth: nat) {
    && |a| == |t| && (forall i :: 0 <= i < |a| && next < i ==> a[i] == t[i]) && (forall i :: 0 <= i <= next && i < |t| ==> dpth <= t[i])
  }

  lemma {:induction false} HistoBlock(s: seq<nat>, lo: nat, hi: nat, v: nat)
    requires lo <= hi <= |s| && forall i :: 0 <= i < |s| ==> (s[i] == v <==> lo <= i < hi)
    ensures Histo(s, v) == hi - lo
    decreases |s|
  {
    if s != [] {
      var n := |s| - 1;
      HistoBlock(s[..n], if lo < n then lo else n, if hi < n then hi else n, v);
    }
  }

  lemma {:induction false} FindBlock(t: seq<nat>, hi: nat, v: nat) returns (lo: nat)
    requires hi <= |t| && (forall i, k :: 0 <= i <= k < |t| ==> t[k] <= t[i]) && forall i :: 0 <= i < hi ==> v <= t[i]
    ensures lo <= hi && (forall i :: 0 <= i < lo ==> v < t[i]) && forall i :: lo <= i < hi ==> t[i] == v
    decreases hi
  {
    if hi == 0 || v < t[hi - 1] {
      lo := hi;
    } else {
      lo := FindBlock(t, hi - 1, v);
    }
  }

  /** As many nodes of a level are leaves as are left when the inner ones are taken away. */
  lemma LeavesOfLevel(d: seq<nat>, t: seq<nat>, root: int, avbl: nat, dpth: nat, used: nat)
    requires Leaves(d, t) && -1 <= root < |d| && used <= root + 1 && used <= avbl
    requires Level(d, root - used, used, dpth + 1)
    requires if dpth == 0 then avbl == used else avbl % 2 == 0 && Level(d, root, avbl / 2, dpth)
    ensures Histo(t, dpth) == avbl - used
  {
    hide Histo;
    HistoBlock(d, root - used + 1, root + 1, dpth);
    if dpth == 0 {
      HistoBlock(t, 0, 0, 0);
    } else {
      HistoBlock(d, root + 1, root + 1 + avbl / 2, dpth - 1);
      assert Histo(t, (dpth - 1) + 1) + Histo(d, (dpth - 1) + 1) == 2 * Histo(d, dpth - 1);
    }
  }

  /** So the lengths that are assigned at a level are theirs. */
  lemma LeavesAssigned(t: seq<nat>, a: seq<nat>, a': seq<nat>, next: int, next': int, dpth: nat, count: nat)
    requires LeavesUpTo(a, t, next, dpth) && -1 <= next < |a| && next' == next - count >= -1 && Histo(t, dpth) == count && Below(a[next + 1..], dpth)
    requires forall i, k :: 0 <= i <= k < |t| ==> t[k] <= t[i]
    requires |a'| == |a| && forall i :: 0 <= i < |a| ==> a'[i] == if next' < i <= next then dpth else a[i]
    ensures LeavesUpTo(a', t, next', dpth + 1)
  {
    hide Histo;
    var lo := FindBlock(t, next + 1, dpth);
    forall i | next < i < |t|
      ensures t[i] < dpth
    {
      assert a[next + 1..][i - next - 1] == a[i] == t[i];
    }
    HistoBlock(t, lo, next + 1, dpth);
  }

  // ---------- The last loop ----------

  /** What is there at a turn of the last loop. */
  ghost predicate Turn(a: seq<nat>, d: seq<nat>, root: int, next: int, avbl: nat, dpth: nat) {
    && |a| == |d| + 1 && -1 <= root < |d| && next == avbl + root < |a|
    && (forall i :: 0 <= i <= root ==> a[i] == d[i])
    && Assigned(a[next + 1..], dpth, avbl) && Below(a[next + 1..], dpth)
    && if dpth == 0 then root == |d| - 1 && avbl == 1 else avbl % 2 == 0 && Level(d, root, avbl / 2, dpth)
  }

  /** One turn. Beside its own depth the array holds what it held. */
  method OneLevel(keys: array<nat>, root: int, next: int, avbl: nat, dpth: nat, ghost par: seq<nat>, ghost h: seq<nat>, ghost d: seq<nat>, ghost t: seq<nat>)
    returns (root': int, next': int, avbl': nat)
    requires Parents(par, h) && Depths(par, d) && h[|par|] <= 22 && Turn(keys[..], d, root, next, avbl, dpth) && avbl > 0
    requires Leaves(d, t) && LeavesUpTo(keys[..], t, next, dpth)
    modifies keys
    ensures Turn(keys[..], d, root', next', avbl', dpth + 1) && dpth <= 22 && root' <= root && (root' < root || avbl' == 0)
    ensures avbl' == 0 ==> root' == -1
    ensures LeavesUpTo(keys[..], t, next', dpth + 1)
  {
    hide Parents, Depths, Level, Assigned, Below, LeavesUpTo, Leaves;
    ghost var a := keys[..];
    var used: nat;
    used, root' := CountLevel(keys, root, dpth);
    LevelFound(par, h, d, keys[..], root, next, avbl, dpth, used);
    LeavesOfLevel(d, t, root, avbl, dpth, used);
    next' := AssignLevel(keys, next, avbl, used, dpth);
    InOrder(d, t);
    LeavesAssigned(t, a, keys[..], next, next', dpth, avbl - used);
    AssignDeeper(keys[next' + 1..], dpth, used);
    avbl' := 2 * used;
  }

  lemma InOrder(d: seq<nat>, t: seq<nat>)
    requires Leaves(d, t)
    ensures |t| == |d| + 1 && forall i, k :: 0 <= i <= k < |t| ==> t[k] <= t[i]
  {
  }

  lemma LevelFound(par: seq<nat>, h: seq<nat>, d: seq<nat>, a: seq<nat>, root: int, next: int, avbl: nat, dpth: nat, used: nat)
    requires Parents(par, h) && Depths(par, d) && h[|par|] <= 22 && Turn(a, d, root, next, avbl, dpth) && avbl > 0 && used <= root + 1
    requires (forall i :: root - used < i <= root ==> a[i] == dpth) && (root - used >= 0 ==> a[root - used] != dpth)
    ensures used <= avbl && (used < avbl ==> 1 <= dpth) && dpth <= 22 && Level(d, root - used, used, dpth + 1)
    ensures (used > 0 || root == -1) && (used == 0 ==> root == -1)
  {
    hide Assigned, Below;
    if dpth == 0 {
      TopLevel(par, h, d, used);
    } else {
      NextLevel(par, h, d, root, avbl / 2, dpth, used);
      DepthAndHeight(par, h, d, root + 1);
    }
  }

  /** Code lengths that fill the space of codes exactly, the longest first. */
  ghost predicate FullLengths(lens: seq<nat>) {
    && Kraft(lens, 32) == Pow2(32)
    && (forall i :: 0 <= i < |lens| ==> 1 <= lens[i] <= 22)
    && (forall i, k :: 0 <= i <= k < |lens| ==> lens[k] <= lens[i])
  }

  lemma AllAssigned(lens: seq<nat>, dpth: nat)
    requires Assigned(lens, dpth, 0) && Below(lens, dpth) && dpth <= 23
    ensures FullLengths(lens)
  {
    hide Kraft, Pow2;
  }

  method ToLengths(keys: array<nat>, ghost par: seq<nat>, ghost h: seq<nat>, ghost t: seq<nat>)
    requires Parents(par, h) && h[|par|] <= 22 && keys.Length == |par| + 2 && Depths(par, keys[..|par| + 1]) && Leaves(keys[..|par| + 1], t)
    modifies keys
    ensures FullLengths(keys[..]) && keys[..] == t
  {
    hide Parents, Depths, Level, Assigned, Below, FullLengths, Leaves, LeavesUpTo;
    ghost var d := keys[..|par| + 1];
    var avbl: nat, dpth: nat, root, next := 1, 0, keys.Length - 2, keys.Length - 1;
    assert keys[next + 1..] == [];
    NoneAssigned();
    InOrder(d, t);
    NoLeavesYet(keys[..], t);
    while avbl > 0
      invariant Turn(keys[..], d, root, next, avbl, dpth) && dpth <= 23 && (avbl == 0 ==> root == -1)
      invariant LeavesUpTo(keys[..], t, next, dpth)
      decreases root + 1, avbl
    {
      root, next, avbl := OneLevel(keys, root, next, avbl, dpth, par, h, d, t);
      dpth := dpth + 1;
    }
    assert keys[next + 1..] == keys[..];
    AllAssigned(keys[..], dpth);
    AllLeaves(keys[..], t, dpth);
  }

  lemma NoLeavesYet(a: seq<nat>, t: seq<nat>)
    requires |a| == |t|
    ensures LeavesUpTo(a, t, |a| - 1, 0)
  {
  }

  lemma AllLeaves(a: seq<nat>, t: seq<nat>, dpth: nat)
    requires LeavesUpTo(a, t, -1, dpth)
    ensures a == t
  {
  }

  /** The depths of the leaves, once those of the inner nodes are known. */
  lemma LeavesFound(f: seq<nat>, j: Joins, low: nat, total: nat, d: seq<nat>, q: Joins)
    requires JoinsOk(f, j, low, total) && |j.w| == |f| - 1 && Costed(f, j) && Depths(j.par, d) && Parents(j.par, j.h)
    requires SameJoins(f, j, q) && Costed(Finer(f), q)
    ensures Flattest(f, LeafDepths(d, j.lp))
    ensures Leaves(d, LeafDepths(d, j.lp)) && Cheapest(f, LeafDepths(d, j.lp)) && Shallow(LeafDepths(d, j.lp), total)
  {
    hide Shallow, JoinsOk, Histo, Conserved, Bounded, Cheapest, Flattest, SameJoins, Finer;
    TreeFound(f, j, low, total, d);
    FinerTree(f, j, q, d);
    TreeIsOptimal(f, j, d);
    var t := LeafDepths(d, j.lp);
    forall v: nat
      ensures Histo(t, v + 1) + Histo(d, v + 1) == 2 * Histo(d, v)
    {
      LevelTally(f, j, d, v);
    }
    forall i, k | 0 <= i <= k < |t|
      ensures t[k] <= t[i]
    {
      DepthMono(j.par, j.h, d, j.lp[i], j.lp[k]);
    }
    LeavesShallow(f, j, low, total, d);
  }

  /** Long codes take a great weight in all. */
  ghost predicate Shallow(t: seq<nat>, total: nat) { forall i :: 0 <= i < |t| ==> Fib(t[i] + 2) <= total }

  lemma LeavesShallow(f: seq<nat>, j: Joins, low: nat, total: nat, d: seq<nat>)
    requires JoinsOk(f, j, low, total) && |j.w| == |f| - 1 && TreeDepths(f, j, d) && Depths(j.par, d) && Parents(j.par, j.h)
    ensures Shallow(LeafDepths(d, j.lp), total)
  {
    hide Weights, Heavy, Totals, Conserved, Fib;
    AllJoined(f, j, low, total);
    var t := LeafDepths(d, j.lp);
    forall i | 0 <= i < |t|
      ensures Fib(t[i] + 2) <= total
    {
      DepthAndHeight(j.par, j.h, d, j.lp[i]);
      FibMono(t[i] + 2, j.h[|f| - 2] + 2);
    }
  }

  lemma TreeFound(f: seq<nat>, j: Joins, low: nat, total: nat, d: seq<nat>)
    requires JoinsOk(f, j, low, total) && |j.w| == |f| - 1 && Costed(f, j) && Depths(j.par, d)
    ensures TreeDepths(f, j, d)
  {
    hide Weights, Heavy, Totals, Conserved, Bounded;
    AllJoined(f, j, low, total);
  }

  lemma ParentsFound(f: seq<nat>, j: Joins, low: nat, total: nat, a: seq<nat>)
    requires JoinsOk(f, j, low, total) && |j.w| == |f| - 1 && Holds(a, f, j)
    ensures Parents(j.par, j.h) && j.h[|j.par|] <= 22 && |a| == |j.par| + 2 && a[..|j.par|] == j.par
  {
    hide Weights, Heavy, Totals;
    AllJoined(f, j, low, total);
  }

  lemma FirstHolds(a: seq<nat>)
    requires 2 <= |a|
    ensures Holds(a[0 := a[0] + a[1]], a, FirstOfAll(a))
  {
  }

  /** Weights in ascending order, of less than 2^16 together, become the lengths of a full code; no code makes the text
      shorter, and none that makes it as short has less bits. */
  method MinimumRedundancy(keys: array<nat>)
    requires forall i, k :: 0 <= i <= k < keys.Length ==> 1 <= keys[i] <= keys[k]
    requires Sum(keys[..]) < KEY_SIZE
    modifies keys
    ensures keys.Length == 1 ==> keys[0] == 1
    ensures keys.Length >= 2 ==>
      FullLengths(keys[..]) && Cheapest(old(keys[..]), keys[..]) && Shallow(keys[..], old(Sum(keys[..])))
    ensures keys.Length >= 2 ==> Flattest(old(keys[..]), keys[..])
  {
    hide Sum, JoinsOk, Holds, Parents, Depths, FullLengths, Costed, Follows, Cheapest, Leaves, Shallow;
    hide TiesToLeaves, SameJoins, Weights, Flattest, Finer;
    var n := keys.Length;
    if n == 0 {
      return;
    } else if n == 1 {
      keys[0] := 1;
      return;
    }
    ghost var f, total := keys[..], Sum(keys[..]);
    FirstJoin(f, total);
    FirstHolds(f);
    CostedAtFirst(f);
    FinerAtFirst(f);
    keys[0] := (keys[0] + keys[1]) % KEY_SIZE;
    var root: nat, leaf: nat, next: nat := 0, 2, 1;
    ghost var j, low := FirstOfAll(f), f[1];
    ghost var q, finerLow := FirstOfAll(Finer(f)), Finer(f)[1];
    assert keys[..] == f[0 := f[0] + f[1]];
    while next < n - 1
      invariant 1 <= next <= n - 1 && next == |j.w| && root == j.root && leaf == j.leaf
      invariant JoinsOk(f, j, low, total) && Holds(keys[..], f, j) && Costed(f, j)
      invariant SameJoins(f, j, q) && Weights(Finer(f), q, finerLow) && Costed(Finer(f), q)
    {
      ghost var before, low0 := j, low;
      root, leaf, j, low := JoinNext(keys, next, root, leaf, f, j, low, total);
      CostedStep(f, before, j);
      Parts(f, before, low0, total);
      q, finerLow := FinerStep(f, before, j, q, finerLow);
      next := next + 1;
    }
    ParentsFound(f, j, low, total, keys[..]);
    ToDepths(keys, j.par, j.h);
    ghost var d := keys[..n - 1];
    LeavesFound(f, j, low, total, d, q);
    ToLengths(keys, j.par, j.h, LeafDepths(d, j.lp));
  }
}
