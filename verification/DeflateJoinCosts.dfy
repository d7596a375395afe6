/** The joins of the two smallest weights cost as little as any code, and the tree they make costs just that. */
module DeflateJoinCosts {
  import opened CodeCosts
  import opened CodeLengths
  import opened DeflateJoins
  import opened Powers

  // ---------- No code is cheaper ----------

  /** What is there to be joined. */
  function Pending(f: seq<nat>, j: Joins): seq<nat>
    requires j.root <= |j.w| && j.leaf <= |f|
  {
    j.w[j.root..] + f[j.leaf..]
  }

  /** Lengths for what is there to be joined that cost less than l by all that has been joined. */
  ghost predicate Saves(f: seq<nat>, j: Joins, l: seq<nat>, l': seq<nat>, m': nat)
    requires j.root <= |j.w| && j.leaf <= |f| == |l|
  {
    |l'| == |Pending(f, j)| && Feasible(l', m') && Sum(j.w) + Cost(Pending(f, j), l') <= Cost(f, l)
  }

  /** Every code costs what has been joined so far, and a code for the rest. */
  ghost predicate Bounded(f: seq<nat>, j: Joins)
    requires j.root <= |j.w| && j.leaf <= |f|
  {
    forall l: seq<nat>, m: nat :: |l| == |f| && Feasible(l, m) ==> exists l': seq<nat>, m': nat :: Saves(f, j, l, l', m')
  }

  /** The weights from r up to r'. */
  function Fronts(w: seq<nat>, r: nat, r': nat): nat
    requires r <= r' <= |w| && r' <= r + 2
  {
    if r' == r then 0 else if r' == r + 1 then w[r] else w[r] + w[r + 1]
  }

  lemma SmallestTaken(f: seq<nat>, j: Joins, root': nat, leaf': nat, a: nat, b: nat)
    requires j.root <= |j.w| && j.leaf <= |f| && Smallest(f, j, root', leaf', a, b)
    ensures j.root <= root' <= |j.w| && root' <= j.root + 2 && j.leaf <= leaf' <= |f| && leaf' <= j.leaf + 2
    ensures (root' - j.root) + (leaf' - j.leaf) == 2
    ensures Fronts(j.w, j.root, root') + Fronts(f, j.leaf, leaf') == a + b
  {
  }

  /** Where the two that are joined are among what is pending. */
  lemma PendingJoined(f: seq<nat>, j: Joins, root': nat, leaf': nat, a: nat, b: nat) returns (i: nat, x: nat, k: nat)
    requires j.root <= |j.w| == |j.h| && j.leaf <= |f| && Smallest(f, j, root', leaf', a, b)
    ensures root' <= |j.w| && root' <= j.root + 2 && leaf' <= |f|
    ensures TwoSmallest(Pending(f, j), i, x) && x < i < |Pending(f, j)| && k <= |Pending(f, j)| - 2
    ensures Pending(f, j)[i] + Pending(f, j)[x] == a + b
    ensures Pending(f, Joined(j, root', leaf', a + b)) == Merged(Pending(f, j), i, x, k)
  {
    hide NewHeight, Copies;
    var p, r := Pending(f, j), |j.w| - j.root;
    if root' == j.root {
      i, x, k := r + 1, r, r;
    } else if leaf' == j.leaf {
      i, x, k := 1, 0, r - 2;
    } else {
      i, x, k := r, 0, r - 1;
    }
    assert p[i] + p[x] == a + b;
    forall y | 0 <= y < |p| && y != i && y != x
      ensures p[i] <= p[y] && p[x] <= p[y]
    {
      if y < r {
        assert p[y] == j.w[j.root + y];
      } else {
        assert p[y] == f[j.leaf + (y - r)];
      }
    }
    PendingMerged(f, j, root', leaf', a, b, i, x, k);
  }

  lemma PendingMerged(f: seq<nat>, j: Joins, root': nat, leaf': nat, a: nat, b: nat, i: nat, x: nat, k: nat)
    requires j.root <= |j.w| == |j.h| && j.leaf <= |f| && Smallest(f, j, root', leaf', a, b)
    requires var r := |j.w| - j.root;
             (i, x, k) == if root' == j.root then (r + 1, r, r) else if leaf' == j.leaf then (1, 0, r - 2) else (r, 0, r - 1)
    ensures k <= |Pending(f, j)| - 2 && Pending(f, Joined(j, root', leaf', a + b)) == Merged(Pending(f, j), i, x, k)
  {
    hide NewHeight, Copies, With, Without, Smallest;
    SmallestTaken(f, j, root', leaf', a, b);
    PendingSum(f, j, root', leaf', a, b, i, x, k);
    var u, v := j.w[j.root..], f[j.leaf..];
    PendingAfter(f, j, root', leaf', a + b);
    if root' == j.root {
      TwoOfSecond(u, v);
    } else if leaf' == j.leaf {
      TwoOfFirst(u, v);
    } else {
      OneOfEach(u, v);
    }
    PutBetween(u[root' - j.root..], v[leaf' - j.leaf..], a + b);
  }

  lemma PendingSum(f: seq<nat>, j: Joins, root': nat, leaf': nat, a: nat, b: nat, i: nat, x: nat, k: nat)
    requires j.root <= |j.w| && j.leaf <= |f| && Smallest(f, j, root', leaf', a, b)
    requires var r := |j.w| - j.root;
             (i, x, k) == if root' == j.root then (r + 1, r, r) else if leaf' == j.leaf then (1, 0, r - 2) else (r, 0, r - 1)
    ensures x < i < |Pending(f, j)| && k <= |Pending(f, j)| - 2 && Pending(f, j)[i] + Pending(f, j)[x] == a + b
  {
  }

  lemma PendingAfter(f: seq<nat>, j: Joins, root': nat, leaf': nat, s: nat)
    requires j.root <= root' <= |j.w| == |j.h| && root' <= j.root + 2 && j.leaf <= leaf' <= |f|
    ensures Pending(f, Joined(j, root', leaf', s)) == j.w[j.root..][root' - j.root..] + [s] + f[j.leaf..][leaf' - j.leaf..]
  {
    hide NewHeight, Copies;
    assert (j.w + [s])[root'..] == j.w[root'..] + [s];
  }

  // Two from the fronts of two queues.

  lemma TwoOfSecond(u: seq<nat>, v: seq<nat>)
    requires 2 <= |v|
    ensures Without(Without(u + v, |u| + 1), |u|) == u[0..] + v[2..]
  {
    assert Without(u + v, |u| + 1) == u + [v[0]] + v[2..];
  }

  lemma TwoOfFirst(u: seq<nat>, v: seq<nat>)
    requires 2 <= |u|
    ensures Without(Without(u + v, 1), 0) == u[2..] + v[0..]
  {
    assert Without(u + v, 1) == [u[0]] + u[2..] + v;
  }

  lemma OneOfEach(u: seq<nat>, v: seq<nat>)
    requires 1 <= |u| && 1 <= |v|
    ensures Without(Without(u + v, |u|), 0) == u[1..] + v[1..]
  {
    assert Without(u + v, |u|) == u + v[1..];
  }

  lemma PutBetween(u: seq<nat>, v: seq<nat>, s: nat)
    ensures With(u + v, |u|, s) == u + [s] + v
  {
  }

  /** Joining keeps the bound: the rest can be coded for less by what is joined. */
  lemma BoundedStep(f: seq<nat>, j: Joins, j': Joins)
    requires j.root <= |j.w| && j.leaf <= |f| && Bounded(f, j) && Follows(f, j, j')
    ensures j'.root <= |j'.w| && j'.leaf <= |f| && Bounded(f, j')
  {
    hide Smallest, Joined, Cost, Feasible, Pending, TwoSmallest, Merged;
    var a: nat, b: nat :| Smallest(f, j, j'.root, j'.leaf, a, b) && j' == Joined(j, j'.root, j'.leaf, a + b);
    var i, x, k := PendingJoined(f, j, j'.root, j'.leaf, a, b);
    JoinedSum(f, j, j'.root, j'.leaf, a, b);
    var p := Pending(f, j);
    forall l: seq<nat>, m: nat | |l| == |f| && Feasible(l, m)
      ensures exists l': seq<nat>, m': nat :: Saves(f, j', l, l', m')
    {
      var l1: seq<nat>, m1: nat :| Saves(f, j, l, l1, m1);
      var l2, m2 := JoinLosesNothing(p, l1, m1, i, x, k);
      MergedLength(p, i, x, k);
      assert Saves(f, j', l, l2, m2);
    }
  }

  lemma MergedLength(p: seq<nat>, i: nat, x: nat, k: nat)
    requires x < i < |p| && k <= |p| - 2
    ensures |Merged(p, i, x, k)| == |p| - 1
  {
  }

  lemma JoinedSum(f: seq<nat>, j: Joins, root': nat, leaf': nat, a: nat, b: nat)
    requires j.root <= root' <= |j.w| == |j.h| && root' <= j.root + 2 && j.leaf <= leaf' && Smallest(f, j, root', leaf', a, b)
    ensures Sum(Joined(j, root', leaf', a + b).w) == Sum(j.w) + a + b
    ensures var j' := Joined(j, root', leaf', a + b); j'.root <= |j'.w| && j'.leaf <= |f|
  {
    hide NewHeight, Copies;
    SumAppend(j.w, a + b);
  }

  /** Before anything is joined but the first two. */
  lemma BoundedAtFirst(f: seq<nat>)
    requires 2 <= |f| && forall x :: 2 <= x < |f| ==> f[0] <= f[x] && f[1] <= f[x]
    ensures Bounded(f, FirstOfAll(f))
  {
    hide Cost, Feasible;
    var j := FirstOfAll(f);
    assert Merged(f, 1, 0, 0) == Pending(f, j);
    assert j.w == [f[0] + f[1]] && Sum(j.w[1..]) == 0;
    forall l: seq<nat>, m: nat | |l| == |f| && Feasible(l, m)
      ensures exists l': seq<nat>, m': nat :: Saves(f, j, l, l', m')
    {
      var l2, m2 := JoinLosesNothing(f, l, m, 1, 0, 0);
      assert Saves(f, j, l, l2, m2);
    }
  }

  // ---------- The tree costs just that ----------

  /** What D says of the parents. */
  function Via(d: seq<nat>, par: seq<nat>): (r: seq<nat>)
    ensures |r| == |par| && forall i :: 0 <= i < |par| ==> r[i] == if par[i] < |d| then d[par[i]] else 0
  {
    seq(|par|, i requires 0 <= i < |par| => if par[i] < |d| then d[par[i]] else 0)
  }

  /** Parents of leaves, in the order of the leaves. */
  ghost predicate LeafParents(j: Joins) {
    && |j.lp| == j.leaf && (forall i :: 0 <= i < j.leaf ==> j.lp[i] < |j.w|)
    && (forall i, k :: 0 <= i <= k < j.leaf ==> j.lp[i] <= j.lp[k])
  }

  /** The weight of a node is that of what it joins, whatever is summed up over them; and it joins two. */
  ghost predicate Conserved(f: seq<nat>, j: Joins)
    requires j.root <= |j.w| && j.leaf <= |f| && |j.par| == j.root && |j.lp| == j.leaf
  {
    forall d: seq<nat> :: |d| == |j.w| ==>
      && Cost(j.w, d) == Cost(j.w[..j.root], Via(d, j.par)) + Cost(f[..j.leaf], Via(d, j.lp))
      && 2 * Sum(d) == Sum(Via(d, j.par)) + Sum(Via(d, j.lp))
  }

  lemma LeafParentsStep(f: seq<nat>, j: Joins, j': Joins)
    requires LeafParents(j) && Follows(f, j, j')
    ensures LeafParents(j')
  {
    hide Smallest, NewHeight;
  }

  /** Some more items of the same length. */
  lemma CostMore(w: seq<nat>, l: seq<nat>, r: nat, r': nat, t: nat)
    requires r <= r' <= |w| && r' <= r + 2 && |l| == r
    ensures Cost(w[..r'], l + Copies(t, r' - r)) ==
              Cost(w[..r], l) + Fronts(w, r, r') * t
  {
    if r' > r {
      CostOne(w, l, r, t);
      assert Copies(t, 1) == [t];
      if r' == r + 2 {
        CostOne(w, l + [t], r + 1, t);
        assert l + Copies(t, 2) == (l + [t]) + [t];
        Distribute(w[r], w[r + 1], t);
      }
    } else {
      assert l + Copies(t, 0) == l;
    }
  }

  lemma CostOne(w: seq<nat>, l: seq<nat>, r: nat, t: nat)
    requires r < |w| && |l| == r
    ensures Cost(w[..r + 1], l + [t]) == Cost(w[..r], l) + w[r] * t
  {
    assert w[..r + 1][..r] == w[..r] && (l + [t])[..r] == l;
  }

  lemma SumMore(l: seq<nat>, t: nat, count: nat)
    requires count <= 2
    ensures Sum(l + Copies(t, count)) == Sum(l) + count * t
  {
    if count == 0 {
      assert l + Copies(t, 0) == l;
    } else {
      assert Copies(t, 1) == [t];
      SumAppend(l, t);
      if count == 2 {
        assert l + Copies(t, 2) == (l + [t]) + [t];
        SumAppend(l + [t], t);
      }
    }
  }

  /** What is said of the parents when there are more. */
  lemma ViaMore(d: seq<nat>, n: nat, par: seq<nat>, count: nat)
    requires |d| == n + 1 && forall i :: 0 <= i < |par| ==> par[i] < n
    ensures Via(d, par + Copies(n, count)) == Via(d[..n], par) + Copies(d[n], count)
  {
  }

  /** What is known of parents, in short. */
  ghost predicate Parented(f: seq<nat>, j: Joins) {
    && j.root <= |j.w| == |j.h| && j.leaf <= |f| && |j.par| == j.root && LeafParents(j)
    && (forall i :: 0 <= i < j.root ==> j.par[i] < |j.w|) && Conserved(f, j)
  }

  lemma ConservedCost(f: seq<nat>, j: Joins, root': nat, leaf': nat, s: nat, d: seq<nat>)
    requires Parented(f, j) && j.root <= root' <= |j.w| && root' <= j.root + 2 && j.leaf <= leaf' <= |f| && leaf' <= j.leaf + 2
    requires Fronts(j.w, j.root, root') + Fronts(f, j.leaf, leaf') == s && |d| == |j.w| + 1
    ensures Cost(j.w + [s], d) ==
              Cost(j.w[..root'], Via(d, j.par + Copies(|j.w|, root' - j.root))) + Cost(f[..leaf'], Via(d, j.lp + Copies(|j.w|, leaf' - j.leaf)))
  {
    hide Cost, Sum, Copies, NewHeight, Via, Fronts, LeafParents, Conserved;
    LeafBounds(j);
    var n := |j.w|;
    var d0, t := d[..n], d[n];
    ConservedAt(f, j, d0);
    ViaMore(d, n, j.par, root' - j.root);
    ViaMore(d, n, j.lp, leaf' - j.leaf);
    CostMore(j.w, Via(d0, j.par), j.root, root', t);
    CostMore(f, Via(d0, j.lp), j.leaf, leaf', t);
    CostAppended(j.w, s, d);
    Distribute(Fronts(j.w, j.root, root'), Fronts(f, j.leaf, leaf'), t);
  }

  lemma ConservedAt(f: seq<nat>, j: Joins, d: seq<nat>)
    requires Parented(f, j) && |d| == |j.w|
    ensures Cost(j.w, d) == Cost(j.w[..j.root], Via(d, j.par)) + Cost(f[..j.leaf], Via(d, j.lp))
  {
    hide Cost, Sum, Via, LeafParents;
  }

  lemma CostAppended(w: seq<nat>, s: nat, d: seq<nat>)
    requires |d| == |w| + 1
    ensures Cost(w + [s], d) == Cost(w, d[..|w|]) + s * d[|w|]
  {
    assert (w + [s])[..|w|] == w;
  }

  lemma ConservedSum(f: seq<nat>, j: Joins, root': nat, leaf': nat, d: seq<nat>)
    requires Parented(f, j) && j.root <= root' && j.leaf <= leaf' && (root' - j.root) + (leaf' - j.leaf) == 2 && |d| == |j.w| + 1
    ensures 2 * Sum(d) == Sum(Via(d, j.par + Copies(|j.w|, root' - j.root))) + Sum(Via(d, j.lp + Copies(|j.w|, leaf' - j.leaf)))
  {
    hide Cost, Sum, Copies, NewHeight, Via, LeafParents;
    LeafBounds(j);
    var n := |j.w|;
    var d0, t := d[..n], d[n];
    ViaMore(d, n, j.par, root' - j.root);
    ViaMore(d, n, j.lp, leaf' - j.leaf);
    SumMore(Via(d0, j.par), t, root' - j.root);
    SumMore(Via(d0, j.lp), t, leaf' - j.leaf);
    assert d == d0 + [t];
    SumAppend(d0, t);
    assert Cost(j.w, d0) == Cost(j.w[..j.root], Via(d0, j.par)) + Cost(f[..j.leaf], Via(d0, j.lp));
  }

  lemma ParentedStep(f: seq<nat>, j: Joins, j': Joins)
    requires Parented(f, j) && Follows(f, j, j')
    ensures Parented(f, j')
  {
    hide Cost, Sum, Copies, NewHeight, Via, Fronts, LeafParents, Smallest;
    var a: nat, b: nat :| Smallest(f, j, j'.root, j'.leaf, a, b) && j' == Joined(j, j'.root, j'.leaf, a + b);
    SmallestTaken(f, j, j'.root, j'.leaf, a, b);
    LeafParentsStep(f, j, j');
    LeafBounds(j');
    forall d: seq<nat> | |d| == |j'.w|
      ensures Cost(j'.w, d) == Cost(j'.w[..j'.root], Via(d, j'.par)) + Cost(f[..j'.leaf], Via(d, j'.lp))
      ensures 2 * Sum(d) == Sum(Via(d, j'.par)) + Sum(Via(d, j'.lp))
    {
      ConservedCost(f, j, j'.root, j'.leaf, a + b, d);
      ConservedSum(f, j, j'.root, j'.leaf, d);
      assert j'.w[..j'.root] == j.w[..j'.root];
    }
  }

  lemma ParentedAtFirst(f: seq<nat>)
    requires 2 <= |f|
    ensures Parented(f, FirstOfAll(f))
  {
    hide Cost, Sum, Via;
    var j := FirstOfAll(f);
    forall d: seq<nat> | |d| == |j.w|
      ensures Cost(j.w, d) == Cost(j.w[..j.root], Via(d, j.par)) + Cost(f[..j.leaf], Via(d, j.lp))
      ensures 2 * Sum(d) == Sum(Via(d, j.par)) + Sum(Via(d, j.lp))
    {
      FirstConserved(f, d);
    }
  }

  lemma FirstConserved(f: seq<nat>, d: seq<nat>)
    requires 2 <= |f| && |d| == 1
    ensures var j := FirstOfAll(f);
            && Cost(j.w, d) == Cost(j.w[..j.root], Via(d, j.par)) + Cost(f[..j.leaf], Via(d, j.lp))
            && 2 * Sum(d) == Sum(Via(d, j.par)) + Sum(Via(d, j.lp))
  {
    hide Cost, Sum;
    var j, t := FirstOfAll(f), d[0];
    assert d == [t] && Via(d, j.lp) == [t, t] && Via(d, j.par) == [];
    assert f[..2] == [f[0], f[1]] && j.w[..0] == [];
    FewCosts(f[0], f[1], t);
    FewSums(t);
  }

  lemma FewCosts(a: nat, b: nat, t: nat)
    ensures Cost([], []) == 0 && Cost([a + b], [t]) == Cost([a, b], [t, t])
  {
    assert [a + b][..0] == [] && [t][..0] == [] && [a][..0] == [] && [a, b][..1] == [a] && [t, t][..1] == [t];
    Distribute(a, b, t);
  }

  lemma FewSums(t: nat)
    ensures Sum([]) == 0 && 2 * Sum([t]) == Sum([t, t])
  {
    assert [t, t][1..] == [t] && [t][1..] == [];
  }

  lemma LeafBounds(j: Joins)
    requires LeafParents(j)
    ensures |j.lp| == j.leaf && forall i :: 0 <= i < j.leaf ==> j.lp[i] < |j.w|
  {
  }

  // ---------- Depths ----------

  /** The depths of the inner nodes; the last one is the root. */
  ghost predicate TreeDepths(f: seq<nat>, j: Joins, d: seq<nat>) {
    && 2 <= |f| && Parented(f, j) && |j.w| == |d| == |f| - 1 && j.root == |f| - 2 && j.leaf == |f| && d[|f| - 2] == 0
    && forall i :: 0 <= i < j.root ==> d[i] == d[j.par[i]] + 1
  }

  function LeafDepths(d: seq<nat>, lp: seq<nat>): (t: seq<nat>)
    ensures |t| == |lp| && forall i :: 0 <= i < |lp| ==> t[i] == Via(d, lp)[i] + 1
  {
    seq(|lp|, i requires 0 <= i < |lp| => Via(d, lp)[i] + 1)
  }

  lemma {:induction false} CostPlusOne(w: seq<nat>, l: seq<nat>, l': seq<nat>)
    requires |w| == |l| == |l'| && forall i :: 0 <= i < |l| ==> l'[i] == l[i] + 1
    ensures Cost(w, l') == Cost(w, l) + Sum(w)
    decreases |w|
  {
    hide Sum;
    SumLast(w);
    if w != [] {
      var n := |w| - 1;
      CostPlusOne(w[..n], l[..n], l'[..n]);
      OneMore(w[n], l[n]);
    }
  }

  lemma OneMore(a: nat, b: nat)
    ensures a * (b + 1) == a * b + a
  {
  }

  lemma {:induction false} CostOfOnes(w: seq<nat>, l: seq<nat>)
    requires |w| == |l| && forall i :: 0 <= i < |l| ==> l[i] == 1
    ensures Cost(w, l) == Sum(w)
    decreases |w|
  {
    hide Sum;
    SumLast(w);
    if w != [] {
      var n := |w| - 1;
      CostOfOnes(w[..n], l[..n]);
    }
  }

  /** The tree costs all that has been joined. */
  lemma TreeCost(f: seq<nat>, j: Joins, d: seq<nat>)
    requires TreeDepths(f, j, d)
    ensures |LeafDepths(d, j.lp)| == |f| && Cost(f, LeafDepths(d, j.lp)) == Sum(j.w)
  {
    hide Cost, Sum, Via, LeafParents;
    LeafBounds(j);
    var n := |f|;
    var inner, via := j.w[..n - 2], Via(d, j.par);
    assert f[..n] == f;
    assert Cost(j.w, d) == Cost(inner, via) + Cost(f, Via(d, j.lp));
    CostOne(j.w, d[..n - 2], n - 2, 0);
    assert d == d[..n - 2] + [0] && j.w[..n - 1] == j.w;
    CostPlusOne(inner, via, d[..n - 2]);
    CostPlusOne(f, Via(d, j.lp), LeafDepths(d, j.lp));
    OnesConserved(f, j);
  }

  lemma OnesConserved(f: seq<nat>, j: Joins)
    requires Parented(f, j) && j.leaf == |f|
    ensures Sum(j.w) == Sum(j.w[..j.root]) + Sum(f)
  {
    hide Cost, Sum, LeafParents;
    LeafBounds(j);
    var ones := Copies(1, |j.w|);
    assert f[..|f|] == f;
    CostOfOnes(j.w, ones);
    CostOfOnes(j.w[..j.root], Via(ones, j.par));
    CostOfOnes(f, Via(ones, j.lp));
  }

  /** Where d is t. */
  function Marks(d: seq<nat>, t: nat): (r: seq<nat>)
    ensures |r| == |d| && forall i :: 0 <= i < |d| ==> r[i] == if d[i] == t then 1 else 0
  {
    seq(|d|, i requires 0 <= i < |d| => if d[i] == t then 1 else 0)
  }

  lemma {:induction false} MarksCount(d: seq<nat>, t: nat)
    ensures Sum(Marks(d, t)) == Histo(d, t)
    decreases |d|
  {
    if d != [] {
      var n := |d| - 1;
      MarksCount(d[..n], t);
      assert Marks(d, t) == Marks(d[..n], t) + [if d[n] == t then 1 else 0];
      SumAppend(Marks(d[..n], t), if d[n] == t then 1 else 0);
    }
  }

  /** Each level has twice as many nodes, inner ones and leaves, as the one above has inner ones. */
  lemma LevelTally(f: seq<nat>, j: Joins, d: seq<nat>, t: nat)
    requires TreeDepths(f, j, d)
    ensures Histo(LeafDepths(d, j.lp), t + 1) + Histo(d, t + 1) == 2 * Histo(d, t)
  {
    hide Cost, Sum, Histo, LeafParents;
    LeafBounds(j);
    var n := |f|;
    var marks := Marks(d, t);
    MarksCount(d, t);
    MarksCount(d[..n - 2], t + 1);
    MarksCount(LeafDepths(d, j.lp), t + 1);
    assert Via(marks, j.lp) == Marks(LeafDepths(d, j.lp), t + 1);
    assert Via(marks, j.par) == Marks(d[..n - 2], t + 1);
    assert d == d[..n - 2] + [0];
    HistoAppend(d[..n - 2], 0, t + 1);
    assert Cost(j.w, marks) == Cost(j.w[..j.root], Via(marks, j.par)) + Cost(f[..j.leaf], Via(marks, j.lp));
  }

  /** The leaf depths cost no more than any code. */
  lemma TreeIsOptimal(f: seq<nat>, j: Joins, d: seq<nat>)
    requires TreeDepths(f, j, d) && Bounded(f, j)
    ensures Cheapest(f, LeafDepths(d, j.lp))
  {
    hide Cost, Sum, Feasible, LeafDepths, Parented, Pending;
    TreeCost(f, j, d);
    var t := LeafDepths(d, j.lp);
    forall l: seq<nat>, m: nat | |l| == |f| && Feasible(l, m)
      ensures Cost(f, t) <= Cost(f, l)
    {
      var l': seq<nat>, m': nat :| Saves(f, j, l, l', m');
    }
  }

  // ---------- Over all joins ----------

  /** Both, while nodes are joined. */
  ghost predicate Costed(f: seq<nat>, j: Joins) { Parented(f, j) && Bounded(f, j) }

  lemma CostedStep(f: seq<nat>, j: Joins, j': Joins)
    requires Costed(f, j) && Follows(f, j, j')
    ensures Costed(f, j')
  {
    hide Bounded, Conserved, Follows, LeafParents;
    ParentedStep(f, j, j');
    BoundedStep(f, j, j');
  }

  lemma CostedAtFirst(f: seq<nat>)
    requires 2 <= |f| && forall i, k :: 0 <= i <= k < |f| ==> f[i] <= f[k]
    ensures Costed(f, FirstOfAll(f))
  {
    hide Bounded, Parented;
    ParentedAtFirst(f);
    BoundedAtFirst(f);
  }
}
