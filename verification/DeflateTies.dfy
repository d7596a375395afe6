/** Why a leaf comes before an inner node of the same weight: of the codes that make the text as short as can be, the one that
    is made has the least lengths in all. */
module DeflateTies {
  import opened CodeCosts
  import opened CodeLengths
  import opened DeflateJoinCosts
  import opened DeflateJoins
  import opened Powers

  /** Of the codes that cost as little, none has less bits in all. */
  ghost predicate Flattest(f: seq<nat>, t: seq<nat>) {
    && |t| == |f|
    && forall l: seq<nat>, m: nat :: |l| == |f| && Feasible(l, m) && Cost(f, l) <= Cost(f, t) ==> Sum(t) <= Sum(l)
  }

  // ---------- Finer weights ----------

  /** So fine that all leaves together are less than one unit of weight. */
  function Grain(n: nat): nat { Pow2(n + 1) }

  /** Weights that count the leaves, too, where the weights are equal. */
  function Finer(f: seq<nat>): (g: seq<nat>)
    ensures |g| == |f| && forall i :: 0 <= i < |f| ==> g[i] == Grain(|f|) * f[i] + 1
  {
    seq(|f|, i requires 0 <= i < |f| => FinerLeaf(Grain(|f|), f[i]))
  }

  function FinerLeaf(grain: nat, w: nat): nat { grain * w + 1 }

  /** Joins of the finer weights, in the same way. */
  ghost predicate SameJoins(f: seq<nat>, j: Joins, q: Joins) {
    && q == j.(w := q.w) && |q.w| == |j.w| < |f|
    && forall k :: 0 <= k < |j.w| ==> Grain(|f|) * j.w[k] + 2 <= q.w[k] <= Grain(|f|) * j.w[k] + Pow2(k + 1)
  }

  /** A greater weight is greater by a grain. */
  lemma GrainApart(m: nat, a: nat, b: nat)
    requires a < b
    ensures m * a + m <= m * b
  {
    TimesMono(a + 1, b, m);
  }

  /** Lighter inner nodes are lighter than leaves; leaves are not heavier than inner nodes of their weight. */
  lemma Compared(f: seq<nat>, j: Joins, q: Joins, k: nat, i: nat)
    requires SameJoins(f, j, q) && k < |j.w| && i < |f|
    ensures j.w[k] < f[i] ==> q.w[k] <= Finer(f)[i]
    ensures f[i] <= j.w[k] ==> Finer(f)[i] <= q.w[k]
  {
    hide Pow2, Finer;
    Pow2Mono(k + 1, |f| + 1);
    if j.w[k] < f[i] {
      GrainApart(Grain(|f|), j.w[k], f[i]);
    } else {
      TimesMono(f[i], j.w[k], Grain(|f|));
    }
  }

  /** The two that are joined, in finer weights. */
  function FinerPair(g: seq<nat>, q: Joins, root': nat, leaf': nat): (nat, nat)
    requires q.root <= root' <= |q.w| && q.leaf <= leaf' <= |g| && (root' - q.root) + (leaf' - q.leaf) == 2
  {
    if root' == q.root then (g[q.leaf], g[q.leaf + 1])
    else if leaf' == q.leaf then (q.w[q.root], q.w[q.root + 1])
    else (q.w[q.root], g[q.leaf])
  }

  /** They are the smallest, too. */
  lemma FinerSmallest(f: seq<nat>, j: Joins, q: Joins, low: nat, root': nat, leaf': nat, a: nat, b: nat)
    requires SameJoins(f, j, q) && Weights(Finer(f), q, low) && Smallest(f, j, root', leaf', a, b)
    requires leaf' < |f| ==> forall r :: j.root <= r < root' ==> j.w[r] < f[leaf']
    requires forall i, k :: 0 <= i <= k < |f| ==> f[i] <= f[k]
    ensures var (a2, b2) := FinerPair(Finer(f), q, root', leaf'); Smallest(Finer(f), q, root', leaf', a2, b2)
  {
    hide Pow2, Finer, Grain;
    var g := Finer(f);
    forall i, r | leaf' <= i < |f| && j.root <= r < root'
      ensures q.w[r] <= g[i]
    {
      Compared(f, j, q, r, i);
    }
    forall i, l | root' <= i < |j.w| && j.leaf <= l < leaf'
      ensures g[l] <= q.w[i]
    {
      Compared(f, j, q, i, l);
    }
  }

  /** What the new node weighs. */
  lemma FinerSum(f: seq<nat>, j: Joins, q: Joins, root': nat, leaf': nat, a: nat, b: nat)
    requires SameJoins(f, j, q) && Smallest(f, j, root', leaf', a, b) && 1 <= |j.w|
    ensures var (a2, b2) := FinerPair(Finer(f), q, root', leaf');
            Grain(|f|) * (a + b) + 2 <= a2 + b2 <= Grain(|f|) * (a + b) + Pow2(|j.w| + 1)
  {
    hide Pow2, Grain, Finer;
    var m, n, p := Grain(|f|), |j.w|, Pow2(|j.w|);
    HalfPow(n);
    if root' == j.root {
      TwoFiner(m, p, f[j.leaf], f[j.leaf + 1], Finer(f)[j.leaf], Finer(f)[j.leaf + 1]);
    } else if leaf' == j.leaf {
      Pow2Mono(j.root + 1, n);
      Pow2Mono(j.root + 2, n);
      TwoFiner(m, p, j.w[j.root], j.w[j.root + 1], q.w[j.root], q.w[j.root + 1]);
    } else {
      Pow2Mono(j.root + 1, n);
      TwoFiner(m, p, j.w[j.root], f[j.leaf], q.w[j.root], Finer(f)[j.leaf]);
    }
  }

  lemma TwoFiner(m: nat, p: nat, a: nat, b: nat, a2: nat, b2: nat)
    requires m * a + 1 <= a2 <= m * a + p && m * b + 1 <= b2 <= m * b + p
    ensures m * (a + b) + 2 <= a2 + b2 <= m * (a + b) + 2 * p
  {
    Distribute(a, b, m);
  }

  lemma HalfPow(n: nat)
    ensures Pow2(n + 1) == 2 * Pow2(n) && 1 <= Pow2(n) && Pow2(1) == 2 && (1 <= n ==> 2 <= Pow2(n))
  {
  }

  /** The finer joins follow. */
  lemma FinerStep(f: seq<nat>, j: Joins, j': Joins, q: Joins, low: nat) returns (q': Joins, low': nat)
    requires SameJoins(f, j, q) && Weights(Finer(f), q, low) && Costed(Finer(f), q) && Shape(|f|, j) && |j.w| + 1 < |f|
    requires Follows(f, j, j') && TiesToLeaves(f, j, j') && forall i, k :: 0 <= i <= k < |f| ==> f[i] <= f[k]
    ensures SameJoins(f, j', q') && Weights(Finer(f), q', low') && Costed(Finer(f), q')
  {
    hide Pow2, Finer, Grain, Smallest, SameJoins, Weights, Costed, FinerPair, NewHeight, Copies;
    var a: nat, b: nat :| Smallest(f, j, j'.root, j'.leaf, a, b) && j' == Joined(j, j'.root, j'.leaf, a + b);
    Alike(f, j, q);
    JoinedParts(f, j, j'.root, j'.leaf, a, b);
    FinerSmallest(f, j, q, low, j'.root, j'.leaf, a, b);
    FinerSum(f, j, q, j'.root, j'.leaf, a, b);
    var (a2, b2) := FinerPair(Finer(f), q, j'.root, j'.leaf);
    JoinedWeights(Finer(f), q, low, j'.root, j'.leaf, a2, b2);
    q', low' := Joined(q, j'.root, j'.leaf, a2 + b2), if a2 < b2 then b2 else a2;
    OneFollows(Finer(f), q, j'.root, j'.leaf, a2, b2);
    CostedStep(Finer(f), q, q');
    StillSame(f, j, q, j'.root, j'.leaf, a + b, a2 + b2);
  }

  lemma Alike(f: seq<nat>, j: Joins, q: Joins)
    requires SameJoins(f, j, q) && Shape(|f|, j)
    ensures Shape(|Finer(f)|, q) && |q.w| == |j.w| == |j.h| >= 1 && q.root == j.root && q.leaf == j.leaf && q.h == j.h
    ensures q.par == j.par && q.lp == j.lp
  {
    hide Pow2;
  }

  lemma StillSame(f: seq<nat>, j: Joins, q: Joins, root': nat, leaf': nat, s: nat, s2: nat)
    requires SameJoins(f, j, q) && |j.w| + 1 < |f| && j.root <= root' <= |j.w| == |j.h| && root' <= j.root + 2 && j.leaf <= leaf'
    requires Grain(|f|) * s + 2 <= s2 <= Grain(|f|) * s + Pow2(|j.w| + 1)
    ensures SameJoins(f, Joined(j, root', leaf', s), Joined(q, root', leaf', s2))
  {
    hide Pow2, Copies, Grain;
    var j', q' := Joined(j, root', leaf', s), Joined(q, root', leaf', s2);
    assert q' == j'.(w := q'.w);
    forall k | 0 <= k < |j'.w|
      ensures Grain(|f|) * j'.w[k] + 2 <= q'.w[k] <= Grain(|f|) * j'.w[k] + Pow2(k + 1)
    {
      if k < |j.w| {
        assert j'.w[k] == j.w[k] && q'.w[k] == q.w[k];
      }
    }
  }

  lemma FinerAtFirst(f: seq<nat>)
    requires 2 <= |f| && forall i, k :: 0 <= i <= k < |f| ==> 1 <= f[i] <= f[k]
    ensures SameJoins(f, FirstOfAll(f), FirstOfAll(Finer(f)))
    ensures Weights(Finer(f), FirstOfAll(Finer(f)), Finer(f)[1]) && Costed(Finer(f), FirstOfAll(Finer(f)))
  {
    hide Pow2, Grain, Costed;
    var g := Finer(f);
    HalfPow(0);
    Distribute(f[0], f[1], Grain(|f|));
    forall i, k | 0 <= i <= k < |g|
      ensures 1 <= g[i] <= g[k]
    {
      TimesMono(f[i], f[k], Grain(|f|));
    }
    CostedAtFirst(g);
  }

  /** When all are joined, the finer joins make the same tree. */
  lemma FinerTree(f: seq<nat>, j: Joins, q: Joins, d: seq<nat>)
    requires SameJoins(f, j, q) && TreeDepths(f, j, d) && Costed(Finer(f), q)
    ensures q.lp == j.lp && |LeafDepths(d, j.lp)| == |f| && Flattest(f, LeafDepths(d, j.lp))
  {
    hide Finer, Conserved, Bounded, LeafDepths, Flattest, Cheapest, Grain, Pow2;
    TreeIsOptimal(Finer(f), q, d);
    CheapestIsFlattest(f, LeafDepths(d, j.lp));
  }

  // ---------- What the finer cost is ----------

  lemma {:induction false} FinerCost(f: seq<nat>, g: seq<nat>, l: seq<nat>, m: nat)
    requires |f| == |g| == |l| && forall i :: 0 <= i < |f| ==> g[i] == m * f[i] + 1
    ensures Cost(g, l) == m * Cost(f, l) + Sum(l)
    decreases |l|
  {
    hide Sum;
    SumLast(l);
    if l != [] {
      var n := |l| - 1;
      FinerCost(f[..n], g[..n], l[..n], m);
      OneFiner(m, f[n], l[n], Cost(f[..n], l[..n]));
    }
  }

  lemma OneFiner(m: nat, w: nat, l: nat, c: nat)
    ensures m * c + (m * w + 1) * l == m * (c + w * l) + l
  {
    Regroup(m, w, l);
    assert (m * w + 1) * l == m * w * l + l;
    assert m * (c + w * l) == m * c + m * (w * l);
  }

  /** With the finer weights cheapest, it is the flattest. */
  lemma CheapestIsFlattest(f: seq<nat>, t: seq<nat>)
    requires Cheapest(Finer(f), t)
    ensures Flattest(f, t)
  {
    hide Cost, Sum, Feasible, Pow2, Finer, Grain;
    forall l: seq<nat>, m: nat | |l| == |f| && Feasible(l, m) && Cost(f, l) <= Cost(f, t)
      ensures Sum(t) <= Sum(l)
    {
      FinerCost(f, Finer(f), t, Grain(|f|));
      FinerCost(f, Finer(f), l, Grain(|f|));
      TimesMono(Cost(f, l), Cost(f, t), Grain(|f|));
    }
  }
}
