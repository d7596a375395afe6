/** What a code costs, and that joining the two smallest weights loses nothing: the exchange argument. */
module CodeCosts {
  import opened Powers

  /** The total length of a text whose symbols have these weights and code lengths. */
  function Cost(w: seq<nat>, l: seq<nat>): nat
    requires |w| == |l|
  {
    if w == [] then 0 else Cost(w[..|w| - 1], l[..|l| - 1]) + w[|w| - 1] * l[|l| - 1]
  }

  /** How much of 2^m codes of m bits the lengths take. */
  function Space(l: seq<nat>, m: nat): nat {
    if l == [] then 0 else Space(l[..|l| - 1], m) + if l[|l| - 1] <= m then Pow2(m - l[|l| - 1]) else 0
  }

  /** Lengths of codes of up to m bits that no code begins with another of: they take no more than there is. */
  ghost predicate Feasible(l: seq<nat>, m: nat) {
    (forall i :: 0 <= i < |l| ==> l[i] <= m) && Space(l, m) <= Pow2(m)
  }

  /** No code for these weights makes the text shorter. */
  ghost predicate Cheapest(w: seq<nat>, t: seq<nat>) {
    |t| == |w| && forall l: seq<nat>, m: nat :: |l| == |w| && Feasible(l, m) ==> Cost(w, t) <= Cost(w, l)
  }

  // ---------- One length changed ----------

  lemma {:induction false} CostUpdate(w: seq<nat>, l: seq<nat>, k: nat, v: nat)
    requires |w| == |l| && k < |l|
    ensures Cost(w, l[k := v]) + w[k] * l[k] == Cost(w, l) + w[k] * v
    decreases |l|
  {
    var n := |l| - 1;
    if k == n {
      assert l[k := v][..n] == l[..n];
    } else {
      assert l[k := v][..n] == l[..n][k := v];
      CostUpdate(w[..n], l[..n], k, v);
    }
  }

  lemma {:induction false} SpaceUpdate(l: seq<nat>, m: nat, k: nat, v: nat)
    requires k < |l| && l[k] <= m && v <= m
    ensures Space(l[k := v], m) + Pow2(m - l[k]) == Space(l, m) + Pow2(m - v)
    decreases |l|
  {
    hide Pow2;
    var n := |l| - 1;
    if k == n {
      assert l[k := v][..n] == l[..n];
    } else {
      assert l[k := v][..n] == l[..n][k := v];
      SpaceUpdate(l[..n], m, k, v);
    }
  }

  // ---------- One item taken out, or put in ----------

  function Without<T>(s: seq<T>, k: nat): (r: seq<T>)
    requires k < |s|
    ensures |r| == |s| - 1 && forall i :: 0 <= i < |r| ==> r[i] == if i < k then s[i] else s[i + 1]
  {
    s[..k] + s[k + 1..]
  }

  function With(s: seq<nat>, k: nat, x: nat): (r: seq<nat>)
    requires k <= |s|
    ensures |r| == |s| + 1
  {
    s[..k] + [x] + s[k..]
  }

  lemma {:induction false} CostWith(w: seq<nat>, l: seq<nat>, k: nat, x: nat, t: nat)
    requires |w| == |l| && k <= |l|
    ensures Cost(With(w, k, x), With(l, k, t)) == Cost(w, l) + x * t
    decreases |l|
  {
    var n := |l|;
    var w', l' := With(w, k, x), With(l, k, t);
    if k == n {
      assert w'[..n] == w && l'[..n] == l;
    } else {
      assert w'[..n] == With(w[..n - 1], k, x) && l'[..n] == With(l[..n - 1], k, t);
      CostWith(w[..n - 1], l[..n - 1], k, x, t);
    }
  }

  lemma {:induction false} SpaceWith(l: seq<nat>, m: nat, k: nat, t: nat)
    requires k <= |l| && t <= m
    ensures Space(With(l, k, t), m) == Space(l, m) + Pow2(m - t)
    decreases |l|
  {
    hide Pow2;
    var n := |l|;
    var l' := With(l, k, t);
    if k == n {
      assert l'[..n] == l;
    } else {
      assert l'[..n] == With(l[..n - 1], k, t);
      SpaceWith(l[..n - 1], m, k, t);
    }
  }

  lemma PutBack(s: seq<nat>, k: nat)
    requires k < |s|
    ensures With(Without(s, k), k, s[k]) == s
  {
  }

  /** Taken out, an item takes its part of cost along. */
  lemma CostTakenOut(w: seq<nat>, l: seq<nat>, k: nat)
    requires |w| == |l| && k < |l|
    ensures Cost(w, l) == Cost(Without(w, k), Without(l, k)) + w[k] * l[k]
  {
    hide Cost;
    PutBack(w, k);
    PutBack(l, k);
    CostWith(Without(w, k), Without(l, k), k, w[k], l[k]);
  }

  /** And of space. */
  lemma SpaceTakenOut(l: seq<nat>, m: nat, k: nat)
    requires k < |l| && l[k] <= m
    ensures Space(l, m) == Space(Without(l, k), m) + Pow2(m - l[k])
  {
    hide Space, Pow2;
    PutBack(l, k);
    SpaceWith(Without(l, k), m, k, l[k]);
  }

  // ---------- Two of the greatest length ----------

  lemma {:induction false} SpaceHalf(l: seq<nat>, m: nat)
    requires 1 <= m && forall i :: 0 <= i < |l| ==> l[i] < m
    ensures Space(l, m) == 2 * Space(l, m - 1)
    decreases |l|
  {
    if l != [] {
      SpaceHalf(l[..|l| - 1], m);
    }
  }

  lemma {:induction false} SpaceOfNone(l: seq<nat>)
    requires forall i :: 0 <= i < |l| ==> l[i] == 0
    ensures Space(l, 0) == |l|
    decreases |l|
  {
    if l != [] {
      SpaceOfNone(l[..|l| - 1]);
    }
  }

  /** Feasible lengths can be made no longer, so that two items have the greatest one. */
  lemma {:induction false} TwoLongest(w: seq<nat>, l: seq<nat>, m: nat) returns (l': seq<nat>, m': nat, p: nat, q: nat)
    requires |w| == |l| >= 2 && Feasible(l, m)
    ensures |l'| == |l| && Feasible(l', m') && Cost(w, l') <= Cost(w, l)
    ensures p < |l| && q < |l| && p != q && l'[p] == l'[q] == m' >= 1
    decreases m
  {
    hide Cost, Space, Pow2;
    NotZero(l, m);
    if i :| 0 <= i < |l| && l[i] == m {
      if k :| 0 <= k < |l| && k != i && l[k] == m {
        l', m', p, q := l, m, i, k;
      } else {
        Shortened(w, l, m, i);
        l', m', p, q := TwoLongest(w, l[i := m - 1], m - 1);
      }
    } else {
      SpaceHalf(l, m);
      PowHalf(m);
      l', m', p, q := TwoLongest(w, l, m - 1);
    }
  }

  lemma PowHalf(m: nat)
    requires 1 <= m
    ensures Pow2(m) == 2 * Pow2(m - 1) && Pow2(0) == 1
  {
  }

  lemma NotZero(l: seq<nat>, m: nat)
    requires |l| >= 2 && Feasible(l, m)
    ensures 1 <= m
  {
    if m == 0 {
      SpaceOfNone(l);
    }
  }

  /** A single longest one can do with a bit less. */
  lemma Shortened(w: seq<nat>, l: seq<nat>, m: nat, i: nat)
    requires |w| == |l| && Feasible(l, m) && 1 <= m && i < |l| && l[i] == m && forall k :: 0 <= k < |l| && k != i ==> l[k] != m
    ensures Feasible(l[i := m - 1], m - 1) && Cost(w, l[i := m - 1]) <= Cost(w, l)
  {
    hide Cost, Space, Pow2;
    var l' := l[i := m - 1];
    CostUpdate(w, l, i, m - 1);
    TimesMono(m - 1, m, w[i]);
    SpaceUpdate(l, m, i, m - 1);
    PowHalf(1);
    PowHalf(m);
    assert forall k :: 0 <= k < |l'| ==> l'[k] < m;
    SpaceHalf(l', m);
  }

  // ---------- The two smallest joined ----------

  function Swap(l: seq<nat>, i: nat, p: nat): (r: seq<nat>)
    requires i < |l| && p < |l|
    ensures |r| == |l|
  {
    l[i := l[p]][p := l[i]]
  }

  /** The longer code for the smaller weight is not worse. */
  lemma SwapCosts(w: seq<nat>, l: seq<nat>, m: nat, i: nat, p: nat)
    requires |w| == |l| && Feasible(l, m) && i < |l| && p < |l| && i != p && w[i] <= w[p] && l[i] <= l[p]
    ensures Feasible(Swap(l, i, p), m) && Cost(w, Swap(l, i, p)) <= Cost(w, l)
  {
    hide Cost, Space, Pow2;
    var l1 := l[i := l[p]];
    CostUpdate(w, l, i, l[p]);
    CostUpdate(w, l1, p, l[i]);
    SpaceUpdate(l, m, i, l[p]);
    SpaceUpdate(l1, m, p, l[i]);
    Crossed(w[i], w[p], l[i], l[p]);
  }

  lemma Crossed(a: nat, b: nat, x: nat, y: nat)
    requires a <= b && x <= y
    ensures a * y + b * x <= a * x + b * y
  {
    var d, e := b - a, y - x;
    assert a * y + b * x + d * e == a * x + b * y;
    assert d * e >= 0;
  }

  /** No other weight is smaller than these two. */
  ghost predicate TwoSmallest(w: seq<nat>, i: nat, j: nat) {
    && i < |w| && j < |w| && i != j
    && forall x :: 0 <= x < |w| && x != i && x != j ==> w[i] <= w[x] && w[j] <= w[x]
  }

  /** The two smallest weights can have the greatest length. */
  lemma SmallestLongest(w: seq<nat>, l: seq<nat>, m: nat, i: nat, j: nat) returns (l': seq<nat>, m': nat)
    requires |w| == |l| && Feasible(l, m) && TwoSmallest(w, i, j)
    ensures |l'| == |l| && Feasible(l', m') && Cost(w, l') <= Cost(w, l) && l'[i] == l'[j] == m' >= 1
  {
    hide Cost, Space, Pow2;
    var p, q;
    l', m', p, q := TwoLongest(w, l, m);
    if l'[i] != m' {
      var x := if p != j then p else q;
      SwapCosts(w, l', m', i, x);
      if x == p { p := i; } else { q := i; }
      l' := Swap(l', i, x);
    }
    if l'[j] != m' {
      var x := if p != i then p else q;
      SwapCosts(w, l', m', j, x);
      l' := Swap(l', j, x);
    }
  }

  /** The weights with two of them replaced by their sum, which is put in at k. */
  function Merged(w: seq<nat>, i: nat, j: nat, k: nat): (r: seq<nat>)
    requires j < i < |w| && k <= |w| - 2
    ensures |r| == |w| - 1
  {
    With(Without(Without(w, i), j), k, w[i] + w[j])
  }

  /** In place of two of the greatest length, one that is a bit shorter takes the same space. */
  lemma JoinedFits(l: seq<nat>, m: nat, i: nat, j: nat, k: nat)
    requires j < i < |l| && k <= |l| - 2 && Feasible(l, m) && l[i] == l[j] == m >= 1
    ensures Feasible(With(Without(Without(l, i), j), k, m - 1), m)
  {
    hide Cost, Space, Pow2;
    var l2 := Without(l, i);
    var l3 := Without(l2, j);
    assert l2[j] == m;
    SpaceTakenOut(l, m, i);
    SpaceTakenOut(l2, m, j);
    SpaceWith(l3, m, k, m - 1);
    PowHalf(1);
    assert Pow2(m - m) == 1 && Pow2(m - (m - 1)) == 2;
    var l' := With(l3, k, m - 1);
    assert Space(l', m) == Space(l, m);
    assert forall x :: 0 <= x < |l3| ==> l3[x] <= m;
    assert forall x :: 0 <= x < |l'| ==> l'[x] == if x < k then l3[x] else if x == k then m - 1 else l3[x - 1];
  }

  /** It makes the text shorter by the weights of the two. */
  lemma JoinedCosts(w: seq<nat>, l: seq<nat>, m: nat, i: nat, j: nat, k: nat)
    requires |w| == |l| && j < i < |l| && k <= |l| - 2 && l[i] == l[j] == m >= 1
    ensures Cost(Merged(w, i, j, k), With(Without(Without(l, i), j), k, m - 1)) + w[i] + w[j] == Cost(w, l)
  {
    hide Cost, Space, Pow2;
    var w2, l2 := Without(w, i), Without(l, i);
    assert w2[j] == w[j] && l2[j] == m;
    CostTakenOut(w, l, i);
    CostTakenOut(w2, l2, j);
    CostWith(Without(w2, j), Without(l2, j), k, w[i] + w[j], m - 1);
    SumTimes(w[i], w[j], m);
  }

  /** Whatever lengths there are, the weights after joining can have lengths that cost less by the sum of the two. */
  lemma JoinLosesNothing(w: seq<nat>, l: seq<nat>, m: nat, i: nat, j: nat, k: nat) returns (l': seq<nat>, m': nat)
    requires |w| == |l| && Feasible(l, m) && TwoSmallest(w, i, j) && j < i && k <= |w| - 2
    ensures |l'| == |w| - 1 && Feasible(l', m') && Cost(Merged(w, i, j, k), l') + w[i] + w[j] <= Cost(w, l)
  {
    hide Cost, Space, Pow2, Feasible;
    var l1: seq<nat>;
    l1, m' := SmallestLongest(w, l, m, i, j);
    JoinedFits(l1, m', i, j, k);
    JoinedCosts(w, l1, m', i, j, k);
    l' := With(Without(Without(l1, i), j), k, m' - 1);
  }

  lemma SumTimes(a: nat, b: nat, m: nat)
    requires 1 <= m
    ensures (a + b) * (m - 1) + a + b == a * m + b * m
  {
  }
}
