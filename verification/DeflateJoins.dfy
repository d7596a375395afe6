/** The first pass of tdefl_calculate_minimum_redundancy: in one array, weights of leaves become weights of inner nodes, and
    these become parents. */
module DeflateJoins {
  import opened CodeLengths
  import opened Powers

  const KEY_SIZE: nat := 0x1_0000

  function Fib(n: nat): nat { if n == 0 then 0 else if n == 1 then 1 else Fib(n - 2) + Fib(n - 1) }

  lemma {:induction false} FibMono(m: nat, n: nat)
    requires m <= n
    ensures Fib(m) <= Fib(n)
    decreases n
  {
    if m < n {
      if n >= 2 {
        FibMono(m, n - 1);
      }
    }
  }

  lemma Fib25()
    ensures Fib(25) == 75025
  {
    assert Fib(8) == 21 && Fib(9) == 34;
    assert Fib(12) == 144 && Fib(13) == 233;
    assert Fib(16) == 987 && Fib(17) == 1597;
    assert Fib(20) == 6765 && Fib(21) == 10946;
    assert Fib(24) == 46368;
  }

  function Sum(s: seq<nat>): nat { if s == [] then 0 else s[0] + Sum(s[1..]) }

  lemma SumFirst(s: seq<nat>, i: nat)
    requires i < |s|
    ensures Sum(s[i..]) == s[i] + Sum(s[i + 1..])
  {
    assert s[i..][1..] == s[i + 1..];
  }

  lemma SumOfTwo(s: seq<nat>, i: nat, k: nat)
    requires i <= k <= |s| && k <= i + 2
    ensures Sum(s[i..]) == Sum(s[k..]) + if k == i then 0 else if k == i + 1 then s[i] else s[i] + s[i + 1]
  {
    if i < k {
      SumFirst(s, i);
      if i + 1 < k {
        SumFirst(s, i + 1);
      }
    }
  }

  lemma {:induction false} SumAppend(s: seq<nat>, x: nat)
    ensures Sum(s + [x]) == Sum(s) + x
    decreases |s|
  {
    if s == [] {
      assert [] + [x] == [x];
    } else {
      assert (s + [x])[1..] == s[1..] + [x];
      SumAppend(s[1..], x);
    }
  }

  lemma SumLast(s: seq<nat>)
    ensures Sum(s) == if s == [] then 0 else Sum(s[..|s| - 1]) + s[|s| - 1]
  {
    if s != [] {
      assert s == s[..|s| - 1] + [s[|s| - 1]];
      SumAppend(s[..|s| - 1], s[|s| - 1]);
    }
  }

  // ---------- Joining the two smallest ----------

  /** Of n leaves, those before `leaf` have been joined, and of the inner nodes made so far those before `root`. The
      weights w and the heights h are those of all inner nodes, par are the parents of the joined ones, and lp those of the
      joined leaves. */
  datatype Joins = Joins(leaf: nat, root: nat, w: seq<nat>, par: seq<nat>, h: seq<nat>, lp: seq<nat>)

  /** Each inner node joins two things. Parents come later than their children, in the same order, and have at most two
      inner ones. */
  ghost predicate Shape(n: nat, j: Joins) {
    && 1 <= |j.w| < n && j.leaf <= n && j.root < |j.w| == |j.h| && |j.par| == j.root && j.leaf + j.root == 2 * |j.w|
    && (forall i :: 0 <= i < j.root ==> i < j.par[i] < |j.w| && 1 <= j.h[i] < j.h[j.par[i]])
    && (forall i, k :: 0 <= i <= k < j.root ==> j.par[i] <= j.par[k])
    && (forall i, k :: 0 <= i && i + 2 <= k < j.root ==> j.par[i] < j.par[k])
    && (forall i :: 0 <= i < |j.h| ==> 1 <= j.h[i])
  }

  /** What is there to be joined is not less than `low`, in ascending order in both queues, and the last inner node is no
      heavier than two of them. */
  ghost predicate Weights(f: seq<nat>, j: Joins, low: nat) {
    && (forall i, k :: 0 <= i <= k < |f| ==> 1 <= f[i] <= f[k])
    && (forall i, k :: j.root <= i <= k < |j.w| ==> j.w[i] <= j.w[k])
    && (forall i :: j.leaf <= i < |f| ==> low <= f[i])
    && (forall i :: j.root <= i < |j.w| ==> low <= j.w[i])
    && j.w != [] && j.w[|j.w| - 1] <= 2 * low
  }

  /** The weights of high nodes, and of what is there besides, grow like Fibonacci numbers. */
  ghost predicate Heavy(f: seq<nat>, j: Joins) {
    && |j.h| == |j.w|
    && (forall k :: j.root <= k < |j.w| ==> Fib(j.h[k] + 2) <= j.w[k])
    && (forall k, i :: j.root <= k < |j.w| && j.leaf <= i < |f| ==> Fib(j.h[k] + 1) <= f[i])
    && (forall k, i :: j.root <= k < |j.w| && j.root <= i < |j.w| && i != k ==> Fib(j.h[k] + 1) <= j.w[i])
  }

  ghost predicate Totals(f: seq<nat>, j: Joins, total: nat) {
    j.leaf <= |f| && j.root <= |j.w| && Sum(f[j.leaf..]) + Sum(j.w[j.root..]) == total < KEY_SIZE
  }

  ghost predicate JoinsOk(f: seq<nat>, j: Joins, low: nat, total: nat) {
    Shape(|f|, j) && Weights(f, j, low) && Heavy(f, j) && Totals(f, j, total)
  }

  /** Two things: the first leaves, or inner nodes, or one of each; none of the others is smaller. */
  ghost predicate Smallest(f: seq<nat>, j: Joins, root': nat, leaf': nat, a: nat, b: nat) {
    && j.root <= root' <= |j.w| && j.leaf <= leaf' <= |f| && (root' - j.root) + (leaf' - j.leaf) == 2
    && (if root' == j.root then {a, b} == {f[j.leaf], f[j.leaf + 1]} && a + b == f[j.leaf] + f[j.leaf + 1]
        else if leaf' == j.leaf then {a, b} == {j.w[j.root], j.w[j.root + 1]} && a + b == j.w[j.root] + j.w[j.root + 1]
        else {a, b} == {j.w[j.root], f[j.leaf]} && a + b == j.w[j.root] + f[j.leaf])
    && (forall i :: leaf' <= i < |f| ==> a <= f[i] && b <= f[i])
    && (forall i :: root' <= i < |j.w| ==> a <= j.w[i] && b <= j.w[i])
  }

  /** The height of the node that joins them. */
  function NewHeight(j: Joins, root': nat): nat
    requires j.root <= root' <= |j.w| == |j.h| && root' <= j.root + 2
  {
    if root' == j.root then 1
    else if root' == j.root + 1 then j.h[j.root] + 1
    else (if j.h[j.root] < j.h[j.root + 1] then j.h[j.root + 1] else j.h[j.root]) + 1
  }

  function Joined(j: Joins, root': nat, leaf': nat, sum: nat): Joins
    requires j.root <= root' <= |j.w| == |j.h| && root' <= j.root + 2 && j.leaf <= leaf'
  {
    Joins(leaf', root', j.w + [sum], j.par + Copies(|j.w|, root' - j.root), j.h + [NewHeight(j, root')],
          j.lp + Copies(|j.w|, leaf' - j.leaf))
  }

  /** The first two leaves joined. */
  function FirstOfAll(f: seq<nat>): Joins
    requires 2 <= |f|
  {
    Joins(2, 0, [f[0] + f[1]], [], [1], [0, 0])
  }

  lemma JoinedShape(n: nat, j: Joins, root': nat, leaf': nat, sum: nat)
    requires Shape(n, j) && |j.w| + 1 < n && j.root <= root' <= |j.w| && j.leaf <= leaf' <= n && (root' - j.root) + (leaf' - j.leaf) == 2
    ensures Shape(n, Joined(j, root', leaf', sum))
  {
    hide Copies;
  }

  lemma JoinedWeights(f: seq<nat>, j: Joins, low: nat, root': nat, leaf': nat, a: nat, b: nat)
    requires Shape(|f|, j) && Weights(f, j, low) && Smallest(f, j, root', leaf', a, b)
    ensures Weights(f, Joined(j, root', leaf', a + b), if a < b then b else a)
  {
    hide Copies, NewHeight;
    var j' := Joined(j, root', leaf', a + b);
    assert low <= a && low <= b;
    assert j'.w[..|j.w|] == j.w;
  }

  lemma JoinedTotals(f: seq<nat>, j: Joins, total: nat, root': nat, leaf': nat, a: nat, b: nat)
    requires Shape(|f|, j) && Totals(f, j, total) && Smallest(f, j, root', leaf', a, b)
    ensures a + b <= total && Totals(f, Joined(j, root', leaf', a + b), total)
  {
    hide Sum, Copies, NewHeight, Shape;
    var w' := j.w + [a + b];
    assert w'[root'..] == j.w[root'..] + [a + b];
    SumAppend(j.w[root'..], a + b);
    SumOfTwo(j.w, j.root, root');
    SumOfTwo(f, j.leaf, leaf');
  }

  lemma FibStep(n: nat)
    ensures Fib(n + 2) == Fib(n + 1) + Fib(n) && Fib(1) == 1 && Fib(2) == 1 && Fib(3) == 2
  {
  }

  /** The joining node is heavy for its height, and what is left is not much lighter. */
  lemma NewIsHeavy(f: seq<nat>, j: Joins, low: nat, root': nat, leaf': nat, a: nat, b: nat)
    requires Shape(|f|, j) && Weights(f, j, low) && Heavy(f, j) && Smallest(f, j, root', leaf', a, b)
    ensures Fib(NewHeight(j, root') + 2) <= a + b && (Fib(NewHeight(j, root') + 1) <= a || Fib(NewHeight(j, root') + 1) <= b)
  {
    hide Fib;
    FibStep(0);
    FibStep(1);
    if root' == j.root {
      assert f[j.leaf] >= 1 && f[j.leaf + 1] >= 1;
    } else if root' == j.root + 1 {
      FibStep(j.h[j.root] + 1);
      assert Fib(j.h[j.root] + 1) <= f[j.leaf];
    } else {
      var t, o := if j.h[j.root] < j.h[j.root + 1] then j.root + 1 else j.root, if j.h[j.root] < j.h[j.root + 1] then j.root else j.root + 1;
      FibStep(j.h[t] + 1);
      assert Fib(j.h[t] + 1) <= j.w[o];
    }
  }

  /** The sum is not lighter than what any node needs besides. */
  lemma SumIsHeavy(f: seq<nat>, j: Joins, root': nat, leaf': nat, a: nat, b: nat, k: nat)
    requires Shape(|f|, j) && Heavy(f, j) && Smallest(f, j, root', leaf', a, b) && root' <= k < |j.w|
    ensures Fib(j.h[k] + 1) <= a + b
  {
    hide Fib;
    if root' == j.root {
      assert Fib(j.h[k] + 1) <= f[j.leaf];
    } else {
      assert Fib(j.h[k] + 1) <= j.w[j.root];
    }
  }

  lemma JoinedHeavy(f: seq<nat>, j: Joins, low: nat, root': nat, leaf': nat, a: nat, b: nat)
    requires Shape(|f|, j) && Weights(f, j, low) && Heavy(f, j) && Smallest(f, j, root', leaf', a, b)
    ensures Heavy(f, Joined(j, root', leaf', a + b))
  {
    hide Fib, Copies, NewHeight, Shape, Weights;
    NewIsHeavy(f, j, low, root', leaf', a, b);
    assert |j.h| == |j.w| by {
      Lengths(f, j);
    }
    var j' := Joined(j, root', leaf', a + b);
    forall k, i | root' <= k < |j'.w| && leaf' <= i < |f|
      ensures Fib(j'.h[k] + 1) <= f[i]
    {
      if k < |j.w| {
        assert Fib(j.h[k] + 1) <= f[i];
      }
    }
    forall k, i | root' <= k < |j'.w| && root' <= i < |j'.w| && i != k
      ensures Fib(j'.h[k] + 1) <= j'.w[i]
    {
      if k == |j.w| {
      } else if i == |j.w| {
        SumIsHeavy(f, j, root', leaf', a, b, k);
      } else {
        assert Fib(j.h[k] + 1) <= j.w[i];
      }
    }
  }

  lemma Lengths(f: seq<nat>, j: Joins)
    requires Shape(|f|, j)
    ensures |j.h| == |j.w|
  {
  }

  /** Joining the two smallest keeps everything. */
  lemma JoinedOk(f: seq<nat>, j: Joins, low: nat, total: nat, root': nat, leaf': nat, a: nat, b: nat)
    requires JoinsOk(f, j, low, total) && |j.w| + 1 < |f| && Smallest(f, j, root', leaf', a, b)
    ensures a + b < KEY_SIZE && JoinsOk(f, Joined(j, root', leaf', a + b), if a < b then b else a, total)
  {
    hide Shape, Weights, Heavy, Totals, Joined;
    JoinedParts(f, j, root', leaf', a, b);
    JoinedShape(|f|, j, root', leaf', a + b);
    JoinedWeights(f, j, low, root', leaf', a, b);
    JoinedHeavy(f, j, low, root', leaf', a, b);
    JoinedTotals(f, j, total, root', leaf', a, b);
    TotalBound(f, j, total);
  }

  lemma JoinedParts(f: seq<nat>, j: Joins, root': nat, leaf': nat, a: nat, b: nat)
    requires Shape(|f|, j) && Smallest(f, j, root', leaf', a, b)
    ensures j.root <= root' <= |j.w| == |j.h| && root' <= j.root + 2 && j.leaf <= leaf' <= |f| && (root' - j.root) + (leaf' - j.leaf) == 2
  {
  }

  lemma TotalBound(f: seq<nat>, j: Joins, total: nat)
    requires Totals(f, j, total)
    ensures total < KEY_SIZE
  {
  }

  /** The first join, of the two first leaves. */
  lemma FirstJoin(f: seq<nat>, total: nat)
    requires 2 <= |f| && total == Sum(f) < KEY_SIZE && forall i, k :: 0 <= i <= k < |f| ==> 1 <= f[i] <= f[k]
    ensures f[0] + f[1] < KEY_SIZE && JoinsOk(f, FirstOfAll(f), f[1], total)
  {
    hide Shape, Weights, Heavy, Totals;
    FirstTotals(f, total);
    FirstShape(f);
  }

  lemma FirstTotals(f: seq<nat>, total: nat)
    requires 2 <= |f| && total == Sum(f) < KEY_SIZE
    ensures f[0] + f[1] < KEY_SIZE && Totals(f, FirstOfAll(f), total)
  {
    assert f[0..] == f;
    SumFirst(f, 0);
    SumFirst(f, 1);
    var w := [f[0] + f[1]];
    assert w[0..] == w && w[1..] == [];
  }

  lemma FirstShape(f: seq<nat>)
    requires 2 <= |f| && forall i, k :: 0 <= i <= k < |f| ==> 1 <= f[i] <= f[k]
    ensures var j := FirstOfAll(f); Shape(|f|, j) && Weights(f, j, f[1]) && Heavy(f, j)
  {
    hide Fib;
    FibStep(0);
    FibStep(1);
  }

  /** When all have been joined: there is one root, of the whole weight, and it is not high. */
  lemma AllJoined(f: seq<nat>, j: Joins, low: nat, total: nat)
    requires JoinsOk(f, j, low, total) && |j.w| == |f| - 1
    ensures j.leaf == |f| && j.root == |f| - 2 && j.h[|f| - 2] <= 22 && Fib(j.h[|f| - 2] + 2) <= total
  {
    hide Fib;
    var n := |f|;
    assert f[n..] == [] && j.w[n - 2..] == [j.w[n - 2]];
    SumFirst(j.w, n - 2);
    assert j.w[n - 1..] == [];
    if j.h[n - 2] >= 23 {
      FibMono(25, j.h[n - 2] + 2);
      Fib25();
    }
  }

  /** The array while leaves are joined: parents, weights of inner nodes, and weights of leaves. */
  ghost predicate Holds(a: seq<nat>, f: seq<nat>, j: Joins) {
    && |a| == |f| && j.root <= |j.w| <= j.leaf <= |f| && |j.par| == j.root
    && (forall i :: 0 <= i < j.root ==> a[i] == j.par[i])
    && (forall i :: j.root <= i < |j.w| ==> a[i] == j.w[i])
    && (forall i :: j.leaf <= i < |f| ==> a[i] == f[i])
  }

  /** Taking the next leaf, or the next inner node, whichever is smaller: into place `next`, alone or added to what is
      there. Where an inner node has been, its parent is noted. */
  ghost predicate Taken(a: seq<nat>, next: nat, root: nat, leaf: nat, add: bool, a': seq<nat>, root': nat, leaf': nat)
    requires root <= next < leaf <= |a| && next < |a| && (leaf < |a| || root < next)
  {
    var inner := leaf >= |a| || ((add ==> root < next) && a[root] < a[leaf]);
    var x := if inner then a[root] else a[leaf];
    var sum := if add then (a[next] + x) % KEY_SIZE else x;
    && root' == (if inner then root + 1 else root) && leaf' == (if inner then leaf else leaf + 1)
    && a' == if inner then a[next := sum][root := next] else a[next := sum]
  }

  method Take(keys: array<nat>, next: nat, root: nat, leaf: nat, add: bool) returns (root': nat, leaf': nat)
    requires root <= next < leaf <= keys.Length && next < keys.Length && (leaf < keys.Length || root < next)
    modifies keys
    ensures Taken(old(keys[..]), next, root, leaf, add, keys[..], root', leaf')
  {
    root', leaf' := root, leaf;
    if leaf >= keys.Length || ((add ==> root < next) && keys[root] < keys[leaf]) {
      keys[next] := if add then (keys[next] + keys[root]) % KEY_SIZE else keys[root];
      keys[root] := next;
      root' := root + 1;
    } else {
      keys[next] := if add then (keys[next] + keys[leaf]) % KEY_SIZE else keys[leaf];
      leaf' := leaf + 1;
    }
  }

  /** What two such steps pick. */
  ghost predicate Picked(f: seq<nat>, j: Joins, r1: nat, l1: nat, x: nat, r2: nat, l2: nat, y: nat)
    requires j.root < |j.w| && j.leaf <= |f|
  {
    var in1 := j.leaf >= |f| || j.w[j.root] < f[j.leaf];
    && x == (if in1 then j.w[j.root] else f[j.leaf])
    && r1 == (if in1 then j.root + 1 else j.root) && l1 == (if in1 then j.leaf else j.leaf + 1)
    && r1 <= |j.w| && l1 <= |f| && (l1 < |f| || r1 < |j.w|)
    && var in2 := l1 >= |f| || (r1 < |j.w| && j.w[r1] < f[l1]);
    && y == (if in2 then j.w[r1] else f[l1])
    && r2 == (if in2 then r1 + 1 else r1) && l2 == (if in2 then l1 else l1 + 1)
  }

  lemma PickedIsSmallest(f: seq<nat>, j: Joins, low: nat, r1: nat, l1: nat, x: nat, r2: nat, l2: nat, y: nat)
    requires Shape(|f|, j) && Weights(f, j, low) && Picked(f, j, r1, l1, x, r2, l2, y)
    ensures Smallest(f, j, r2, l2, x, y)
  {
    assert forall i, k :: j.root <= i <= k < |j.w| ==> j.w[i] <= j.w[k];
    assert forall i, k :: 0 <= i <= k < |f| ==> f[i] <= f[k];
  }

  /** An inner node is taken only if it is lighter than the leaves that are left: between equals a leaf comes first. */
  ghost predicate TiesToLeaves(f: seq<nat>, j: Joins, j': Joins) {
    j'.root <= |j.w| && (j'.leaf < |f| ==> forall r :: j.root <= r < j'.root ==> j.w[r] < f[j'.leaf])
  }

  lemma PickedTies(f: seq<nat>, j: Joins, low: nat, r1: nat, l1: nat, x: nat, r2: nat, l2: nat, y: nat)
    requires Shape(|f|, j) && Weights(f, j, low) && Picked(f, j, r1, l1, x, r2, l2, y)
    ensures r2 <= |j.w| && (l2 < |f| ==> forall r :: j.root <= r < r2 ==> j.w[r] < f[l2])
  {
    assert forall i, k :: 0 <= i <= k < |f| ==> f[i] <= f[k];
  }

  lemma FirstTaken(f: seq<nat>, j: Joins, a: seq<nat>, b: seq<nat>, r1: nat, l1: nat)
    requires Shape(|f|, j) && Holds(a, f, j) && |j.w| + 1 < |f| && Taken(a, |j.w|, j.root, j.leaf, false, b, r1, l1)
    ensures j.root < |j.w| < j.leaf <= |f| == |a| == |b| && r1 <= |j.w| < l1 <= |f| && (l1 < |f| || r1 < |j.w|)
    ensures r1 + l1 == j.root + j.leaf + 1 && j.root <= r1
    ensures forall i :: 0 <= i < |a| && i != |j.w| ==> b[i] == if j.root <= i < r1 then |j.w| else a[i]
  {
  }

  lemma SecondTaken(f: seq<nat>, j: Joins, a: seq<nat>, b: seq<nat>, r1: nat, l1: nat, c: seq<nat>, r2: nat, l2: nat) returns (y: nat)
    requires Shape(|f|, j) && Holds(a, f, j) && |j.w| + 1 < |f| && Taken(a, |j.w|, j.root, j.leaf, false, b, r1, l1)
    requires r1 <= |j.w| < l1 <= |f| == |b| && (l1 < |f| || r1 < |j.w|) && Taken(b, |j.w|, r1, l1, true, c, r2, l2)
    ensures |b| == |f| && Picked(f, j, r1, l1, b[|j.w|], r2, l2, y) && |c| == |f| && c[|j.w|] == (b[|j.w|] + y) % KEY_SIZE
    ensures forall i :: 0 <= i < |a| && i != |j.w| ==> c[i] == if j.root <= i < r2 then |j.w| else a[i]
  {
    var in2 := l1 >= |b| || (r1 < |j.w| && b[r1] < b[l1]);
    y := if in2 then b[r1] else b[l1];
  }

  /** What joins leave in the array. */
  lemma StillHolds(a: seq<nat>, f: seq<nat>, j: Joins, root': nat, leaf': nat, sum: nat, a': seq<nat>)
    requires Shape(|f|, j) && Holds(a, f, j) && |a'| == |a| && |j.w| + 1 < |f|
    requires j.root <= root' <= |j.w| && j.leaf <= leaf' <= |f| && (root' - j.root) + (leaf' - j.leaf) == 2
    requires a'[|j.w|] == sum && forall i :: 0 <= i < |a| && i != |j.w| ==> a'[i] == if j.root <= i < root' then |j.w| else a[i]
    ensures Holds(a', f, Joined(j, root', leaf', sum))
  {
    hide NewHeight;
  }

  lemma Parts(f: seq<nat>, j: Joins, low: nat, total: nat)
    requires JoinsOk(f, j, low, total)
    ensures Shape(|f|, j) && Weights(f, j, low) && Heavy(f, j) && Totals(f, j, total)
  {
    hide Shape, Weights, Heavy, Totals;
  }

  lemma Room(f: seq<nat>, j: Joins, a: seq<nat>)
    requires Shape(|f|, j) && Holds(a, f, j) && |j.w| + 1 < |f|
    ensures |a| == |f| && j.root < |j.w| < j.leaf <= |f|
  {
  }

  /** One join further. */
  ghost predicate Follows(f: seq<nat>, j: Joins, j': Joins) {
    && j.root <= j'.root <= |j.w| == |j.h| && j'.root <= j.root + 2 && j.leaf <= j'.leaf
    && exists a: nat, b: nat :: Smallest(f, j, j'.root, j'.leaf, a, b) && j' == Joined(j, j'.root, j'.leaf, a + b)
  }

  lemma OneFollows(f: seq<nat>, j: Joins, root': nat, leaf': nat, a: nat, b: nat)
    requires Smallest(f, j, root', leaf', a, b) && j.root <= root' <= |j.w| == |j.h| && root' <= j.root + 2 && j.leaf <= leaf'
    ensures Follows(f, j, Joined(j, root', leaf', a + b))
  {
    hide Smallest, NewHeight;
    assert Joined(j, root', leaf', a + b).root == root' && Joined(j, root', leaf', a + b).leaf == leaf';
  }

  /** Two takings are one join. */
  lemma TwoTaken(f: seq<nat>, j: Joins, low: nat, total: nat, a: seq<nat>, b: seq<nat>, r1: nat, l1: nat, c: seq<nat>, r2: nat, l2: nat)
    returns (j': Joins, low': nat)
    requires JoinsOk(f, j, low, total) && Holds(a, f, j) && |j.w| + 1 < |f|
    requires |a| == |f| && j.root < |j.w| < j.leaf <= |f| && Taken(a, |j.w|, j.root, j.leaf, false, b, r1, l1)
    requires r1 <= |j.w| < l1 <= |f| == |b| && (l1 < |f| || r1 < |j.w|) && Taken(b, |j.w|, r1, l1, true, c, r2, l2)
    ensures JoinsOk(f, j', low', total) && Holds(c, f, j') && |j'.w| == |j.w| + 1 && r2 == j'.root && l2 == j'.leaf
    ensures Follows(f, j, j') && TiesToLeaves(f, j, j')
  {
    hide JoinsOk, Shape, Weights, Heavy, Totals, Holds, Taken, Picked, NewHeight, Smallest, Follows;
    Parts(f, j, low, total);
    var x := b[|j.w|];
    var y := SecondTaken(f, j, a, b, r1, l1, c, r2, l2);
    PickedIsSmallest(f, j, low, r1, l1, x, r2, l2, y);
    PickedTies(f, j, low, r1, l1, x, r2, l2, y);
    JoinedParts(f, j, r2, l2, x, y);
    JoinedOk(f, j, low, total, r2, l2, x, y);
    j', low' := Joined(j, r2, l2, x + y), if x < y then y else x;
    StillHolds(a, f, j, r2, l2, x + y, c);
    OneFollows(f, j, r2, l2, x, y);
  }

  /** One turn of the first loop. */
  method JoinNext(keys: array<nat>, next: nat, root: nat, leaf: nat, ghost f: seq<nat>, ghost j: Joins, ghost low: nat, ghost total: nat)
    returns (root': nat, leaf': nat, ghost j': Joins, ghost low': nat)
    requires JoinsOk(f, j, low, total) && Holds(keys[..], f, j) && next == |j.w| && next + 1 < |f| && root == j.root && leaf == j.leaf
    modifies keys
    ensures JoinsOk(f, j', low', total) && Holds(keys[..], f, j') && |j'.w| == next + 1 && root' == j'.root && leaf' == j'.leaf
    ensures Follows(f, j, j') && TiesToLeaves(f, j, j')
  {
    hide JoinsOk, Shape, Weights, Heavy, Totals, Holds, Taken, Follows, TiesToLeaves;
    ghost var a := keys[..];
    Parts(f, j, low, total);
    Room(f, j, a);
    root', leaf' := Take(keys, next, root, leaf, false);
    ghost var b, r1, l1 := keys[..], root', leaf';
    FirstTaken(f, j, a, b, r1, l1);
    root', leaf' := Take(keys, next, root', leaf', true);
    j', low' := TwoTaken(f, j, low, total, a, b, r1, l1, keys[..], root', leaf');
  }
}
