/** Heap sort in place (Sort.c): the heap is kept from place 1 on, and values sink into a hole. */
module HeapSort {

  /** The value at place k, counted from 1. */
  function V(h: seq<nat>, k: nat): nat
    requires 1 <= k <= |h|
  {
    h[k - 1]
  }

  /** From place lo on, no value among the first `size` is greater than its parent's. */
  ghost predicate Heap(h: seq<nat>, lo: nat, size: nat)
    requires 1 <= lo && size <= |h|
  {
    forall c {:trigger V(h, c)} :: 2 <= c <= size && lo <= c / 2 ==> V(h, c) <= V(h, c / 2)
  }

  /** The same but for a hole at k, which `temp` may still sink through. */
  ghost predicate Hole(h: seq<nat>, lo: nat, size: nat, k: nat, temp: nat)
    requires 1 <= lo && size <= |h| && 1 <= k
  {
    && (forall c {:trigger V(h, c)} :: 2 <= c <= size && lo <= c / 2 && c / 2 != k && c != k ==> V(h, c) <= V(h, c / 2))
    && (lo <= k / 2 && k <= size ==> temp <= V(h, k / 2))
    && (forall c {:trigger V(h, c)} :: 2 <= c <= size && c / 2 == k && lo <= k / 2 ==> V(h, c) <= V(h, k / 2))
  }

  lemma Halves(k: nat)
    ensures 2 * k / 2 == k && (2 * k + 1) / 2 == k
    ensures forall c: nat :: c / 2 == k ==> c == 2 * k || c == 2 * k + 1
  {
  }

  /** The greater child moves up into the hole. */
  lemma HoleMoves(h: seq<nat>, lo: nat, size: nat, k: nat, temp: nat, s: nat)
    requires 1 <= lo <= k && 2 * k <= size <= |h| && Hole(h, lo, size, k, temp)
    requires s == 2 * k || (s == 2 * k + 1 && s <= size)
    requires V(h, 2 * k) <= V(h, s) && (2 * k + 1 <= size ==> V(h, 2 * k + 1) <= V(h, s)) && temp < V(h, s)
    ensures Hole(h[k - 1 := V(h, s)], lo, size, s, temp)
  {
    Halves(k);
    Halves(s);
    var h' := h[k - 1 := V(h, s)];
    assert s / 2 == k && V(h', k) == V(h, s);
    forall c | 2 <= c <= size && lo <= c / 2 && c / 2 != s && c != s
      ensures V(h', c) <= V(h', c / 2)
    {
      if c == k {
        assert V(h, s) <= V(h, k / 2);
      } else if c / 2 == k {
        assert V(h', c) == V(h, c);
      } else {
        assert V(h', c) == V(h, c) && V(h', c / 2) == V(h, c / 2);
      }
    }
    forall c | 2 <= c <= size && c / 2 == s
      ensures V(h', c) <= V(h', k)
    {
      assert V(h, c) <= V(h, c / 2);
    }
  }

  /** The hole can be filled where temp is not less than any child. */
  lemma HoleFilled(h: seq<nat>, lo: nat, size: nat, k: nat, temp: nat)
    requires 1 <= lo <= k <= size <= |h| && Hole(h, lo, size, k, temp)
    requires forall c {:trigger V(h, c)} :: 2 <= c <= size && c / 2 == k ==> V(h, c) <= temp
    ensures Heap(h[k - 1 := temp], lo, size)
  {
    var h' := h[k - 1 := temp];
    forall c | 2 <= c <= size && lo <= c / 2
      ensures V(h', c) <= V(h', c / 2)
    {
      if c != k {
        assert V(h', c) == V(h, c);
      }
      if c / 2 != k {
        assert V(h', c / 2) == V(h, c / 2);
      }
    }
  }

  /** A child replaced by its parent leaves the values alone. */
  lemma SameValues(h: seq<nat>, i: nat, j: nat, x: nat)
    requires i < |h| && j < |h| && i != j
    ensures multiset(h[i := h[j]][j := x]) == multiset(h[i := x])
  {
    var g := h[i := x];
    assert h[i := h[j]][j := x] == g[i := g[j]][j := g[i]];
    Swapped(g, i, j);
  }

  lemma Swapped<T>(h: seq<T>, i: nat, j: nat)
    requires i < |h| && j < |h|
    ensures multiset(h[i := h[j]][j := h[i]]) == multiset(h)
  {
  }

  /** Three values change places. */
  lemma Turned(h: seq<nat>, x: nat, y: nat, z: nat)
    requires x < |h| && y < |h| && z < |h| && x != y && y != z && x != z
    ensures multiset(h[x := h[y]][y := h[z]][z := h[x]]) == multiset(h)
  {
    var g := h[x := h[y]][y := h[x]];
    Swapped(h, x, y);
    Swapped(g, y, z);
    assert h[x := h[y]][y := h[z]][z := h[x]] == g[y := g[z]][z := g[y]];
  }

  /** s is the greater child of k, if k has any. */
  ghost predicate Greater(h: seq<nat>, size: nat, k: nat, s: nat)
    requires 1 <= k && size <= |h|
  {
    && (s == 2 * k || (s == 2 * k + 1 && s <= size))
    && (s <= size ==> V(h, 2 * k) <= V(h, s) && (2 * k + 1 <= size ==> V(h, 2 * k + 1) <= V(h, s)))
  }

  /** temp stays where it is not less than the greater child. */
  lemma ItStays(h: seq<nat>, lo: nat, size: nat, k: nat, temp: nat, s: nat)
    requires 1 <= lo <= k <= size <= |h| && Hole(h, lo, size, k, temp) && Greater(h, size, k, s)
    requires s > size || V(h, s) <= temp
    ensures Heap(h[k - 1 := temp], lo, size)
  {
    Halves(k);
    HoleFilled(h, lo, size, k, temp);
  }

  /** The values when temp is where the hole is. */
  function Filled(h: seq<nat>, k: nat, temp: nat): (r: seq<nat>)
    requires 1 <= k <= |h|
    ensures |r| == |h|
  {
    h[k - 1 := temp]
  }

  lemma ItSinks(h: seq<nat>, lo: nat, size: nat, k: nat, temp: nat, s: nat)
    requires 1 <= lo <= k && size <= |h| && s <= size && Hole(h, lo, size, k, temp) && Greater(h, size, k, s) && temp < V(h, s)
    ensures k < s && Hole(Filled(h, k, V(h, s)), lo, size, s, temp)
    ensures multiset(Filled(Filled(h, k, V(h, s)), s, temp)) == multiset(Filled(h, k, temp))
    ensures Filled(h, k, V(h, s))[size..] == h[size..]
  {
    HoleMoves(h, lo, size, k, temp, s);
    SameValues(h, k - 1, s - 1, temp);
  }

  method Put(a: array<nat>, k: nat, x: nat)
    requires 1 <= k <= a.Length
    modifies a
    ensures a[..] == Filled(old(a[..]), k, x)
  {
    a[k - 1] := x;
  }

  method GreaterChild(a: array<nat>, k: nat, size: nat) returns (s: nat)
    requires 1 <= k && size <= a.Length
    ensures Greater(a[..], size, k, s)
  {
    s := 2 * k;
    if s < size && a[s] > a[s - 1] {
      s := s + 1;
    }
  }

  /** HeapSortDown: temp sinks into the hole at k. */
  method SinkInto(a: array<nat>, ghost lo: nat, hole: nat, size: nat, temp: nat)
    requires 1 <= lo <= hole <= size <= a.Length && Hole(a[..], lo, size, hole, temp)
    modifies a
    ensures Heap(a[..], lo, size)
    ensures multiset(a[..]) == multiset(Filled(old(a[..]), hole, temp))
    ensures a[..][size..] == old(a[..])[size..]
  {
    hide Hole, Heap, Filled, Greater;
    var k := hole;
    ghost var h0 := a[..];
    while true
      invariant lo <= k <= size && Hole(a[..], lo, size, k, temp) && a[..][size..] == h0[size..]
      invariant multiset(Filled(a[..], k, temp)) == multiset(Filled(h0, hole, temp))
      decreases size - k
    {
      var s := GreaterChild(a, k, size);
      if s > size || temp >= a[s - 1] {
        FilledHere(a[..], lo, size, k, temp, s);
        Put(a, k, temp);
        return;
      }
      ItSinks(a[..], lo, size, k, temp, s);
      Put(a, k, a[s - 1]);
      k := s;
    }
  }

  lemma FilledHere(h: seq<nat>, lo: nat, size: nat, k: nat, temp: nat, s: nat)
    requires 1 <= lo <= k <= size <= |h| && Hole(h, lo, size, k, temp) && Greater(h, size, k, s)
    requires s > size || (1 <= s <= |h| && h[s - 1] <= temp)
    ensures Heap(Filled(h, k, temp), lo, size) && Filled(h, k, temp)[size..] == h[size..]
  {
    ItStays(h, lo, size, k, temp, s);
  }

  // ---------- Building the heap ----------

  /** Nothing has a child beyond half of the size. */
  lemma LeavesAreHeap(h: seq<nat>, size: nat)
    requires size <= |h|
    ensures Heap(h, size / 2 + 1, size)
  {
  }

  /** Taking the value out of i leaves a hole for it above two heaps. */
  lemma HoleAt(h: seq<nat>, i: nat, size: nat)
    requires 1 <= i <= size <= |h| && Heap(h, i + 1, size)
    ensures Hole(h, i, size, i, V(h, i)) && Filled(h, i, V(h, i)) == h
  {
  }

  // ---------- Taking the maximum ----------

  lemma {:induction false} RootIsMax(h: seq<nat>, size: nat, c: nat)
    requires size <= |h| && Heap(h, 1, size) && 1 <= c <= size
    ensures V(h, c) <= V(h, 1)
    decreases c
  {
    if c > 1 {
      assert V(h, c) <= V(h, c / 2);
      RootIsMax(h, size, c / 2);
    }
  }

  /** Below the root, no value is greater than the greater of the root's children. */
  lemma {:induction false} ChildIsMax(h: seq<nat>, size: nat, c: nat)
    requires 3 <= size <= |h| && Heap(h, 1, size) && 2 <= c <= size
    ensures V(h, c) <= V(h, 2) || V(h, c) <= V(h, 3)
    decreases c
  {
    if c > 3 {
      assert V(h, c) <= V(h, c / 2);
      ChildIsMax(h, size, c / 2);
    }
  }

  /** Everything behind m is in order, and nothing before it is greater. */
  ghost predicate Settled(h: seq<nat>, m: nat) {
    forall i, j :: 0 <= i < j < |h| && m <= j ==> h[i] <= h[j]
  }

  /** The root goes to the end, and its greater child, k, takes its place: that opens a hole at k for the last value. */
  lemma Shortcut(h: seq<nat>, n: nat, k: nat)
    requires 3 < n <= |h| && Heap(h, 1, n) && (k == 2 || k == 3) && V(h, 2) <= V(h, k) && V(h, 3) <= V(h, k)
    ensures var h' := Filled(Filled(h, n, V(h, 1)), 1, V(h, k)); Hole(h', 1, n - 1, k, V(h, n))
  {
    var h' := Filled(Filled(h, n, V(h, 1)), 1, V(h, k));
    ChildIsMax(h, n, n);
    forall c: nat | 1 <= c < n
      ensures V(h', c) == if c == 1 then V(h, k) else V(h, c)
    {
    }
    forall c: nat | 2 <= c < n && 1 <= c / 2 && c / 2 != k && c != k
      ensures V(h', c) <= V(h', c / 2)
    {
      assert V(h, c) <= V(h, c / 2);
      assert c / 2 == 1 ==> c == 2 || c == 3;
    }
    forall c: nat | 2 <= c < n && c / 2 == k
      ensures V(h', c) <= V(h', 1)
    {
      assert V(h, c) <= V(h, c / 2);
    }
    assert k / 2 == 1;
  }

  /** The values of the shortcut, as if the last and the root had been exchanged, and then the root and its child. */
  lemma ShortcutValues(h: seq<nat>, n: nat, k: nat)
    requires 3 < n <= |h| && (k == 2 || k == 3)
    ensures var h' := Filled(Filled(h, n, V(h, 1)), 1, V(h, k));
            && multiset(Filled(h', k, V(h, n))) == multiset(h)
            && Filled(h', k, V(h, n))[n..] == h[n..] && Filled(h', k, V(h, n))[n - 1] == h[0]
  {
    Turned(h, n - 1, 0, k - 1);
  }

  /** Sequences with the same values and the same end have the same values in front. */
  lemma SameFront<T>(h: seq<T>, g: seq<T>, m: nat, i: nat) returns (x: nat)
    requires |h| == |g| && i < m <= |h| && multiset(h) == multiset(g) && h[m..] == g[m..]
    ensures x < m && h[x] == g[i]
  {
    assert h == h[..m] + h[m..] && g == g[..m] + g[m..];
    assert multiset(h[..m]) == multiset(h) - multiset(h[m..]);
    assert multiset(g[..m]) == multiset(g) - multiset(g[m..]);
    assert g[..m][i] in multiset(h[..m]);
    var y :| 0 <= y < m && h[..m][y] == g[i];
    x := y;
  }

  /** The same values in any order before m are still not greater than what is behind m. */
  lemma StillSettled(h: seq<nat>, h': seq<nat>, m: nat)
    requires |h| == |h'| && m <= |h| && multiset(h) == multiset(h') && h[m..] == h'[m..] && Settled(h, m)
    ensures Settled(h', m)
  {
    forall i, j | 0 <= i < j < |h'| && m <= j
      ensures h'[i] <= h'[j]
    {
      assert h'[j] == h'[m..][j - m] == h[j];
      if i < m {
        var x := SameFront(h, h', m, i);
        assert h[x] <= h[j];
      } else {
        assert h'[i] == h'[m..][i - m] == h[i];
      }
    }
  }

  /** With the maximum of the rest in place n, everything from there on is settled. */
  lemma MaxSettles(h: seq<nat>, g: seq<nat>, n: nat)
    requires 1 <= n <= |h| && |g| == |h| && Heap(h, 1, n) && Settled(h, n)
    requires multiset(g) == multiset(h) && g[n..] == h[n..] && g[n - 1] == h[0]
    ensures Settled(g, n - 1)
  {
    StillSettled(h, g, n);
    forall i | 0 <= i < n - 1
      ensures g[i] <= g[n - 1]
    {
      var x := SameFront(h, g, n, i);
      RootIsMax(h, n, x + 1);
    }
  }

  // ---------- The last places ----------

  /** What is left when two or three values are put in order. */
  function Finished(h: seq<nat>, size: nat): (r: seq<nat>)
    requires 2 <= size <= 3 && size <= |h|
    ensures |r| == |h|
  {
    if size > 2 && h[1] < h[size - 1] then h[2 := h[0]][0 := h[1]][1 := h[2]] else h[size - 1 := h[0]][0 := h[size - 1]]
  }

  lemma FinishedValues(h: seq<nat>, size: nat)
    requires 2 <= size <= 3 && size <= |h|
    ensures multiset(Finished(h, size)) == multiset(h)
  {
    Swapped(h, size - 1, 0);
    if size > 2 {
      Turned(h, 2, 0, 1);
    }
  }

  lemma FinishedSettles(h: seq<nat>, size: nat)
    requires 2 <= size <= 3 && size <= |h| && Heap(h, 1, size) && Settled(h, size)
    ensures Settled(Finished(h, size), 0)
  {
    var g := Finished(h, size);
    assert V(h, 2) <= V(h, 1) && (size == 3 ==> V(h, 3) <= V(h, 1));
    assert g[0] <= g[1] && (size == 3 ==> g[1] <= g[2]);
    forall i, j | 0 <= i < j < |g|
      ensures g[i] <= g[j]
    {
      assert j >= size ==> g[j] == h[j] && h[0] <= h[j] && h[1] <= h[j] && h[size - 1] <= h[j];
      assert i >= size ==> g[i] == h[i];
    }
  }

  /** Two or three values are put in order directly. */
  method FinishTail(a: array<nat>, size: nat)
    requires 2 <= size <= 3 && size <= a.Length
    modifies a
    ensures a[..] == Finished(old(a[..]), size)
  {
    var temp := a[size - 1];
    a[size - 1] := a[0];
    if size > 2 && a[1] < temp {
      a[0] := a[1];
      a[1] := temp;
    } else {
      a[0] := temp;
    }
  }

  /** HeapSort and HeapSort64: in ascending order, the same values. */
  method Sort(a: array<nat>)
    modifies a
    ensures forall i, j :: 0 <= i < j < a.Length ==> a[i] <= a[j]
    ensures multiset(a[..]) == multiset(old(a[..]))
  {
    hide Heap, Hole, Filled, Finished;
    var size: nat := a.Length;
    if size <= 1 {
      return;
    }
    var i: nat := size / 2;
    LeavesAreHeap(a[..], size);
    while i != 0
      invariant i <= size / 2 && Heap(a[..], i + 1, size) && multiset(a[..]) == multiset(old(a[..]))
    {
      HoleAt(a[..], i, size);
      SinkInto(a, i, i, size, a[i - 1]);
      i := i - 1;
    }
    while size > 3
      invariant 2 <= size <= a.Length && Heap(a[..], 1, size) && Settled(a[..], size) && multiset(a[..]) == multiset(old(a[..]))
    {
      TakeMax(a, size);
      size := size - 1;
    }
    FinishedValues(a[..], size);
    FinishedSettles(a[..], size);
    FinishTail(a, size);
  }

  /** The root goes behind the heap, and the last value sinks from the root's greater child on. */
  method TakeMax(a: array<nat>, size: nat)
    requires 3 < size <= a.Length && Heap(a[..], 1, size) && Settled(a[..], size)
    modifies a
    ensures Heap(a[..], 1, size - 1) && Settled(a[..], size - 1) && multiset(a[..]) == multiset(old(a[..]))
  {
    hide Heap, Hole, Filled, Settled;
    ghost var h := a[..];
    var temp := a[size - 1];
    var k := if a[2] > a[1] then 3 else 2;
    Shortcut(h, size, k);
    ShortcutValues(h, size, k);
    Put(a, size, a[0]);
    Kept(h, size, V(h, 1), k);
    Put(a, 1, a[k - 1]);
    ghost var g := Filled(a[..], k, temp);
    MaxSettles(h, g, size);
    SinkInto(a, 1, k, size - 1, temp);
    FilledTail(Filled(Filled(h, size, V(h, 1)), 1, V(h, k)), k, temp, size - 1);
    StillSettled(g, a[..], size - 1);
  }

  lemma Kept(h: seq<nat>, n: nat, x: nat, k: nat)
    requires 1 <= k < n <= |h|
    ensures V(Filled(h, n, x), k) == V(h, k)
  {
  }

  lemma FilledTail(h: seq<nat>, k: nat, x: nat, m: nat)
    requires 1 <= k <= m <= |h|
    ensures Filled(h, k, x)[m..] == h[m..]
  {
  }
}
