/** The sorted index of a zip directory, and finding a file by its name (miniz.c). */
module ZipIndex {
  import opened Bytes
  import opened Wrappers
  import HeapSort

  // ---------- The order of names ----------

  type Name = seq<Byte>

  /** MZ_TOLOWER */
  function Lower(b: Byte): Byte { if 65 <= b <= 90 then b + 32 else b }

  const CAPITALS := "ABCDEFGHIJKLMNOPQRSTUVWXYZ"
  const SMALL_ONES := "abcdefghijklmnopqrstuvwxyz"

  /** Just the 26 capitals are folded, each to its small letter. */
  lemma LowerIs()
    ensures forall i :: 0 <= i < 26 ==> CAPITALS[i] < 256 as char && Lower(CAPITALS[i] as int) == SMALL_ONES[i] as int
    ensures forall b: Byte :: b as char !in CAPITALS ==> Lower(b) == b
  {
  }

  function Folded(s: Name): (r: Name)
    ensures |r| == |s| && forall i :: 0 <= i < |s| ==> r[i] == Lower(s[i])
  {
    seq(|s|, i requires 0 <= i < |s| => Lower(s[i]))
  }

  predicate Before(a: Name, b: Name) {
    if b == [] then false
    else if a == [] then true
    else if a[0] != b[0] then a[0] < b[0]
    else Before(a[1..], b[1..])
  }

  /** The order of the dictionary: the lower byte where they differ first decides, or else the shorter name is first. */
  lemma {:induction false} BeforeIs(a: Name, b: Name)
    ensures Before(a, b) <==> exists k :: 0 <= k <= |a| && k < |b| && a[..k] == b[..k] && (k == |a| || a[k] < b[k])
  {
    if a != [] && b != [] {
      if a[0] == b[0] {
        BeforeIs(a[1..], b[1..]);
        if Before(a, b) {
          var k :| 0 <= k <= |a| - 1 && k < |b| - 1 && a[1..][..k] == b[1..][..k] && (k == |a| - 1 || a[1..][k] < b[1..][k]);
          assert a[..k + 1] == [a[0]] + a[1..][..k] && b[..k + 1] == [b[0]] + b[1..][..k];
        }
        forall k | 0 <= k <= |a| && k < |b| && a[..k] == b[..k] && (k == |a| || a[k] < b[k])
          ensures Before(a, b)
        {
          assert k != 0;
          assert a[1..][..k - 1] == a[..k][1..] && b[1..][..k - 1] == b[..k][1..];
        }
      } else {
        assert a[..0] == b[..0];
        forall k | 0 <= k <= |a| && k < |b| && a[..k] == b[..k]
          ensures k == 0
        {
          FirstAlike(a, b, k);
        }
      }
    }
  }

  lemma FirstAlike(a: Name, b: Name, k: nat)
    requires k <= |a| && k <= |b| && a[..k] == b[..k]
    ensures k == 0 || a[0] == b[0]
  {
    assert k > 0 ==> a[..k][0] == a[0] && b[..k][0] == b[0];
  }

  /** Not behind. */
  predicate AtMost(a: Name, b: Name) { !Before(b, a) }

  lemma {:induction false} BeforeTransitive(a: Name, b: Name, c: Name)
    ensures Before(a, b) && Before(b, c) ==> Before(a, c)
    decreases |a|
  {
    if a != [] && b != [] && c != [] {
      BeforeTransitive(a[1..], b[1..], c[1..]);
    }
  }

  lemma {:induction false} Trichotomy(a: Name, b: Name)
    ensures Before(a, b) || Before(b, a) || a == b
    ensures !(Before(a, b) && Before(b, a)) && (a == b ==> !Before(a, b))
    decreases |a|
  {
    if a != [] && b != [] {
      Trichotomy(a[1..], b[1..]);
      assert a == [a[0]] + a[1..] && b == [b[0]] + b[1..];
    }
  }

  lemma AtMostTransitive(a: Name, b: Name, c: Name)
    requires AtMost(a, b) && AtMost(b, c)
    ensures AtMost(a, c)
  {
    hide Before;
    Trichotomy(a, b);
    Trichotomy(b, c);
    Trichotomy(a, c);
    BeforeTransitive(c, a, b);
    BeforeTransitive(b, c, a);
  }

  /** Names that begin in the same way are ordered by what follows. */
  lemma {:induction false} SameBeginning(a: Name, b: Name, k: nat)
    requires k <= |a| && k <= |b| && a[..k] == b[..k]
    ensures Before(a, b) <==> Before(a[k..], b[k..])
    ensures a == b <==> a[k..] == b[k..]
  {
    if k > 0 {
      assert a[0] == a[..k][0] && b[0] == b[..k][0];
      assert a[1..][..k - 1] == a[..k][1..] && b[1..][..k - 1] == b[..k][1..];
      SameBeginning(a[1..], b[1..], k - 1);
      assert a[1..][k - 1..] == a[k..] && b[1..][k - 1..] == b[k..];
      assert a == [a[0]] + a[1..] && b == [b[0]] + b[1..];
    }
  }

  /** How far two names agree. */
  method Agreeing(a: Name, b: Name) returns (k: nat)
    ensures k <= |a| && k <= |b| && Folded(a)[..k] == Folded(b)[..k]
    ensures k == |a| || k == |b| || Lower(a[k]) != Lower(b[k])
  {
    k := 0;
    while k < |a| && k < |b|
      invariant k <= |a| && k <= |b| && Folded(a)[..k] == Folded(b)[..k]
    {
      if Lower(a[k]) != Lower(b[k]) {
        break;
      }
      k := k + 1;
    }
  }

  /** mz_zip_reader_filename_less */
  method FilenameLess(a: Name, b: Name) returns (less: bool)
    ensures less <==> Before(Folded(a), Folded(b))
  {
    var k := Agreeing(a, b);
    SameBeginning(Folded(a), Folded(b), k);
    less := if k == |a| || k == |b| then |a| < |b| else Lower(a[k]) < Lower(b[k]);
  }

  /** mz_zip_filename_compare */
  method FilenameCompare(a: Name, b: Name) returns (comp: int)
    ensures comp < 0 <==> Before(Folded(a), Folded(b))
    ensures comp == 0 <==> Folded(a) == Folded(b)
  {
    var k := Agreeing(a, b);
    SameBeginning(Folded(a), Folded(b), k);
    comp := if k == |a| || k == |b| then |a| - |b| else Lower(a[k]) - Lower(b[k]);
  }

  // ---------- Heaps ----------

  ghost predicate Valid(names: seq<Name>, s: seq<nat>) { forall i :: 0 <= i < |s| ==> s[i] < |names| }

  /** The folded name at a place of the index. */
  function Key(names: seq<Name>, s: seq<nat>, i: nat): Name
    requires Valid(names, s) && i < |s|
  {
    Folded(names[s[i]])
  }

  function Parent(c: nat): nat
    requires 1 <= c
  {
    (c - 1) / 2
  }

  /** From place lo on, no name among the first `size` is behind its parent's. */
  ghost predicate Heap(names: seq<Name>, s: seq<nat>, lo: nat, size: nat)
    requires Valid(names, s) && size <= |s|
  {
    forall c {:trigger Key(names, s, c)} :: 1 <= c < size && lo <= Parent(c) ==> AtMost(Key(names, s, c), Key(names, s, Parent(c)))
  }

  /** The same but for the children of `root`, which are not behind its parent. */
  ghost predicate Sinking(names: seq<Name>, s: seq<nat>, lo: nat, size: nat, root: nat)
    requires Valid(names, s) && size <= |s|
  {
    && (forall c {:trigger Key(names, s, c)} :: 1 <= c < size && lo <= Parent(c) && Parent(c) != root ==>
          AtMost(Key(names, s, c), Key(names, s, Parent(c))))
    && (forall c {:trigger Key(names, s, c)} :: 1 <= c < size && Parent(c) == root && 1 <= root && lo <= Parent(root) ==>
          AtMost(Key(names, s, c), Key(names, s, Parent(root))))
  }

  lemma Children(k: nat)
    ensures Parent(2 * k + 1) == k && Parent(2 * k + 2) == k
    ensures forall c: nat :: 1 <= c && Parent(c) == k ==> c == 2 * k + 1 || c == 2 * k + 2
  {
  }

  function Exchanged(s: seq<nat>, i: nat, j: nat): (r: seq<nat>)
    requires i < |s| && j < |s|
    ensures |r| == |s|
  {
    s[i := s[j]][j := s[i]]
  }

  /** s[child] is the later child of root. */
  ghost predicate Later(names: seq<Name>, s: seq<nat>, size: nat, root: nat, child: nat)
    requires Valid(names, s) && size <= |s|
  {
    && (child == 2 * root + 1 || child == 2 * root + 2) && child < size
    && forall c {:trigger Key(names, s, c)} :: 1 <= c < size && Parent(c) == root ==> AtMost(Key(names, s, c), Key(names, s, child))
  }

  /** The later child goes up. */
  lemma GoesUp(names: seq<Name>, s: seq<nat>, lo: nat, size: nat, root: nat, child: nat)
    requires Valid(names, s) && size <= |s| && lo <= root && Sinking(names, s, lo, size, root) && Later(names, s, size, root, child)
    requires Before(Key(names, s, root), Key(names, s, child))
    ensures Valid(names, Exchanged(s, root, child)) && Sinking(names, Exchanged(s, root, child), lo, size, child)
  {
    hide Before, Folded;
    Children(root);
    Children(child);
    var t := Exchanged(s, root, child);
    assert Parent(child) == root < child;
    Trichotomy(Key(names, s, root), Key(names, s, child));
    forall c | 1 <= c < size && lo <= Parent(c) && Parent(c) != child
      ensures AtMost(Key(names, t, c), Key(names, t, Parent(c)))
    {
      if Parent(c) == root {
        if c == child {
          assert Key(names, t, c) == Key(names, s, root);
        } else {
          assert Key(names, t, c) == Key(names, s, c);
        }
        assert Key(names, t, root) == Key(names, s, child);
      } else if c == root {
        assert Key(names, t, c) == Key(names, s, child);
        assert Key(names, t, Parent(c)) == Key(names, s, Parent(root));
      } else {
        assert Key(names, t, c) == Key(names, s, c) && Key(names, t, Parent(c)) == Key(names, s, Parent(c));
      }
    }
    forall c | 1 <= c < size && Parent(c) == child
      ensures AtMost(Key(names, t, c), Key(names, t, root))
    {
      assert Key(names, t, c) == Key(names, s, c) && Key(names, t, root) == Key(names, s, child);
    }
  }

  /** It stays where it is not before its later child. */
  lemma Stays(names: seq<Name>, s: seq<nat>, lo: nat, size: nat, root: nat, child: nat)
    requires Valid(names, s) && size <= |s| && Sinking(names, s, lo, size, root)
    requires if child >= size then child == 2 * root + 1
             else root < size && Later(names, s, size, root, child) && !Before(Key(names, s, root), Key(names, s, child))
    ensures Heap(names, s, lo, size)
  {
    hide Before, Folded;
    Children(root);
    forall c | 1 <= c < size && lo <= Parent(c)
      ensures AtMost(Key(names, s, c), Key(names, s, Parent(c)))
    {
      if Parent(c) == root {
        AtMostTransitive(Key(names, s, c), Key(names, s, child), Key(names, s, root));
      }
    }
  }

  lemma LaterFound(names: seq<Name>, s: seq<nat>, size: nat, root: nat, less: bool)
    requires Valid(names, s) && 2 * root + 1 < size <= |s|
    requires less <==> 2 * root + 2 < size && Before(Key(names, s, 2 * root + 1), Key(names, s, 2 * root + 2))
    ensures Later(names, s, size, root, if less then 2 * root + 2 else 2 * root + 1)
  {
    hide Before, Folded;
    Children(root);
    var child := if less then 2 * root + 2 else 2 * root + 1;
    forall c | 1 <= c < size && Parent(c) == root
      ensures AtMost(Key(names, s, c), Key(names, s, child))
    {
      Trichotomy(Key(names, s, c), Key(names, s, child));
    }
  }

  lemma ExchangedSame(s: seq<nat>, i: nat, j: nat, size: nat)
    requires i < size <= |s| && j < size
    ensures multiset(Exchanged(s, i, j)) == multiset(s) && Exchanged(s, i, j)[size..] == s[size..]
  {
    HeapSort.Swapped(s, i, j);
  }

  method Swap(a: array<nat>, i: nat, j: nat)
    requires i < a.Length && j < a.Length
    modifies a
    ensures a[..] == Exchanged(old(a[..]), i, j)
  {
    var t := a[i];
    a[i] := a[j];
    a[j] := t;
  }

  /** The greater of the children of root. */
  method LaterChild(names: seq<Name>, a: array<nat>, size: nat, root: nat) returns (child: nat)
    requires Valid(names, a[..]) && 2 * root + 1 < size <= a.Length
    ensures Later(names, a[..], size, root, child)
  {
    hide Before, Folded;
    child := 2 * root + 1;
    var less := false;
    if child + 1 < size {
      less := FilenameLess(names[a[child]], names[a[child + 1]]);
    }
    LaterFound(names, a[..], size, root, less);
    child := child + if less then 1 else 0;
  }

  /** The loop both phases share. */
  method SiftDown(names: seq<Name>, a: array<nat>, start: nat, size: nat)
    requires Valid(names, a[..]) && start < size <= a.Length && Sinking(names, a[..], start, size, start)
    modifies a
    ensures Valid(names, a[..]) && Heap(names, a[..], start, size)
    ensures multiset(a[..]) == multiset(old(a[..])) && a[..][size..] == old(a[..])[size..]
  {
    hide Heap, Sinking, Later, Before, Folded, Exchanged;
    var root := start;
    while true
      invariant Valid(names, a[..]) && start <= root < size && Sinking(names, a[..], start, size, root)
      invariant multiset(a[..]) == multiset(old(a[..])) && a[..][size..] == old(a[..])[size..]
      decreases size - root
    {
      ghost var s := a[..];
      if 2 * root + 1 >= size {
        Stays(names, s, start, size, root, 2 * root + 1);
        return;
      }
      var child := LaterChild(names, a, size, root);
      LaterBounds(names, s, size, root, child);
      var less := FilenameLess(names[a[root]], names[a[child]]);
      if !less {
        Stays(names, s, start, size, root, child);
        return;
      }
      GoesUp(names, s, start, size, root, child);
      ExchangedSame(s, root, child, size);
      Swap(a, root, child);
      root := child;
    }
  }

  lemma LaterBounds(names: seq<Name>, s: seq<nat>, size: nat, root: nat, child: nat)
    requires Valid(names, s) && size <= |s| && Later(names, s, size, root, child)
    ensures root < child < size
  {
  }

  // ---------- The two phases ----------

  lemma LeavesAreHeap(names: seq<Name>, s: seq<nat>, size: nat)
    requires Valid(names, s) && 2 <= size <= |s|
    ensures Heap(names, s, (size - 2) / 2 + 1, size)
  {
  }

  lemma HeapSinks(names: seq<Name>, s: seq<nat>, start: nat, size: nat)
    requires Valid(names, s) && size <= |s| && Heap(names, s, start + 1, size)
    ensures Sinking(names, s, start, size, start)
  {
  }

  lemma {:induction false} RootIsLast(names: seq<Name>, s: seq<nat>, size: nat, c: nat)
    requires Valid(names, s) && c < size <= |s| && Heap(names, s, 0, size)
    ensures AtMost(Key(names, s, c), Key(names, s, 0))
    decreases c
  {
    hide Before, Folded;
    if c == 0 {
      Trichotomy(Key(names, s, 0), Key(names, s, 0));
    } else {
      RootIsLast(names, s, size, Parent(c));
      AtMostTransitive(Key(names, s, c), Key(names, s, Parent(c)), Key(names, s, 0));
    }
  }

  /** Everything from m on is in order, and nothing before it is behind. */
  ghost predicate Settled(names: seq<Name>, s: seq<nat>, m: nat)
    requires Valid(names, s)
  {
    forall i, j {:trigger Key(names, s, i), Key(names, s, j)} :: 0 <= i < j < |s| && m <= j ==> AtMost(Key(names, s, i), Key(names, s, j))
  }

  /** The same entries in any order before m are still settled. */
  lemma StillSettled(names: seq<Name>, s: seq<nat>, t: seq<nat>, m: nat)
    requires Valid(names, s) && Valid(names, t) && |s| == |t| && m <= |s| && multiset(s) == multiset(t) && s[m..] == t[m..]
    requires Settled(names, s, m)
    ensures Settled(names, t, m)
  {
    hide Before, Folded;
    forall i, j | 0 <= i < j < |t| && m <= j
      ensures AtMost(Key(names, t, i), Key(names, t, j))
    {
      assert t[j] == t[m..][j - m] == s[j];
      if i < m {
        var x := HeapSort.SameFront(s, t, m, i);
        assert AtMost(Key(names, s, x), Key(names, s, j));
      } else {
        assert t[i] == t[m..][i - m] == s[i];
        assert AtMost(Key(names, s, i), Key(names, s, j));
      }
    }
  }

  /** The root goes behind the rest of the heap. */
  lemma RootSettles(names: seq<Name>, s: seq<nat>, end: nat)
    requires Valid(names, s) && 0 < end < |s| && Heap(names, s, 0, end + 1) && Settled(names, s, end + 1)
    ensures Valid(names, Exchanged(s, end, 0)) && Settled(names, Exchanged(s, end, 0), end)
    ensures Sinking(names, Exchanged(s, end, 0), 0, end, 0)
  {
    hide Before, Folded;
    var t := Exchanged(s, end, 0);
    ExchangedSame(s, end, 0, end + 1);
    StillSettled(names, s, t, end + 1);
    forall i | 0 <= i < end
      ensures AtMost(Key(names, t, i), Key(names, t, end))
    {
      RootIsLast(names, s, end + 1, if i == 0 then end else i);
      assert Key(names, t, end) == Key(names, s, 0) && Key(names, t, i) == Key(names, s, if i == 0 then end else i);
    }
    forall c | 1 <= c < end && Parent(c) != 0
      ensures AtMost(Key(names, t, c), Key(names, t, Parent(c)))
    {
      assert Key(names, t, c) == Key(names, s, c) && Key(names, t, Parent(c)) == Key(names, s, Parent(c));
    }
  }

  /** In ascending order. */
  ghost predicate Sorted(names: seq<Name>, s: seq<nat>)
    requires Valid(names, s)
  {
    forall i, j {:trigger Key(names, s, i), Key(names, s, j)} :: 0 <= i < j < |s| ==> AtMost(Key(names, s, i), Key(names, s, j))
  }

  /** mz_zip_reader_sort_central_dir_offsets_by_filename */
  method SortByFilename(names: seq<Name>, a: array<nat>)
    requires Valid(names, a[..])
    modifies a
    ensures multiset(a[..]) == multiset(old(a[..])) && Valid(names, a[..]) && Sorted(names, a[..])
  {
    hide Heap, Sinking, Before, Folded, Exchanged;
    var size := a.Length;
    if size <= 1 {
      return;
    }
    var start: nat := (size - 2) / 2;
    LeavesAreHeap(names, a[..], size);
    while true
      invariant Valid(names, a[..]) && start < size && Heap(names, a[..], start + 1, size) && multiset(a[..]) == multiset(old(a[..]))
      decreases start
    {
      HeapSinks(names, a[..], start, size);
      SiftDown(names, a, start, size);
      if start == 0 {
        break;
      }
      start := start - 1;
    }
    var end := size - 1;
    while end > 0
      invariant Valid(names, a[..]) && 0 <= end < size && Heap(names, a[..], 0, end + 1) && Settled(names, a[..], end + 1)
      invariant multiset(a[..]) == multiset(old(a[..]))
    {
      TakeLast(names, a, end);
      end := end - 1;
    }
  }

  method TakeLast(names: seq<Name>, a: array<nat>, end: nat)
    requires Valid(names, a[..]) && 0 < end < a.Length && Heap(names, a[..], 0, end + 1) && Settled(names, a[..], end + 1)
    modifies a
    ensures Valid(names, a[..]) && Heap(names, a[..], 0, end) && Settled(names, a[..], end) && multiset(a[..]) == multiset(old(a[..]))
  {
    hide Heap, Sinking, Settled, Before, Folded, Exchanged;
    RootSettles(names, a[..], end);
    ExchangedSame(a[..], end, 0, end + 1);
    Swap(a, end, 0);
    ghost var t := a[..];
    SiftDown(names, a, 0, end);
    StillSettled(names, t, a[..], end);
  }

  // ---------- Finding a file ----------

  /** Some file has this name, but for case. */
  ghost predicate Exists(names: seq<Name>, name: Name) { exists f :: 0 <= f < |names| && Folded(names[f]) == Folded(name) }

  /** Every file is in the index. */
  ghost predicate Indexed(names: seq<Name>, s: seq<nat>) {
    Valid(names, s) && Sorted(names, s) && forall f: nat :: f < |names| ==> f in s
  }

  /** An index that starts as 0, 1, 2, ... and is sorted has every file. */
  lemma SortedIsIndexed(names: seq<Name>, s: seq<nat>, t: seq<nat>)
    requires |s| == |names| && (forall i :: 0 <= i < |s| ==> s[i] == i)
    requires multiset(s) == multiset(t) && Valid(names, t) && Sorted(names, t)
    ensures Indexed(names, t)
  {
    hide Sorted;
    forall f: nat | f < |names|
      ensures f in t
    {
      assert s[f] in multiset(t);
    }
  }

  /** What is before a name that is too small is too small, and what is behind one too great is too great. */
  lemma Narrowed(names: seq<Name>, s: seq<nat>, name: Name, m: nat, i: nat)
    requires Valid(names, s) && Sorted(names, s) && m < |s| && i < |s|
    ensures i <= m && Before(Key(names, s, m), Folded(name)) ==> Key(names, s, i) != Folded(name)
    ensures m <= i && Before(Folded(name), Key(names, s, m)) ==> Key(names, s, i) != Folded(name)
  {
    hide Before, Folded;
    Trichotomy(Key(names, s, m), Folded(name));
  }

  lemma NoneLeft(names: seq<Name>, s: seq<nat>, name: Name)
    requires Indexed(names, s) && forall i :: 0 <= i < |s| ==> Key(names, s, i) != Folded(name)
    ensures !Exists(names, name)
  {
    hide Before, Folded;
    forall f | 0 <= f < |names|
      ensures Folded(names[f]) != Folded(name)
    {
      assert f in s;
      var i :| 0 <= i < |s| && s[i] == f;
      assert Key(names, s, i) == Folded(names[f]);
    }
  }

  /** mz_zip_locate_file_binary_search */
  method BinarySearch(names: seq<Name>, indices: array<nat>, name: Name) returns (found: bool, index: nat)
    requires Indexed(names, indices[..])
    ensures found <==> Exists(names, name)
    ensures found ==> index < |names| && Folded(names[index]) == Folded(name)
  {
    hide Before, Folded, Sorted, Indexed;
    ghost var s := indices[..];
    Index(names, s);
    index := 0;
    var l: int, h: int := 0, indices.Length - 1;
    while l <= h
      invariant 0 <= l && h < indices.Length && l <= h + 1
      invariant forall i :: (0 <= i < l || h < i < |s|) ==> Key(names, s, i) != Folded(name)
      decreases h - l + 1
    {
      var m := l + (h - l) / 2;
      var fileIndex := indices[m];
      var comp := FilenameCompare(names[fileIndex], name);
      if comp == 0 {
        return true, fileIndex;
      }
      Trichotomy(Key(names, s, m), Folded(name));
      forall i | 0 <= i < |s| && (if comp < 0 then i <= m else m <= i)
        ensures Key(names, s, i) != Folded(name)
      {
        Narrowed(names, s, name, m, i);
      }
      if comp < 0 {
        l := m + 1;
      } else {
        h := m - 1;
      }
    }
    NoneLeft(names, s, name);
    found := false;
  }

  lemma Index(names: seq<Name>, s: seq<nat>)
    requires Indexed(names, s)
    ensures Valid(names, s) && Sorted(names, s)
  {
  }

  // ---------- Scanning the directory ----------

  datatype File = File(name: Name, comment: seq<Byte>)

  predicate Same(a: seq<Byte>, b: seq<Byte>, caseSensitive: bool) { if caseSensitive then a == b else Folded(a) == Folded(b) }

  /** What is behind the last separator. */
  function BaseName(s: Name): Name {
    if s == [] then []
    else if s[|s| - 1] in {47, 92, 58} then []
    else BaseName(s[..|s| - 1]) + [s[|s| - 1]]
  }

  lemma {:induction false} BaseNameFrom(s: Name, k: nat)
    requires k <= |s| && (forall i :: k <= i < |s| ==> s[i] !in {47, 92, 58}) && (k == 0 || s[k - 1] in {47, 92, 58})
    ensures BaseName(s) == s[k..]
    decreases |s|
  {
    if k < |s| {
      BaseNameFrom(s[..|s| - 1], k);
      assert s[k..] == s[..|s| - 1][k..] + [s[|s| - 1]];
    }
  }

  predicate Separates(c: char) { c == '/' || c == '\\' || c == ':' }

  /** It is the end of the name that has no separator, and is all of the name or stands behind one. */
  lemma BaseNameIs(s: Name, k: nat)
    requires k <= |s|
    ensures BaseName(s) == s[k..]
            <==> (forall i :: k <= i < |s| ==> !Separates(s[i] as char)) && (k == 0 || Separates(s[k - 1] as char))
  {
    hide BaseName;
    var b := BaseBegin(s, |s|);
    BaseNameFrom(s, b);
    if k != b {
      assert |s[k..]| != |s[b..]|;
      var last := if k < b then b - 1 else k - 1;
      assert Separates(s[last] as char) <==> k < b;
    }
  }

  lemma {:induction false} BaseBegin(s: Name, n: nat) returns (k: nat)
    requires n <= |s| && forall i :: n <= i < |s| ==> s[i] !in {47, 92, 58}
    ensures k <= |s| && (forall i :: k <= i < |s| ==> s[i] !in {47, 92, 58}) && (k == 0 || s[k - 1] in {47, 92, 58})
    decreases n
  {
    if n == 0 || s[n - 1] in {47, 92, 58} {
      k := n;
    } else {
      k := BaseBegin(s, n - 1);
    }
  }

  /** The name that counts. */
  function NameOf(f: File, ignorePath: bool): Name { if ignorePath then BaseName(f.name) else f.name }

  predicate Matches(f: File, name: Name, comment: seq<Byte>, ignorePath: bool, caseSensitive: bool) {
    && (comment != [] ==> Same(f.comment, comment, caseSensitive))
    && Same(NameOf(f, ignorePath), name, caseSensitive)
  }

  /** mz_zip_string_equal, for strings of the same length */
  method StringEqual(a: seq<Byte>, b: seq<Byte>, caseSensitive: bool) returns (equal: bool)
    requires |a| == |b|
    ensures equal <==> Same(a, b, caseSensitive)
  {
    if caseSensitive {
      return a == b;
    }
    for i := 0 to |a|
      invariant forall k :: 0 <= k < i ==> Lower(a[k]) == Lower(b[k])
    {
      if Lower(a[i]) != Lower(b[i]) {
        assert Folded(a)[i] != Folded(b)[i];
        return false;
      }
    }
    return true;
  }

  method StripPath(s: Name) returns (base: Name)
    ensures base == BaseName(s)
  {
    if |s| == 0 {
      return [];
    }
    var ofs := |s| - 1;
    while ofs >= 0
      invariant -1 <= ofs < |s| && forall i :: ofs < i < |s| ==> s[i] !in {47, 92, 58}
    {
      if s[ofs] == 47 || s[ofs] == 92 || s[ofs] == 58 {
        break;
      }
      ofs := ofs - 1;
    }
    BaseNameFrom(s, ofs + 1);
    base := s[ofs + 1..];
  }

  lemma {:induction false} BaseNameShorter(s: Name)
    ensures |BaseName(s)| <= |s|
    decreases |s|
  {
    if s != [] {
      BaseNameShorter(s[..|s| - 1]);
    }
  }

  method FileMatches(f: File, name: Name, comment: seq<Byte>, ignorePath: bool, caseSensitive: bool) returns (r: bool)
    ensures r <==> Matches(f, name, comment, ignorePath, caseSensitive)
  {
    BaseNameShorter(f.name);
    SameLength(NameOf(f, ignorePath), name, caseSensitive);
    SameLength(f.comment, comment, caseSensitive);
    if |f.name| < |name| {
      return false;
    }
    if |comment| != 0 {
      if |f.comment| != |comment| {
        return false;
      }
      var equal := StringEqual(f.comment, comment, caseSensitive);
      if !equal {
        return false;
      }
    }
    var filename := f.name;
    if ignorePath {
      filename := StripPath(filename);
    }
    if |filename| != |name| {
      return false;
    }
    r := StringEqual(filename, name, caseSensitive);
  }

  lemma SameLength(a: seq<Byte>, b: seq<Byte>, caseSensitive: bool)
    ensures Same(a, b, caseSensitive) ==> |a| == |b|
  {
    if Same(a, b, caseSensitive) {
      assert |Folded(a)| == |Folded(b)|;
    }
  }

  function NamesOf(files: seq<File>): (r: seq<Name>)
    ensures |r| == |files| && forall i :: 0 <= i < |files| ==> r[i] == files[i].name
  {
    seq(|files|, i requires 0 <= i < |files| => files[i].name)
  }

  datatype Located = Found(index: nat) | NotFound | InvalidParameter

  function Text(comment: Option<seq<Byte>>): seq<Byte> { if comment.Some? then comment.value else [] }

  /** mz_zip_reader_locate_file_v2: by the index where it serves, or else by a scan; either finds a file just if there is
      one, the scan the first, but names and comments too long for a directory are refused by the scan. */
  method LocateFile(files: seq<File>, indices: array<nat>, useIndex: bool, name: Name, comment: Option<seq<Byte>>, ignorePath: bool,
                    caseSensitive: bool)
    returns (r: Located)
    requires useIndex ==> Indexed(NamesOf(files), indices[..])
    ensures r.Found? ==> r.index < |files| && Matches(files[r.index], name, Text(comment), ignorePath, caseSensitive)
    ensures r == NotFound ==> forall i :: 0 <= i < |files| ==> !Matches(files[i], name, Text(comment), ignorePath, caseSensitive)
    ensures var scan := !useIndex || ignorePath || caseSensitive || comment.Some?;
            && (r == InvalidParameter <==> scan && (|name| > 65535 || |Text(comment)| > 65535))
            && (scan && r.Found? ==> forall i :: 0 <= i < r.index ==> !Matches(files[i], name, Text(comment), ignorePath, caseSensitive))
  {
    hide Folded, Indexed;
    if useIndex && !ignorePath && !caseSensitive && comment.None? {
      var found, index := BinarySearch(NamesOf(files), indices, name);
      ByName(files, name);
      return if found then Found(index) else NotFound;
    }
    var text := Text(comment);
    if |name| > 65535 || |text| > 65535 {
      return InvalidParameter;
    }
    for fileIndex := 0 to |files|
      invariant forall i :: 0 <= i < fileIndex ==> !Matches(files[i], name, text, ignorePath, caseSensitive)
    {
      var ok := FileMatches(files[fileIndex], name, text, ignorePath, caseSensitive);
      if ok {
        return Found(fileIndex);
      }
    }
    return NotFound;
  }

  lemma ByName(files: seq<File>, name: Name)
    ensures Exists(NamesOf(files), name) <==> exists i :: 0 <= i < |files| && Matches(files[i], name, [], false, false)
    ensures forall i :: 0 <= i < |files| ==> (Matches(files[i], name, [], false, false) <==> Folded(NamesOf(files)[i]) == Folded(name))
  {
    hide Folded;
    if Exists(NamesOf(files), name) {
      var f :| 0 <= f < |files| && Folded(NamesOf(files)[f]) == Folded(name);
      assert Matches(files[f], name, [], false, false);
    }
  }
}
