/** The inflater's decoding table as a value: a lookup table for the first bits of a code, and a binary tree for the rest
    of the longer ones, kept in an array of pairs. */
module DeflateTrie {
  import opened CodeLengths
  import opened DeflateCodes
  import opened Powers

  /** The two arrays, and which string of bits each pair of the tree stands for. */
  datatype Trie = Trie(lookup: seq<int>, tree: seq<int>, nodes: map<seq<Bit>, nat>)

  /** How a pair of the tree is referred to. */
  function Ref(n: nat): int { -1 - 2 * n }

  /** The entry of a short code: its size and its symbol. */
  function Entry(size: nat, i: nat): int { 512 * size + i }

  ghost predicate Short(sizes: seq<nat>, fast: nat, i: nat) { i < |sizes| && 1 <= sizes[i] <= fast }

  ghost predicate Long(sizes: seq<nat>, fast: nat, i: nat) { i < |sizes| && fast < sizes[i] <= 15 }

  /** q is a proper part of a long code, of at least `fast` bits. */
  ghost predicate Grounded(sizes: seq<nat>, fast: nat, m: nat, q: seq<Bit>) {
    fast <= |q| && exists i :: 0 <= i < m && Long(sizes, fast, i) && q < Path(sizes, i)
  }

  /** The nodes are parts of the first m codes, with numbers of their own, and closed under taking parts. */
  ghost predicate NodesOk(sizes: seq<nat>, fast: nat, m: nat, nodes: map<seq<Bit>, nat>) {
    && (forall q :: q in nodes ==> Grounded(sizes, fast, m, q) && nodes[q] < |nodes|)
    && (forall q, r :: q in nodes && r in nodes && nodes[q] == nodes[r] ==> q == r)
    && (forall q :: q in nodes && fast < |q| ==> q[..|q| - 1] in nodes)
  }

  /** What the lookup table holds for the bits q. */
  ghost predicate RootOk(sizes: seq<nat>, fast: nat, k: nat, t: Trie, q: seq<Bit>, v: int) {
    && (q in t.nodes ==> v == Ref(t.nodes[q]))
    && (forall i :: 0 <= i < k && Short(sizes, fast, i) && Path(sizes, i) <= q ==> v == Entry(sizes[i], i))
    && (q !in t.nodes && (forall i :: 0 <= i < k && Short(sizes, fast, i) ==> !(Path(sizes, i) <= q)) ==> v == 0)
  }

  ghost predicate RootsOk(sizes: seq<nat>, fast: nat, k: nat, t: Trie) {
    |t.lookup| == Pow2(fast) && forall x :: 0 <= x < |t.lookup| ==> RootOk(sizes, fast, k, t, LowBits(x, fast), t.lookup[x])
  }

  /** What the tree holds for the bits q. */
  ghost predicate SlotOk(sizes: seq<nat>, fast: nat, k: nat, t: Trie, q: seq<Bit>, v: int) {
    && (q in t.nodes ==> v == Ref(t.nodes[q]))
    && (forall i :: 0 <= i < k && Long(sizes, fast, i) && Path(sizes, i) == q ==> v == i)
    && (q !in t.nodes && (forall i :: 0 <= i < k && Long(sizes, fast, i) ==> Path(sizes, i) != q) ==> v == 0)
  }

  ghost predicate TreeOk(sizes: seq<nat>, fast: nat, k: nat, t: Trie) {
    && 2 * |t.nodes| <= |t.tree|
    && (forall q, b: Bit :: q in t.nodes && 2 * t.nodes[q] + b < |t.tree| ==> SlotOk(sizes, fast, k, t, q + [b], t.tree[2 * t.nodes[q] + b]))
    && (forall s :: 2 * |t.nodes| <= s < |t.tree| ==> t.tree[s] == 0)
  }

  /** The parts of the first k codes are there, from `fast` bits to all but one. */
  ghost predicate PathsOk(sizes: seq<nat>, fast: nat, k: nat, nodes: map<seq<Bit>, nat>) {
    forall i, d :: 0 <= i < k && Long(sizes, fast, i) && fast <= d < sizes[i] ==> Path(sizes, i)[..d] in nodes
  }

  /** The first k symbols have been entered; parts of the first m may have. */
  ghost predicate TrieOk(sizes: seq<nat>, fast: nat, k: nat, m: nat, t: Trie) {
    && Sized(sizes) && Fits(sizes) && k <= m <= |sizes|
    && NodesOk(sizes, fast, m, t.nodes) && RootsOk(sizes, fast, k, t) && TreeOk(sizes, fast, k, t) && PathsOk(sizes, fast, k, t.nodes)
  }

  // ---------- What does not begin with what ----------

  lemma NotPart(sizes: seq<nat>, i: nat, j: nat)
    requires Sized(sizes) && Fits(sizes) && i < |sizes| && j < |sizes| && i != j && 1 <= sizes[i] && 1 <= sizes[j]
    ensures !(Path(sizes, i) <= Path(sizes, j))
  {
    hide Code, Bits, First;
    if Path(sizes, i) <= Path(sizes, j) {
      PrefixFree(sizes, i, j);
    }
  }

  /** No code is part of what is part of another. */
  lemma NotPartOfNode(sizes: seq<nat>, fast: nat, m: nat, q: seq<Bit>, j: nat)
    requires Sized(sizes) && Fits(sizes) && Grounded(sizes, fast, m, q) && j < |sizes| && 1 <= sizes[j] && m <= |sizes|
    ensures !(Path(sizes, j) <= q)
  {
    hide Path, Fits;
    var i :| 0 <= i < m && Long(sizes, fast, i) && q < Path(sizes, i);
    if Path(sizes, j) <= q {
      assert Path(sizes, j) <= Path(sizes, i);
      if i != j {
        NotPart(sizes, j, i);
      }
    }
  }

  lemma NotBothParts(sizes: seq<nat>, i: nat, j: nat, q: seq<Bit>)
    requires Sized(sizes) && Fits(sizes) && i < |sizes| && j < |sizes| && 1 <= sizes[i] && 1 <= sizes[j]
    requires Path(sizes, i) <= q && Path(sizes, j) <= q
    ensures i == j
  {
    hide Path, Fits;
    if i != j {
      if sizes[i] <= sizes[j] {
        assert Path(sizes, i) == Path(sizes, j)[..sizes[i]];
        NotPart(sizes, i, j);
      } else {
        assert Path(sizes, j) == Path(sizes, i)[..sizes[j]];
        NotPart(sizes, j, i);
      }
    }
  }

  // ---------- Entering a short code ----------

  lemma GroundedLater(sizes: seq<nat>, fast: nat, m: nat, nodes: map<seq<Bit>, nat>)
    requires NodesOk(sizes, fast, m, nodes)
    ensures NodesOk(sizes, fast, m + 1, nodes)
  {
    hide Path;
    forall q | q in nodes
      ensures Grounded(sizes, fast, m + 1, q)
    {
      assert Grounded(sizes, fast, m, q);
    }
  }

  /** The tree does not care for a symbol that has no long code. */
  lemma {:induction false} TreeLater(sizes: seq<nat>, fast: nat, k: nat, t: Trie)
    requires TreeOk(sizes, fast, k, t) && !Long(sizes, fast, k)
    ensures TreeOk(sizes, fast, k + 1, t)
  {
    hide Path, SlotOk, Long;
    forall q, b: Bit | q in t.nodes && 2 * t.nodes[q] + b < |t.tree|
      ensures SlotOk(sizes, fast, k + 1, t, q + [b], t.tree[2 * t.nodes[q] + b])
    {
      SlotLater(sizes, fast, k, t, q + [b], t.tree[2 * t.nodes[q] + b]);
    }
  }

  lemma SlotLater(sizes: seq<nat>, fast: nat, k: nat, t: Trie, q: seq<Bit>, slot: int)
    requires SlotOk(sizes, fast, k, t, q, slot) && !Long(sizes, fast, k)
    ensures SlotOk(sizes, fast, k + 1, t, q, slot)
  {
    hide Path;
  }

  lemma TreeOfLookup(sizes: seq<nat>, fast: nat, k: nat, t: Trie, lookup: seq<int>)
    requires TreeOk(sizes, fast, k, t)
    ensures TreeOk(sizes, fast, k, t.(lookup := lookup))
  {
    hide Path;
    var t' := t.(lookup := lookup);
    forall q, b: Bit | q in t.nodes && 2 * t.nodes[q] + b < |t.tree|
      ensures SlotOk(sizes, fast, k, t', q + [b], t.tree[2 * t.nodes[q] + b])
    {
      assert SlotOk(sizes, fast, k, t, q + [b], t.tree[2 * t.nodes[q] + b]);
    }
  }

  lemma PathsLater(sizes: seq<nat>, fast: nat, k: nat, nodes: map<seq<Bit>, nat>)
    requires PathsOk(sizes, fast, k, nodes) && !Long(sizes, fast, k)
    ensures PathsOk(sizes, fast, k + 1, nodes)
  {
    hide Path;
  }

  lemma ShortEntered(sizes: seq<nat>, fast: nat, k: nat, t: Trie, lookup: seq<int>)
    requires TrieOk(sizes, fast, k, k, t) && k < |sizes| && Short(sizes, fast, k) && |lookup| == |t.lookup|
    requires forall x :: 0 <= x < |lookup| ==>
      lookup[x] == if Path(sizes, k) <= LowBits(x, fast) then Entry(sizes[k], k) else t.lookup[x]
    ensures TrieOk(sizes, fast, k + 1, k + 1, t.(lookup := lookup))
  {
    hide Path, LowBits, Fits, Grounded, TreeOk, RootOk, PathsOk;
    var t' := t.(lookup := lookup);
    forall x | 0 <= x < |lookup|
      ensures RootOk(sizes, fast, k + 1, t', LowBits(x, fast), lookup[x])
    {
      ShortRoot(sizes, fast, k, t, t', LowBits(x, fast), t.lookup[x]);
    }
    GroundedLater(sizes, fast, k, t.nodes);
    TreeLater(sizes, fast, k, t);
    TreeOfLookup(sizes, fast, k + 1, t, lookup);
    PathsLater(sizes, fast, k, t.nodes);
  }

  lemma ShortRoot(sizes: seq<nat>, fast: nat, k: nat, t: Trie, t': Trie, q: seq<Bit>, v: int)
    requires Sized(sizes) && Fits(sizes) && k < |sizes| && Short(sizes, fast, k) && t'.nodes == t.nodes
    requires RootOk(sizes, fast, k, t, q, v) && (q in t.nodes ==> Grounded(sizes, fast, k, q))
    ensures RootOk(sizes, fast, k + 1, t', q, if Path(sizes, k) <= q then Entry(sizes[k], k) else v)
  {
    hide Path, Fits, Grounded;
    if Path(sizes, k) <= q {
      if q in t.nodes {
        NotPartOfNode(sizes, fast, k, q, k);
      }
      forall i | 0 <= i < k && Short(sizes, fast, i)
        ensures !(Path(sizes, i) <= q)
      {
        if Path(sizes, i) <= q {
          NotBothParts(sizes, i, k, q);
        }
      }
    }
  }

  lemma RootsLater(sizes: seq<nat>, fast: nat, k: nat, t: Trie)
    requires RootsOk(sizes, fast, k, t) && !Short(sizes, fast, k)
    ensures RootsOk(sizes, fast, k + 1, t)
  {
    hide Path, LowBits;
    forall x | 0 <= x < |t.lookup|
      ensures RootOk(sizes, fast, k + 1, t, LowBits(x, fast), t.lookup[x])
    {
      assert RootOk(sizes, fast, k, t, LowBits(x, fast), t.lookup[x]);
    }
  }

  /** A symbol without a code changes nothing. */
  lemma NothingEntered(sizes: seq<nat>, fast: nat, k: nat, t: Trie)
    requires TrieOk(sizes, fast, k, k, t) && k < |sizes| && sizes[k] == 0
    ensures TrieOk(sizes, fast, k + 1, k + 1, t)
  {
    hide NodesOk, RootsOk, TreeOk, PathsOk, Fits;
    GroundedLater(sizes, fast, k, t.nodes);
    RootsLater(sizes, fast, k, t);
    TreeLater(sizes, fast, k, t);
    PathsLater(sizes, fast, k, t.nodes);
  }

  // ---------- Entering a long code ----------

  /** The parts of code k up to d bits are there. */
  ghost predicate Reached(sizes: seq<nat>, fast: nat, k: nat, d: nat, nodes: map<seq<Bit>, nat>) {
    Long(sizes, fast, k) && fast <= d < sizes[k] && forall e :: fast <= e <= d ==> Path(sizes, k)[..e] in nodes
  }

  lemma PartIsGrounded(sizes: seq<nat>, fast: nat, k: nat, d: nat)
    requires Long(sizes, fast, k) && fast <= d < sizes[k]
    ensures Grounded(sizes, fast, k + 1, Path(sizes, k)[..d])
  {
    hide Code, Bits;
  }

  /** A new node gets the next number. */
  function WithNode(t: Trie, q: seq<Bit>): Trie { t.(nodes := t.nodes[q := |t.nodes|]) }

  lemma NodesGrow(sizes: seq<nat>, fast: nat, m: nat, nodes: map<seq<Bit>, nat>, q: seq<Bit>)
    requires NodesOk(sizes, fast, m, nodes) && q !in nodes && Grounded(sizes, fast, m, q) && (fast < |q| ==> q[..|q| - 1] in nodes)
    ensures NodesOk(sizes, fast, m, nodes[q := |nodes|]) && |nodes[q := |nodes|]| == |nodes| + 1
  {
    hide Grounded;
  }

  lemma PathsGrow(sizes: seq<nat>, fast: nat, k: nat, nodes: map<seq<Bit>, nat>, q: seq<Bit>, n: nat)
    requires PathsOk(sizes, fast, k, nodes)
    ensures PathsOk(sizes, fast, k, nodes[q := n])
  {
    hide Path;
  }

  /** The new pair is empty, and nothing belongs there yet. */
  lemma NewPair(sizes: seq<nat>, fast: nat, k: nat, m: nat, t: Trie, q: seq<Bit>, b: Bit)
    requires TrieOk(sizes, fast, k, m, t) && q !in t.nodes && fast <= |q|
    ensures q + [b] !in t.nodes
    ensures forall i :: 0 <= i < k && Long(sizes, fast, i) ==> Path(sizes, i) != q + [b]
  {
    hide Path, Fits, Grounded, RootsOk, TreeOk;
    assert (q + [b])[..|q + [b]| - 1] == q;
    forall i | 0 <= i < k && Long(sizes, fast, i)
      ensures Path(sizes, i) != q + [b]
    {
      if |q| < sizes[i] {
        assert Path(sizes, i)[..|q|] in t.nodes;
      }
    }
  }

  /** The lookup table tells whether a long code's first bits have a node. */
  lemma RootTells(sizes: seq<nat>, fast: nat, k: nat, m: nat, t: Trie, x: nat)
    requires TrieOk(sizes, fast, k, m, t) && k < |sizes| && Long(sizes, fast, k) && x < |t.lookup|
    requires LowBits(x, fast) == Path(sizes, k)[..fast]
    ensures var q := Path(sizes, k)[..fast]; if q in t.nodes then t.lookup[x] == Ref(t.nodes[q]) else t.lookup[x] == 0
  {
    hide Path, LowBits, Fits, NodesOk, TreeOk, PathsOk;
    var q := Path(sizes, k)[..fast];
    assert RootOk(sizes, fast, k, t, q, t.lookup[x]);
    PartIsGrounded(sizes, fast, k, fast);
    forall i | 0 <= i < k && Short(sizes, fast, i)
      ensures !(Path(sizes, i) <= q)
    {
      NotPartOfNode(sizes, fast, k + 1, q, i);
    }
  }

  /** And the tree, whether its next part has. */
  lemma SlotTells(sizes: seq<nat>, fast: nat, k: nat, m: nat, t: Trie, d: nat)
    requires TrieOk(sizes, fast, k, m, t) && k < |sizes| && Long(sizes, fast, k) && fast <= d < sizes[k] - 1
    requires Path(sizes, k)[..d] in t.nodes
    ensures var q, s := Path(sizes, k)[..d + 1], 2 * t.nodes[Path(sizes, k)[..d]] + Path(sizes, k)[d];
            s < |t.tree| && if q in t.nodes then t.tree[s] == Ref(t.nodes[q]) else t.tree[s] == 0
  {
    hide Path, LowBits, TrieOk, Grounded, Long;
    var p, b := Path(sizes, k)[..d], Path(sizes, k)[d];
    assert p + [b] == Path(sizes, k)[..d + 1];
    PartIsGrounded(sizes, fast, k, d + 1);
    NoCodeIsPart(sizes, fast, k, m, t, p + [b]);
    SlotAt(sizes, fast, k, m, t, p, b);
  }

  lemma NoCodeIsPart(sizes: seq<nat>, fast: nat, k: nat, m: nat, t: Trie, q: seq<Bit>)
    requires TrieOk(sizes, fast, k, m, t) && k < |sizes| && Grounded(sizes, fast, k + 1, q)
    ensures forall i :: 0 <= i < k && Long(sizes, fast, i) ==> Path(sizes, i) != q
  {
    hide Path, Fits, NodesOk, RootsOk, PathsOk, TreeOk, Grounded;
    forall i | 0 <= i < k && Long(sizes, fast, i)
      ensures Path(sizes, i) != q
    {
      NotPartOfNode(sizes, fast, k + 1, q, i);
    }
  }

  /** One slot of the tree, taken from what holds of all. */
  lemma SlotAt(sizes: seq<nat>, fast: nat, k: nat, m: nat, t: Trie, r: seq<Bit>, b: Bit)
    requires TrieOk(sizes, fast, k, m, t) && r in t.nodes
    ensures 2 * t.nodes[r] + b < 2 * |t.nodes| <= |t.tree| && Grounded(sizes, fast, m, r)
    ensures SlotOk(sizes, fast, k, t, r + [b], t.tree[2 * t.nodes[r] + b])
    ensures forall p :: p in t.nodes && t.nodes[r] == t.nodes[p] ==> r == p
  {
    hide Path, SlotOk, Grounded, Fits, RootsOk, PathsOk;
  }

  /** The tree is in order if every slot is. */
  lemma AllSlots(sizes: seq<nat>, fast: nat, k: nat, t: Trie)
    requires 2 * |t.nodes| <= |t.tree| && forall s :: 2 * |t.nodes| <= s < |t.tree| ==> t.tree[s] == 0
    requires forall r, b: Bit :: r in t.nodes && 2 * t.nodes[r] + b < |t.tree| ==> SlotOk(sizes, fast, k, t, r + [b], t.tree[2 * t.nodes[r] + b])
    ensures TreeOk(sizes, fast, k, t)
  {
    hide SlotOk;
  }

  lemma FreeSlots(sizes: seq<nat>, fast: nat, k: nat, m: nat, t: Trie)
    requires TrieOk(sizes, fast, k, m, t)
    ensures forall s :: 2 * |t.nodes| <= s < |t.tree| ==> t.tree[s] == 0
  {
    hide SlotOk, RootsOk, NodesOk, PathsOk;
  }

  // ---------- A new node below the lookup table ----------

  function RootNode(t: Trie, q: seq<Bit>, x: nat): Trie
    requires x < |t.lookup|
  {
    WithNode(t, q).(lookup := t.lookup[x := Ref(|t.nodes|)])
  }

  lemma RootNodeRoots(sizes: seq<nat>, fast: nat, k: nat, t: Trie, q: seq<Bit>, x: nat)
    requires TrieOk(sizes, fast, k, k + 1, t) && k < |sizes| && Long(sizes, fast, k) && q == Path(sizes, k)[..fast]
    requires x < |t.lookup| && LowBits(x, fast) == q && q !in t.nodes
    ensures RootsOk(sizes, fast, k, RootNode(t, q, x))
  {
    hide Path, LowBits, Fits, NodesOk, TreeOk, PathsOk;
    var t' := RootNode(t, q, x);
    PartIsGrounded(sizes, fast, k, fast);
    forall i | 0 <= i < k && Short(sizes, fast, i)
      ensures !(Path(sizes, i) <= q)
    {
      NotPartOfNode(sizes, fast, k + 1, q, i);
    }
    forall y | 0 <= y < |t.lookup|
      ensures RootOk(sizes, fast, k, t', LowBits(y, fast), t'.lookup[y])
    {
      assert RootOk(sizes, fast, k, t, LowBits(y, fast), t.lookup[y]);
      if y != x {
        NumbersDiffer(x, y, fast);
      }
    }
  }

  lemma NumbersDiffer(x: nat, y: nat, n: nat)
    requires x < Pow2(n) && y < Pow2(n) && x != y
    ensures LowBits(x, n) != LowBits(y, n)
  {
    hide LowBits;
    BitsNumber(x, n);
    BitsNumber(y, n);
  }

  lemma RootNodeTree(sizes: seq<nat>, fast: nat, k: nat, t: Trie, q: seq<Bit>, x: nat)
    requires TrieOk(sizes, fast, k, k + 1, t) && |q| == fast && x < |t.lookup| && q !in t.nodes && 2 * |t.nodes| + 2 <= |t.tree|
    ensures TreeOk(sizes, fast, k, RootNode(t, q, x))
  {
    hide TrieOk, TreeOk, SlotOk, Grounded;
    FreeSlots(sizes, fast, k, k + 1, t);
    var t' := RootNode(t, q, x);
    assert |t'.nodes| == |t.nodes| + 1;
    forall r, b: Bit | r in t'.nodes && 2 * t'.nodes[r] + b < |t'.tree|
      ensures SlotOk(sizes, fast, k, t', r + [b], t'.tree[2 * t'.nodes[r] + b])
    {
      if r == q {
        NewPair(sizes, fast, k, k + 1, t, q, b);
        NotItsOwnPart(q, b);
        EmptySlot(sizes, fast, k, t', q + [b]);
      } else {
        SlotAt(sizes, fast, k, k + 1, t, r, b);
        LongerThan(sizes, fast, k + 1, r, b, q);
        SlotOfMore(sizes, fast, k, t, t', r + [b], t.tree[2 * t.nodes[r] + b], q);
      }
    }
    AllSlots(sizes, fast, k, t');
  }

  lemma SlotOfMore(sizes: seq<nat>, fast: nat, k: nat, t: Trie, t': Trie, r: seq<Bit>, v: int, q: seq<Bit>)
    requires SlotOk(sizes, fast, k, t, r, v) && t'.nodes == t.nodes[q := |t.nodes|] && r != q
    ensures SlotOk(sizes, fast, k, t', r, v)
  {
    hide Path;
  }

  lemma LongerThan(sizes: seq<nat>, fast: nat, m: nat, r: seq<Bit>, b: Bit, q: seq<Bit>)
    requires Grounded(sizes, fast, m, r) && |q| == fast
    ensures r + [b] != q
  {
  }

  lemma RootAllocated(sizes: seq<nat>, fast: nat, k: nat, t: Trie, q: seq<Bit>, x: nat)
    requires TrieOk(sizes, fast, k, k + 1, t) && k < |sizes| && Long(sizes, fast, k) && q == Path(sizes, k)[..fast]
    requires x < |t.lookup| && LowBits(x, fast) == q && q !in t.nodes && 2 * |t.nodes| + 2 <= |t.tree|
    ensures TrieOk(sizes, fast, k, k + 1, RootNode(t, q, x))
  {
    hide Path, LowBits, Fits, RootsOk, PathsOk, NodesOk, TreeOk;
    RootNodeRoots(sizes, fast, k, t, q, x);
    RootNodeTree(sizes, fast, k, t, q, x);
    PartIsGrounded(sizes, fast, k, fast);
    NodesGrow(sizes, fast, k + 1, t.nodes, q);
    PathsGrow(sizes, fast, k, t.nodes, q, |t.nodes|);
  }

  // ---------- A new node below another ----------

  /** The node q hangs below the node for all of its bits but the last. */
  function SlotNode(t: Trie, q: seq<Bit>, s: nat): Trie
    requires s < |t.tree|
  {
    WithNode(t, q).(tree := t.tree[s := Ref(|t.nodes|)])
  }

  lemma SlotNodeRoots(sizes: seq<nat>, fast: nat, k: nat, t: Trie, q: seq<Bit>, s: nat)
    requires RootsOk(sizes, fast, k, t) && fast < |q| && s < |t.tree|
    ensures RootsOk(sizes, fast, k, SlotNode(t, q, s))
  {
    hide Path, LowBits;
    var t' := SlotNode(t, q, s);
    forall x | 0 <= x < |t.lookup|
      ensures RootOk(sizes, fast, k, t', LowBits(x, fast), t'.lookup[x])
    {
      assert RootOk(sizes, fast, k, t, LowBits(x, fast), t.lookup[x]);
    }
  }

  lemma SlotNodeTree(sizes: seq<nat>, fast: nat, k: nat, t: Trie, q: seq<Bit>, p: seq<Bit>, c: Bit)
    requires TrieOk(sizes, fast, k, k + 1, t) && k < |sizes| && q == p + [c] && p in t.nodes && q !in t.nodes && fast < |q|
    requires Grounded(sizes, fast, k + 1, q) && 2 * |t.nodes| + 2 <= |t.tree|
    ensures 2 * t.nodes[p] + c < |t.tree| && TreeOk(sizes, fast, k, SlotNode(t, q, 2 * t.nodes[p] + c))
  {
    hide Path, TrieOk, TreeOk, SlotOk, Grounded, Long;
    FreeSlots(sizes, fast, k, k + 1, t);
    SlotAt(sizes, fast, k, k + 1, t, p, c);
    NoCodeIs(sizes, fast, k, k + 1, t, q);
    var t' := SlotNode(t, q, 2 * t.nodes[p] + c);
    assert |t'.nodes| == |t.nodes| + 1;
    forall r, b: Bit | r in t'.nodes && 2 * t'.nodes[r] + b < |t'.tree|
      ensures SlotOk(sizes, fast, k, t', r + [b], t'.tree[2 * t'.nodes[r] + b])
    {
      if r == q {
        NewPair(sizes, fast, k, k + 1, t, q, b);
        NotItsOwnPart(q, b);
        EmptySlot(sizes, fast, k, t', q + [b]);
      } else {
        SlotAt(sizes, fast, k, k + 1, t, r, b);
        SlotOfOther(sizes, fast, k, t, q, p, c, r, b);
      }
    }
    AllSlots(sizes, fast, k, t');
  }

  lemma NoCodeIs(sizes: seq<nat>, fast: nat, k: nat, m: nat, t: Trie, q: seq<Bit>)
    requires TrieOk(sizes, fast, k, m, t) && Grounded(sizes, fast, m, q)
    ensures forall i :: 0 <= i < k && Long(sizes, fast, i) ==> Path(sizes, i) != q
  {
    hide Path, Fits, NodesOk, RootsOk, PathsOk, TreeOk, Grounded;
    forall i | 0 <= i < k && Long(sizes, fast, i)
      ensures Path(sizes, i) != q
    {
      NotPartOfNode(sizes, fast, m, q, i);
    }
  }

  /** The slots of another node, of which one may be where the new node hangs. */
  lemma SlotOfOther(sizes: seq<nat>, fast: nat, k: nat, t: Trie, q: seq<Bit>, p: seq<Bit>, c: Bit, r: seq<Bit>, b: Bit)
    requires q == p + [c] && p in t.nodes && q !in t.nodes && r in t.nodes && (t.nodes[r] == t.nodes[p] ==> r == p)
    requires 2 * t.nodes[p] + c < |t.tree| && 2 * t.nodes[r] + b < |t.tree|
    requires SlotOk(sizes, fast, k, t, r + [b], t.tree[2 * t.nodes[r] + b])
    requires forall i :: 0 <= i < k && Long(sizes, fast, i) ==> Path(sizes, i) != q
    ensures var t' := SlotNode(t, q, 2 * t.nodes[p] + c); SlotOk(sizes, fast, k, t', r + [b], t'.tree[2 * t.nodes[r] + b])
  {
    hide Path, Long;
    OnlyThere(r, b, p, c);
  }

  lemma EmptySlot(sizes: seq<nat>, fast: nat, k: nat, t: Trie, q: seq<Bit>)
    requires q !in t.nodes && forall i :: 0 <= i < k && Long(sizes, fast, i) ==> Path(sizes, i) != q
    ensures SlotOk(sizes, fast, k, t, q, 0)
  {
    hide Path;
  }

  lemma NotItsOwnPart(q: seq<Bit>, b: Bit)
    ensures q + [b] != q
  {
    assert |q + [b]| == |q| + 1;
  }

  lemma OnlyThere(r: seq<Bit>, b: Bit, p: seq<Bit>, c: Bit)
    ensures r + [b] == p + [c] ==> r == p && b == c
  {
    assert (r + [b])[..|r|] == r && (r + [b])[|r|] == b && |r + [b]| == |r| + 1;
    assert (p + [c])[..|p|] == p && (p + [c])[|p|] == c && |p + [c]| == |p| + 1;
  }

  lemma SlotAllocated(sizes: seq<nat>, fast: nat, k: nat, t: Trie, d: nat)
    requires TrieOk(sizes, fast, k, k + 1, t) && k < |sizes| && Long(sizes, fast, k) && fast <= d < sizes[k] - 1
    requires Path(sizes, k)[..d] in t.nodes && Path(sizes, k)[..d + 1] !in t.nodes && 2 * |t.nodes| + 2 <= |t.tree|
    ensures var s := 2 * t.nodes[Path(sizes, k)[..d]] + Path(sizes, k)[d];
            s < |t.tree| && TrieOk(sizes, fast, k, k + 1, SlotNode(t, Path(sizes, k)[..d + 1], s))
  {
    hide Path, LowBits, Fits, RootsOk, PathsOk, NodesOk, TreeOk;
    var p, c, q := Path(sizes, k)[..d], Path(sizes, k)[d], Path(sizes, k)[..d + 1];
    assert q == p + [c] && q[..|q| - 1] == p;
    PartIsGrounded(sizes, fast, k, d + 1);
    SlotNodeTree(sizes, fast, k, t, q, p, c);
    SlotNodeRoots(sizes, fast, k, t, q, 2 * t.nodes[p] + c);
    NodesGrow(sizes, fast, k + 1, t.nodes, q);
    PathsGrow(sizes, fast, k, t.nodes, q, |t.nodes|);
  }

  // ---------- The leaf ----------

  lemma LeafTree(sizes: seq<nat>, fast: nat, k: nat, t: Trie, p: seq<Bit>, c: Bit)
    requires TrieOk(sizes, fast, k, k + 1, t) && k < |sizes| && Long(sizes, fast, k) && Path(sizes, k) == p + [c] && p in t.nodes
    ensures 2 * t.nodes[p] + c < |t.tree| && TreeOk(sizes, fast, k + 1, t.(tree := t.tree[2 * t.nodes[p] + c := k]))
  {
    hide Path, TrieOk, TreeOk, SlotOk, Grounded, NodesOk, Fits;
    FreeSlots(sizes, fast, k, k + 1, t);
    SlotAt(sizes, fast, k, k + 1, t, p, c);
    TrieParts(sizes, fast, k, k + 1, t);
    CodeIsNoNode(sizes, fast, k + 1, t.nodes, k);
    var t' := t.(tree := t.tree[2 * t.nodes[p] + c := k]);
    forall r, b: Bit | r in t'.nodes && 2 * t'.nodes[r] + b < |t'.tree|
      ensures SlotOk(sizes, fast, k + 1, t', r + [b], t'.tree[2 * t'.nodes[r] + b])
    {
      SlotAt(sizes, fast, k, k + 1, t, r, b);
      SlotOfLeaf(sizes, fast, k, t, p, c, r, b);
    }
    AllSlots(sizes, fast, k + 1, t');
  }

  lemma TrieParts(sizes: seq<nat>, fast: nat, k: nat, m: nat, t: Trie)
    requires TrieOk(sizes, fast, k, m, t)
    ensures Sized(sizes) && Fits(sizes) && m <= |sizes| && NodesOk(sizes, fast, m, t.nodes) && RootsOk(sizes, fast, k, t)
    ensures |t.lookup| == Pow2(fast) && 2 * |t.nodes| <= |t.tree|
  {
    hide NodesOk, PathsOk, Fits, RootOk, SlotOk;
  }

  lemma SlotOfLeaf(sizes: seq<nat>, fast: nat, k: nat, t: Trie, p: seq<Bit>, c: Bit, r: seq<Bit>, b: Bit)
    requires Sized(sizes) && Fits(sizes) && k < |sizes| && Long(sizes, fast, k) && Path(sizes, k) == p + [c] && Path(sizes, k) !in t.nodes
    requires p in t.nodes && r in t.nodes && (t.nodes[r] == t.nodes[p] ==> r == p)
    requires 2 * t.nodes[p] + c < |t.tree| && 2 * t.nodes[r] + b < |t.tree|
    requires SlotOk(sizes, fast, k, t, r + [b], t.tree[2 * t.nodes[r] + b])
    ensures var t' := t.(tree := t.tree[2 * t.nodes[p] + c := k]); SlotOk(sizes, fast, k + 1, t', r + [b], t'.tree[2 * t.nodes[r] + b])
  {
    hide Path, Fits;
    OnlyThere(r, b, p, c);
    forall i | 0 <= i < k && Long(sizes, fast, i)
      ensures Path(sizes, i) != Path(sizes, k)
    {
      NotPart(sizes, i, k);
    }
  }

  lemma CodeIsNoNode(sizes: seq<nat>, fast: nat, m: nat, nodes: map<seq<Bit>, nat>, k: nat)
    requires Sized(sizes) && Fits(sizes) && m <= |sizes| && NodesOk(sizes, fast, m, nodes) && Long(sizes, fast, k)
    ensures Path(sizes, k) !in nodes
  {
    hide Path, Fits, Grounded;
    if Path(sizes, k) in nodes {
      NotPartOfNode(sizes, fast, m, Path(sizes, k), k);
    }
  }

  lemma LeafStored(sizes: seq<nat>, fast: nat, k: nat, t: Trie)
    requires TrieOk(sizes, fast, k, k + 1, t) && k < |sizes| && Long(sizes, fast, k) && Reached(sizes, fast, k, sizes[k] - 1, t.nodes)
    ensures var s := 2 * t.nodes[Path(sizes, k)[..sizes[k] - 1]] + Path(sizes, k)[sizes[k] - 1];
            s < |t.tree| && TrieOk(sizes, fast, k + 1, k + 1, t.(tree := t.tree[s := k]))
  {
    hide Path, LowBits, Fits, RootsOk, NodesOk, TreeOk;
    var n := sizes[k];
    var p, c := Path(sizes, k)[..n - 1], Path(sizes, k)[n - 1];
    assert Path(sizes, k) == p + [c];
    LeafTree(sizes, fast, k, t, p, c);
    RootsLater(sizes, fast, k, t);
    RootsOfTree(sizes, fast, k + 1, t, t.tree[2 * t.nodes[p] + c := k]);
  }

  lemma RootsOfTree(sizes: seq<nat>, fast: nat, k: nat, t: Trie, tree: seq<int>)
    requires RootsOk(sizes, fast, k, t)
    ensures RootsOk(sizes, fast, k, t.(tree := tree))
  {
    hide Path, LowBits;
    var t' := t.(tree := tree);
    forall x | 0 <= x < |t.lookup|
      ensures RootOk(sizes, fast, k, t', LowBits(x, fast), t'.lookup[x])
    {
      assert RootOk(sizes, fast, k, t, LowBits(x, fast), t.lookup[x]);
    }
  }
}
