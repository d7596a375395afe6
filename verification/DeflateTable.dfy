/** The inflater's decoding tables (miniz.c): built in place from the code sizes, and decoding with them. */
module DeflateTable {
  import opened CodeLengths
  import opened DeflateCodes
  import opened DeflateTrie
  import opened Powers

  // ---------- The tree is big enough ----------

  lemma {:induction false} InjectiveIsSmall(g: map<seq<Bit>, nat>, n: nat)
    requires forall q :: q in g ==> g[q] < n
    requires forall q, r :: q in g && r in g && g[q] == g[r] ==> q == r
    ensures |g| <= n
    decreases n
  {
    if n == 0 {
      assert g.Keys == {};
    } else if exists q :: q in g && g[q] == n - 1 {
      var q :| q in g && g[q] == n - 1;
      var h := map r | r in g && r != q :: g[r];
      assert g.Keys == h.Keys + {q};
      InjectiveIsSmall(h, n - 1);
    } else {
      InjectiveIsSmall(g, n - 1);
    }
  }

  function Ones(n: nat): (r: seq<Bit>)
    ensures |r| == n && forall i :: 0 <= i < n ==> r[i] == 1
  {
    if n == 0 then [] else Ones(n - 1) + [1]
  }

  /** The bits that go left of q's middle and then right: the code that they begin with is q's neighbour. */
  function Leftward(q: seq<Bit>): (r: seq<Bit>)
    requires |q| <= 14
    ensures |r| == 15 && q < r && r[|q|] == 0 && forall i :: |q| < i < 15 ==> r[i] == 1
  {
    q + [0] + Ones(14 - |q|)
  }

  /** Every inner node has a code just left of its middle, and no other node has the same. */
  ghost predicate Neighbour(sizes: seq<nat>, q: seq<Bit>, i: nat) {
    |q| <= 14 && i < |sizes| && 1 <= sizes[i] <= 15 && q < Path(sizes, i) && Path(sizes, i) <= Leftward(q)
  }

  lemma HasNeighbour(sizes: seq<nat>, fast: nat, m: nat, q: seq<Bit>)
    requires Sized(sizes) && Full(sizes) && m <= |sizes| && Grounded(sizes, fast, m, q)
    ensures exists i :: Neighbour(sizes, q, i)
  {
    hide Path;
    NodeLength(sizes, fast, m, q);
    var b := Leftward(q);
    var i := PathComes(sizes, b);
    NotPartOfNode(sizes, fast, m, q, i);
    assert b[..sizes[i]] == Path(sizes, i) <= b;
    TwoParts(Path(sizes, i), q, b);
    assert Neighbour(sizes, q, i);
  }

  lemma TwoParts(p: seq<Bit>, q: seq<Bit>, b: seq<Bit>)
    requires p <= b && q <= b
    ensures if |p| <= |q| then p <= q else q < p
  {
    assert p == b[..|p|] && q == b[..|q|];
  }

  lemma NodeLength(sizes: seq<nat>, fast: nat, m: nat, q: seq<Bit>)
    requires Grounded(sizes, fast, m, q)
    ensures |q| <= 14
  {
  }

  lemma NeighboursDiffer(sizes: seq<nat>, q: seq<Bit>, r: seq<Bit>, i: nat)
    requires Neighbour(sizes, q, i) && Neighbour(sizes, r, i)
    ensures q == r
  {
    hide Path;
    var p := Path(sizes, i);
    RightOfMiddle(q, p, |r|);
    RightOfMiddle(r, p, |q|);
    assert p[..|q|] == q && p[..|r|] == r;
  }

  /** Behind the middle, the bits are 1; there, it is 0. */
  lemma RightOfMiddle(q: seq<Bit>, p: seq<Bit>, k: nat)
    requires |q| <= 14 && q < p <= Leftward(q) && k < |p|
    ensures k > |q| ==> p[k] == 1
    ensures p[|q|] == 0
  {
    assert p[k] == Leftward(q)[k] && p[|q|] == Leftward(q)[|q|];
  }

  /** Only one symbol has a code. */
  ghost predicate OnlyOne(sizes: seq<nat>) {
    forall i, j :: 0 <= i < |sizes| && 0 <= j < |sizes| && 1 <= sizes[i] && 1 <= sizes[j] ==> i == j
  }

  lemma PartsOfOne(sizes: seq<nat>, fast: nat, m: nat, q: seq<Bit>, r: seq<Bit>)
    requires OnlyOne(sizes) && m <= |sizes| && Grounded(sizes, fast, m, q) && Grounded(sizes, fast, m, r) && |q| == |r|
    ensures q == r
  {
    hide Path;
    var i :| 0 <= i < m && Long(sizes, fast, i) && q < Path(sizes, i);
    var j :| 0 <= j < m && Long(sizes, fast, j) && r < Path(sizes, j);
    assert i == j;
    assert q == Path(sizes, i)[..|q|] && r == Path(sizes, i)[..|r|];
  }

  ghost function NeighbourOf(sizes: seq<nat>, fast: nat, m: nat, q: seq<Bit>): (i: nat)
    requires Sized(sizes) && Full(sizes) && m <= |sizes| && Grounded(sizes, fast, m, q)
    ensures Neighbour(sizes, q, i)
  {
    HasNeighbour(sizes, fast, m, q);
    var i :| Neighbour(sizes, q, i);
    i
  }

  /** There are no more nodes than symbols, or than bits in one code. */
  lemma NodesFew(sizes: seq<nat>, fast: nat, m: nat, nodes: map<seq<Bit>, nat>, n: nat)
    requires Sized(sizes) && (Full(sizes) || OnlyOne(sizes)) && m <= |sizes| <= n && 15 <= n && NodesOk(sizes, fast, m, nodes)
    ensures |nodes| <= n
  {
    hide Path, Full, OnlyOne, Grounded, Neighbour;
    if Full(sizes) {
      var g := map q | q in nodes :: NeighbourOf(sizes, fast, m, q);
      forall q, r | q in g && r in g && g[q] == g[r]
        ensures q == r
      {
        NeighboursDiffer(sizes, q, r, g[q]);
      }
      forall q | q in g
        ensures g[q] < n
      {
        NeighbourBound(sizes, q, g[q]);
      }
      InjectiveIsSmall(g, n);
      assert g.Keys == nodes.Keys;
    } else {
      var g := map q | q in nodes :: |q|;
      forall q, r | q in g && r in g && g[q] == g[r]
        ensures q == r
      {
        PartsOfOne(sizes, fast, m, q, r);
      }
      forall q | q in g
        ensures g[q] < n
      {
        NodeLength(sizes, fast, m, q);
      }
      InjectiveIsSmall(g, n);
      assert g.Keys == nodes.Keys;
    }
  }

  lemma NeighbourBound(sizes: seq<nat>, q: seq<Bit>, i: nat)
    requires Neighbour(sizes, q, i)
    ensures i < |sizes|
  {
  }

  // ---------- Codes in the deflater and the inflater ----------

  lemma {:induction false} NumberFirst(b: Bit, rest: seq<Bit>)
    ensures Number([b] + rest) == b + 2 * Number(rest)
  {
    assert ([b] + rest)[1..] == rest;
  }

  lemma BitsLast(c: nat, n: nat, k: nat)
    requires k < n
    ensures Bits(c, n)[n - 1 - k] == c / Pow2(k) % 2
    decreases k
  {
    if k != 0 {
      BitsLast(c / 2, n - 1, k - 1);
      DivDiv(c, 2, Pow2(k - 1));
    }
  }

  /** A code of n bits, reversed. */
  method Reverse(code: nat, n: nat) returns (rev: nat)
    requires code < Pow2(n)
    ensures rev == Number(Bits(code, n)) && rev < Pow2(n)
  {
    hide Bits, Number, Pow2;
    ghost var b := Bits(code, n);
    var cur: nat, l: nat := code, n;
    rev := 0;
    assert b[n..] == [];
    NumberOfNone();
    PowOfNone(code);
    while l > 0
      invariant l <= n && rev == Number(b[l..]) && cur == code / Pow2(n - l)
    {
      PowPositive(n - l);
      BitsLast(code, n, n - l);
      assert b[l - 1..] == [b[l - 1]] + b[l..];
      NumberFirst(b[l - 1], b[l..]);
      NextQuotient(code, n - l);
      rev := rev * 2 + cur % 2;
      cur := cur / 2;
      l := l - 1;
    }
    assert b[0..] == b;
    NumberBits(b);
  }

  lemma NumberOfNone()
    ensures Number([]) == 0
  {
  }

  lemma NextQuotient(x: nat, k: nat)
    ensures x / Pow2(k) / 2 == x / Pow2(k + 1)
  {
    hide Pow2;
    PowPositive(k);
    PowerNext(k);
    HalfOfQuotient(x, Pow2(k));
  }

  lemma PowerNext(k: nat)
    ensures Pow2(k + 1) == 2 * Pow2(k)
  {
  }

  /** The deflater's codes (tdefl_optimize_huffman_table): the bits of each code in the order of the stream. */
  method AssignCodes(sizes: array<nat>, limit: nat, numCodes: array<nat>, codes: array<nat>)
    requires codes.Length == sizes.Length && codes != sizes && codes != numCodes && Fits(sizes[..])
    requires 1 <= limit <= 15 && limit < numCodes.Length && forall l :: 1 <= l <= limit ==> numCodes[l] == Histo(sizes[..], l)
    requires forall i :: 0 <= i < sizes.Length ==> sizes[i] <= limit
    modifies codes
    ensures forall i :: 0 <= i < sizes.Length && 1 <= sizes[i] ==> codes[i] == Number(Path(sizes[..], i))
  {
    hide Histo, First, Number, Bits, Fits;
    ghost var s := sizes[..];
    var nextCode := new nat[limit + 1](_ => 0);
    FirstOfOne(s);
    var j := 0;
    for i := 2 to limit + 1
      invariant j == First(s, i - 1) && forall l :: 1 <= l < i ==> nextCode[l] == First(s, l)
    {
      FirstNext(s, i);
      j := (j + numCodes[i - 1]) * 2;
      nextCode[i] := j;
    }
    HistoOfNone(s);
    for i := 0 to sizes.Length
      invariant sizes[..] == s
      invariant forall l :: 1 <= l <= limit ==> nextCode[l] == First(s, l) + Histo(s[..i], l)
      invariant forall k :: 0 <= k < i && 1 <= s[k] ==> codes[k] == Number(Path(s, k))
    {
      var size := sizes[i];
      HistoNextAll(s, i);
      if size != 0 {
        CodeBound(s, i);
        codes[i] := Reverse(nextCode[size], size);
        nextCode[size] := nextCode[size] + 1;
      }
    }
  }

  lemma FirstOfOne(sizes: seq<nat>)
    ensures First(sizes, 1) == 0
  {
  }

  lemma FirstNext(sizes: seq<nat>, l: nat)
    requires 2 <= l
    ensures First(sizes, l) == 2 * (First(sizes, l - 1) + Histo(sizes, l - 1))
  {
    hide Histo;
  }

  lemma HistoNextAll(sizes: seq<nat>, i: nat)
    requires i < |sizes|
    ensures forall l :: Histo(sizes[..i + 1], l) == Histo(sizes[..i], l) + if sizes[i] == l then 1 else 0
  {
    hide Histo;
    forall l: nat
      ensures Histo(sizes[..i + 1], l) == Histo(sizes[..i], l) + if sizes[i] == l then 1 else 0
    {
      HistoNext(sizes, i, l);
    }
  }

  // ---------- The table ----------

  /** A code comes in the low bits of the buffer. */
  ghost predicate Comes(sizes: seq<nat>, bitBuf: nat, i: nat) {
    i < |sizes| && 1 <= sizes[i] <= 15 && LowBits(bitBuf, sizes[i]) == Path(sizes, i)
  }

  class Table {
    /** TINFL_FAST_LOOKUP_BITS. */
    const fast: nat
    const sizes: array<nat>
    const lookup: array<int>
    const tree: array<int>
    /** Which bits each pair of the tree stands for. */
    ghost var nodes: map<seq<Bit>, nat>

    ghost predicate Valid() {
      && 1 <= fast <= 15 && sizes.Length <= 512 && lookup.Length == Pow2(fast)
      && 2 * sizes.Length <= tree.Length && 30 <= tree.Length
      && lookup != tree
    }

    constructor (fast: nat, numSyms: nat, treeSize: nat)
      requires 1 <= fast <= 15 && numSyms <= 512 && 2 * numSyms <= treeSize && 30 <= treeSize
      ensures Valid() && this.fast == fast && sizes.Length == numSyms && fresh(sizes) && fresh(lookup) && fresh(tree)
    {
      this.fast := fast;
      sizes := new nat[numSyms];
      lookup := new int[Pow2(fast)];
      tree := new int[treeSize];
    }

    ghost function View(): Trie
      reads this, lookup, tree
    {
      Trie(lookup[..], tree[..], nodes)
    }

    /** k symbols have been entered, and parts of the codes of m. */
    ghost predicate Entered(k: nat, m: nat)
      reads this, sizes, lookup, tree
    {
      TrieOk(sizes[..], fast, k, m, View())
    }

    /** The check of the code sizes, with the first codes of all sizes. */
    method CheckSizes() returns (ok: bool, nextCode: seq<nat>)
      requires Valid() && Sized(sizes[..])
      ensures |nextCode| == 17 && forall l :: 1 <= l <= 15 ==> nextCode[l] == First(sizes[..], l)
      ensures ok ==> Fits(sizes[..]) && (Full(sizes[..]) || OnlyOne(sizes[..]))
      ensures !ok ==> !Full(sizes[..]) && !OnlyOne(sizes[..])
    {
      hide Histo, First, OnlyOne;
      ghost var s := sizes[..];
      var totalSyms := CountSizes();
      assert sizes[..] == s;
      var usedSyms, total := 0, 0;
      nextCode := [0, 0];
      FirstOfOne(s);
      for i := 1 to 16
        invariant |nextCode| == i + 1 && total == First(s, i)
        invariant forall l :: 1 <= l <= i ==> nextCode[l] == First(s, l)
        invariant usedSyms == UsedUpTo(s, i - 1) && forall l :: 0 <= l <= 15 ==> totalSyms[l] == Histo(s, l)
      {
        FirstAfter(s, i);
        usedSyms := usedSyms + totalSyms[i];
        total := (total + totalSyms[i]) * 2;
        nextCode := nextCode + [total];
      }
      FirstAfter(s, 15);
      OneUsed(s);
      ok := total == 0x1_0000 || usedSyms <= 1;
    }

    /** Before anything has been entered, both arrays are cleared. */
    method ClearTables()
      requires Valid() && Sized(sizes[..]) && Fits(sizes[..])
      modifies this`nodes, lookup, tree
      ensures Entered(0, 0) && |nodes| == 0
    {
      for i := 0 to lookup.Length
        invariant forall x :: 0 <= x < i ==> lookup[x] == 0
      {
        lookup[i] := 0;
      }
      for i := 0 to tree.Length
        invariant forall x :: 0 <= x < i ==> tree[x] == 0
        invariant forall x :: 0 <= x < lookup.Length ==> lookup[x] == 0
      {
        tree[i] := 0;
      }
      nodes := map[];
      NothingThere(sizes[..], fast, View());
    }

    /** All entries whose low bits are a short code. */
    method FillLookup(ghost k: nat, rev: nat, size: nat, entry: int)
      requires Valid() && 1 <= size <= fast && rev < Pow2(size)
      modifies lookup
      ensures forall x :: 0 <= x < lookup.Length ==>
        lookup[x] == if LowBits(x, size) == LowBits(rev, size) then entry else old(lookup[x])
    {
      hide LowBits, Pow2;
      PowPositive(size);
      var x := rev;
      StepsBack(rev, size);
      while x < lookup.Length
        invariant x % Pow2(size) == rev
        invariant forall y :: 0 <= y < lookup.Length ==>
          lookup[y] == if y < x && y % Pow2(size) == rev then entry else old(lookup[y])
      {
        NextStep(x, Pow2(size), rev);
        lookup[x] := entry;
        x := x + Pow2(size);
      }
      forall y | 0 <= y < lookup.Length
        ensures y % Pow2(size) == rev <==> LowBits(y, size) == LowBits(rev, size)
      {
        SameLowBits(y, rev, size);
      }
    }

    /** Where bit d of a long code leads from the node of the bits before. */
    ghost predicate At(k: nat, d: nat, cur: int)
      reads this, sizes
    {
      var s := sizes[..];
      && k < |s| && Long(s, fast, k) && fast <= d < s[k]
      && Path(s, k)[..d] in nodes && cur == Ref(nodes[Path(s, k)[..d]]) && Reached(s, fast, k, d, nodes)
    }

    /** The node for the first bits of a long code, which may be a new one. */
    method RootOf(k: nat, rev: nat, treeNext: int) returns (cur: int, next: int)
      requires Valid() && k < sizes.Length && Long(sizes[..], fast, k) && Entered(k, k + 1) && SizesGood(sizes[..])
      requires rev == Number(Path(sizes[..], k)) && treeNext == Ref(|nodes|)
      modifies this`nodes, lookup
      ensures Entered(k, k + 1) && next == Ref(|nodes|) && At(k, fast, cur)
    {
      hide Path, TrieOk, Number, LowBits, SizesGood, Pow2, NodesOk, RootsOk, TreeOk, PathsOk, RootOk;
      ghost var s, t := sizes[..], View();
      ghost var q := Path(s, k)[..fast];
      TrieParts(s, fast, k, k + 1, t);
      PowPositive(fast);
      var x := rev % Pow2(fast);
      LowPart(Path(s, k), fast, rev);
      RootTells(s, fast, k, k + 1, t, x);
      cur, next := lookup[x], treeNext;
      if lookup[x] == 0 {
        RoomForOne(s, fast, k, k + 1, t, fast, tree.Length);
        RootAllocated(s, fast, k, t, q, x);
        lookup[x] := treeNext;
        cur := treeNext;
        next := treeNext - 2;
        nodes := nodes[q := |nodes|];
        assert View() == RootNode(t, q, x);
      }
      ReachedRoot(s, fast, k, nodes);
    }

    /** One bit further down. */
    method Descend(k: nat, ghost d: nat, bit: Bit, cur: int, treeNext: int) returns (cur': int, next: int)
      requires Valid() && k < sizes.Length && Entered(k, k + 1) && SizesGood(sizes[..]) && At(k, d, cur)
      requires d + 1 < sizes[k] && bit == Path(sizes[..], k)[d] && treeNext == Ref(|nodes|)
      modifies this`nodes, tree
      ensures Entered(k, k + 1) && next == Ref(|nodes|) && At(k, d + 1, cur')
    {
      hide Path, TrieOk, LowBits, SizesGood;
      ghost var s, t := sizes[..], View();
      ghost var q := Path(s, k)[..d + 1];
      SlotTells(s, fast, k, k + 1, t, d);
      cur', next := cur - bit, treeNext;
      var slot := -cur' - 1;
      if tree[slot] == 0 {
        RoomForOne(s, fast, k, k + 1, t, d + 1, tree.Length);
        SlotAllocated(s, fast, k, t, d);
        tree[slot] := treeNext;
        cur' := treeNext;
        next := treeNext - 2;
        nodes := nodes[q := |nodes|];
        assert View() == SlotNode(t, q, slot);
      } else {
        cur' := tree[slot];
      }
      ReachedNext(s, fast, k, d, t.nodes, nodes);
    }

    /** A long code: the way down to its last bit, and its symbol there. */
    method EnterLong(k: nat, rev: nat, treeNext: int) returns (next: int)
      requires Valid() && k < sizes.Length && Long(sizes[..], fast, k) && Entered(k, k + 1) && SizesGood(sizes[..])
      requires rev == Number(Path(sizes[..], k)) && treeNext == Ref(|nodes|)
      modifies this`nodes, lookup, tree
      ensures Entered(k + 1, k + 1) && next == Ref(|nodes|)
    {
      hide Path, TrieOk, Number, LowBits, SizesGood, At, Pow2;
      ghost var p := Path(sizes[..], k);
      NumberBits(p);
      var size := sizes[k];
      var cur;
      cur, next := RootOf(k, rev, treeNext);
      PowPositive(fast - 1);
      var r := rev / Pow2(fast - 1);
      ghost var d := fast;
      var j := size;
      while j > fast + 1
        invariant fast < j <= size && d == fast + (size - j) && Entered(k, k + 1) && next == Ref(|nodes|) && At(k, d, cur)
        invariant r == rev / Pow2(d - 1)
      {
        CodeBit(p, rev, d);
        r := r / 2;
        cur, next := Descend(k, d, r % 2, cur, next);
        d := d + 1;
        j := j - 1;
      }
      CodeBit(p, rev, d);
      r := r / 2;
      StoreLeaf(k, r % 2, cur);
    }

    method StoreLeaf(k: nat, bit: Bit, cur: int)
      requires Valid() && k < sizes.Length && Long(sizes[..], fast, k) && Entered(k, k + 1) && At(k, sizes[k] - 1, cur)
      requires bit == Path(sizes[..], k)[sizes[k] - 1]
      modifies tree
      ensures Entered(k + 1, k + 1)
    {
      hide Path, TrieOk, LowBits;
      ghost var s, t := sizes[..], View();
      LeafStored(s, fast, k, t);
      var cur' := cur - bit;
      tree[-cur' - 1] := k;
      assert View() == t.(tree := t.tree[-cur' - 1 := k]);
    }

    /** The whole table, from the code sizes and the first codes. */
    method Build(firstCodes: seq<nat>)
      requires Valid() && SizesGood(sizes[..]) && |firstCodes| == 17 && forall l :: 1 <= l <= 15 ==> firstCodes[l] == First(sizes[..], l)
      modifies this`nodes, lookup, tree
      ensures Entered(sizes.Length, sizes.Length)
    {
      hide TrieOk, Number, LowBits, Histo, First, Fits, Full, OnlyOne, Bits;
      ghost var s := sizes[..];
      var nextCode := new nat[17](i requires 0 <= i < 17 => firstCodes[i]);
      ClearTables();
      HistoOfNone(s);
      var treeNext := -1;
      for k := 0 to sizes.Length
        invariant sizes[..] == s && Entered(k, k) && treeNext == Ref(|nodes|)
        invariant forall l :: 1 <= l <= 15 ==> nextCode[l] == First(s, l) + Histo(s[..k], l)
      {
        var size := sizes[k];
        HistoNextAll(s, k);
        if size == 0 {
          NothingEntered(s, fast, k, View());
        } else {
          CodeBound(s, k);
          var rev := Reverse(nextCode[size], size);
          nextCode[size] := nextCode[size] + 1;
          if size <= fast {
            EnterShort(k, rev);
          } else {
            EnteredPart(s, fast, k, View());
            treeNext := EnterLong(k, rev, treeNext);
          }
        }
      }
    }

    method EnterShort(k: nat, rev: nat)
      requires Valid() && k < sizes.Length && Short(sizes[..], fast, k) && Entered(k, k) && rev == Number(Path(sizes[..], k))
      modifies lookup
      ensures Entered(k + 1, k + 1)
    {
      hide TrieOk, Number, LowBits, Path;
      ghost var s, t := sizes[..], View();
      NumberBits(Path(s, k));
      FillLookup(k, rev, sizes[k], Entry(sizes[k], k));
      forall x | 0 <= x < lookup.Length
        ensures lookup[x] == if Path(s, k) <= LowBits(x, fast) then Entry(s[k], k) else t.lookup[x]
      {
        StartsWith(x, Path(s, k), fast);
      }
      TrieParts(s, fast, k, k, t);
      ShortEntered(s, fast, k, t, lookup[..]);
      assert View() == t.(lookup := lookup[..]);
    }

    /** TINFL_HUFF_DECODE, given the bits: the symbol whose code comes, and how many bits it takes. */
    method Decode(bitBuf: nat) returns (sym: nat, codeLen: nat)
      requires Valid() && Entered(sizes.Length, sizes.Length) && exists i: nat :: Comes(sizes[..], bitBuf, i)
      ensures Comes(sizes[..], bitBuf, sym) && codeLen == sizes[sym]
      ensures forall i: nat :: Comes(sizes[..], bitBuf, i) ==> i == sym
    {
      hide TrieOk, LowBits, Path, Pow2, Comes, Entry, Ref;
      ghost var s, t, n := sizes[..], View(), sizes.Length;
      ghost var i: nat :| Comes(s, bitBuf, i);
      TrieParts(s, fast, n, n, t);
      OnlyOneComes(s, bitBuf, i);
      ComesBounds(s, bitBuf, i);
      PowPositive(fast);
      var temp := lookup[bitBuf % Pow2(fast)];
      Looked(s, fast, t, bitBuf, i);
      if temp >= 0 {
        EntryParts(s[i], i);
        return temp % 512, temp / 512;
      }
      sym, codeLen := WalkTree(bitBuf, temp, i);
    }

    /** The loop of TINFL_HUFF_DECODE, down the tree from the node that the lookup table names. */
    method WalkTree(bitBuf: nat, node: int, ghost i: nat) returns (sym: nat, codeLen: nat)
      requires Valid() && Entered(sizes.Length, sizes.Length) && Comes(sizes[..], bitBuf, i) && Long(sizes[..], fast, i)
      requires node < 0 && Path(sizes[..], i)[..fast] in nodes && node == Ref(nodes[Path(sizes[..], i)[..fast]])
      ensures sym == i && codeLen == sizes[i]
    {
      hide TrieOk, LowBits, Path, Pow2;
      ghost var s, t := sizes[..], View();
      var temp := node;
      codeLen := fast;
      while temp < 0
        invariant fast <= codeLen <= s[i]
        invariant if codeLen == s[i] then temp == i
                  else Path(s, i)[..codeLen] in nodes && temp == Ref(nodes[Path(s, i)[..codeLen]])
        decreases s[i] - codeLen
      {
        Walked(s, fast, t, i, codeLen);
        CodeBit(Path(s, i), bitBuf, codeLen);
        PowPositive(codeLen);
        temp := tree[-temp - 1 + bitBuf / Pow2(codeLen) % 2];
        codeLen := codeLen + 1;
      }
      sym := temp;
    }

    method CountSizes() returns (totalSyms: array<nat>)
      requires Valid() && Sized(sizes[..])
      ensures totalSyms.Length == 16 && fresh(totalSyms) && forall l :: 0 <= l <= 15 ==> totalSyms[l] == Histo(sizes[..], l)
    {
      hide Histo;
      ghost var s := sizes[..];
      totalSyms := new nat[16](_ => 0);
      HistoOfNone(s);
      for i := 0 to sizes.Length
        invariant forall l :: 0 <= l <= 15 ==> totalSyms[l] == Histo(s[..i], l)
      {
        HistoNextAll(s, i);
        totalSyms[sizes[i]] := totalSyms[sizes[i]] + 1;
      }
      assert s[..sizes.Length] == s;
    }
  }

  /** What the check of the sizes lets through. */
  ghost predicate SizesGood(sizes: seq<nat>) { Sized(sizes) && Fits(sizes) && (Full(sizes) || OnlyOne(sizes)) }

  /** The first bits of a code that is given as a number. */
  lemma LowPart(p: seq<Bit>, n: nat, rev: nat)
    requires n <= |p| && rev == Number(p)
    ensures LowBits(rev % Pow2(n), n) == p[..n] && rev % Pow2(n) < Pow2(n)
  {
    hide LowBits, Number, Pow2;
    PowPositive(n);
    NumberBits(p);
    LowBitsPart(rev, n, |p|);
    ModTwice(rev, Pow2(n));
    SameLowBits(rev % Pow2(n), rev, n);
  }

  lemma ModTwice(x: nat, m: nat)
    requires 0 < m
    ensures x % m < m && x % m % m == x % m
  {
    Quotient(x, m);
    ModOfSum(0, m, x % m);
  }

  /** There is room for another pair. */
  lemma RoomForOne(sizes: seq<nat>, fast: nat, k: nat, m: nat, t: Trie, d: nat, room: nat)
    requires SizesGood(sizes) && TrieOk(sizes, fast, k, m, t) && m == k + 1 && Long(sizes, fast, k) && fast <= d < sizes[k]
    requires Path(sizes, k)[..d] !in t.nodes && (d > fast ==> Path(sizes, k)[..d - 1] in t.nodes)
    requires 2 * |sizes| <= room && 30 <= room
    ensures 2 * |t.nodes| + 2 <= room
  {
    hide Path, NodesOk, Grounded, RootsOk, TreeOk, PathsOk;
    var q := Path(sizes, k)[..d];
    PartIsGrounded(sizes, fast, k, d);
    assert d > fast ==> q[..|q| - 1] == Path(sizes, k)[..d - 1];
    NodesGrow(sizes, fast, m, t.nodes, q);
    NodesFew(sizes, fast, m, t.nodes[q := |t.nodes|], if |sizes| < 15 then 15 else |sizes|);
  }

  lemma ReachedRoot(sizes: seq<nat>, fast: nat, k: nat, nodes: map<seq<Bit>, nat>)
    requires Long(sizes, fast, k) && Path(sizes, k)[..fast] in nodes
    ensures Reached(sizes, fast, k, fast, nodes)
  {
    hide Path;
  }

  lemma ReachedNext(sizes: seq<nat>, fast: nat, k: nat, d: nat, nodes: map<seq<Bit>, nat>, nodes': map<seq<Bit>, nat>)
    requires Reached(sizes, fast, k, d, nodes) && d + 1 < sizes[k] && nodes.Keys <= nodes'.Keys && Path(sizes, k)[..d + 1] in nodes'
    ensures Reached(sizes, fast, k, d + 1, nodes')
  {
    hide Path;
    forall e | fast <= e <= d + 1
      ensures Path(sizes, k)[..e] in nodes'
    {
      if e <= d {
        assert Path(sizes, k)[..e] in nodes.Keys;
      }
    }
  }

  /** Bit d of a code, where it is in the number. */
  lemma CodeBit(p: seq<Bit>, x: nat, d: nat)
    requires 1 <= d < |p| && LowBits(x, |p|) == p
    ensures x / Pow2(d - 1) / 2 == x / Pow2(d) && x / Pow2(d) % 2 == p[d]
  {
    hide LowBits, Pow2;
    LowBitAt(x, d, |p|);
    NextQuotient(x, d - 1);
  }

  lemma EnteredPart(sizes: seq<nat>, fast: nat, k: nat, t: Trie)
    requires TrieOk(sizes, fast, k, k, t) && k < |sizes|
    ensures TrieOk(sizes, fast, k, k + 1, t)
  {
    hide RootsOk, TreeOk, PathsOk, Fits;
    GroundedLater(sizes, fast, k, t.nodes);
  }

  lemma StartsWith(x: nat, p: seq<Bit>, fast: nat)
    requires |p| <= fast
    ensures p <= LowBits(x, fast) <==> LowBits(x, |p|) == p
  {
    hide LowBits;
    LowBitsPart(x, |p|, fast);
  }

  lemma ComesBounds(sizes: seq<nat>, bitBuf: nat, i: nat)
    requires Comes(sizes, bitBuf, i)
    ensures i < |sizes| && 1 <= sizes[i] <= 15
  {
  }

  lemma EntryParts(size: nat, i: nat)
    requires i < 512
    ensures Entry(size, i) % 512 == i && Entry(size, i) / 512 == size
  {
    ModOfSum(size, 512, i);
  }

  /** Only one code can come. */
  lemma OnlyOneComes(sizes: seq<nat>, bitBuf: nat, i: nat)
    requires Sized(sizes) && Fits(sizes) && Comes(sizes, bitBuf, i)
    ensures forall j: nat :: Comes(sizes, bitBuf, j) ==> j == i
  {
    hide LowBits, Path, Fits;
    forall j: nat | Comes(sizes, bitBuf, j)
      ensures j == i
    {
      LowBitsPart(bitBuf, sizes[i], 15);
      LowBitsPart(bitBuf, sizes[j], 15);
      NotBothParts(sizes, i, j, LowBits(bitBuf, 15));
    }
  }

  /** What the lookup table holds when a code comes. */
  lemma Looked(sizes: seq<nat>, fast: nat, t: Trie, bitBuf: nat, i: nat)
    requires TrieOk(sizes, fast, |sizes|, |sizes|, t) && |sizes| <= 512 && Comes(sizes, bitBuf, i) && 1 <= fast <= 15
    ensures 0 < Pow2(fast) && 0 <= bitBuf % Pow2(fast) < |t.lookup|
    ensures var v := t.lookup[bitBuf % Pow2(fast)];
            if sizes[i] <= fast then v == Entry(sizes[i], i) && v >= 0
            else Path(sizes, i)[..fast] in t.nodes && v == Ref(t.nodes[Path(sizes, i)[..fast]]) && v < 0
  {
    hide LowBits, Path, Pow2, NodesOk, TreeOk, Fits;
    PowPositive(fast);
    var x := bitBuf % Pow2(fast);
    ModTwice(bitBuf, Pow2(fast));
    SameLowBits(x, bitBuf, fast);
    var q := LowBits(x, fast);
    assert RootOk(sizes, fast, |sizes|, t, q, t.lookup[x]);
    if sizes[i] <= fast {
      LowBitsPart(bitBuf, sizes[i], fast);
    } else {
      LowBitsPart(bitBuf, fast, sizes[i]);
    }
  }

  /** A step down the tree along a code. */
  lemma Walked(sizes: seq<nat>, fast: nat, t: Trie, i: nat, d: nat)
    requires TrieOk(sizes, fast, |sizes|, |sizes|, t) && Long(sizes, fast, i) && fast <= d < sizes[i] && Path(sizes, i)[..d] in t.nodes
    ensures var s := 2 * t.nodes[Path(sizes, i)[..d]] + Path(sizes, i)[d];
            && s < |t.tree|
            && if d + 1 == sizes[i] then t.tree[s] == i
               else Path(sizes, i)[..d + 1] in t.nodes && t.tree[s] == Ref(t.nodes[Path(sizes, i)[..d + 1]])
  {
    hide LowBits, Path, NodesOk, TreeOk, RootsOk, Fits;
    var p, b := Path(sizes, i)[..d], Path(sizes, i)[d];
    assert p + [b] == Path(sizes, i)[..d + 1];
    SlotAt(sizes, fast, |sizes|, |sizes|, t, p, b);
    if d + 1 == sizes[i] {
      assert Path(sizes, i)[..d + 1] == Path(sizes, i);
    }
  }

  lemma StepsBack(rev: nat, size: nat)
    requires rev < Pow2(size)
    ensures rev % Pow2(size) == rev && forall y: nat :: y < rev ==> y % Pow2(size) != rev
  {
    hide Pow2;
    ModOfSum(0, Pow2(size), rev);
    forall y: nat | y < rev
      ensures y % Pow2(size) != rev
    {
      ModOfSum(0, Pow2(size), y);
    }
  }

  /** The next number with the same remainder is a step away. */
  lemma NextStep(x: nat, m: nat, r: nat)
    requires 0 < m && x % m == r
    ensures (x + m) % m == r && forall y: nat :: x < y < x + m ==> y % m != r
  {
    Quotient(x, m);
    ModOfSum(x / m + 1, m, r);
    forall y: nat | x < y < x + m
      ensures y % m != r
    {
      Quotient(y, m);
      if y % m == r {
        var d := y / m - x / m;
        assert y - x == y / m * m - x / m * m == d * m;
        NoMultiple(d, m);
      }
    }
  }

  lemma NoMultiple(d: int, m: nat)
    ensures !(0 < d * m < m)
  {
  }

  lemma NothingThere(sizes: seq<nat>, fast: nat, t: Trie)
    requires Sized(sizes) && Fits(sizes) && |t.lookup| == Pow2(fast) && t.nodes == map[]
    requires (forall x :: 0 <= x < |t.lookup| ==> t.lookup[x] == 0) && forall x :: 0 <= x < |t.tree| ==> t.tree[x] == 0
    ensures TrieOk(sizes, fast, 0, 0, t)
  {
    hide LowBits, Pow2, Fits;
  }

  /** How many symbols have a code of at most l bits. */
  function UsedUpTo(sizes: seq<nat>, l: nat): nat
    decreases l
  {
    if l == 0 then 0 else UsedUpTo(sizes, l - 1) + Histo(sizes, l)
  }

  lemma FirstAfter(sizes: seq<nat>, l: nat)
    requires 1 <= l
    ensures First(sizes, l + 1) == 2 * (First(sizes, l) + Histo(sizes, l))
  {
    hide Histo;
  }

  lemma {:induction false} UsedAppend(sizes: seq<nat>, x: nat, l: nat)
    ensures UsedUpTo(sizes + [x], l) == UsedUpTo(sizes, l) + if 1 <= x <= l then 1 else 0
    decreases l
  {
    hide Histo;
    if l != 0 {
      UsedAppend(sizes, x, l - 1);
      HistoAppend(sizes, x, l);
    }
  }

  lemma {:induction false} UsedOfNone(l: nat)
    ensures UsedUpTo([], l) == 0
  {
    if l != 0 {
      UsedOfNone(l - 1);
    }
  }

  lemma {:induction false} UsedIs(sizes: seq<nat>)
    requires Sized(sizes)
    ensures UsedUpTo(sizes, 15) == Used(sizes) && Kraft(sizes, 15) <= Used(sizes) * 0x4000
    decreases |sizes|
  {
    hide UsedUpTo, Pow2;
    if sizes == [] {
      UsedOfNone(15);
    } else {
      var n := |sizes| - 1;
      assert sizes == sizes[..n] + [sizes[n]];
      UsedIs(sizes[..n]);
      UsedAppend(sizes[..n], sizes[n], 15);
      ShareBound(sizes[n]);
    }
  }

  lemma ShareBound(l: nat)
    ensures Share(l, 15) <= if l >= 1 then 0x4000 else 0
  {
    if 1 <= l <= 15 {
      Pow2Mono(15 - l, 14);
      Pow2Fifteen();
    }
  }

  lemma {:induction false} OnlyOneUsed(sizes: seq<nat>)
    ensures Used(sizes) == 0 <==> forall i :: 0 <= i < |sizes| ==> sizes[i] == 0
    ensures Used(sizes) <= 1 <==> OnlyOne(sizes)
    decreases |sizes|
  {
    if sizes != [] {
      var n := |sizes| - 1;
      var front := sizes[..n];
      OnlyOneUsed(front);
      assert forall i :: 0 <= i < n ==> front[i] == sizes[i];
      if OnlyOne(sizes) {
        assert OnlyOne(front);
        if sizes[n] >= 1 {
          assert forall i :: 0 <= i < n ==> front[i] == 0;
        }
      }
      if Used(sizes) <= 1 {
        forall i, j | 0 <= i < |sizes| && 0 <= j < |sizes| && 1 <= sizes[i] && 1 <= sizes[j]
          ensures i == j
        {
          assert i < n ==> front[i] == sizes[i];
          assert j < n ==> front[j] == sizes[j];
        }
      }
    }
  }

  /** At most one symbol is used exactly if only one has a code, and then its code fits. */
  lemma OneUsed(sizes: seq<nat>)
    requires Sized(sizes)
    ensures UsedUpTo(sizes, 15) <= 1 <==> OnlyOne(sizes)
    ensures OnlyOne(sizes) ==> Fits(sizes)
  {
    hide Histo, First, UsedUpTo, Used, OnlyOne;
    OnlyOneUsed(sizes);
    UsedIs(sizes);
    ReachIsKraft(sizes, 15);
  }

  // ---------- Both sides together ----------

  /** The deflater's code, followed by any bits. */
  lemma CodeComes(sizes: seq<nat>, i: nat, bitBuf: nat)
    requires i < |sizes| && 1 <= sizes[i] <= 15
    ensures 0 < Pow2(sizes[i])
    ensures Comes(sizes, bitBuf, i) <==> bitBuf % Pow2(sizes[i]) == Number(Path(sizes, i))
  {
    hide LowBits, Number, Path, Pow2;
    var p := Path(sizes, i);
    PowPositive(sizes[i]);
    NumberBits(p);
    ModOfSum(0, Pow2(sizes[i]), Number(p));
    SameLowBits(bitBuf, Number(p), sizes[i]);
  }

  /** When the sizes fill the code space, some code comes, whatever the bits. */
  lemma SomethingComes(sizes: seq<nat>, bitBuf: nat) returns (i: nat)
    requires Sized(sizes) && Full(sizes)
    ensures Comes(sizes, bitBuf, i)
  {
    hide LowBits, Path;
    i := PathComes(sizes, LowBits(bitBuf, 15));
    LowBitsPart(bitBuf, sizes[i], 15);
  }
}
