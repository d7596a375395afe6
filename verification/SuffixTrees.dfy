/** Search trees of positions in a text, ordered by the suffixes that begin there: what the match finder keeps in
    its cyclic array, as values. */
module SuffixTrees {
  import opened Bytes

  datatype Tree = Leaf | Node(at: nat, left: Tree, right: Tree)

  /** A match: its length, and how far back it lies, minus one. */
  datatype Pair = Pair(len: nat, dist: nat)

  // ---------- Suffixes ----------

  /** The suffixes at a and b share their first k bytes. */
  predicate Same(text: seq<Byte>, a: nat, b: nat, k: nat)
    requires a + k <= |text| && b + k <= |text|
  {
    text[a..a + k] == text[b..b + k]
  }

  lemma SameLonger(text: seq<Byte>, a: nat, b: nat, k: nat)
    requires a + k < |text| && b + k < |text|
    ensures Same(text, a, b, k + 1) <==> Same(text, a, b, k) && text[a + k] == text[b + k]
  {
    var s, u := text[a..a + k + 1], text[b..b + k + 1];
    assert s == text[a..a + k] + [text[a + k]] && u == text[b..b + k] + [text[b + k]];
    assert s[..k] == text[a..a + k] && u[..k] == text[b..b + k] && s[k] == text[a + k] && u[k] == text[b + k];
  }

  lemma Beginning(text: seq<Byte>, a: nat, j: nat, k: nat)
    requires a + k <= |text| && j <= k
    ensures text[a..a + k][..j] == text[a..a + j] && (j < k ==> text[a..a + k][j] == text[a + j])
  {
  }

  lemma SameShorter(text: seq<Byte>, a: nat, b: nat, j: nat, k: nat)
    requires a + k <= |text| && b + k <= |text| && j <= k && Same(text, a, b, k)
    ensures Same(text, a, b, j) && (j < k ==> text[a + j] == text[b + j])
  {
    Beginning(text, a, j, k);
    Beginning(text, b, j, k);
  }

  lemma SameAt(text: seq<Byte>, a: nat, b: nat, j: nat, k: nat)
    requires a + k <= |text| && b + k <= |text| && Same(text, a, b, k)
    ensures j < k ==> text[a + j] == text[b + j]
  {
    if j < k {
      SameShorter(text, a, b, j, k);
    }
  }

  /** The first place from k on, below `limit`, where the suffixes differ; `limit` if there is none. */
  function Scan(text: seq<Byte>, a: nat, b: nat, k: nat, limit: nat): (r: nat)
    requires a + limit <= |text| && b + limit <= |text| && k <= limit
    ensures k <= r <= limit && (r < limit ==> text[a + r] != text[b + r])
    ensures Same(text, a, b, k) ==> Same(text, a, b, r)
    decreases limit - k
  {
    if k == limit || text[a + k] != text[b + k] then k
    else SameLonger(text, a, b, k); Scan(text, a, b, k + 1, limit)
  }

  /** All of the bytes shared. */
  function Shared(text: seq<Byte>, a: nat, b: nat, limit: nat): (r: nat)
    requires a + limit <= |text| && b + limit <= |text|
    ensures r <= limit && Same(text, a, b, r)
    ensures r < limit ==> text[a + r] != text[b + r]
  {
    Scan(text, a, b, 0, limit)
  }

  /** There is one such number. */
  lemma SharedIs(text: seq<Byte>, a: nat, b: nat, limit: nat, r: nat)
    requires a + limit <= |text| && b + limit <= |text| && r <= limit && Same(text, a, b, r)
    requires r < limit ==> text[a + r] != text[b + r]
    ensures Shared(text, a, b, limit) == r
  {
    var s := Shared(text, a, b, limit);
    SameAt(text, a, b, s, r);
    SameAt(text, a, b, r, s);
  }

  /** Starting the comparison late, behind bytes known to be shared, changes nothing. */
  lemma LateStart(text: seq<Byte>, a: nat, b: nat, k: nat, limit: nat)
    requires a + limit <= |text| && b + limit <= |text| && k <= limit && Same(text, a, b, k)
    ensures Scan(text, a, b, k, limit) == Shared(text, a, b, limit)
  {
    SharedIs(text, a, b, limit, Scan(text, a, b, k, limit));
  }

  /** The order of suffixes, judged by their first `limit` bytes. */
  predicate Le(text: seq<Byte>, a: nat, b: nat, limit: nat)
    requires a + limit <= |text| && b + limit <= |text|
  {
    var k := Shared(text, a, b, limit);
    k == limit || text[a + k] < text[b + k]
  }

  lemma LeTrans(text: seq<Byte>, a: nat, b: nat, c: nat, limit: nat)
    requires a + limit <= |text| && b + limit <= |text| && c + limit <= |text|
    requires Le(text, a, b, limit) && Le(text, b, c, limit)
    ensures Le(text, a, c, limit)
  {
    hide Same, Shared;
    var j, k := Shared(text, a, b, limit), Shared(text, b, c, limit);
    var m := if j < k then j else k;
    SameShorter(text, a, b, m, j);
    SameShorter(text, b, c, m, k);
    SameTrans(text, a, b, c, m);
    SharedIs(text, a, c, limit, m);
  }

  lemma SameTrans(text: seq<Byte>, a: nat, b: nat, c: nat, k: nat)
    requires a + k <= |text| && b + k <= |text| && c + k <= |text| && Same(text, a, b, k) && Same(text, b, c, k)
    ensures Same(text, a, c, k)
  {
  }

  /** The order by fewer bytes is coarser. */
  lemma LeShorter(text: seq<Byte>, a: nat, b: nat, limit: nat, less: nat)
    requires a + limit <= |text| && b + limit <= |text| && less <= limit && Le(text, a, b, limit)
    ensures Le(text, a, b, less)
  {
    var k := Shared(text, a, b, limit);
    if k < less {
      SharedIs(text, a, b, less, k);
    } else {
      SameShorter(text, a, b, less, k);
      SharedIs(text, a, b, less, less);
    }
  }

  /** If x differs from c first at k, and a agrees with c beyond k, then a and x part at k. */
  lemma PartsAt(text: seq<Byte>, x: nat, c: nat, a: nat, k: nat, m: nat, limit: nat)
    requires x + limit <= |text| && c + limit <= |text| && a + limit <= |text| && k < m <= limit
    requires Same(text, x, c, k) && text[x + k] != text[c + k] && Same(text, a, c, m)
    ensures Shared(text, a, x, limit) == k && Shared(text, x, a, limit) == k && text[a + k] == text[c + k]
  {
    SameShorter(text, a, c, k, m);
    SharedIs(text, a, x, limit, k);
    SharedIs(text, x, a, limit, k);
  }

  /** What lies between two suffixes that share m bytes with c shares them too. */
  lemma Between(text: seq<Byte>, lo: nat, x: nat, hi: nat, c: nat, m: nat, limit: nat)
    requires lo + limit <= |text| && x + limit <= |text| && hi + limit <= |text| && c + limit <= |text| && m <= limit
    requires Le(text, lo, x, limit) && Le(text, x, hi, limit) && Same(text, lo, c, m) && Same(text, hi, c, m)
    ensures Same(text, x, c, m)
  {
    hide Same, Shared;
    var k := Shared(text, x, c, limit);
    if k < m {
      PartsAt(text, x, c, lo, k, m, limit);
      PartsAt(text, x, c, hi, k, m, limit);
    } else {
      SameShorter(text, x, c, m, k);
    }
  }

  /** Behind a suffix q that is on one side of c, none shares more with c than q does. */
  lemma NoBetterBehind(text: seq<Byte>, x: nat, q: nat, c: nat, limit: nat)
    requires x + limit <= |text| && q + limit <= |text| && c + limit <= |text|
    requires Shared(text, q, c, limit) < limit
    requires var k := Shared(text, q, c, limit); if text[q + k] < text[c + k] then Le(text, x, q, limit) else Le(text, q, x, limit)
    ensures Shared(text, x, c, limit) <= Shared(text, q, c, limit)
  {
    hide Same, Shared;
    var k, j := Shared(text, q, c, limit), Shared(text, x, c, limit);
    if k < j {
      PartsAt(text, q, c, x, k, j, limit);
    }
  }

  // ---------- Trees ----------

  /** The positions of a tree all precede `bound`, and parents are younger than their children. */
  predicate Aged(t: Tree, bound: nat) {
    t.Node? ==> t.at < bound && Aged(t.left, t.at) && Aged(t.right, t.at)
  }

  lemma {:induction false} AgedLater(t: Tree, bound: nat, later: nat)
    requires Aged(t, bound) && bound <= later
    ensures Aged(t, later)
  {
  }

  function Nodes(t: Tree): set<nat> {
    if t.Leaf? then {} else {t.at} + Nodes(t.left) + Nodes(t.right)
  }

  lemma {:induction false} NodesBelow(t: Tree, bound: nat)
    requires Aged(t, bound)
    ensures forall x :: x in Nodes(t) ==> x < bound
    decreases t
  {
    if t.Node? {
      NodesBelow(t.left, t.at);
      NodesBelow(t.right, t.at);
    }
  }

  /** No position occurs twice. */
  predicate Distinct(t: Tree) {
    t.Node? ==> Nodes(t.left) !! Nodes(t.right) && Distinct(t.left) && Distinct(t.right)
  }

  /** A bound on suffixes, if there is one. */
  datatype Bound = Free | At(pos: nat)

  predicate Above(text: seq<Byte>, limit: nat, lo: Bound, x: nat) {
    lo.At? ==> lo.pos + limit <= |text| && x + limit <= |text| && Le(text, lo.pos, x, limit)
  }

  predicate Below(text: seq<Byte>, limit: nat, x: nat, hi: Bound) {
    hi.At? ==> hi.pos + limit <= |text| && x + limit <= |text| && Le(text, x, hi.pos, limit)
  }

  /** Left subtrees lie below their node and right subtrees above it, all of them between lo and hi. */
  predicate Ordered(text: seq<Byte>, limit: nat, t: Tree, lo: Bound, hi: Bound) {
    t.Node? ==>
      && t.at + limit <= |text| && Above(text, limit, lo, t.at) && Below(text, limit, t.at, hi)
      && Ordered(text, limit, t.left, lo, At(t.at)) && Ordered(text, limit, t.right, At(t.at), hi)
  }

  // ---------- Inserting the suffix at n ----------

  /** The parts of a tree below and above the suffix at n. A node that cannot be told from n is dropped, and so is
      whatever lies deeper than `cut`. */
  function Split(text: seq<Byte>, n: nat, limit: nat, t: Tree, cut: nat): (r: (Tree, Tree))
    requires n + limit <= |text| && Aged(t, n)
    decreases t
  {
    if cut == 0 || t.Leaf? then (Leaf, Leaf)
    else
      AgedLater(t.left, t.at, n);
      AgedLater(t.right, t.at, n);
      var k := Shared(text, t.at, n, limit);
      if k == limit then (t.left, t.right)
      else if text[t.at + k] < text[n + k] then
        var (l, r) := Split(text, n, limit, t.right, cut - 1);
        (Node(t.at, t.left, l), r)
      else
        var (l, r) := Split(text, n, limit, t.left, cut - 1);
        (l, Node(t.at, r, t.right))
  }

  function Insert(text: seq<Byte>, n: nat, limit: nat, t: Tree, cut: nat): Tree
    requires n + limit <= |text| && Aged(t, n)
  {
    var (l, r) := Split(text, n, limit, t, cut);
    Node(n, l, r)
  }

  /** A tree below a suffix lies below any greater one, and one above a suffix above any smaller one. */
  lemma {:induction false} Widen(text: seq<Byte>, limit: nat, t: Tree, lo: Bound, hi: Bound, lo': Bound, hi': Bound)
    requires Ordered(text, limit, t, lo, hi)
    requires lo' == lo || (lo.At? && lo'.At? && lo.pos + limit <= |text| && lo'.pos + limit <= |text| && Le(text, lo'.pos, lo.pos, limit))
    requires hi' == hi || (hi.At? && hi'.At? && hi.pos + limit <= |text| && hi'.pos + limit <= |text| && Le(text, hi.pos, hi'.pos, limit))
    ensures Ordered(text, limit, t, lo', hi')
    decreases t
  {
    if t.Node? {
      hide Le;
      if lo' != lo {
        LeTrans(text, lo'.pos, lo.pos, t.at, limit);
      }
      if hi' != hi {
        LeTrans(text, t.at, hi.pos, hi'.pos, limit);
      }
      Widen(text, limit, t.left, lo, At(t.at), lo', At(t.at));
      Widen(text, limit, t.right, At(t.at), hi, At(t.at), hi');
    }
  }

  /** Splitting keeps age, distinctness and order, and invents no nodes. */
  ghost predicate SplitOk(text: seq<Byte>, n: nat, limit: nat, t: Tree, l: Tree, r: Tree, bound: nat, lo: Bound, hi: Bound) {
    && Aged(l, bound) && Aged(r, bound) && Distinct(l) && Distinct(r)
    && Nodes(l) + Nodes(r) <= Nodes(t) && Nodes(l) !! Nodes(r)
    && Ordered(text, limit, l, lo, At(n)) && Ordered(text, limit, r, At(n), hi)
  }

  lemma {:induction false} SplitKeeps(text: seq<Byte>, n: nat, limit: nat, t: Tree, cut: nat, bound: nat, lo: Bound, hi: Bound)
    requires n + limit <= |text| && Aged(t, bound) && bound <= n && Distinct(t) && Ordered(text, limit, t, lo, hi)
    ensures Aged(t, n)
    ensures var (l, r) := Split(text, n, limit, t, cut); SplitOk(text, n, limit, t, l, r, bound, lo, hi)
    decreases t
  {
    hide SplitOk, Shared, Le, Nodes, Split;
    AgedLater(t, bound, n);
    if t.Node? {
      AgedLater(t.left, t.at, n);
      AgedLater(t.right, t.at, n);
    }
    SplitUnfolds(text, n, limit, t, cut);
    if cut == 0 || t.Leaf? {
      SplitNothing(text, n, limit, t, bound, lo, hi);
    } else {
      var q := t.at;
      var k := Shared(text, q, n, limit);
      if k == limit {
        SplitEqual(text, n, limit, t, bound, lo, hi);
      } else if text[q + k] < text[n + k] {
        SplitKeeps(text, n, limit, t.right, cut - 1, q, At(q), hi);
        var (l, r) := Split(text, n, limit, t.right, cut - 1);
        LessIsLe(text, q, n, limit);
        JoinBelow(text, n, limit, t, l, r, bound, lo, hi);
      } else {
        SplitKeeps(text, n, limit, t.left, cut - 1, q, lo, At(q));
        var (l, r) := Split(text, n, limit, t.left, cut - 1);
        NotLess(text, q, n, limit);
        JoinAbove(text, n, limit, t, l, r, bound, lo, hi);
      }
    }
  }

  lemma SplitUnfolds(text: seq<Byte>, n: nat, limit: nat, t: Tree, cut: nat)
    requires n + limit <= |text| && Aged(t, n) && (t.Node? ==> Aged(t.left, n) && Aged(t.right, n))
    ensures var s := Split(text, n, limit, t, cut);
            if cut == 0 || t.Leaf? then s == (Leaf, Leaf)
            else
              var k := Shared(text, t.at, n, limit);
              if k == limit then s == (t.left, t.right)
              else if text[t.at + k] < text[n + k] then
                var s' := Split(text, n, limit, t.right, cut - 1); s == (Node(t.at, t.left, s'.0), s'.1)
              else
                var s' := Split(text, n, limit, t.left, cut - 1); s == (s'.0, Node(t.at, s'.1, t.right))
  {
    hide Shared;
  }

  lemma LessIsLe(text: seq<Byte>, a: nat, b: nat, limit: nat)
    requires a + limit <= |text| && b + limit <= |text|
    requires var k := Shared(text, a, b, limit); k < limit && text[a + k] < text[b + k]
    ensures Le(text, a, b, limit)
  {
  }

  lemma SplitNothing(text: seq<Byte>, n: nat, limit: nat, t: Tree, bound: nat, lo: Bound, hi: Bound)
    ensures SplitOk(text, n, limit, t, Leaf, Leaf, bound, lo, hi)
  {
  }

  lemma SplitEqual(text: seq<Byte>, n: nat, limit: nat, t: Tree, bound: nat, lo: Bound, hi: Bound)
    requires n + limit <= |text| && Aged(t, bound) && t.Node? && Distinct(t) && Ordered(text, limit, t, lo, hi)
    requires Shared(text, t.at, n, limit) == limit
    ensures SplitOk(text, n, limit, t, t.left, t.right, bound, lo, hi)
  {
    hide Shared, Le;
    EqualLe(text, t.at, n, limit);
    Widen(text, limit, t.left, lo, At(t.at), lo, At(n));
    Widen(text, limit, t.right, At(t.at), hi, At(n), hi);
    AgedLater(t.left, t.at, bound);
    AgedLater(t.right, t.at, bound);
  }

  lemma JoinBelow(text: seq<Byte>, n: nat, limit: nat, t: Tree, l: Tree, r: Tree, bound: nat, lo: Bound, hi: Bound)
    requires n + limit <= |text| && Aged(t, bound) && t.Node? && Distinct(t) && Ordered(text, limit, t, lo, hi)
    requires SplitOk(text, n, limit, t.right, l, r, t.at, At(t.at), hi) && Le(text, t.at, n, limit)
    ensures SplitOk(text, n, limit, t, Node(t.at, t.left, l), r, bound, lo, hi)
  {
    hide Shared, Le;
    AgedLater(r, t.at, bound);
    NodesBelow(r, t.at);
    JoinNodes(t.at, t.left, t.right, l, r);
  }

  lemma JoinAbove(text: seq<Byte>, n: nat, limit: nat, t: Tree, l: Tree, r: Tree, bound: nat, lo: Bound, hi: Bound)
    requires n + limit <= |text| && Aged(t, bound) && t.Node? && Distinct(t) && Ordered(text, limit, t, lo, hi)
    requires SplitOk(text, n, limit, t.left, l, r, t.at, lo, At(t.at)) && Le(text, n, t.at, limit)
    ensures SplitOk(text, n, limit, t, l, Node(t.at, r, t.right), bound, lo, hi)
  {
    hide Shared, Le;
    AgedLater(l, t.at, bound);
    NodesBelow(l, t.at);
    JoinNodes(t.at, t.right, t.left, r, l);
  }

  /** A part `a` of `split` goes below q, next to `other`; the part `b` stays outside. */
  lemma JoinNodes(q: nat, other: Tree, split: Tree, a: Tree, b: Tree)
    requires Nodes(a) + Nodes(b) <= Nodes(split) && Nodes(a) !! Nodes(b) && Nodes(other) !! Nodes(split)
    requires q !in Nodes(b)
    ensures Nodes(other) !! Nodes(a) && ({q} + Nodes(other) + Nodes(a)) !! Nodes(b)
    ensures ({q} + Nodes(other) + Nodes(a)) + Nodes(b) <= {q} + Nodes(other) + Nodes(split)
  {
    hide Nodes;
    assert forall x :: x in Nodes(a) ==> x in Nodes(a) + Nodes(b);
    assert forall x :: x in Nodes(b) ==> x in Nodes(a) + Nodes(b);
  }

  lemma EqualLe(text: seq<Byte>, a: nat, b: nat, limit: nat)
    requires a + limit <= |text| && b + limit <= |text| && Shared(text, a, b, limit) == limit
    ensures Le(text, a, b, limit) && Le(text, b, a, limit)
  {
    SharedIs(text, b, a, limit, limit);
  }

  lemma NotLess(text: seq<Byte>, a: nat, b: nat, limit: nat)
    requires a + limit <= |text| && b + limit <= |text|
    requires var k := Shared(text, a, b, limit); k < limit && text[a + k] >= text[b + k]
    ensures Le(text, b, a, limit)
  {
    SharedIs(text, b, a, limit, Shared(text, a, b, limit));
  }

  // ---------- The matches met on the way ----------

  /** The nodes on the way down whose match with n is longer than any before, and than maxLen. */
  function Matches(text: seq<Byte>, n: nat, limit: nat, t: Tree, cut: nat, maxLen: nat): seq<Pair>
    requires n + limit <= |text| && Aged(t, n) && maxLen < limit
    decreases t
  {
    if cut == 0 || t.Leaf? then []
    else
      AgedLater(t.left, t.at, n);
      AgedLater(t.right, t.at, n);
      var k := Shared(text, t.at, n, limit);
      var p := Pair(k, n - t.at - 1);
      if k == limit then [p]
      else
        var rest := if text[t.at + k] < text[n + k] then t.right else t.left;
        if maxLen < k then [p] + Matches(text, n, limit, rest, cut - 1, k)
        else Matches(text, n, limit, rest, cut - 1, maxLen)
  }

  /** Every pair is a match of exactly its length with one of the nodes, and lengths strictly increase from maxLen. */
  ghost predicate TrueMatches(text: seq<Byte>, n: nat, limit: nat, nodes: set<nat>, ms: seq<Pair>, maxLen: nat)
    requires n + limit <= |text|
  {
    && (forall i :: 0 <= i < |ms| ==> MatchHere(text, n, limit, nodes, ms[i]) && maxLen < ms[i].len)
    && (forall i, j :: 0 <= i < j < |ms| ==> ms[i].len < ms[j].len)
  }

  ghost predicate MatchHere(text: seq<Byte>, n: nat, limit: nat, nodes: set<nat>, p: Pair)
    requires n + limit <= |text|
  {
    p.dist < n && n - 1 - p.dist in nodes && Shared(text, n - 1 - p.dist, n, limit) == p.len
  }

  lemma MatchesUnfolds(text: seq<Byte>, n: nat, limit: nat, t: Tree, cut: nat, maxLen: nat)
    requires n + limit <= |text| && Aged(t, n) && maxLen < limit
    ensures var ms := Matches(text, n, limit, t, cut, maxLen);
            if cut == 0 || t.Leaf? then ms == []
            else
              && t.at < n && Aged(t.left, n) && Aged(t.right, n)
              && var k := Shared(text, t.at, n, limit); var p := Pair(k, n - t.at - 1);
              if k == limit then ms == [p]
              else
                var rest := if text[t.at + k] < text[n + k] then t.right else t.left;
                if maxLen < k then ms == [p] + Matches(text, n, limit, rest, cut - 1, k)
                else ms == Matches(text, n, limit, rest, cut - 1, maxLen)
  {
    hide Shared;
    if t.Node? {
      AgedLater(t.left, t.at, n);
      AgedLater(t.right, t.at, n);
    }
  }

  lemma MoreNodes(text: seq<Byte>, n: nat, limit: nat, few: set<nat>, many: set<nat>, ms: seq<Pair>, maxLen: nat)
    requires n + limit <= |text| && few <= many && TrueMatches(text, n, limit, few, ms, maxLen)
    ensures TrueMatches(text, n, limit, many, ms, maxLen)
  {
    hide Shared;
    forall i | 0 <= i < |ms|
      ensures MatchHere(text, n, limit, many, ms[i]) && maxLen < ms[i].len
    {
      assert MatchHere(text, n, limit, few, ms[i]);
    }
  }

  lemma OneMore(text: seq<Byte>, n: nat, limit: nat, nodes: set<nat>, p: Pair, ms: seq<Pair>, maxLen: nat)
    requires n + limit <= |text| && MatchHere(text, n, limit, nodes, p) && maxLen < p.len
    requires TrueMatches(text, n, limit, nodes, ms, p.len)
    ensures TrueMatches(text, n, limit, nodes, [p] + ms, maxLen)
  {
    hide MatchHere;
    var all := [p] + ms;
    assert forall i :: 1 <= i < |all| ==> all[i] == ms[i - 1];
  }

  lemma {:induction false} MatchesAreTrue(text: seq<Byte>, n: nat, limit: nat, t: Tree, cut: nat, maxLen: nat)
    requires n + limit <= |text| && Aged(t, n) && maxLen < limit
    ensures TrueMatches(text, n, limit, Nodes(t), Matches(text, n, limit, t, cut, maxLen), maxLen)
    decreases t
  {
    hide Shared, Matches, Aged, TrueMatches;
    MatchesUnfolds(text, n, limit, t, cut, maxLen);
    if cut == 0 || t.Leaf? {
      NoMatches(text, n, limit, Nodes(t), maxLen);
    } else {
      var k := Shared(text, t.at, n, limit);
      var p := Pair(k, n - t.at - 1);
      assert MatchHere(text, n, limit, Nodes(t), p);
      if k == limit {
        NoMatches(text, n, limit, Nodes(t), k);
        OneMore(text, n, limit, Nodes(t), p, [], maxLen);
        assert [p] + [] == [p];
      } else {
        var rest := if text[t.at + k] < text[n + k] then t.right else t.left;
        var more := if maxLen < k then k else maxLen;
        MatchesAreTrue(text, n, limit, rest, cut - 1, more);
        var ms := Matches(text, n, limit, rest, cut - 1, more);
        MoreNodes(text, n, limit, Nodes(rest), Nodes(t), ms, more);
        if maxLen < k {
          OneMore(text, n, limit, Nodes(t), p, ms, maxLen);
        }
      }
    }
  }

  lemma NoMatches(text: seq<Byte>, n: nat, limit: nat, nodes: set<nat>, maxLen: nat)
    requires n + limit <= |text|
    ensures TrueMatches(text, n, limit, nodes, [], maxLen)
  {
  }

  function Height(t: Tree): nat {
    if t.Leaf? then 0 else 1 + (if Height(t.left) < Height(t.right) then Height(t.right) else Height(t.left))
  }

  function LastLen(ms: seq<Pair>, maxLen: nat): nat { if ms == [] then maxLen else ms[|ms| - 1].len }

  ghost predicate NoLonger(text: seq<Byte>, n: nat, limit: nat, t: Tree, len: nat)
    requires n + limit <= |text|
  {
    forall x :: x in Nodes(t) && x < n ==> Shared(text, x, n, limit) <= len
  }

  lemma NoLongerNode(text: seq<Byte>, n: nat, limit: nat, t: Tree, len: nat)
    requires n + limit <= |text| && t.Node? && (t.at < n ==> Shared(text, t.at, n, limit) <= len)
    requires NoLonger(text, n, limit, t.left, len) && NoLonger(text, n, limit, t.right, len)
    ensures NoLonger(text, n, limit, t, len)
  {
    hide Shared;
  }

  lemma NoLongerStill(text: seq<Byte>, n: nat, limit: nat, t: Tree, len: nat, more: nat)
    requires n + limit <= |text| && NoLonger(text, n, limit, t, len) && len <= more
    ensures NoLonger(text, n, limit, t, more)
  {
    hide Shared;
  }

  /** All of a tree on the far side of q from n shares no more with n than q does. */
  lemma {:induction false} FarSide(text: seq<Byte>, n: nat, limit: nat, t: Tree, lo: Bound, hi: Bound, q: nat)
    requires n + limit <= |text| && q < n && Ordered(text, limit, t, lo, hi)
    requires Shared(text, q, n, limit) < limit
    requires var k := Shared(text, q, n, limit); if text[q + k] < text[n + k] then hi == At(q) else lo == At(q)
    ensures NoLonger(text, n, limit, t, Shared(text, q, n, limit))
    decreases t
  {
    hide Shared, Le, NoLonger;
    var k := Shared(text, q, n, limit);
    if t.Leaf? {
      NothingLonger(text, n, limit, k);
    } else {
      NodeFar(text, n, limit, t, lo, hi, q);
      if text[q + k] < text[n + k] {
        Widen(text, limit, t.left, lo, At(t.at), lo, At(q));
        FarSide(text, n, limit, t.left, lo, At(q), q);
        FarSide(text, n, limit, t.right, At(t.at), hi, q);
      } else {
        Widen(text, limit, t.right, At(t.at), hi, At(q), hi);
        FarSide(text, n, limit, t.left, lo, At(t.at), q);
        FarSide(text, n, limit, t.right, At(q), hi, q);
      }
      NoLongerNode(text, n, limit, t, k);
    }
  }

  lemma NothingLonger(text: seq<Byte>, n: nat, limit: nat, len: nat)
    requires n + limit <= |text|
    ensures NoLonger(text, n, limit, Leaf, len)
  {
  }

  lemma NodeFar(text: seq<Byte>, n: nat, limit: nat, t: Tree, lo: Bound, hi: Bound, q: nat)
    requires n + limit <= |text| && q < n && Ordered(text, limit, t, lo, hi) && t.Node?
    requires Shared(text, q, n, limit) < limit
    requires var k := Shared(text, q, n, limit); if text[q + k] < text[n + k] then hi == At(q) else lo == At(q)
    ensures Shared(text, t.at, n, limit) <= Shared(text, q, n, limit)
    ensures hi == At(q) ==> Le(text, t.at, q, limit)
    ensures lo == At(q) ==> Le(text, q, t.at, limit)
  {
    hide Shared, Le;
    NoBetterBehind(text, t.at, q, n, limit);
  }

  /** If the walk is not cut off, the last match is the longest that any node has with n. */
  lemma {:induction false} LastIsLongest(text: seq<Byte>, n: nat, limit: nat, t: Tree, cut: nat, maxLen: nat, lo: Bound, hi: Bound)
    requires n + limit <= |text| && Aged(t, n) && maxLen < limit && Ordered(text, limit, t, lo, hi) && Height(t) <= cut
    ensures NoLonger(text, n, limit, t, LastLen(Matches(text, n, limit, t, cut, maxLen), maxLen))
    ensures maxLen <= LastLen(Matches(text, n, limit, t, cut, maxLen), maxLen)
    decreases t
  {
    hide Shared, Le, NoLonger, Matches, Aged;
    MatchesUnfolds(text, n, limit, t, cut, maxLen);
    if t.Leaf? {
      NothingLonger(text, n, limit, maxLen);
    } else {
      var k := Shared(text, t.at, n, limit);
      var more := if maxLen < k then k else maxLen;
      if k == limit {
        AtMostLimit(text, n, limit, t);
      } else {
        var below := text[t.at + k] < text[n + k];
        var near, far := if below then t.right else t.left, if below then t.left else t.right;
        if below {
          FarSide(text, n, limit, far, lo, At(t.at), t.at);
          LastIsLongest(text, n, limit, near, cut - 1, more, At(t.at), hi);
        } else {
          FarSide(text, n, limit, far, At(t.at), hi, t.at);
          LastIsLongest(text, n, limit, near, cut - 1, more, lo, At(t.at));
        }
        var last := LastLen(Matches(text, n, limit, near, cut - 1, more), more);
        NoLongerStill(text, n, limit, far, k, last);
        NoLongerNode(text, n, limit, t, last);
      }
    }
  }

  lemma AtMostLimit(text: seq<Byte>, n: nat, limit: nat, t: Tree)
    requires n + limit <= |text|
    ensures NoLonger(text, n, limit, t, limit)
  {
  }
}
