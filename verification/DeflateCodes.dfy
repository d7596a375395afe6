/** The Huffman codes of DEFLATE (section 3.2.2 of RFC 1951): canonical, shortest first, and bit-reversed in the stream. */
module DeflateCodes {
  import opened CodeLengths
  import opened Powers

  type Bit = x: nat | x < 2

  // ---------- Bits ----------

  /** The lowest n bits of x, lowest first: the order of the stream. */
  function LowBits(x: nat, n: nat): (r: seq<Bit>)
    ensures |r| == n
  {
    if n == 0 then [] else [x % 2] + LowBits(x / 2, n - 1)
  }

  /** The n bits of a code, highest first. */
  function Bits(c: nat, n: nat): (r: seq<Bit>)
    ensures |r| == n
    decreases n
  {
    if n == 0 then [] else Bits(c / 2, n - 1) + [c % 2]
  }

  /** The number that has these bits, lowest first. */
  function Number(b: seq<Bit>): nat { if b == [] then 0 else b[0] + 2 * Number(b[1..]) }

  lemma {:induction false} NumberBits(b: seq<Bit>)
    ensures LowBits(Number(b), |b|) == b && Number(b) < Pow2(|b|)
    decreases |b|
  {
    if b != [] {
      NumberBits(b[1..]);
      assert Number(b) % 2 == b[0] && Number(b) / 2 == Number(b[1..]);
    }
  }

  lemma {:induction false} BitsNumber(x: nat, n: nat)
    requires x < Pow2(n)
    ensures Number(LowBits(x, n)) == x
    decreases n
  {
    if n != 0 {
      BitsNumber(x / 2, n - 1);
      assert LowBits(x, n)[1..] == LowBits(x / 2, n - 1);
    }
  }

  lemma {:induction false} LowBitsPart(x: nat, m: nat, n: nat)
    requires m <= n
    ensures LowBits(x, n)[..m] == LowBits(x, m)
    decreases n
  {
    if m != 0 {
      LowBitsPart(x / 2, m - 1, n - 1);
    }
  }

  /** The bit that a shift by k brings down. */
  lemma {:induction false} LowBitAt(x: nat, k: nat, n: nat)
    requires k < n
    ensures LowBits(x, n)[k] == x / Pow2(k) % 2
    decreases k
  {
    if k != 0 {
      LowBitAt(x / 2, k - 1, n - 1);
      DivDiv(x, 2, Pow2(k - 1));
    }
  }

  /** The same low bits are the same remainder. */
  lemma {:induction false} SameLowBits(x: nat, y: nat, n: nat)
    ensures LowBits(x, n) == LowBits(y, n) <==> x % Pow2(n) == y % Pow2(n)
    decreases n
  {
    if n != 0 {
      var m := Pow2(n - 1);
      SameLowBits(x / 2, y / 2, n - 1);
      Split(x, m);
      Split(y, m);
      assert LowBits(x, n)[1..] == LowBits(x / 2, n - 1) && LowBits(y, n)[1..] == LowBits(y / 2, n - 1);
    }
  }

  lemma Split(x: nat, m: nat)
    requires 0 < m
    ensures x % (2 * m) == x % 2 + 2 * (x / 2 % m)
  {
    var y := x / 2;
    Quotient(y, m);
    Regroup(2, y / m, m);
    Regroup(y / m, 2, m);
    ModOfSum(y / m, 2 * m, x % 2 + 2 * (y % m));
  }

  lemma {:induction false} BitsInjective(c: nat, d: nat, n: nat)
    requires c < Pow2(n) && d < Pow2(n) && Bits(c, n) == Bits(d, n)
    ensures c == d
    decreases n
  {
    if n != 0 {
      var b, e := Bits(c, n), Bits(d, n);
      assert b[..n - 1] == Bits(c / 2, n - 1) && e[..n - 1] == Bits(d / 2, n - 1);
      assert b[n - 1] == c % 2 && e[n - 1] == d % 2;
      BitsInjective(c / 2, d / 2, n - 1);
    }
  }

  /** The first m bits of a code. */
  lemma {:induction false} BitsPart(c: nat, m: nat, n: nat)
    requires m <= n
    ensures Bits(c, n)[..m] == Bits(c / Pow2(n - m), m)
    decreases n - m
  {
    if m == n {
      assert c / 1 == c;
    } else {
      BitsPart(c / 2, m, n - 1);
      DivDiv(c, 2, Pow2(n - 1 - m));
      assert Bits(c, n)[..m] == Bits(c / 2, n - 1)[..m];
    }
  }

  // ---------- Canonical codes ----------

  ghost predicate Sized(sizes: seq<nat>) { forall i :: 0 <= i < |sizes| ==> sizes[i] <= 15 }

  /** The first code of a size. */
  function First(sizes: seq<nat>, l: nat): nat
    requires 1 <= l
  {
    if l == 1 then 0 else 2 * (First(sizes, l - 1) + Histo(sizes, l - 1))
  }

  /** The code space is not over-filled, or filled exactly. */
  ghost predicate Fits(sizes: seq<nat>) { First(sizes, 15) + Histo(sizes, 15) <= 0x8000 }

  ghost predicate Full(sizes: seq<nat>) { First(sizes, 15) + Histo(sizes, 15) == 0x8000 }

  function Code(sizes: seq<nat>, i: nat): nat
    requires i < |sizes| && 1 <= sizes[i]
  {
    First(sizes, sizes[i]) + Rank(sizes, i)
  }

  /** The code's bits, as they come in the stream. */
  function Path(sizes: seq<nat>, i: nat): (r: seq<Bit>)
    requires i < |sizes| && 1 <= sizes[i]
    ensures |r| == sizes[i]
  {
    Bits(Code(sizes, i), sizes[i])
  }

  /** How far the codes of size l reach is how much they and the shorter ones take of the code space. */
  lemma {:induction false} ReachIsKraft(sizes: seq<nat>, l: nat)
    requires 1 <= l
    ensures First(sizes, l) + Histo(sizes, l) == Kraft(sizes, l)
    decreases l
  {
    hide Histo, Kraft;
    KraftDoubles(sizes, l);
    if l == 1 {
      KraftOfNothing(sizes);
    } else {
      ReachIsKraft(sizes, l - 1);
    }
  }

  lemma {:induction false} KraftDoubles(sizes: seq<nat>, l: nat)
    requires 1 <= l
    ensures Kraft(sizes, l) == 2 * Kraft(sizes, l - 1) + Histo(sizes, l)
    decreases |sizes|
  {
    if sizes != [] {
      KraftDoubles(sizes[..|sizes| - 1], l);
    }
  }

  lemma {:induction false} KraftOfNothing(sizes: seq<nat>)
    ensures Kraft(sizes, 0) == 0
    decreases |sizes|
  {
    if sizes != [] {
      KraftOfNothing(sizes[..|sizes| - 1]);
    }
  }

  /** Codes of l bits reach no further than l bits allow. */
  lemma {:induction false} ReachBound(sizes: seq<nat>, l: nat)
    requires Fits(sizes) && 1 <= l <= 15
    ensures First(sizes, l) + Histo(sizes, l) <= Pow2(l)
    decreases 15 - l
  {
    hide Histo;
    if l == 15 {
      Pow2Fifteen();
    } else {
      ReachBound(sizes, l + 1);
    }
  }

  lemma Pow2Fifteen()
    ensures Pow2(15) == 0x8000
  {
    Pow2Small();
  }

  lemma CodeBound(sizes: seq<nat>, i: nat)
    requires Fits(sizes) && i < |sizes| && 1 <= sizes[i] <= 15
    ensures Code(sizes, i) < First(sizes, sizes[i]) + Histo(sizes, sizes[i]) <= Pow2(sizes[i])
  {
    hide First, Histo, Pow2;
    RanksDiffer(sizes, i, i);
    ReachBound(sizes, sizes[i]);
  }

  /** Longer codes begin behind the shorter ones. */
  lemma {:induction false} FirstBehind(sizes: seq<nat>, l: nat, k: nat)
    requires 1 <= l && 1 <= k
    ensures (First(sizes, l) + Histo(sizes, l)) * Pow2(k) <= First(sizes, l + k)
    decreases k
  {
    hide Histo;
    var reach := First(sizes, l) + Histo(sizes, l);
    if k > 1 {
      FirstBehind(sizes, l, k - 1);
      Regroup(2, reach, Pow2(k - 1));
    }
  }

  lemma QuotientAbove(c: nat, a: nat, m: nat)
    requires 0 < m && a * m <= c
    ensures a <= c / m
  {
    var r := c - a * m;
    Quotient(r, m);
    assert (a + r / m) * m == a * m + r / m * m;
    ModOfSum(a + r / m, m, r % m);
  }

  /** No code begins with another. */
  lemma PrefixFree(sizes: seq<nat>, i: nat, j: nat)
    requires Fits(sizes) && i < |sizes| && j < |sizes| && i != j && 1 <= sizes[i] <= sizes[j] <= 15
    ensures Path(sizes, j)[..sizes[i]] != Path(sizes, i)
  {
    hide First, Histo, Pow2, Bits, Fits, Rank;
    var m, n := sizes[i], sizes[j];
    var c, d := Code(sizes, i), Code(sizes, j);
    CodeBound(sizes, i);
    CodeBound(sizes, j);
    BitsPart(d, m, n);
    if m == n {
      CodesDiffer(sizes, i, j);
      PowOfNone(d);
      if Bits(c, n) == Bits(d, n) {
        BitsInjective(c, d, n);
      }
    } else {
      var k := n - m;
      FirstBehind(sizes, m, k);
      PowPositive(k);
      QuotientAbove(d, First(sizes, m) + Histo(sizes, m), Pow2(k));
      Pow2Add(m, k);
      DivBelow(d, Pow2(m), Pow2(k));
      if Bits(d / Pow2(k), m) == Bits(c, m) {
        BitsInjective(d / Pow2(k), c, m);
      }
    }
  }

  lemma CodesDiffer(sizes: seq<nat>, i: nat, j: nat)
    requires i < |sizes| && j < |sizes| && i != j && 1 <= sizes[i] == sizes[j]
    ensures Code(sizes, i) != Code(sizes, j)
  {
    hide First, Histo, Rank;
    if i < j {
      RanksDiffer(sizes, i, j);
    } else {
      RanksDiffer(sizes, j, i);
    }
  }

  lemma PowOfNone(d: nat)
    ensures d / Pow2(0) == d
  {
  }

  /** When the code space is filled, whatever bits come, they begin with a code. */
  lemma {:induction false} SomePath(sizes: seq<nat>, c: nat, l: nat) returns (i: nat)
    requires Sized(sizes) && Fits(sizes) && 1 <= l <= 15 && c < First(sizes, l) + Histo(sizes, l)
    ensures i < |sizes| && 1 <= sizes[i] <= l && Code(sizes, i) == c / Pow2(l - sizes[i])
    decreases l
  {
    hide Histo, Rank;
    if First(sizes, l) <= c {
      i := SymbolOfRank(sizes, l, c - First(sizes, l));
      PowOfNone(c);
    } else {
      i := SomePath(sizes, c / 2, l - 1);
      DivDiv(c, 2, Pow2(l - 1 - sizes[i]));
    }
  }

  lemma PathComes(sizes: seq<nat>, b: seq<Bit>) returns (i: nat)
    requires Sized(sizes) && Full(sizes) && |b| == 15
    ensures i < |sizes| && 1 <= sizes[i] <= 15 && b[..sizes[i]] == Path(sizes, i)
  {
    hide First, Histo, Pow2, Bits, Rank;
    var c := Value(b);
    ValueBits(b);
    Pow2Fifteen();
    i := SomePath(sizes, c, 15);
    BitsPart(c, sizes[i], 15);
  }

  /** The number that has these bits, highest first. */
  function Value(b: seq<Bit>): nat { if b == [] then 0 else 2 * Value(b[..|b| - 1]) + b[|b| - 1] }

  lemma {:induction false} ValueBits(b: seq<Bit>)
    ensures Value(b) < Pow2(|b|) && Bits(Value(b), |b|) == b
    decreases |b|
  {
    if b != [] {
      var n := |b| - 1;
      ValueBits(b[..n]);
      assert Value(b) / 2 == Value(b[..n]) && Value(b) % 2 == b[n];
    }
  }
}
