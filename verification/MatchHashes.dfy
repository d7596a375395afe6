/** The hashes of LzHash.h: exclusive or as arithmetic, the CRC table, and what equal hashes say about the bytes. */
module MatchHashes {
  import opened Bytes
  import opened Powers

  function Xor(a: nat, b: nat): nat
    decreases a + b
  {
    if a == 0 && b == 0 then 0 else (a + b) % 2 + 2 * Xor(a / 2, b / 2)
  }

  const POLY: nat := 0xEDB8_8320

  /** One step of the division by the CRC polynomial. */
  function Divide(r: nat): nat { Xor(r / 2, if r % 2 == 1 then POLY else 0) }

  function CrcBits(r: nat, n: nat): nat
    decreases n
  {
    if n == 0 then r else CrcBits(Divide(r), n - 1)
  }

  /** The CRC table. */
  function Crc(b: Byte): nat { CrcBits(b, 8) }

  function Hash2(text: seq<Byte>, i: nat): (h: nat)
    requires i + 2 <= |text|
    ensures h < 0x400
  {
    Xor(Crc(text[i]), text[i + 1]) % 0x400
  }

  function Hash3(text: seq<Byte>, i: nat): (h: nat)
    requires i + 3 <= |text|
    ensures h < 0x1_0000
  {
    Xor(Xor(Crc(text[i]), text[i + 1]), 0x100 * (text[i + 2] as int)) % 0x1_0000
  }

  /** The main hash; `buckets` is hashMask + 1. */
  function Hash4(text: seq<Byte>, i: nat, buckets: nat): (h: nat)
    requires i + 4 <= |text| && 0 < buckets
    ensures h < buckets
  {
    Xor(Xor(Xor(Crc(text[i]), text[i + 1]), 0x100 * (text[i + 2] as int)), 32 * Crc(text[i + 3]) % 0x1_0000_0000) % buckets
  }

  // ---------- Exclusive or ----------

  lemma XorUnfolds(a: nat, b: nat)
    ensures Xor(a, b) == (a + b) % 2 + 2 * Xor(a / 2, b / 2)
  {
  }

  lemma HalfOf(bit: nat, x: nat)
    requires bit < 2
    ensures (bit + 2 * x) % 2 == bit && (bit + 2 * x) / 2 == x
  {
  }

  lemma XorHalves(a: nat, b: nat)
    ensures Xor(a, b) % 2 == (a + b) % 2 && Xor(a, b) / 2 == Xor(a / 2, b / 2)
  {
    hide Xor;
    XorUnfolds(a, b);
    HalfOf((a + b) % 2, Xor(a / 2, b / 2));
  }

  lemma ModTwice(x: nat, m: nat)
    requires 0 < m
    ensures x % (2 * m) == x % 2 + 2 * (x / 2 % m)
  {
    var y := x / 2;
    Quotient(y, m);
    Regroup(2, y / m, m);
    Regroup(y / m, 2, m);
    var rest := x % 2 + 2 * (y % m);
    assert x == y / m * (2 * m) + rest;
    ModOfSum(y / m, 2 * m, rest);
  }

  lemma SameParity(c: nat, a: nat, b: nat)
    requires (c + a) % 2 == (c + b) % 2
    ensures a % 2 == b % 2
  {
  }

  /** Agreeing in the low bits is agreeing in the lowest and in the others. */
  lemma LowBits(x: nat, y: nat, m: nat)
    requires 0 < m
    ensures x % (2 * m) == y % (2 * m) <==> x % 2 == y % 2 && x / 2 % m == y / 2 % m
  {
    ModTwice(x, m);
    ModTwice(y, m);
  }

  /** Exclusive or with the same number keeps different low bits different. */
  lemma {:induction false} XorCancels(c: nat, a: nat, b: nat, k: nat)
    requires Xor(c, a) % Pow2(k) == Xor(c, b) % Pow2(k)
    ensures a % Pow2(k) == b % Pow2(k)
    decreases k
  {
    hide Xor;
    if k != 0 {
      var m := Pow2(k - 1);
      LowBits(Xor(c, a), Xor(c, b), m);
      XorHalves(c, a);
      XorHalves(c, b);
      SameParity(c, a, b);
      XorCancels(c / 2, a / 2, b / 2, k - 1);
      LowBits(a, b, m);
    }
  }

  lemma Halves(x: nat, y: nat)
    requires x % 2 == y % 2 && x / 2 == y / 2
    ensures x == y
  {
  }

  lemma ParitySum(a: nat, b: nat, c: nat, x: nat, y: nat)
    requires x % 2 == (a + b) % 2 && y % 2 == (b + c) % 2
    ensures (x + c) % 2 == (a + y) % 2
  {
  }

  lemma {:induction false} XorAssociates(a: nat, b: nat, c: nat)
    ensures Xor(Xor(a, b), c) == Xor(a, Xor(b, c))
    decreases a + b + c
  {
    hide Xor;
    if a + b + c == 0 {
      XorZero(0);
    } else {
      XorHalves(a, b);
      XorHalves(b, c);
      XorHalves(Xor(a, b), c);
      XorHalves(a, Xor(b, c));
      ParitySum(a, b, c, Xor(a, b), Xor(b, c));
      XorAssociates(a / 2, b / 2, c / 2);
      Halves(Xor(Xor(a, b), c), Xor(a, Xor(b, c)));
    }
  }

  lemma {:induction false} XorZero(b: nat)
    ensures Xor(0, b) == b
  {
    hide Xor;
    XorUnfolds(0, b);
    if b == 0 {
      XorOfZeros();
    } else {
      XorZero(b / 2);
    }
  }

  lemma XorOfZeros()
    ensures Xor(0, 0) == 0
  {
  }

  /** Numbers without common bits add up. */
  lemma {:induction false} XorApart(a: nat, b: nat, k: nat)
    requires a < Pow2(k)
    ensures Xor(a, Pow2(k) * b) == a + Pow2(k) * b
    decreases k
  {
    hide Xor;
    if k == 0 {
      XorZero(b);
    } else {
      var m := Pow2(k - 1);
      var high := m * b;
      Regroup(2, m, b);
      XorApart(a / 2, b, k - 1);
      XorUnfolds(a, 2 * high);
      EvenPart(a, high);
    }
  }

  lemma EvenPart(a: nat, high: nat)
    ensures (a + 2 * high) % 2 == a % 2 && 2 * high / 2 == high && a == a % 2 + 2 * (a / 2)
  {
  }

  lemma {:induction false} XorSwaps(a: nat, b: nat)
    ensures Xor(a, b) == Xor(b, a)
    decreases a + b
  {
    if a + b != 0 {
      XorSwaps(a / 2, b / 2);
    }
  }

  lemma XorNothing(a: nat)
    ensures Xor(a, 0) == a
  {
    XorSwaps(a, 0);
    XorZero(a);
  }

  lemma {:induction false} XorItself(a: nat)
    ensures Xor(a, a) == 0
  {
    if a != 0 {
      XorItself(a / 2);
    }
  }

  lemma XorMiddle(a: nat, b: nat, c: nat, d: nat)
    ensures Xor(Xor(a, b), Xor(c, d)) == Xor(Xor(a, c), Xor(b, d))
  {
    hide Xor;
    XorAssociates(a, b, Xor(c, d));
    XorAssociates(b, c, d);
    XorSwaps(b, c);
    XorAssociates(c, b, d);
    XorAssociates(a, c, Xor(b, d));
  }

  // ---------- The CRC table ----------

  lemma {:induction false} DividedOnce(r: nat, n: nat)
    ensures CrcBits(r, n + 1) == Divide(CrcBits(r, n))
    decreases n
  {
    hide Divide;
    if n != 0 {
      DividedOnce(Divide(r), n - 1);
    }
  }

  lemma DivideLinear(a: nat, b: nat)
    ensures Divide(Xor(a, b)) == Xor(Divide(a), Divide(b))
  {
    hide Xor;
    hide Divide;
    XorHalves(a, b);
    DivideIs(a);
    DivideIs(b);
    DivideIs(Xor(a, b));
    Subtracted(a % 2, b % 2);
    assert (a + b) % 2 == (a % 2 + b % 2) % 2;
    XorMiddle(a / 2, Less(a % 2), b / 2, Less(b % 2));
  }

  /** What a step takes off. */
  function Less(bit: nat): nat { if bit == 1 then POLY else 0 }

  lemma Subtracted(x: nat, y: nat)
    requires x < 2 && y < 2
    ensures Xor(Less(x), Less(y)) == Less((x + y) % 2)
  {
    hide Xor;
    XorItself(POLY);
    XorNothing(POLY);
    XorZero(POLY);
    XorOfZeros();
  }

  lemma DivideIs(r: nat)
    ensures Divide(r) == Xor(r / 2, Less(r % 2))
    ensures Divide(r) == if r % 2 == 0 then r / 2 else Xor(r / 2, POLY)
  {
    hide Xor;
    XorNothing(r / 2);
  }

  lemma {:induction false} CrcLinear(a: nat, b: nat, n: nat)
    ensures CrcBits(Xor(a, b), n) == Xor(CrcBits(a, n), CrcBits(b, n))
    decreases n
  {
    hide Xor, Divide;
    if n != 0 {
      CrcLinear(Divide(a), Divide(b), n - 1);
      DivideLinear(a, b);
    }
  }

  /** Twice a number, divided once, is the number. */
  lemma DoubledDivided(x: nat)
    ensures Divide(2 * x) == x
  {
    hide Xor;
    XorNothing(x);
  }

  lemma {:induction false} PowerDivided(k: nat)
    ensures CrcBits(Pow2(k), k + 1) == POLY
  {
    hide Xor, Divide;
    if k == 0 {
      OneDivided();
    } else {
      DoubledDivided(Pow2(k - 1));
      PowerDivided(k - 1);
    }
  }

  lemma OneDivided()
    ensures CrcBits(1, 1) == POLY
  {
    hide Xor;
    XorZero(POLY);
    assert CrcBits(1, 1) == CrcBits(Divide(1), 0);
  }

  /** The table is that of the CRC polynomial: the entry of the highest bit is the polynomial, the entry of half a number is
      that of the number halved, or halved less the polynomial if it is odd, and the entry of an exclusive or is that of the
      entries. */
  lemma CrcIs(a: Byte, b: Byte)
    ensures Crc(0x80) == 0xEDB8_8320
    ensures a < 0x80 ==> var r := Crc(2 * a); Crc(a) == if r % 2 == 0 then r / 2 else Xor(r / 2, Crc(0x80))
    ensures Xor(a, b) < 0x100 ==> Crc(Xor(a, b)) == Xor(Crc(a), Crc(b))
  {
    hide Xor, Divide;
    Pow2Small();
    PowerDivided(7);
    DoubledDivided(a);
    CrcLinear(a, b, 8);
    if a < 0x80 {
      DividedOnce(2 * (a as nat), 8);
      DivideIs(Crc(2 * a));
    }
  }

  // ---------- Equal hashes ----------

  /** Equal hashes of two bytes, and an equal first byte, force the second. */
  lemma Hash2Forces(text: seq<Byte>, i: nat, j: nat)
    requires i + 2 <= |text| && j + 2 <= |text| && text[i] == text[j] && Hash2(text, i) == Hash2(text, j)
    ensures text[i + 1] == text[j + 1]
  {
    hide Xor, Crc;
    assert Pow2(10) == 0x400;
    XorCancels(Crc(text[i]), text[i + 1], text[j + 1], 10);
  }

  lemma SixteenBits()
    ensures Pow2(16) == 0x1_0000
  {
    Pow2Small();
  }

  lemma Hash3Is(text: seq<Byte>, i: nat)
    requires i + 3 <= |text|
    ensures Hash3(text, i) == Xor(Crc(text[i]), text[i + 1] + 0x100 * (text[i + 2] as int)) % 0x1_0000
  {
    hide Xor, Crc;
    Pow2Small();
    XorAssociates(Crc(text[i]), text[i + 1], 0x100 * (text[i + 2] as int));
    XorApart(text[i + 1], text[i + 2], 8);
  }

  lemma LowBytes(a: Byte, b: Byte, c: Byte, d: Byte)
    requires (a + 0x100 * (b as int)) % 0x1_0000 == (c + 0x100 * (d as int)) % 0x1_0000
    ensures a == c && b == d
  {
  }

  /** Equal hashes of three bytes, and an equal first byte, force the others. */
  lemma Hash3Forces(text: seq<Byte>, i: nat, j: nat)
    requires i + 3 <= |text| && j + 3 <= |text| && text[i] == text[j] && Hash3(text, i) == Hash3(text, j)
    ensures text[i + 1] == text[j + 1] && text[i + 2] == text[j + 2]
  {
    hide Xor, Crc, Hash3, Pow2;
    SixteenBits();
    Hash3Is(text, i);
    Hash3Is(text, j);
    XorCancels(Crc(text[i]), text[i + 1] + 0x100 * (text[i + 2] as int), text[j + 1] + 0x100 * (text[j + 2] as int), 16);
    LowBytes(text[i + 1], text[i + 2], text[j + 1], text[j + 2]);
  }

  /** Equal main hashes, and an equal first and fourth byte, force the two between them. */
  lemma Hash4Forces(text: seq<Byte>, i: nat, j: nat, k: nat)
    requires i + 4 <= |text| && j + 4 <= |text| && text[i] == text[j] && text[i + 3] == text[j + 3] && 16 <= k
    requires Pow2(k) > 0 && Hash4(text, i, Pow2(k)) == Hash4(text, j, Pow2(k))
    ensures text[i + 1] == text[j + 1] && text[i + 2] == text[j + 2]
  {
    hide Xor, Crc, Pow2, Hash4;
    var a, b := Middle(text, i), Middle(text, j);
    Hash4Is(text, i, Pow2(k));
    Hash4Is(text, j, Pow2(k));
    var c, d := Crc(text[i]), 32 * Crc(text[i + 3]) % 0x1_0000_0000;
    XorCancels(d, Xor(c, a), Xor(c, b), k);
    XorCancels(c, a, b, k);
    FitsBits(k);
    MiddleBytes(text, i, j, Pow2(k));
  }

  function Middle(text: seq<Byte>, i: nat): (m: nat)
    requires i + 3 <= |text|
    ensures m < 0x1_0000
  {
    text[i + 1] + 0x100 * (text[i + 2] as nat)
  }

  lemma FitsBits(k: nat)
    requires 16 <= k
    ensures 0x1_0000 <= Pow2(k)
  {
    hide Pow2;
    SixteenBits();
    Pow2Add(16, k - 16);
    PowPositive(k - 16);
    NoLess(0x1_0000, Pow2(k - 16));
  }

  lemma NoLess(a: nat, b: nat)
    requires 1 <= b
    ensures a <= a * b
  {
  }

  lemma Remains(a: nat, m: nat)
    requires a < m
    ensures a % m == a
  {
  }

  lemma MiddleBytes(text: seq<Byte>, i: nat, j: nat, m: nat)
    requires i + 3 <= |text| && j + 3 <= |text| && 0x1_0000 <= m && Middle(text, i) % m == Middle(text, j) % m
    ensures text[i + 1] == text[j + 1] && text[i + 2] == text[j + 2]
  {
    Remains(Middle(text, i), m);
    Remains(Middle(text, j), m);
    assert Middle(text, i) == Middle(text, j);
  }

  lemma Hash4Is(text: seq<Byte>, i: nat, buckets: nat)
    requires i + 4 <= |text| && 0 < buckets
    ensures Hash4(text, i, buckets) == Xor(32 * Crc(text[i + 3]) % 0x1_0000_0000, Xor(Crc(text[i]), Middle(text, i))) % buckets
  {
    hide Xor, Crc;
    Pow2Small();
    XorAssociates(Crc(text[i]), text[i + 1], 0x100 * (text[i + 2] as int));
    XorApart(text[i + 1], text[i + 2], 8);
    XorSwaps(Xor(Crc(text[i]), Middle(text, i)), 32 * Crc(text[i + 3]) % 0x1_0000_0000);
  }
}
