/** Which bytes the columns and the diagonals of a sector cover: each byte once in a column, if it is before the P bytes, and
    once in a diagonal, if it is before the Q bytes. */
module CdPlaces {
  import opened CdEcc
  import opened CdSector
  import opened Powers

  // ---------- Columns ----------

  /** Each byte before the P bytes is in one column, at one place. */
  lemma OneColumn(x: nat, b: nat, c: nat)
    requires x < P_OFFSET - SYNC_NUM_BYTES && b < P_NUM && c < P_COMP
    ensures PRow(b)[c] == x <==> b == x % 86 && c == x / 86
  {
  }

  // ---------- Diagonals ----------

  /** The diagonal begins in the first two columns of words, and steps by 88 bytes, round and round. */
  lemma DiagonalSteps(b: nat)
    requires b < Q_NUM
    ensures QRow(b)[0] == 86 * (b / 2) + b % 2
    ensures forall c :: 0 <= c < Q_COMP - 1 ==> QRow(b)[c + 1] == (QRow(b)[c] + 88) % 2236
  {
    forall c | 0 <= c < Q_COMP - 1
      ensures QRow(b)[c + 1] == (QRow(b)[c] + 88) % 2236
    {
      StepModulo(86 * (b / 2) + b % 2 + 88 * c, 88, 2236);
    }
  }

  lemma StepModulo(x: nat, d: nat, m: nat)
    requires 0 < m
    ensures (x + d) % m == (x % m + d) % m
  {
    Quotient(x, m);
    Quotient(x % m + d, m);
    var q, r := x / m, (x % m + d) / m;
    assert x + d == (q + r) * m + (x % m + d) % m;
    ModOfSum(q + r, m, (x % m + d) % m);
  }

  /** The diagonal and the place in it of a byte before the Q bytes: words of two bytes, 43 to a row, go down and to the
      right. */
  function PlaceOf(x: nat): (nat, nat)
    requires x < Q_OFFSET - SYNC_NUM_BYTES
  {
    var row, column := x / 2 / 43, x / 2 % 43;
    (2 * ((row + 26 + 26 - column) % 26) + x % 2, column)
  }

  /** Each byte before the Q bytes is in one diagonal, at one place. */
  lemma OneDiagonal(x: nat, b: nat, c: nat)
    requires x < Q_OFFSET - SYNC_NUM_BYTES && b < Q_NUM && c < Q_COMP
    ensures QRow(b)[c] == x <==> (b, c) == PlaceOf(x)
    ensures PlaceOf(x).0 < Q_NUM && PlaceOf(x).1 < Q_COMP
  {
    var n, par := b / 2, b % 2;
    var v := 86 * n + par + 88 * c;
    var y := x / 2;
    var row, column := y / 43, y % 43;
    assert v == 2 * (43 * n + 44 * c) + par;
    WordOf(43 * n + 44 * c, par);
    assert v % 2236 == x <==> (43 * n + 44 * c) % 1118 == y && par == x % 2;
    RowAndColumn(n, c, row, column);
  }

  lemma WordOf(u: nat, par: nat)
    requires par < 2
    ensures (2 * u + par) % 2236 == 2 * (u % 1118) + par
  {
    var q, r := u / 1118, u % 1118;
    assert 2 * u + par == q * 2236 + (2 * r + par);
    ModOfSum(q, 2236, 2 * r + par);
  }

  lemma RowAndColumn(n: nat, c: nat, row: nat, column: nat)
    requires n < 26 && c < 43 && row < 26 && column < 43
    ensures (43 * n + 44 * c) % 1118 == 43 * row + column <==> c == column && n == (row + 52 - column) % 26
  {
    var w := 43 * (n + c) + c;
    var q, r := (n + c) / 26, (n + c) % 26;
    assert w == q * 1118 + (43 * r + c);
    ModOfSum(q, 1118, 43 * r + c);
    SameDigits(r, c, row, column);
    Back(n, c, row);
  }

  lemma SameDigits(r: nat, c: nat, row: nat, column: nat)
    requires c < 43 && column < 43
    ensures 43 * r + c == 43 * row + column <==> r == row && c == column
  {
  }

  lemma Back(n: nat, c: nat, row: nat)
    requires n < 26 && c < 43 && row < 26
    ensures (n + c) % 26 == row <==> n == (row + 52 - c) % 26
  {
  }

  /** Any one byte that counts, before the Q bytes, if it is changed breaks its own diagonal. */
  lemma DiagonalBreaks(s: seq<bv8>, s': seq<bv8>, x: nat)
    requires DifferAt(s, s', x, x) && s[x] != s'[x] && x < Q_OFFSET
    requires QHolds(s, PlaceOf(x - SYNC_NUM_BYTES).0)
    ensures !QHolds(s', PlaceOf(x - SYNC_NUM_BYTES).0)
  {
    hide Parity, IsWord, PlaceOf;
    var (b, c) := PlaceOf(x - SYNC_NUM_BYTES);
    OneDiagonal(x - SYNC_NUM_BYTES, 0, 0);
    OneDiagonal(x - SYNC_NUM_BYTES, b, c);
    QWordIs(s, b);
    QWordIs(s', b);
    var w, w' := QWord(s, b), QWord(s', b);
    forall k | 0 <= k < |w| && k != c
      ensures w[k] == w'[k]
    {
      if k < Q_COMP {
        OneDiagonal(x - SYNC_NUM_BYTES, b, k);
      }
    }
    assert w[c] == s[x] && w'[c] == s'[x];
    TwoErrorsDetected(w, w', c, c);
  }

  // ---------- What does not count ----------

  /** Bytes that do not count do not matter: the sync bytes, and in mode 2 the header. */
  lemma OthersIgnored(s: seq<bv8>, s': seq<bv8>)
    requires |s| == |s'| == SECTOR && s[MODE_OFFSET] == s'[MODE_OFFSET]
    requires forall i :: 0 <= i < SECTOR && i != MODE_OFFSET && Counts(s, i) ==> s[i] == s'[i]
    ensures Consistent(s) <==> Consistent(s')
  {
    hide Parity;
    forall offset | 0 <= offset < SECTOR - SYNC_NUM_BYTES
      ensures SourceByte(s, offset) == SourceByte(s', offset)
    {
    }
    forall b | 0 <= b < P_NUM
      ensures PHolds(s, b) <==> PHolds(s', b)
    {
      assert Read(s, PRow(b)) == Read(s', PRow(b));
    }
    forall b | 0 <= b < Q_NUM
      ensures QHolds(s, b) <==> QHolds(s', b)
    {
      assert Read(s, QRow(b)) == Read(s', QRow(b));
    }
  }
}
