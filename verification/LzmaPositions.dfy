/** Positions taken modulo 2^32 choose the same probabilities. */
module LzmaPositions {
  import opened Bytes
  import opened Powers
  import opened RangeEncoder
  import opened LzmaPackets
  import opened LzmaState

  lemma ModOfMod(x: nat, a: nat, b: nat)
    requires 0 < a && 0 < b
    ensures 0 < a * b && (x % (a * b)) % a == x % a
  {
    var m := Product(a, b);
    var q, r := Divide(x, m);
    var s, t := Divide(r, a);
    Regroup(q, s, a, b);
    ModOfSum(q * b + s, a, t);
    ModOfSum(s, a, t);
  }

  lemma Product(a: nat, b: nat) returns (m: nat)
    requires 0 < a && 0 < b
    ensures 0 < m == a * b
  {
    m := a * b;
  }

  lemma Divide(x: nat, m: nat) returns (q: nat, r: nat)
    requires 0 < m
    ensures q == x / m && r == x % m && x == q * m + r && r < m
  {
    q, r := x / m, x % m;
  }

  lemma Regroup(q: nat, s: nat, a: nat, b: nat)
    ensures q * (a * b) + s * a == (q * b + s) * a
  {
    assert q * (a * b) == (q * b) * a;
  }

  /** A field of at most 12 bits does not see the bits from 32 on. */
  lemma LowBitsOfWord(x: nat, n: nat)
    requires n <= 12
    ensures 0 < Pow2(n) && Word32(x) % Pow2(n) == x % Pow2(n)
  {
    Pow2Add(n, 32 - n);
    Pow2Small();
    Pow2Add(8, 8);
    Pow2Add(16, 16);
    hide Pow2;
    assert Pow2(n) * Pow2(32 - n) == 0x1_0000_0000;
    ModOfMod(x, Pow2(n), Pow2(32 - n));
  }

  /** 3 * ((((pos << 8) + prev) & lpMask) << lc), with a 32-bit position. */
  function WordOffset(p: Props, pos: nat, prev: Byte): nat
    requires p.Ok()
  {
    3 * (Field(Word32(pos * 256 + prev), 8 + p.lp, 8 - p.lc) * Pow2(p.lc))
  }

  /** The decoder's literal offset from its 32-bit position. */
  lemma OffsetOfWord(p: Props, pos: nat, prev: Byte)
    requires p.Ok()
    ensures WordOffset(p, Word32(pos), prev) == 0x300 * LitIndex(p, pos, prev)
  {
    OffsetIsIndex(p, pos, prev);
    WordShift(pos, prev);
    LowBitsOfWord(pos * 256 + prev, 8 + p.lp);
  }

  /** The same for the context of a history. */
  lemma OffsetOfContext(p: Props, z: Lz, prev: Byte)
    requires p.Ok() && z.hist != [] && prev == z.hist[|z.hist| - 1]
    ensures WordOffset(p, Word32(|z.hist|), prev) == 0x300 * ContextOf(p, z).lit
  {
    OffsetOfWord(p, |z.hist|, prev);
    hide WordOffset, LitIndex;
  }

  /** The look-ahead's formula for the literal coder. */
  lemma IndexOfContext(p: Props, z: Lz, prev: Byte)
    requires p.Ok() && z.hist != [] && prev == z.hist[|z.hist| - 1]
    ensures 0 < Pow2(p.lp) && 0 < Pow2(8 - p.lc)
    ensures Word32(|z.hist|) % Pow2(p.lp) * Pow2(p.lc) + prev / Pow2(8 - p.lc) == ContextOf(p, z).lit
  {
    LowBitsOfWord(|z.hist|, p.lp);
  }

  lemma WordShift(pos: nat, prev: Byte)
    ensures Word32(Word32(pos) * 256 + prev) == Word32(pos * 256 + prev)
  {
    var q := pos / 0x1_0000_0000;
    assert pos * 256 + prev == (Word32(pos) * 256 + prev) + 256 * q * 0x1_0000_0000;
  }

  lemma WordSucc(pos: nat, n: nat)
    ensures Word32(Word32(pos) + n) == Word32(pos + n)
  {
    var q := pos / 0x1_0000_0000;
    assert pos + n == (Word32(pos) + n) + q * 0x1_0000_0000;
  }
}
