/** The range encoder: exact interval arithmetic, and the carry-propagating code that computes it. */
module RangeEncoder {
  import opened Bytes
  import opened BitModel
  import opened Powers

  /** The coder on exact numbers: the current interval is [low, low + range) at the scale 256^-shifts. */
  datatype Interval = Interval(low: nat, range: nat, shifts: nat) {
    ghost predicate Normal() { 0x100_0000 <= range < 0x1_0000_0000 }
  }

  const START := Interval(0, 0xFFFF_FFFF, 0)

  function Norm(v: Interval): Interval {
    if v.range < 0x100_0000 then Interval(v.low * 256, v.range * 256, v.shifts + 1) else v
  }

  function Bound(range: nat, p: nat): nat { (range / 2048) * p }

  /** Codes a bit of probability p. */
  function CodeBit(v: Interval, p: nat, bit: int): Interval
    requires Bound(v.range, p) <= v.range
  {
    var bound := Bound(v.range, p);
    Norm(if bit == 0 then v.(range := bound) else v.(low := v.low + bound, range := v.range - bound))
  }

  /** Codes a bit of probability one half, without a model. */
  function CodeDirect(v: Interval, bit: int): Interval {
    var half := v.range / 2;
    Norm(if bit == 0 then v.(range := half) else v.(low := v.low + half, range := half))
  }

  lemma CodeBitNormal(v: Interval, p: nat, bit: int)
    requires v.Normal() && IsProb(p)
    ensures Bound(v.range, p) <= v.range
    ensures CodeBit(v, p, bit).Normal() && 0x100_0000 <= CodeBit(v, p, bit).range < 0x1_0000_0000
  {
    SplitBounds(v.range, p);
  }

  /** The ends of an interval at a scale that is the same or one byte finer. */
  function LowAt(v: Interval, shifts: nat): nat { if shifts == v.shifts then v.low else v.low * 256 }
  function HighAt(v: Interval, shifts: nat): nat { if shifts == v.shifts then v.low + v.range else (v.low + v.range) * 256 }

  /** The interval of a zero is the lower part and that of a one the rest; nothing is lost between them. The zero's share
      is p of 2048 parts, as far as the range can be divided. */
  lemma ZeroBelowOne(v: Interval, p: nat)
    requires v.Normal() && IsProb(p) && Bound(v.range, p) <= v.range
    ensures var zero, one, s := CodeBit(v, p, 0), CodeBit(v, p, 1), v.shifts + 1;
            && v.shifts <= zero.shifts <= s && v.shifts <= one.shifts <= s
            && LowAt(zero, s) == LowAt(v, s) && HighAt(zero, s) == LowAt(one, s) && HighAt(one, s) == HighAt(v, s)
            && Share(v.range, p, HighAt(zero, s) - LowAt(zero, s))
  {
    SplitBounds(v.range, p);
    ShareOf(v.range, p);
  }

  /** The size, at the finer scale, is p parts of 2048 of the range, rounded down by less than p. */
  ghost predicate Share(range: nat, p: nat, size: int) { 256 * (p * range) - 2048 * 256 * p < 2048 * size <= 256 * (p * range) }

  lemma ShareOf(range: nat, p: nat)
    requires 0 < p
    ensures Share(range, p, 256 * Bound(range, p))
  {
    var q, r := range / 2048, range % 2048;
    assert range == 2048 * q + r;
    assert p * range == 2048 * (q * p) + p * r;
    TimesMono(r, 2047, p);
  }

  /** The two halves for direct bits are of one size, the upper one behind the lower. */
  lemma HalvesEqual(v: Interval)
    requires v.Normal()
    ensures var zero, one, s := CodeDirect(v, 0), CodeDirect(v, 1), v.shifts + 1;
            && v.shifts <= zero.shifts == one.shifts <= s && zero.range == one.range
            && LowAt(zero, s) == LowAt(v, s) && HighAt(zero, s) == LowAt(one, s)
            && HighAt(v, s) - 256 <= HighAt(one, s) <= HighAt(v, s)
  {
  }

  /** An unsigned 32-bit word. */
  function Word32(x: int): nat { x % 0x1_0000_0000 }

  /** x & m, for a 32-bit m that is all zeros or all ones. */
  function Mask(m: int, x: nat): nat { if Word32(m) == 0 then 0 else x }

  /** RC_BIT without a branch on the bit: the new range, what is added to low, the new probability. */
  function BranchFree(range: nat, p: nat, bit: int): (nat, nat, int) {
    var newBound := Bound(range, p);
    var mask := Word32(0 - bit);
    var r := Mask(mask, range);
    var add := Mask(mask, newBound);
    var r' := Word32(r - add);
    var mask' := Word32(bit - 1);
    var r'' := Word32(r' + Mask(mask', newBound));
    var target := Mask(mask', 2048 - 31) + 31;
    (r'', add, p + (target - p) / 32)
  }

  lemma BranchFreeIsBranching(range: nat, p: nat, bit: int)
    requires range < 0x1_0000_0000 && IsBit(bit) && Bound(range, p) <= range
    ensures BranchFree(range, p, bit) ==
            if bit == 0 then (Bound(range, p), 0, Adapt(p, 0))
            else (range - Bound(range, p), Bound(range, p), Adapt(p, 1))
  {
    hide Bound, Word32;
    WordFits(range - Bound(range, p));
    WordFits(Bound(range, p));
    WordFits(range);
    Masks();
    FlooredDown(p);
  }

  lemma WordFits(x: nat)
    requires x < 0x1_0000_0000
    ensures Word32(x) == x
  {
  }

  lemma Masks()
    ensures Word32(0) == 0 && Word32(-1) == 0xFFFF_FFFF && Word32(0xFFFF_FFFF) == 0xFFFF_FFFF
  {
  }

  /** The arithmetic shift of a negative number rounds down. */
  lemma FlooredDown(p: nat)
    ensures (31 - p) / 32 == -(p / 32)
  {
    var q, r := p / 32, p % 32;
    assert p == 32 * q + r;
    assert 31 - p == 32 * (-q) + (31 - r);
  }

  /** The digits decided so far if no carry comes: the output, the cached byte and the pending 0xFFs. */
  ghost function Digits(out: seq<Byte>, cache: Byte, run: nat): seq<Byte> {
    out + [cache] + Repeat(255, run)
  }

  /** The low end that the four fields stand for. */
  ghost function ExactLow(out: seq<Byte>, cache: Byte, run: nat, low: nat): nat {
    Num(Digits(out, cache, run)) * 0x1_0000_0000 + low
  }

  /** An interval of width `width` above `low` that neither overflows 33 bits nor carries into a
      cached 0xFF, nor into the very first byte. */
  ghost predicate HasRoom(out: seq<Byte>, cache: nat, low: nat, width: nat) {
    && cache < 256
    && low + width <= 0x2_0000_0000
    && (cache == 255 || |out| == 0 ==> low + width <= 0x1_0000_0000)
    && (|out| == 0 ==> cache == 0)
    && (|out| > 0 ==> out[0] == 0)
  }

  /** Encoder fields low, range, cache and cacheSize; `out` is everything written so far. */
  class RangeEnc {
    var low: nat
    var range: nat
    var cache: nat
    var cacheSize: nat
    var out: seq<Byte>

    /** The number of shifts made so far. */
    ghost function Shifts(): nat
      reads this
    {
      |out| + cacheSize
    }

    /** The exact low end of the interval. */
    ghost function Exact(): nat
      reads this
      requires cache < 256
    {
      ExactLow(out, cache, cacheSize, low)
    }

    ghost predicate Room(width: nat)
      reads this
    {
      HasRoom(out, cache, low, width)
    }

    ghost predicate Valid()
      reads this
    {
      Room(range) && 0x100_0000 <= range < 0x1_0000_0000
    }

    ghost function View(): Interval
      reads this
      requires cache < 256
    {
      Interval(Exact(), range, Shifts())
    }

    constructor ()
      ensures Valid() && View() == START && out == []
    {
      range := 0xFFFF_FFFF;
      cache := 0;
      low := 0;
      cacheSize := 0;
      out := [];
      new;
      hide Digits, Num;
      ZeroDigits();
    }

    /** Writes the cached byte and the pending run, all of them with the carry `high` added. */
    method WritePending(high: nat)
      requires cache + high < 256
      modifies this`out, this`cacheSize
      ensures cacheSize == 0
      ensures out == old(out) + [cache + high] + Repeat((high + 255) % 256, old(cacheSize))
    {
      out := out + [cache + high];
      var b := (high + 255) % 256;
      ghost var start := out;
      while cacheSize != 0
        invariant cacheSize <= old(cacheSize)
        invariant out == start + Repeat(b, old(cacheSize) - cacheSize)
      {
        assert Repeat(b, old(cacheSize) - cacheSize + 1) == Repeat(b, old(cacheSize) - cacheSize) + [b];
        out := out + [b];
        cacheSize := cacheSize - 1;
      }
    }

    /** Shifts the top byte of `low` out, resolving a carry into the cached byte and the pending run. */
    method ShiftLow(ghost width: nat)
      requires Room(width) && 0 < width < 0x100_0000
      modifies this`low, this`cache, this`cacheSize, this`out
      ensures Room(width * 256)
      ensures Exact() == old(Exact()) * 256
      ensures Shifts() == old(Shifts()) + 1
      ensures low == Drop(old(low))
      ensures old(low) < 0xFF00_0000 ==> cacheSize == 0 && cache == old(low) / 0x100_0000
    {
      var low32, high := Word32(low), low / 0x1_0000_0000;
      LowParts(low);
      ghost var out0, c0, run, low0 := out, cache, cacheSize, low;
      low := Word32(low32 * 256);
      if low32 < 0xFF00_0000 || high != 0 {
        WritePending(high);
        cache := low32 / 0x100_0000;
        ShiftOut(out0, c0, run, low0, width);
        assert out == out0 + [c0 + high] + Repeat((high + 255) % 256, run);
      } else {
        ShiftKeep(out, cache, cacheSize, low0);
        cacheSize := cacheSize + 1;
      }
    }

    /** RC_NORM after the interval has been narrowed. */
    method Normalise()
      requires Room(range) && 0x1_0000 <= range < 0x1_0000_0000
      modifies this
      ensures Valid() && View() == Norm(old(View()))
    {
      if range < 0x100_0000 {
        ghost var width := range;
        range := range * 256;
        ShiftLow(width);
      }
    }

    /** RC_BIT: codes the bit and returns the adapted probability. */
    method EncodeBit(p: nat, bit: int) returns (q: nat)
      requires Valid() && IsProb(p) && IsBit(bit)
      modifies this
      ensures Valid()
      ensures Bound(old(range), p) <= old(range)
      ensures View() == CodeBit(old(View()), p, bit)
      ensures q == Adapt(p, bit)
    {
      SplitBounds(range, p);
      BranchFreeIsBranching(range, p, bit);
      var (r, add, ttt) := BranchFree(range, p, bit);
      q := ttt;
      range := r;
      low := low + add;
      Normalise();
    }

    /** One step of the direct-bits loop. */
    method EncodeDirect(bit: int)
      requires Valid() && IsBit(bit)
      modifies this
      ensures Valid()
      ensures View() == CodeDirect(old(View()), bit)
    {
      range := range / 2;
      low := low + Mask(0 - bit, range);
      Normalise();
    }

    /** Five shifts write out everything: the output is then the exact low end, digit for digit. */
    method FlushData()
      requires Valid()
      modifies this
      ensures Num(out) == old(Exact())
      ensures |out| == old(Shifts()) + 5
      ensures out[0] == 0
    {
      var i := 0;
      while i < 5
        invariant 0 <= i <= 5
        invariant Room(1)
        invariant Exact() == Scaled(old(Exact()), i)
        invariant Shifts() == old(Shifts()) + i
        invariant low == DropTimes(old(low), i)
        invariant i == 5 ==> cacheSize == 0 && cache == 0
      {
        FourDrops(old(low));
        ShiftLow(1);
        i := i + 1;
      }
      FourDrops(old(low));
      ScaledFive(old(Exact()));
      assert Digits(out, 0, 0) == out + [0];
      NumAppend(out, 0);
    }
  }

  lemma ZeroDigits()
    ensures Num(Digits([], 0, 0)) == 0
  {
    assert Digits([], 0, 0) == [0];
    assert [0][..0] == [];
  }

  /** Writing the pending bytes out with the carry keeps the exact low end, 256 times larger. */
  lemma ShiftOut(out: seq<Byte>, cache: Byte, run: nat, low: nat, width: nat)
    requires HasRoom(out, cache, low, width) && 0 < width < 0x100_0000
    requires Word32(low) < 0xFF00_0000 || low >= 0x1_0000_0000
    ensures var high := low / 0x1_0000_0000;
            var cache' := Word32(low) / 0x100_0000;
            && cache + high < 256 && cache' < 256
            && var out' := out + [cache + high] + Repeat((high + 255) % 256, run);
            && ExactLow(out', cache', 0, Drop(low)) == ExactLow(out, cache, run, low) * 256
            && HasRoom(out', cache', Drop(low), width * 256)
  {
    LowParts(low);
    var high := low / 0x1_0000_0000;
    var cache' := Word32(low) / 0x100_0000;
    var out' := out + [cache + high] + Repeat((high + 255) % 256, run);
    PendingValue(out, cache, high, run);
    NumAppend(out', cache');
    assert Digits(out', cache', 0) == out' + [cache'];
  }

  /** Prolonging the pending run keeps it too. */
  lemma ShiftKeep(out: seq<Byte>, cache: Byte, run: nat, low: nat)
    requires 0xFF00_0000 <= low < 0x1_0000_0000
    ensures ExactLow(out, cache, run + 1, Drop(low)) == ExactLow(out, cache, run, low) * 256
  {
    LowParts(low);
    assert Digits(out, cache, run + 1) == Digits(out, cache, run) + [255];
    NumAppend(Digits(out, cache, run), 255);
  }

  function Scaled(x: nat, n: nat): nat { if n == 0 then x else Scaled(x, n - 1) * 256 }

  lemma ScaledFive(x: nat)
    ensures Scaled(x, 5) == x * 0x100_0000_0000
  {
    assert Scaled(x, 1) == x * 256;
    assert Scaled(x, 2) == x * 0x1_0000;
    assert Scaled(x, 3) == x * 0x100_0000;
    assert Scaled(x, 4) == x * 0x1_0000_0000;
  }

  /** What is left of `low` after its top byte has been shifted out. */
  function Drop(low: nat): nat { low % 0x100_0000 * 256 }

  function DropTimes(low: nat, n: nat): nat { if n == 0 then low else Drop(DropTimes(low, n - 1)) }

  lemma FourDrops(low: nat)
    ensures DropTimes(low, 4) == 0
  {
    var x := low % 0x100_0000;
    assert DropTimes(low, 1) == x * 256;
    var y := x % 0x1_0000;
    assert x * 256 % 0x100_0000 == y * 256 by { assert x == x / 0x1_0000 * 0x1_0000 + y; }
    assert DropTimes(low, 2) == y * 0x1_0000;
    var z := y % 256;
    assert y * 0x1_0000 % 0x100_0000 == z * 0x1_0000 by { assert y == y / 256 * 256 + z; }
    assert DropTimes(low, 3) == z * 0x100_0000;
  }

  lemma LowParts(low: nat)
    requires low < 0x2_0000_0000
    ensures low / 0x1_0000_0000 <= 1
    ensures low == low / 0x1_0000_0000 * 0x1_0000_0000 + Word32(low)
    ensures Word32(Word32(low) * 256) == Drop(low)
    ensures Word32(low) == Word32(low) / 0x100_0000 * 0x100_0000 + low % 0x100_0000
    ensures Word32(low) / 0x100_0000 < 256
  {
  }

  /** The bytes written for a pending run are worth the run plus the carry. */
  lemma PendingValue(p: seq<Byte>, c: Byte, high: nat, run: nat)
    requires high <= 1 && c + high < 256
    ensures Num(p + [c + high] + Repeat((high + 255) % 256, run)) == Num(p + [c] + Repeat(255, run)) + high
  {
    if high == 1 {
      CarryThrough(p, c, run);
    }
  }
}
