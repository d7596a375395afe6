/** The bit reader of libchdr_bitstream.c: most significant bit first, with zeros behind the end. */
module BitStream {
  import opened Bytes
  import opened Powers

  /** The bit at a position of the data, which goes on with zeros. */
  function BitAt(data: seq<Byte>, k: nat): (b: nat)
    ensures b < 2
  {
    if k / 8 < |data| then data[k / 8] / Pow2(7 - k % 8) % 2 else 0
  }

  /** The number in the n bits from a position on. */
  function Flat(data: seq<Byte>, pos: nat, n: nat): nat {
    if n == 0 then 0 else 2 * Flat(data, pos, n - 1) + BitAt(data, pos + n - 1)
  }

  lemma {:induction false} FlatBound(data: seq<Byte>, pos: nat, n: nat)
    ensures Flat(data, pos, n) < Pow2(n)
  {
    hide BitAt;
    if n != 0 {
      FlatBound(data, pos, n - 1);
    }
  }

  /** The bits in two parts. */
  lemma {:induction false} FlatParts(data: seq<Byte>, pos: nat, m: nat, n: nat)
    ensures Flat(data, pos, m + n) == Flat(data, pos, m) * Pow2(n) + Flat(data, pos + m, n)
  {
    hide BitAt;
    if n != 0 {
      FlatParts(data, pos, m, n - 1);
      Regroup(Flat(data, pos, m), 2, Pow2(n - 1));
    }
  }

  function ByteOf(data: seq<Byte>, d: nat): Byte { if d < |data| then data[d] else 0 }

  /** The first n bits of a byte. */
  lemma {:induction false} FlatInByte(data: seq<Byte>, d: nat, n: nat)
    requires n <= 8
    ensures Flat(data, 8 * d, n) == ByteOf(data, d) / Pow2(8 - n)
    decreases n
  {
    if n == 0 {
      Pow2Small();
    } else {
      FlatInByte(data, d, n - 1);
      BitInByte(data, d, n - 1);
      HalfOfQuotient(ByteOf(data, d), Pow2(8 - n));
    }
  }

  lemma BitInByte(data: seq<Byte>, d: nat, i: nat)
    requires i < 8
    ensures BitAt(data, 8 * d + i) == ByteOf(data, d) / Pow2(7 - i) % 2
  {
    hide Pow2;
    ModOfSum(d, 8, i);
    PowPositive(7 - i);
    NoQuotient(Pow2(7 - i));
  }

  lemma NoQuotient(m: nat)
    requires 1 <= m
    ensures 0 / m == 0
  {
  }

  lemma FlatByte(data: seq<Byte>, d: nat)
    ensures Flat(data, 8 * d, 8) == ByteOf(data, d)
  {
    hide Flat;
    FlatInByte(data, d, 8);
    Pow2Small();
  }

  // ---------- The register ----------

  /** The register holds the next `bits` bits, left-justified. */
  ghost predicate Holds(data: seq<Byte>, buffer: nat, bits: nat, pos: nat) {
    bits <= 32 && buffer == Flat(data, pos, bits) * Pow2(32 - bits)
  }

  /** b << n */
  function Placed(b: nat, n: nat): nat { b * Pow2(n) }

  /** One more byte, below the bits that are there. */
  lemma ByteJoins(data: seq<Byte>, buffer: nat, bits: nat, doffset: nat)
    requires bits <= 24 && bits <= 8 * doffset && Holds(data, buffer, bits, 8 * doffset - bits)
    ensures Holds(data, buffer + Placed(ByteOf(data, doffset), 24 - bits), bits + 8, 8 * (doffset + 1) - (bits + 8))
  {
    hide Flat, Pow2;
    var pos := 8 * doffset - bits;
    FlatParts(data, pos, bits, 8);
    FlatByte(data, doffset);
    Pow2Add(8, 24 - bits);
    Pow2Small();
    Regroup(Flat(data, pos, bits), 256, Pow2(24 - bits));
    Distribute(Flat(data, pos, bits) * 256, ByteOf(data, doffset), Pow2(24 - bits));
  }

  lemma PlacedNothing(n: nat)
    ensures Placed(0, n) == 0
  {
  }

  /** The register, divided at the n-th bit. */
  lemma Divided(data: seq<Byte>, buffer: nat, bits: nat, pos: nat, n: nat)
    requires Holds(data, buffer, bits, pos) && n <= bits
    ensures var rest := Flat(data, pos + n, bits - n) * Pow2(32 - bits);
            buffer == Flat(data, pos, n) * Pow2(32 - n) + rest && rest < Pow2(32 - n)
  {
    hide Flat, Pow2;
    FlatParts(data, pos, n, bits - n);
    FlatBound(data, pos + n, bits - n);
    Pow2Add(bits - n, 32 - bits);
    Regroup(Flat(data, pos, n), Pow2(bits - n), Pow2(32 - bits));
    Distribute(Flat(data, pos, n) * Pow2(bits - n), Flat(data, pos + n, bits - n), Pow2(32 - bits));
    Scaled(Flat(data, pos + n, bits - n), Pow2(bits - n), Pow2(32 - bits));
  }

  lemma Scaled(a: nat, b: nat, m: nat)
    requires a < b && 0 < m
    ensures a * m < b * m
  {
  }

  /** The first n bits of the register. */
  lemma TopBits(data: seq<Byte>, buffer: nat, bits: nat, pos: nat, n: nat)
    requires Holds(data, buffer, bits, pos) && n <= bits
    ensures buffer / Pow2(32 - n) == Flat(data, pos, n)
  {
    hide Flat, Pow2;
    Divided(data, buffer, bits, pos, n);
    ModOfSum(Flat(data, pos, n), Pow2(32 - n), buffer - Flat(data, pos, n) * Pow2(32 - n));
  }

  /** The register without its first n bits. */
  lemma Shifted(data: seq<Byte>, buffer: nat, bits: nat, pos: nat, n: nat)
    requires Holds(data, buffer, bits, pos) && n <= bits
    ensures Holds(data, buffer * Pow2(n) % Pow2(32), bits - n, pos + n)
  {
    hide Flat, Pow2;
    Divided(data, buffer, bits, pos, n);
    var first, rest := Flat(data, pos, n), Flat(data, pos + n, bits - n) * Pow2(32 - bits);
    Pow2Add(32 - n, n);
    Pow2Add(32 - bits, n);
    Distribute(first * Pow2(32 - n), rest, Pow2(n));
    Regroup(first, Pow2(32 - n), Pow2(n));
    Regroup(Flat(data, pos + n, bits - n), Pow2(32 - bits), Pow2(n));
    Scaled(rest, Pow2(32 - n), Pow2(n));
    ModOfSum(first, Pow2(32), rest * Pow2(n));
  }

  class Reader {
    const data: seq<Byte>
    var buffer: nat
    var bits: nat
    var doffset: nat

    /** How many bits have been consumed. */
    ghost function Pos(): int
      reads this
    {
      8 * doffset - bits
    }

    ghost predicate Valid()
      reads this
    {
      bits <= 8 * doffset && Holds(data, buffer, bits, 8 * doffset - bits)
    }

    constructor (data: seq<Byte>)
      ensures Valid() && Pos() == 0 && this.data == data
    {
      this.data, buffer, bits, doffset := data, 0, 0, 0;
    }

    /** bitstream_peek: the next bits, of which there may be 25. */
    method Peek(numbits: nat) returns (r: nat)
      requires Valid() && numbits <= 25
      modifies this
      ensures Valid() && Pos() == old(Pos()) && numbits <= bits
      ensures r == Flat(data, Pos(), numbits)
    {
      hide Holds, Flat, Pow2, Placed;
      if numbits == 0 {
        FlatOfNone(data, Pos());
        return 0;
      }
      if numbits > bits {
        while bits <= 24
          invariant Valid() && Pos() == old(Pos())
        {
          HoldsFew(data, buffer, bits, Pos());
          ByteJoins(data, buffer, bits, doffset);
          PlacedNothing(24 - bits);
          if doffset < |data| {
            buffer := buffer + Placed(data[doffset], 24 - bits);
          }
          doffset := doffset + 1;
          bits := bits + 8;
        }
      }
      HoldsFew(data, buffer, bits, Pos());
      TopBits(data, buffer, bits, Pos(), numbits);
      PowPositive(32 - numbits);
      r := buffer / Pow2(32 - numbits);
    }

    /** bitstream_remove */
    method Remove(numbits: nat)
      requires Valid() && numbits <= bits
      modifies this
      ensures Valid() && Pos() == old(Pos()) + numbits
    {
      hide Holds, Flat, Pow2;
      Shifted(data, buffer, bits, Pos(), numbits);
      PowPositive(32);
      buffer := buffer * Pow2(numbits) % Pow2(32);
      bits := bits - numbits;
    }

    /** bitstream_read: reads of up to 25 bits agree with a flat sequence of bits. */
    method Read(numbits: nat) returns (r: nat)
      requires Valid() && numbits <= 25
      modifies this
      ensures Valid() && Pos() == old(Pos()) + numbits && r == Flat(data, old(Pos()), numbits)
    {
      hide Holds, Flat;
      r := Peek(numbits);
      Remove(numbits);
    }

    /** bitstream_overflow: more bits have been consumed than there are. */
    method Overflow() returns (r: bool)
      requires Valid()
      ensures r <==> Pos() > 8 * |data|
    {
      r := doffset - bits / 8 > |data|;
    }

    /** bitstream_read_offset: the byte after the last one that has been begun. */
    method ReadOffset() returns (r: nat)
      requires Valid()
      ensures Pos() <= 8 * r < Pos() + 8
    {
      r := doffset;
      var left: nat := bits;
      while left >= 8
        invariant left <= 8 * r && 8 * r - left == Pos()
      {
        r := r - 1;
        left := left - 8;
      }
    }

    /** bitstream_flush: on to the next byte. */
    method Flush() returns (r: nat)
      requires Valid()
      modifies this
      ensures Valid() && r == doffset && Pos() == 8 * r && old(Pos()) <= Pos() < old(Pos()) + 8
    {
      hide Flat, Holds;
      ghost var pos := Pos();
      while bits >= 8
        invariant bits <= 8 * doffset && Pos() == pos
      {
        doffset := doffset - 1;
        bits := bits - 8;
      }
      bits, buffer := 0, 0;
      NothingHeld(data, Pos());
      r := doffset;
    }
  }

  lemma FlatOfNone(data: seq<Byte>, pos: nat)
    ensures Flat(data, pos, 0) == 0
  {
  }

  lemma NothingHeld(data: seq<Byte>, pos: nat)
    ensures Holds(data, 0, 0, pos)
  {
  }

  lemma HoldsFew(data: seq<Byte>, buffer: nat, bits: nat, pos: nat)
    requires Holds(data, buffer, bits, pos)
    ensures bits <= 32
  {
  }
}
