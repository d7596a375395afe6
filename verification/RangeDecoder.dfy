/** The range decoder, and why it reads back what the encoder wrote. */
module RangeDecoder {
  import opened Bytes
  import opened BitModel
  import opened RangeEncoder
  import opened Wrappers

  /** Decoder registers range and code, and the number of input bytes taken. */
  datatype Reader = Reader(range: nat, code: nat, pos: nat) {
    predicate Normal() { 0x100_0000 <= range < 0x1_0000_0000 && code < 0x1_0000_0000 }
  }

  /** NORMALIZE; None when the input has run out. */
  function Fetch(r: Reader, b: seq<Byte>): Option<Reader> {
    if r.range >= 0x100_0000 then Some(r)
    else if r.pos < |b| then Some(Reader(r.range * 256, Word32(r.code * 256 + b[r.pos]), r.pos + 1))
    else None
  }

  function BitOf(r: Reader, p: nat): int { if r.code < Bound(r.range, p) then 0 else 1 }

  /** The registers after a modelled bit, before they are normalised. */
  function TakeBit(r: Reader, p: nat): Reader
    requires Bound(r.range, p) <= r.range
  {
    var bound := Bound(r.range, p);
    if r.code < bound then r.(range := bound) else r.(range := r.range - bound, code := r.code - bound)
  }

  /** A direct bit is the sign of the 32-bit difference code - range. */
  function DirectBitOf(r: Reader): int { if Word32(r.code - r.range / 2) < 0x8000_0000 then 1 else 0 }

  function TakeDirect(r: Reader): Reader {
    var half := r.range / 2;
    if DirectBitOf(r) == 1 then r.(range := half, code := Word32(r.code - half)) else r.(range := half)
  }

  lemma TakeBitRange(r: Reader, p: nat)
    requires r.Normal() && IsProb(p)
    ensures Bound(r.range, p) <= r.range
    ensures 0x1_0000 <= TakeBit(r, p).range <= r.range
  {
    SplitBounds(r.range, p);
  }

  /** The interval `v` contains the number written in `b`. */
  ghost predicate Holds(v: Interval, b: seq<Byte>) {
    && v.shifts + 5 <= |b|
    && v.low <= Num(b[..v.shifts + 5]) < v.low + v.range
  }

  /** The registers of a decoder that has followed the encoder down to `v`. */
  ghost function ReaderAt(v: Interval, b: seq<Byte>): Reader
    requires Holds(v, b)
  {
    Reader(v.range, Num(b[..v.shifts + 5]) - v.low, v.shifts + 5)
  }

  lemma NormHolds(v: Interval, b: seq<Byte>)
    requires 0x1_0000 <= v.range < 0x1_0000_0000
    requires Holds(Norm(v), b)
    ensures Holds(v, b)
    ensures Fetch(ReaderAt(v, b), b) == Some(ReaderAt(Norm(v), b))
  {
    if v.range < 0x100_0000 {
      var n := v.shifts + 5;
      assert b[..n + 1] == b[..n] + [b[n]];
      NumAppend(b[..n], b[n]);
    }
  }

  /** A number inside the interval of a coded bit is decoded as that bit. */
  lemma BitIsReadBack(v: Interval, p: nat, bit: int, b: seq<Byte>)
    requires v.Normal() && IsProb(p) && IsBit(bit)
    requires Bound(v.range, p) <= v.range && Holds(CodeBit(v, p, bit), b)
    ensures Holds(v, b)
    ensures BitOf(ReaderAt(v, b), p) == bit
    ensures Fetch(TakeBit(ReaderAt(v, b), p), b) == Some(ReaderAt(CodeBit(v, p, bit), b))
  {
    hide Num, Norm, Fetch;
    SplitBounds(v.range, p);
    var bound := Bound(v.range, p);
    var w := if bit == 0 then v.(range := bound) else v.(low := v.low + bound, range := v.range - bound);
    NormHolds(w, b);
  }

  lemma DirectIsReadBack(v: Interval, bit: int, b: seq<Byte>)
    requires v.Normal() && IsBit(bit)
    requires Holds(CodeDirect(v, bit), b)
    ensures Holds(v, b)
    ensures DirectBitOf(ReaderAt(v, b)) == bit
    ensures Fetch(TakeDirect(ReaderAt(v, b)), b) == Some(ReaderAt(CodeDirect(v, bit), b))
  {
    hide Num, Norm, Fetch, Word32;
    var half := v.range / 2;
    var w := if bit == 0 then v.(range := half) else v.(low := v.low + half, range := half);
    NormHolds(w, b);
    SignOfDifference(ReaderAt(v, b).code, half);
  }

  lemma SignOfDifference(code: nat, half: nat)
    requires half < 0x8000_0000 && code <= 2 * half
    ensures code < half ==> Word32(code - half) >= 0x8000_0000
    ensures code >= half ==> Word32(code - half) == code - half
  {
  }
}
