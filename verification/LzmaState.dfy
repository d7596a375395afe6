/** What a packet means: the state machine, the recent distances and the bytes of the history. */
module LzmaState {
  import opened Bytes
  import opened Powers
  import opened LzmaSyntax
  import opened LzmaPackets
  import opened Wrappers

  datatype Props = Props(lc: nat, lp: nat, pb: nat, dicSize: nat) {
    predicate Ok() { lc <= 8 && lp <= 4 && pb <= 4 && 4096 <= dicSize < 0x1_0000_0000 }

    /** Literal coders. */
    function LitCoders(): nat { Pow2(lc + lp) }
  }

  datatype Reps = Reps(r0: nat, r1: nat, r2: nat, r3: nat) {
    function At(i: nat): nat { if i == 0 then r0 else if i == 1 then r1 else if i == 2 then r2 else r3 }

    /** Moves distance i to the front. */
    function Promote(i: nat): Reps {
      if i == 0 then this
      else if i == 1 then Reps(r1, r0, r2, r3)
      else if i == 2 then Reps(r2, r0, r1, r3)
      else Reps(r3, r0, r1, r2)
    }

    function Push(d: nat): Reps { Reps(d, r0, r1, r2) }

    ghost predicate Within(n: nat) { 1 <= r0 <= n && 1 <= r1 <= n && 1 <= r2 <= n && 1 <= r3 <= n }
  }

  /** The state shared by encoder and decoder; `hist` is everything produced so far. */
  datatype Lz = Lz(state: nat, reps: Reps, hist: seq<Byte>)

  const LZ_START := Lz(0, Reps(1, 1, 1, 1), [])

  // The decoder's arithmetic on states.
  function AfterLit(state: nat): nat { if state < 4 then 0 else if state < 10 then state - 3 else state - 6 }
  function AfterMatch(state: nat): nat { if state < 7 then 7 else 10 }
  function AfterRep(state: nat): nat { if state < 7 then 8 else 11 }
  function AfterShortRep(state: nat): nat { if state < 7 then 9 else 11 }

  // The encoder's tables.
  const LITERAL_NEXT: seq<nat> := [0, 0, 0, 0, 1, 2, 3, 4, 5, 6, 4, 5]
  const MATCH_NEXT: seq<nat> := [7, 7, 7, 7, 7, 7, 7, 10, 10, 10, 10, 10]
  const REP_NEXT: seq<nat> := [8, 8, 8, 8, 8, 8, 8, 11, 11, 11, 11, 11]
  const SHORT_REP_NEXT: seq<nat> := [9, 9, 9, 9, 9, 9, 9, 11, 11, 11, 11, 11]

  lemma TablesAreArithmetic(state: nat)
    requires state < 12
    ensures LITERAL_NEXT[state] == AfterLit(state) && MATCH_NEXT[state] == AfterMatch(state)
    ensures REP_NEXT[state] == AfterRep(state) && SHORT_REP_NEXT[state] == AfterShortRep(state)
  {
  }

  /** x & (2^hi - 2^lo), for lo <= hi. */
  function Field(x: nat, hi: nat, lo: nat): nat { (x % Pow2(hi)) / Pow2(lo) * Pow2(lo) }

  /** The number of the literal coder for the byte at `pos` after the byte `prev`. */
  function LitIndex(p: Props, pos: nat, prev: Byte): nat
    requires p.Ok()
  {
    (pos % Pow2(p.lp)) * Pow2(p.lc) + prev / Pow2(8 - p.lc)
  }

  /** The offset both decoder and encoder compute with one mask. */
  function LitOffset(p: Props, pos: nat, prev: Byte): nat
    requires p.Ok()
  {
    3 * (Field(pos * 256 + prev, 8 + p.lp, 8 - p.lc) * Pow2(p.lc))
  }

  /** The coder is chosen from the position and the byte before it; nothing is known before the first byte. */
  function LitOf(p: Props, hist: seq<Byte>): nat
    requires p.Ok()
  {
    if hist == [] then 0 else LitIndex(p, |hist|, hist[|hist| - 1])
  }

  function ContextOf(p: Props, z: Lz): (c: Context)
    requires p.Ok()
  {
    Context(z.state, |z.hist| % Pow2(p.pb), LitOf(p, z.hist),
            if 1 <= z.reps.r0 <= |z.hist| then z.hist[|z.hist| - z.reps.r0] else 0)
  }

  /** Repeats the byte `dist` back, `len` times. */
  function Copy(hist: seq<Byte>, dist: nat, len: nat): (h: seq<Byte>)
    requires 1 <= dist <= |hist|
    ensures |h| == |hist| + len && hist <= h
    decreases len
  {
    if len == 0 then hist else Copy(hist + [hist[|hist| - dist]], dist, len - 1)
  }

  lemma {:induction false} CopySplit(hist: seq<Byte>, dist: nat, m: nat, n: nat)
    requires 1 <= dist <= |hist|
    ensures Copy(Copy(hist, dist, m), dist, n) == Copy(hist, dist, m + n)
    decreases m
  {
    if m != 0 {
      CopySplit(hist + [hist[|hist| - dist]], dist, m - 1, n);
    }
  }

  /** Every copied byte equals the byte `dist` before it. */
  lemma {:induction false} CopyBytes(hist: seq<Byte>, dist: nat, len: nat, k: nat)
    requires 1 <= dist <= |hist| && |hist| <= k < |hist| + len
    ensures Copy(hist, dist, len)[k] == Copy(hist, dist, len)[k - dist]
    decreases len
  {
    var h := hist + [hist[|hist| - dist]];
    if k == |hist| {
      assert Copy(h, dist, len - 1)[k] == h[k] && Copy(h, dist, len - 1)[k - dist] == h[k - dist];
    } else {
      CopyBytes(h, dist, len - 1, k);
    }
  }

  function Min(a: nat, b: nat): nat { if a <= b then a else b }

  /** The distances that may be used now. */
  function Reach(p: Props, z: Lz): nat { Min(|z.hist|, p.dicSize) }

  /** The decoder accepts every packet but a match beyond the reach and a repetition before the first byte. */
  predicate Accepts(p: Props, z: Lz, k: Packet) {
    match k
    case Lit(b) => true
    case ShortRep => z.hist != []
    case Rep(index, len) => z.hist != [] && index < 4
    case Match(dist, len) => dist < Reach(p, z)
  }

  /** State and distances after a packet, and how many bytes it copies. */
  function Header(z: Lz, k: Packet): (int, Reps, nat) {
    match k
    case Lit(b) => (AfterLit(z.state), z.reps, 0)
    case ShortRep => (AfterShortRep(z.state), z.reps, 1)
    case Rep(index, len) => (AfterRep(z.state), z.reps.Promote(index), len)
    case Match(dist, len) => (AfterMatch(z.state), z.reps.Push(dist + 1), len)
  }

  ghost predicate LzOk(p: Props, z: Lz) {
    && z.state < 12
    && (z.hist == [] ==> z == LZ_START)
    && (z.hist != [] ==> z.reps.Within(Reach(p, z)))
  }

  lemma HeaderOk(p: Props, z: Lz, k: Packet)
    requires p.Ok() && LzOk(p, z) && Accepts(p, z, k)
    ensures var (state, reps, len) := Header(z, k);
            0 <= state < 12 && (z.hist != [] ==> reps.Within(Reach(p, z))) && (z.hist == [] ==> k.Lit?)
  {
  }

  function Apply(p: Props, z: Lz, k: Packet): (z': Lz)
    requires p.Ok() && Accepts(p, z, k)
    requires z.hist != [] ==> 1 <= Header(z, k).1.r0 <= |z.hist|
    requires 0 <= Header(z, k).0
  {
    var (state, reps, len) := Header(z, k);
    Lz(state, reps, if k.Lit? then z.hist + [k.b] else Copy(z.hist, reps.r0, len))
  }

  /** Every packet keeps all four distances within the history and the dictionary. */
  lemma ApplyOk(p: Props, z: Lz, k: Packet)
    requires p.Ok() && LzOk(p, z) && Accepts(p, z, k) && PacketOk(k)
    ensures z.hist != [] ==> 1 <= Header(z, k).1.r0 <= |z.hist|
    ensures 0 <= Header(z, k).0
    ensures LzOk(p, Apply(p, z, k)) && z.hist < Apply(p, z, k).hist
  {
    HeaderOk(p, z, k);
  }

  lemma ContextOk(p: Props, z: Lz)
    requires p.Ok() && z.state < 12
    ensures ContextOf(p, z).Ok() && ContextOf(p, z).lit < p.LitCoders()
  {
    Pow2Small();
    assert Pow2(p.pb) <= 16;
    if z.hist != [] {
      LitIndexBound(p, |z.hist|, z.hist[|z.hist| - 1]);
    }
  }

  lemma LitIndexBound(p: Props, pos: nat, prev: Byte)
    requires p.Ok()
    ensures LitIndex(p, pos, prev) < p.LitCoders()
  {
    Pow2Add(p.lc, 8 - p.lc);
    Pow2Add(p.lc, p.lp);
    Pow2Small();
    var a, b, c := Pow2(p.lp), Pow2(p.lc), Pow2(8 - p.lc);
    assert prev / c < b by { DivBelow(prev, b, c); }
    TopDigit(pos % a, a, prev / c, b);
  }

  lemma TopDigit(q: nat, a: nat, r: nat, b: nat)
    requires q < a && r < b
    ensures q * b + r < b * a
  {
    assert q * b + b == (q + 1) * b;
    assert (q + 1) * b <= a * b;
  }

  /** The masked offset is 0x300 times the number of the literal coder. */
  lemma OffsetIsIndex(p: Props, pos: nat, prev: Byte)
    requires p.Ok()
    ensures LitOffset(p, pos, prev) == 0x300 * LitIndex(p, pos, prev)
  {
    hide Pow2;
    Pow2Small();
    Pow2Add(8, p.lp);
    Pow2Add(p.lc, 8 - p.lc);
    OffsetParts(pos, prev, Pow2(p.lp), Pow2(p.lc), Pow2(8 - p.lc));
  }

  lemma OffsetParts(pos: nat, prev: Byte, a: nat, b: nat, c: nat)
    requires 0 < a && 0 < c && b * c == 256
    ensures 0 < 256 * a
    ensures 3 * (((pos * 256 + prev) % (256 * a)) / c * c * b) == 0x300 * (pos % a * b + prev / c)
  {
    LowPart(pos, prev, a);
    HighPart(pos % a, prev, b, c);
    TripleProduct(pos % a * b + prev / c, b, c);
  }

  lemma TripleProduct(k: nat, b: nat, c: nat)
    requires b * c == 256
    ensures k * c * b == 256 * k
  {
    assert k * c * b == k * (b * c);
  }

  lemma LowPart(pos: nat, prev: Byte, a: nat)
    requires 0 < a
    ensures (pos * 256 + prev) % (256 * a) == pos % a * 256 + prev
  {
    var q, r := pos / a, pos % a;
    Quotient(pos, a);
    var m, x := 256 * a, r * 256 + prev;
    assert pos * 256 + prev == q * m + x;
    ModOfSum(q, m, x);
  }

  lemma HighPart(q: nat, prev: nat, b: nat, c: nat)
    requires 0 < c && b * c == 256
    ensures (q * 256 + prev) / c == q * b + prev / c
  {
    var k, r := prev / c, prev % c;
    assert q * 256 == (q * b) * c by { assert q * (b * c) == (q * b) * c; }
    assert q * 256 + prev == (q * b + k) * c + r;
    ModOfSum(q * b + k, c, r);
  }
}
