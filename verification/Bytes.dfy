/** Bytes, and sequences of bytes read as big-endian numbers. */
module Bytes {

  type Byte = x: int | 0 <= x < 256

  /** The number whose base-256 digits, most significant first, are `s`. */
  function Num(s: seq<Byte>): nat {
    if s == [] then 0 else Num(s[..|s| - 1]) * 256 + s[|s| - 1]
  }

  function Repeat(b: Byte, n: nat): (s: seq<Byte>)
    ensures |s| == n
  {
    if n == 0 then [] else Repeat(b, n - 1) + [b]
  }

  lemma NumAppend(s: seq<Byte>, b: Byte)
    ensures Num(s + [b]) == Num(s) * 256 + b
  {
    assert (s + [b])[..|s|] == s;
  }

  /** A number below 256^n has one representation with n digits. */
  lemma {:induction false} NumInjective(s: seq<Byte>, t: seq<Byte>)
    requires |s| == |t| && Num(s) == Num(t)
    ensures s == t
  {
    if s != [] {
      var n := |s| - 1;
      assert s == s[..n] + [s[n]] && t == t[..n] + [t[n]];
      NumInjective(s[..n], t[..n]);
    }
  }

  /** Adding one to `p` followed by a byte below 255 and a run of 255s carries through the run. */
  lemma {:induction false} CarryThrough(p: seq<Byte>, c: Byte, n: nat)
    requires c < 255
    ensures Num(p + [c] + Repeat(255, n)) + 1 == Num(p + [c + 1] + Repeat(0, n))
  {
    if n == 0 {
      NumAppend(p, c);
      NumAppend(p, c + 1);
      assert p + [c] + Repeat(255, 0) == p + [c];
      assert p + [c + 1] + Repeat(0, 0) == p + [c + 1];
    } else {
      CarryThrough(p, c, n - 1);
      var s := p + [c] + Repeat(255, n - 1);
      var t := p + [c + 1] + Repeat(0, n - 1);
      assert p + [c] + Repeat(255, n) == s + [255];
      assert p + [c + 1] + Repeat(0, n) == t + [0];
      NumAppend(s, 255);
      NumAppend(t, 0);
    }
  }

  lemma NumOfFour(s: seq<Byte>)
    requires |s| == 4
    ensures Num(s) == 0x100_0000 * (s[0] as int) + 0x1_0000 * (s[1] as int) + 256 * (s[2] as int) + s[3]
  {
    assert s[..3][..2] == s[..2] && s[..2][..1] == s[..1] && s[..1][..0] == [];
    assert Num(s[..1]) == s[0];
    assert Num(s[..2]) == 256 * (s[0] as int) + s[1];
    assert Num(s[..3]) == 0x1_0000 * (s[0] as int) + 256 * (s[1] as int) + s[2];
  }
}
