/** A message through both ends: codes made from how often its symbols occur, the code sizes sent in packed form, and the
    symbols read back with the table built from them. */
module DeflateWhole {
  import opened CodeLengths
  import opened DeflateCodes
  import DeflateLengths
  import opened DeflateOptimize
  import opened DeflateJoins
  import opened DeflateRedundancy
  import opened DeflateTable
  import opened Powers

  /** Every symbol has a code. */
  ghost predicate Coded(sizes: seq<nat>, message: seq<nat>) {
    forall i :: 0 <= i < |message| ==> message[i] < |sizes| && 1 <= sizes[message[i]] <= 15
  }

  /** The codes one behind the other, the first in the low bits, and `rest` behind them. */
  function Written(sizes: seq<nat>, message: seq<nat>, rest: nat): nat
    requires Coded(sizes, message)
  {
    hide Number, Path, Pow2;
    if message == [] then rest
    else Number(Path(sizes, message[0])) + Pow2(sizes[message[0]]) * Written(sizes, message[1..], rest)
  }

  /** The first code comes, and behind it the others. */
  lemma FirstComes(sizes: seq<nat>, message: seq<nat>, rest: nat)
    requires Coded(sizes, message) && message != []
    ensures Comes(sizes, Written(sizes, message, rest), message[0])
    ensures Written(sizes, message, rest) / Pow2(sizes[message[0]]) == Written(sizes, message[1..], rest)
  {
    hide Number, Path, Pow2, Comes;
    var m, others := message[0], Written(sizes, message[1..], rest);
    NumberBits(Path(sizes, m));
    ModOfSum(others, Pow2(sizes[m]), Number(Path(sizes, m)));
    CodeComes(sizes, m, Written(sizes, message, rest));
  }

  /** TDEFL_PUT_BITS for each symbol; other bits may follow. */
  method Write(sizes: array<nat>, codes: array<nat>, message: seq<nat>, rest: nat) returns (bits: nat)
    requires Coded(sizes[..], message) && codes.Length == sizes.Length
    requires forall x :: 0 <= x < sizes.Length && 1 <= sizes[x] ==> codes[x] == Number(Path(sizes[..], x))
    ensures bits == Written(sizes[..], message, rest)
  {
    hide Number, Path, Pow2, Written, Coded;
    bits := 0;
    var count: nat := 0;
    ghost var s := sizes[..];
    NothingBefore(s, message, rest);
    for i := 0 to |message|
      invariant Coded(s, message[i..]) && bits + Pow2(count) * Written(s, message[i..], rest) == Written(s, message, rest)
    {
      var m := message[i];
      WrittenFrom(s, message, i, rest);
      WrittenNext(codes[m], count, sizes[m], Written(s, message[i + 1..], rest));
      bits := bits + codes[m] * Pow2(count);
      count := count + sizes[m];
    }
    NothingLeft(s, message[|message|..], rest);
    bits := bits + rest * Pow2(count);
  }

  lemma NothingBefore(s: seq<nat>, message: seq<nat>, rest: nat)
    requires Coded(s, message)
    ensures message[0..] == message && Pow2(0) * Written(s, message, rest) == Written(s, message, rest)
  {
    hide Written;
  }

  lemma NothingLeft(s: seq<nat>, message: seq<nat>, rest: nat)
    requires message == []
    ensures Coded(s, message) && Written(s, message, rest) == rest
  {
  }

  lemma WrittenFrom(s: seq<nat>, message: seq<nat>, i: nat, rest: nat)
    requires i < |message| && Coded(s, message[i..])
    ensures Coded(s, message[i + 1..]) && message[i] < |s| && 1 <= s[message[i]] <= 15
    ensures Written(s, message[i..], rest) == Number(Path(s, message[i])) + Pow2(s[message[i]]) * Written(s, message[i + 1..], rest)
  {
    hide Number, Path, Pow2;
    var m := message[i..];
    assert m[1..] == message[i + 1..] && m[0] == message[i];
    assert Coded(s, m[1..]);
  }

  lemma WrittenNext(code: nat, count: nat, size: nat, others: nat)
    ensures Pow2(count) * (code + Pow2(size) * others) == code * Pow2(count) + Pow2(count + size) * others
  {
    Pow2Add(count, size);
    Regroup(Pow2(count), Pow2(size), others);
  }

  /** The codes are read until as many symbols have come. */
  method ReadAll(table: Table, bits: nat, count: nat, ghost message: seq<nat>, ghost rest: nat) returns (out: seq<nat>)
    requires table.Valid() && table.Entered(table.sizes.Length, table.sizes.Length) && |message| == count
    requires Coded(table.sizes[..], message) && bits == Written(table.sizes[..], message, rest)
    ensures out == message
  {
    hide Number, Path, Pow2, Written, Coded, Comes;
    out := [];
    var bitBuf := bits;
    ghost var s := table.sizes[..];
    assert message[0..] == message;
    for i := 0 to count
      invariant out == message[..i] && Coded(s, message[i..]) && bitBuf == Written(s, message[i..], rest)
    {
      FirstLeft(s, message, i, rest);
      var sym, codeLen := table.Decode(bitBuf);
      out := out + [sym];
      PowPositive(codeLen);
      bitBuf := bitBuf / Pow2(codeLen);
    }
  }

  lemma FirstLeft(s: seq<nat>, message: seq<nat>, i: nat, rest: nat)
    requires i < |message| && Coded(s, message[i..])
    ensures Comes(s, Written(s, message[i..], rest), message[i]) && message[i] < |s| && Coded(s, message[i + 1..])
    ensures 0 < Pow2(s[message[i]]) && Written(s, message[i..], rest) / Pow2(s[message[i]]) == Written(s, message[i + 1..], rest)
  {
    hide Number, Path, Pow2, Written, Comes;
    WrittenFrom(s, message, i, rest);
    PowPositive(s[message[i]]);
    assert message[i..][1..] == message[i + 1..] && message[i..][0] == message[i];
    FirstComes(s, message[i..], rest);
  }

  /** A message of symbols that occur comes through, with any bits behind it. */
  method EncodeAndDecode(counts: array<nat>, limit: nat, fast: nat, message: seq<nat>, rest: nat) returns (out: seq<nat>)
    requires 1 <= limit <= 15 && 1 <= fast <= 15 && counts.Length <= 512
    requires Sum(counts[..]) < KEY_SIZE && Used(counts[..]) <= Pow2(limit)
    requires forall i :: 0 <= i < |message| ==> message[i] < counts.Length && counts[message[i]] > 0
    ensures out == message
  {
    hide Sum, Used, Number, Path, Pow2, Written, Full, Fits, OnlyOne, Table.Entered;
    var n := counts.Length;
    var sizes, codes := new nat[n], new nat[n];
    OptimizeHuffmanTable(counts, limit, sizes, codes);
    ghost var s := sizes[..];
    assert Coded(s, message);
    var bits := Write(sizes, codes, message, rest);
    var again, ok := DeflateLengths.PackAndUnpack(sizes[..]);
    assert again == s;
    var table := new Table(fast, n, if n < 15 then 30 else 2 * n);
    for i := 0 to n
      invariant table.Valid() && table.sizes[..i] == s[..i]
    {
      table.sizes[i] := again[i];
    }
    assert table.sizes[..] == s;
    var good, firstCodes := table.CheckSizes();
    table.Build(firstCodes);
    out := ReadAll(table, bits, |message|, message, rest);
  }
}
