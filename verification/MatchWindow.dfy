/** The match finder's window on its input (LzFind.c): a buffer that slides along a stream. */
module MatchWindow {
  import opened Bytes

  /** A stream that hands out what is left of it in pieces of any size; nothing, just when nothing is left. */
  class InStream {
    var left: seq<Byte>

    constructor (data: seq<Byte>)
      ensures left == data
    {
      left := data;
    }

    method Read(dest: array<Byte>, start: nat, size: nat) returns (got: nat)
      requires start + size <= dest.Length
      modifies this, dest
      ensures got <= size && got <= |old(left)| && (got == 0 <==> size == 0 || old(left) == [])
      ensures left == old(left)[got..]
      ensures dest[..start + got] == old(dest[..start]) + old(left)[..got]
    {
      got := 0;
      if size > 0 && left != [] {
        var piece :| 0 < piece <= size && piece <= |left|;
        got := piece;
      }
      for i := 0 to got
        invariant left == old(left)
        invariant dest[..start] == old(dest[..start]) && dest[start..start + i] == left[..i]
      {
        dest[start + i] := left[i];
      }
      left := left[got..];
    }
  }

  /** A part of the text has been read, and all that comes after it has not. */
  ghost predicate Holds(text: seq<Byte>, from: nat, to: nat, part: seq<Byte>, left: seq<Byte>) {
    from <= to <= |text| && part == text[from..to] && left == text[to..]
  }

  lemma HoldsMore(text: seq<Byte>, from: nat, to: nat, part: seq<Byte>, left: seq<Byte>, got: nat)
    requires Holds(text, from, to, part, left) && got <= |left|
    ensures Holds(text, from, to + got, part + left[..got], left[got..])
  {
  }

  lemma HoldsEnd(text: seq<Byte>, from: nat, to: nat, part: seq<Byte>, left: seq<Byte>, start: nat)
    requires Holds(text, from, to, part, left) && start <= |part|
    ensures Holds(text, from + start, to, part[start..], left)
  {
  }

  lemma HoldsAll(text: seq<Byte>, from: nat, to: nat, part: seq<Byte>, left: seq<Byte>)
    requires Holds(text, from, to, part, left)
    ensures |left| == |text| - to && |part| == to - from
  {
  }

  /** The buffer: `buffer` is the current place in it, and `ahead` bytes from there on have been read. In the whole text of
      the stream the current place is n. */
  class Slider {
    const stream: InStream
    const base: array<Byte>
    const keepBefore: nat
    const keepAfter: nat
    var buffer: nat
    var ahead: nat
    var atEnd: bool
    ghost const text: seq<Byte>
    ghost var n: nat

    /** What is in the buffer is a part of the text around n: all that has been read from n on, and at least keepBefore
        bytes before it. */
    ghost predicate Valid()
      reads this, stream, base
    {
      && keepBefore + keepAfter < base.Length
      && n + ahead <= |text| && buffer <= n && (buffer == n || keepBefore <= buffer) && buffer + ahead <= base.Length
      && Holds(text, n - buffer, n + ahead, base[..buffer + ahead], stream.left)
      && (atEnd ==> n + ahead == |text|)
    }

    /** There is enough to look at, or nothing more. */
    ghost predicate Filled()
      reads this, stream, base
    {
      Valid() && (atEnd || keepAfter < ahead)
    }

    /** MatchFinder_Create, and MatchFinder_Init_3 with reading. */
    constructor (stream: InStream, keepBefore: nat, keepAfter: nat, reserve: nat)
      requires 0 < reserve
      modifies stream
      ensures Filled() && n == 0 && text == old(stream.left) && fresh(base)
      ensures this.stream == stream && this.keepBefore == keepBefore && this.keepAfter == keepAfter
    {
      this.stream, this.keepBefore, this.keepAfter := stream, keepBefore, keepAfter;
      base := new Byte[keepBefore + keepAfter + reserve];
      buffer, ahead, atEnd, text, n := 0, 0, false, stream.left, 0;
      new;
      ReadBlock();
    }

    /** The byte at a place k bytes on from `back` bytes before the current one. */
    function At(back: nat, k: nat): (b: Byte)
      requires Valid() && back <= keepBefore && back <= n && k < back + ahead
      reads this, stream, base
      ensures b == text[n - back + k]
    {
      assert base[..buffer + ahead][buffer - back + k] == text[n - buffer..n + ahead][buffer - back + k];
      base[buffer - back + k]
    }

    method ReadBlock()
      requires Valid() && keepAfter < base.Length - buffer
      modifies this`ahead, this`atEnd, stream, base
      ensures Filled() && old(ahead) <= ahead
    {
      hide Holds;
      if atEnd {
        return;
      }
      while true
        invariant Valid() && old(ahead) <= ahead
        invariant atEnd == old(atEnd)
        decreases |stream.left|
      {
        var size := base.Length - (buffer + ahead);
        if size == 0 {
          return;
        }
        ghost var part, left := base[..buffer + ahead], stream.left;
        var got := stream.Read(base, buffer + ahead, size);
        HoldsMore(text, n - buffer, n + ahead, part, left, got);
        HoldsAll(text, n - buffer, n + ahead, part, left);
        if got == 0 {
          atEnd := true;
          return;
        }
        ahead := ahead + got;
        if ahead > keepAfter {
          return;
        }
      }
    }

    method NeedMove() returns (need: bool)
      requires Valid()
      ensures need <==> base.Length - buffer <= keepAfter
    {
      need := base.Length - buffer <= keepAfter;
    }

    /** What is still needed is moved to the front. */
    method MoveBlock()
      requires Valid() && keepBefore <= buffer
      modifies this`buffer, base
      ensures Valid() && buffer == keepBefore
    {
      hide Holds;
      ghost var part := base[..buffer + ahead];
      ghost var was := base[..];
      var start, size := buffer - keepBefore, ahead + keepBefore;
      for i := 0 to size
        invariant buffer == old(buffer)
        invariant forall k :: 0 <= k < i ==> base[k] == was[start + k]
        invariant forall k :: i <= k < base.Length ==> base[k] == was[k]
      {
        base[i] := base[start + i];
      }
      assert base[..size] == part[start..];
      HoldsEnd(text, n - buffer, n + ahead, part, stream.left, start);
      buffer := keepBefore;
    }

    method CheckAndMoveAndRead()
      requires Valid()
      modifies this`buffer, this`ahead, this`atEnd, stream, base
      ensures Filled() && old(ahead) <= ahead
    {
      var need := NeedMove();
      if need {
        MoveBlock();
      }
      ReadBlock();
    }

    /** One byte further. */
    method Advance()
      requires Valid() && 0 < ahead
      modifies this`buffer, this`ahead, this`n
      ensures Valid() && n == old(n) + 1 && ahead == old(ahead) - 1 && atEnd == old(atEnd)
    {
      buffer := buffer + 1;
      ahead := ahead - 1;
      n := n + 1;
    }
  }
}
