/** The circular dictionary, and that it holds the last bytes of the unbounded output. */
module LzmaDictionary {
  import opened Bytes
  import opened LzmaState

  class Dictionary {
    const dic: array<Byte>
    var dicPos: nat
    /** Everything written so far. */
    ghost var hist: seq<Byte>

    /** Where the byte j back is kept. */
    function Back(j: nat): int
      reads this`dicPos
    {
      dicPos - j + (if dicPos < j then dic.Length else 0)
    }

    ghost predicate Valid()
      reads this, dic
    {
      && dicPos <= dic.Length
      && forall j {:trigger Back(j)} :: 1 <= j <= dic.Length && j <= |hist| ==> dic[Back(j)] == hist[|hist| - j]
    }

    constructor (size: nat)
      ensures Valid() && fresh(dic) && dic.Length == size && dicPos == 0 && hist == []
    {
      dic := new Byte[size];
      dicPos := 0;
      hist := [];
    }

    /** What was written since `from`. */
    method Since(from: nat) returns (b: seq<Byte>)
      requires Valid() && from <= dicPos && dicPos - from <= |hist|
      ensures b == hist[|hist| - (dicPos - from)..]
    {
      b := dic[from..dicPos];
      forall i | 0 <= i < |b|
        ensures b[i] == hist[|hist| - (dicPos - from) + i]
      {
        assert dic[Back(dicPos - from - i)] == hist[|hist| - (dicPos - from - i)];
      }
    }

    /** Forgets what was written, and goes on where it is. */
    ghost method Forget()
      modifies this`hist
      ensures dicPos <= dic.Length ==> Valid()
      ensures hist == []
    {
      hist := [];
    }

    /** Forgets everything. */
    method Reset()
      modifies this`dicPos, this`hist
      ensures Valid() && dicPos == 0 && hist == []
    {
      dicPos, hist := 0, [];
    }

    /** The byte `dist` back. */
    method ByteAt(dist: nat) returns (b: Byte)
      requires Valid() && 1 <= dist <= dic.Length && dist <= |hist|
      ensures b == hist[|hist| - dist]
    {
      b := dic[dicPos - dist + (if dicPos < dist then dic.Length else 0)];
      assert b == dic[Back(dist)];
    }

    /** The byte before the current position, as the literal coder looks it up. */
    method Previous() returns (b: Byte)
      requires Valid() && 0 < dic.Length && hist != []
      ensures b == hist[|hist| - 1]
    {
      b := dic[(if dicPos == 0 then dic.Length else dicPos) - 1];
      assert b == dic[Back(1)];
    }

    method Put(b: Byte)
      requires Valid() && dicPos < dic.Length
      modifies this`dicPos, this`hist, dic
      ensures Valid() && dicPos == old(dicPos) + 1 && hist == old(hist) + [b]
    {
      label before:
      dic[dicPos] := b;
      dicPos := dicPos + 1;
      hist := hist + [b];
      forall j | 1 <= j <= dic.Length && j <= |hist|
        ensures dic[Back(j)] == hist[|hist| - j]
      {
        if j > 1 {
          assert Back(j) == old@before(Back(j - 1));
        }
      }
    }

    /** Starts again at the front when the buffer is full, as LzmaDec_DecodeToBuf does. */
    method Wrap()
      requires Valid()
      modifies this`dicPos
      ensures Valid() && dicPos == if old(dicPos) == dic.Length then 0 else old(dicPos)
    {
      if dicPos == dic.Length {
        label before:
        dicPos := 0;
        forall j | 1 <= j <= dic.Length && j <= |hist|
          ensures dic[Back(j)] == hist[|hist| - j]
        {
          assert Back(j) == old@before(Back(j));
        }
      }
    }

    /** The copy loop of LzmaDec_WriteRem. */
    method CopyRem(rep0: nat, count: nat)
      requires Valid() && 1 <= rep0 <= dic.Length && rep0 <= |hist| && dicPos + count <= dic.Length
      modifies this`dicPos, this`hist, dic
      ensures Valid() && dicPos == old(dicPos) + count && hist == Copy(old(hist), rep0, count)
    {
      var len := count;
      while len != 0
        invariant Valid() && 0 <= len <= count && dicPos == old(dicPos) + (count - len) && rep0 <= |hist|
        invariant Copy(hist, rep0, len) == Copy(old(hist), rep0, count)
      {
        len := len - 1;
        var b := ByteAt(rep0);
        Put(b);
      }
    }

    /** The copy of a match: straight when the source does not run over the end of the buffer, otherwise with a
        source position that wraps. Source and destination may overlap. */
    method CopyMatch(rep0: nat, count: nat)
      requires Valid() && 1 <= rep0 <= dic.Length && rep0 <= |hist| && dicPos + count <= dic.Length
      modifies this`dicPos, this`hist, dic
      ensures Valid() && dicPos == old(dicPos) + count && hist == Copy(old(hist), rep0, count)
    {
      var pos := dicPos - rep0 + (if dicPos < rep0 then dic.Length else 0);
      if count <= dic.Length - pos {
        CopyStraight(rep0, pos - dicPos, count);
      } else {
        CopyCircular(rep0, pos, count);
      }
    }

    method CopyStraight(ghost rep0: nat, src: int, count: nat)
      requires Valid() && 1 <= rep0 <= dic.Length && rep0 <= |hist| && dicPos + count <= dic.Length
      requires dicPos + src == Back(rep0) && count <= dic.Length - (dicPos + src)
      modifies this`dicPos, this`hist, dic
      ensures Valid() && dicPos == old(dicPos) + count && hist == Copy(old(hist), rep0, count)
    {
      var dest, lim := dicPos, dicPos + count;
      while dest != lim
        invariant Valid() && old(dicPos) <= dest == dicPos <= lim && rep0 <= |hist|
        invariant dest + src == Back(rep0) || dest == lim
        invariant Copy(hist, rep0, lim - dest) == Copy(old(hist), rep0, count)
      {
        assert dic[dest + src] == dic[Back(rep0)];
        Put(dic[dest + src]);
        dest := dest + 1;
      }
    }

    method CopyCircular(ghost rep0: nat, start: nat, count: nat)
      requires Valid() && 1 <= rep0 <= dic.Length && rep0 <= |hist| && dicPos + count <= dic.Length
      requires start == Back(rep0)
      modifies this`dicPos, this`hist, dic
      ensures Valid() && dicPos == old(dicPos) + count && hist == Copy(old(hist), rep0, count)
    {
      var pos, curLen := start, count;
      while curLen != 0
        invariant Valid() && 0 <= curLen <= count && dicPos == old(dicPos) + (count - curLen) && rep0 <= |hist|
        invariant pos == Back(rep0)
        invariant Copy(hist, rep0, curLen) == Copy(old(hist), rep0, count)
      {
        assert dic[pos] == dic[Back(rep0)];
        Put(dic[pos]);
        pos := pos + 1;
        if pos == dic.Length {
          pos := 0;
        }
        curLen := curLen - 1;
      }
    }
  }
}
