/** Code sizes, run-length coded (section 3.2.7 of RFC 1951): packed as tdefl_start_dynamic_block does it, and unpacked
    as the inflater does it. */
module DeflateLengths {
  import opened CodeLengths
  import opened Powers
  import opened Wrappers

  /** The sizes that a packed sequence stands for; a repeat count follows 16, 17 and 18. Nothing may be repeated
      before there is anything, and no count may be missing. */
  function Unpacked(packed: seq<nat>, sofar: seq<nat>): Option<seq<nat>>
    decreases |packed|
  {
    if packed == [] then Some(sofar)
    else if packed[0] < 16 then Unpacked(packed[1..], sofar + [packed[0]])
    else if |packed| == 1 || (packed[0] == 16 && sofar == []) then None
    else Unpacked(packed[2..], sofar + Run(packed[0], packed[1], sofar))
  }

  /** The sizes that a repeat code adds. */
  function Run(code: nat, extra: nat, sofar: seq<nat>): seq<nat>
    requires code == 16 ==> sofar != []
  {
    if code == 16 then Copies(sofar[|sofar| - 1], extra + 3)
    else if code == 17 then Copies(0, extra + 3)
    else Copies(0, extra + 11)
  }

  /** 16 stands for 3 to 6 more of the last size, 17 for 3 to 10 zeros and 18 for 11 to 138, one for each count behind it. */
  lemma RunIs(code: nat, extra: nat, sofar: seq<nat>)
    requires 16 <= code <= 18 && (code == 16 ==> sofar != []) && extra < (if code == 16 then 4 else if code == 17 then 8 else 128)
    ensures var r := Run(code, extra, sofar);
            && (code == 16 ==> 3 <= |r| <= 6 && forall i :: 0 <= i < |r| ==> r[i] == sofar[|sofar| - 1])
            && (code == 17 ==> 3 <= |r| <= 10 && forall i :: 0 <= i < |r| ==> r[i] == 0)
            && (code == 18 ==> 11 <= |r| <= 138 && forall i :: 0 <= i < |r| ==> r[i] == 0)
            && |Run(code, extra + 1, sofar)| == |r| + 1
  {
  }

  /** The values fit in the bits they get: 2, 3 and 7 for the counts behind 16, 17 and 18. */
  predicate Fits(packed: seq<nat>)
    decreases |packed|
  {
    if packed == [] then true
    else if packed[0] < 16 then Fits(packed[1..])
    else
      && packed[0] <= 18 && 2 <= |packed|
      && packed[1] < (if packed[0] == 16 then 4 else if packed[0] == 17 then 8 else 128)
      && Fits(packed[2..])
  }

  /** Unpacking goes on where it stopped. */
  lemma {:induction false} UnpackedMore(packed: seq<nat>, more: seq<nat>, sofar: seq<nat>)
    requires Unpacked(packed, sofar).Some? && Fits(packed)
    ensures Unpacked(packed + more, sofar) == Unpacked(more, Unpacked(packed, sofar).value)
    ensures Fits(packed + more) <==> Fits(more)
    decreases |packed|
  {
    if packed == [] {
      assert packed + more == more;
    } else if packed[0] < 16 {
      assert (packed + more)[1..] == packed[1..] + more;
      UnpackedMore(packed[1..], more, sofar + [packed[0]]);
    } else {
      assert (packed + more)[2..] == packed[2..] + more;
      UnpackedMore(packed[2..], more, sofar + Run(packed[0], packed[1], sofar));
    }
  }

  /** What has been packed stands for `done`. */
  ghost predicate Packs(packed: seq<nat>, done: seq<nat>) { Fits(packed) && Unpacked(packed, []) == Some(done) }

  lemma OneMore(packed: seq<nat>, done: seq<nat>, size: nat)
    requires Packs(packed, done) && size < 16
    ensures Packs(packed + [size], done + [size])
  {
    UnpackedMore(packed, [size], []);
    assert [size][1..] == [];
  }

  lemma {:induction false} MoreOfOne(packed: seq<nat>, done: seq<nat>, size: nat, count: nat)
    requires Packs(packed, done) && size < 16
    ensures Packs(packed + Copies(size, count), done + Copies(size, count))
    decreases count
  {
    if count == 0 {
      assert packed + [] == packed && done + [] == done;
    } else {
      MoreOfOne(packed, done, size, count - 1);
      OneMore(packed + Copies(size, count - 1), done + Copies(size, count - 1), size);
      assert packed + Copies(size, count) == (packed + Copies(size, count - 1)) + [size];
      assert done + Copies(size, count) == (done + Copies(size, count - 1)) + [size];
    }
  }

  lemma RunMore(packed: seq<nat>, done: seq<nat>, code: nat, extra: nat)
    requires Packs(packed, done) && 16 <= code <= 18 && extra < (if code == 16 then 4 else if code == 17 then 8 else 128)
    requires code == 16 ==> done != []
    ensures Packs(packed + [code, extra], done + Run(code, extra, done))
  {
    UnpackedMore(packed, [code, extra], []);
    assert [code, extra][2..] == [];
  }

  // ---------- What is packed, run by run ----------

  /** The length of the last run of equal sizes. */
  function LastRun(s: seq<nat>): (n: nat)
    requires s != []
    ensures 1 <= n <= |s|
  {
    if |s| == 1 || s[|s| - 2] != s[|s| - 1] then 1 else 1 + LastRun(s[..|s| - 1])
  }

  /** The last run is of one size, and nothing longer is. */
  lemma {:induction false} LastRunIs(s: seq<nat>)
    requires s != []
    ensures var n := LastRun(s);
            (forall i :: |s| - n <= i < |s| ==> s[i] == s[|s| - 1]) && (n < |s| ==> s[|s| - n - 1] != s[|s| - 1])
  {
    if |s| > 1 && s[|s| - 2] == s[|s| - 1] {
      LastRunIs(s[..|s| - 1]);
    }
  }

  function Times(s: seq<nat>, k: nat): seq<nat> { if k == 0 then [] else Times(s, k - 1) + s }

  /** Less than 138 zeros, and less than 6 more of a size. */
  function FewZeros(n: nat): seq<nat> { if n < 3 then Copies(0, n) else if n <= 10 then [17, n - 3] else [18, n - 11] }

  function FewRepeats(v: nat, n: nat): seq<nat> { if n < 3 then Copies(v, n) else [16, n - 3] }

  /** A run of zeros: 138 at a time, and the rest. A run of another size: the size, 6 more of it at a time, and the rest. */
  function RunCodes(v: nat, n: nat): seq<nat>
    requires 1 <= n
  {
    Begun(v, n) + Rest(v, n)
  }

  function Begun(v: nat, n: nat): seq<nat>
    requires 1 <= n
  {
    if v == 0 then Times([18, 127], n / 138) else [v] + Times([16, 3], (n - 1) / 6)
  }

  function Rest(v: nat, n: nat): seq<nat>
    requires 1 <= n
  {
    if v == 0 then FewZeros(n % 138) else FewRepeats(v, (n - 1) % 6)
  }

  /** The sizes, packed run by run. */
  function ByRuns(s: seq<nat>): seq<nat>
    decreases |s|
  {
    if s == [] then [] else ByRuns(s[..|s| - LastRun(s)]) + RunCodes(s[|s| - 1], LastRun(s))
  }

  /** All but what is counted of the last run. */
  function SoFar(s: seq<nat>): seq<nat> {
    if s == [] then [] else ByRuns(s[..|s| - LastRun(s)]) + Begun(s[|s| - 1], LastRun(s))
  }

  function Tail(s: seq<nat>): seq<nat> { if s == [] then [] else Rest(s[|s| - 1], LastRun(s)) }

  lemma InTwo(s: seq<nat>)
    ensures ByRuns(s) == SoFar(s) + Tail(s)
  {
    hide LastRun, Begun, Rest;
    if s != [] {
      var front, v, n := ByRuns(s[..|s| - LastRun(s)]), s[|s| - 1], LastRun(s);
      assert front + (Begun(v, n) + Rest(v, n)) == (front + Begun(v, n)) + Rest(v, n);
    } else {
      assert ByRuns(s) == [];
    }
  }

  /** The last run goes on, or another one begins. */
  lemma RunGoesOn(s: seq<nat>, x: nat)
    ensures s != [] && s[|s| - 1] == x ==> LastRun(s + [x]) == LastRun(s) + 1 && (s + [x])[..|s| - LastRun(s)] == s[..|s| - LastRun(s)]
    ensures s == [] || s[|s| - 1] != x ==> LastRun(s + [x]) == 1 && (s + [x])[..|s|] == s
  {
    assert (s + [x])[..|s|] == s;
  }

  /** How many of the last run are counted and not yet packed. */
  function ZerosLeft(s: seq<nat>): nat { if s != [] && s[|s| - 1] == 0 then LastRun(s) % 138 else 0 }

  function RepeatsLeft(s: seq<nat>): nat { if s != [] && s[|s| - 1] != 0 then (LastRun(s) - 1) % 6 else 0 }

  lemma TailIs(s: seq<nat>)
    ensures Tail(s) == if s == [] then [] else if s[|s| - 1] == 0 then FewZeros(ZerosLeft(s)) else FewRepeats(s[|s| - 1], RepeatsLeft(s))
  {
  }

  /** One size more: the last run goes on. */
  lemma SoFarOn(s: seq<nat>, x: nat)
    requires s != [] && s[|s| - 1] == x
    ensures x == 0 ==> SoFar(s + [x]) == (if ZerosLeft(s) == 137 then SoFar(s) + [18, 127] else SoFar(s))
    ensures x == 0 ==> ZerosLeft(s + [x]) == (if ZerosLeft(s) == 137 then 0 else ZerosLeft(s) + 1)
    ensures x != 0 ==> SoFar(s + [x]) == (if RepeatsLeft(s) == 5 then SoFar(s) + [16, 3] else SoFar(s))
    ensures x != 0 ==> RepeatsLeft(s + [x]) == (if RepeatsLeft(s) == 5 then 0 else RepeatsLeft(s) + 1)
  {
    hide LastRun, ByRuns, Begun;
    RunGoesOn(s, x);
    assert (s + [x])[|s|] == x;
    var n, front := LastRun(s), ByRuns(s[..|s| - LastRun(s)]);
    BegunNext(x, n);
    assert front + (Begun(x, n) + [18, 127]) == (front + Begun(x, n)) + [18, 127];
    assert front + (Begun(x, n) + [16, 3]) == (front + Begun(x, n)) + [16, 3];
    NextModulo(n, 138);
    NextModulo(n - 1, 6);
  }

  lemma NextModulo(n: nat, m: nat)
    requires 1 < m
    ensures (n + 1) % m == if n % m == m - 1 then 0 else n % m + 1
  {
    Quotient(n, m);
    if n % m == m - 1 {
      Distribute(n / m, 1, m);
      ModOfSum(n / m + 1, m, 0);
    } else {
      ModOfSum(n / m, m, n % m + 1);
    }
  }

  /** Another run begins. */
  lemma SoFarAnew(s: seq<nat>, x: nat)
    requires s == [] || s[|s| - 1] != x
    ensures SoFar(s + [x]) == if x == 0 then ByRuns(s) else ByRuns(s) + [x]
    ensures (x == 0 ==> ZerosLeft(s + [x]) == 1) && (x != 0 ==> RepeatsLeft(s + [x]) == 0)
  {
    hide LastRun, ByRuns, Begun, SoFar, ZerosLeft, RepeatsLeft;
    RunGoesOn(s, x);
    LastOne(s, x);
    BegunOne(x);
    assert ByRuns(s) + [] == ByRuns(s);
  }

  lemma LastOne(s: seq<nat>, x: nat)
    requires LastRun(s + [x]) == 1
    ensures SoFar(s + [x]) == ByRuns(s) + Begun(x, 1)
    ensures (x == 0 ==> ZerosLeft(s + [x]) == 1) && (x != 0 ==> RepeatsLeft(s + [x]) == 0)
  {
    hide LastRun, ByRuns, Begun, Rest;
    var s' := s + [x];
    assert s'[|s|] == x && s'[..|s|] == s;
    assert SoFar(s') == ByRuns(s'[..|s'| - LastRun(s')]) + Begun(s'[|s'| - 1], LastRun(s'));
    assert |s'| - LastRun(s') == |s|;
  }

  lemma BegunOne(v: nat)
    ensures Begun(v, 1) == if v == 0 then [] else [v]
  {
    hide Times;
    NoTimes();
    assert [v] + [] == [v];
  }

  lemma NoTimes()
    ensures forall s :: Times(s, 0) == []
  {
  }

  lemma BegunNext(v: nat, n: nat)
    requires 1 <= n
    ensures v == 0 ==> Begun(v, n + 1) == if n % 138 == 137 then Begun(v, n) + [18, 127] else Begun(v, n)
    ensures v != 0 ==> Begun(v, n + 1) == if (n - 1) % 6 == 5 then Begun(v, n) + [16, 3] else Begun(v, n)
  {
    hide Times;
    if v == 0 {
      if n % 138 == 137 {
        assert (n + 1) / 138 == n / 138 + 1;
        TimesNext([18, 127], n / 138);
      } else {
        assert (n + 1) / 138 == n / 138;
      }
    } else if (n - 1) % 6 == 5 {
      assert n / 6 == (n - 1) / 6 + 1;
      TimesNext([16, 3], (n - 1) / 6);
      assert [v] + (Times([16, 3], (n - 1) / 6) + [16, 3]) == ([v] + Times([16, 3], (n - 1) / 6)) + [16, 3];
    } else {
      assert n / 6 == (n - 1) / 6;
    }
  }

  lemma TimesNext(s: seq<nat>, k: nat)
    ensures Times(s, k + 1) == Times(s, k) + s
  {
  }

  // ---------- Packing ----------

  /** The code sizes that have been counted and not yet packed; never repeats and zeros together. */
  ghost predicate Pending(done: seq<nat>, prev: nat, repeats: nat, zeros: nat) {
    && (repeats == 0 || zeros == 0) && repeats <= 6 && zeros <= 138
    && (repeats > 0 ==> done != [] && 1 <= prev < 16 && done[|done| - 1] == prev)
  }

  function WithPending(done: seq<nat>, prev: nat, repeats: nat, zeros: nat): seq<nat> { done + Copies(prev, repeats) + Copies(0, zeros) }

  /** TDEFL_RLE_PREV_CODE_SIZE */
  method FlushRepeats(packed: seq<nat>, prev: nat, repeats: nat, ghost done: seq<nat>) returns (packed': seq<nat>)
    requires Packs(packed, done) && Pending(done, prev, repeats, 0)
    ensures Packs(packed', done + Copies(prev, repeats)) && packed' == packed + FewRepeats(prev, repeats)
  {
    packed' := packed;
    if repeats != 0 {
      if repeats < 3 {
        MoreOfOne(packed, done, prev, repeats);
        packed' := packed + Copies(prev, repeats);
      } else {
        RunMore(packed, done, 16, repeats - 3);
        packed' := packed + [16, repeats - 3];
      }
    } else {
      assert done + Copies(prev, 0) == done && packed + Copies(prev, 0) == packed;
    }
  }

  /** TDEFL_RLE_ZERO_CODE_SIZE */
  method FlushZeros(packed: seq<nat>, zeros: nat, ghost done: seq<nat>) returns (packed': seq<nat>)
    requires Packs(packed, done) && zeros <= 138
    ensures Packs(packed', done + Copies(0, zeros)) && packed' == packed + FewZeros(zeros)
  {
    packed' := packed;
    if zeros != 0 {
      if zeros < 3 {
        MoreOfOne(packed, done, 0, zeros);
        packed' := packed + Copies(0, zeros);
      } else if zeros <= 10 {
        RunMore(packed, done, 17, zeros - 3);
        packed' := packed + [17, zeros - 3];
      } else {
        RunMore(packed, done, 18, zeros - 11);
        packed' := packed + [18, zeros - 11];
      }
    } else {
      assert done + Copies(0, 0) == done && packed + Copies(0, 0) == packed;
    }
  }

  ghost predicate PacksUpTo(sizes: seq<nat>, i: nat, packed: seq<nat>, prev: nat, repeats: nat, zeros: nat, done: seq<nat>) {
    && i <= |sizes| && Packs(packed, done) && Pending(done, prev, repeats, zeros) && repeats < 6 && zeros < 138
    && WithPending(done, prev, repeats, zeros) == sizes[..i]
    && (if i == 0 then prev == 255 else prev == sizes[i - 1])
  }

  /** The size before is 0 if zeros are pending; if nothing is, it has been packed last. */
  lemma LastPending(sizes: seq<nat>, i: nat, packed: seq<nat>, prev: nat, repeats: nat, zeros: nat, done: seq<nat>)
    requires 0 < i && PacksUpTo(sizes, i, packed, prev, repeats, zeros, done)
    ensures zeros > 0 ==> prev == 0
    ensures zeros == 0 && repeats == 0 ==> done == sizes[..i] && done != [] && done[|done| - 1] == prev
  {
    hide Packs;
    NoCopies();
    assert sizes[..i][i - 1] == sizes[i - 1];
  }

  /** One code size more: it is counted, or what is pending is packed first. */
  method PackOne(sizes: seq<nat>, i: nat, packed: seq<nat>, prev: nat, repeats: nat, zeros: nat, ghost done: seq<nat>)
    returns (packed': seq<nat>, repeats': nat, zeros': nat, ghost done': seq<nat>)
    requires i < |sizes| && sizes[i] < 16 && PacksUpTo(sizes, i, packed, prev, repeats, zeros, done)
    requires RunsPacked(sizes[..i], packed, repeats, zeros)
    ensures PacksUpTo(sizes, i + 1, packed', sizes[i], repeats', zeros', done')
    ensures RunsPacked(sizes[..i + 1], packed', repeats', zeros')
  {
    hide Packs, Copies, SoFar, Tail, ByRuns, ZerosLeft, RepeatsLeft, FewZeros, FewRepeats;
    var size := sizes[i];
    RunsPackedNext(sizes, i, packed, repeats, zeros);
    packed', repeats', zeros', done' := packed, repeats, zeros, done;
    assert sizes[..i + 1] == sizes[..i] + [size];
    NoCopies();
    if i > 0 {
      LastPending(sizes, i, packed, prev, repeats, zeros, done);
    }
    if size == 0 {
      packed' := FlushRepeats(packed', prev, repeats', done');
      done' := done' + Copies(prev, repeats');
      repeats' := 0;
      OneCopy(0, zeros');
      zeros' := zeros' + 1;
      if zeros' == 138 {
        packed' := FlushZeros(packed', zeros', done');
        done' := done' + Copies(0, zeros');
        zeros' := 0;
      }
      assert Pending(done', size, repeats', zeros');
      assert WithPending(done', size, repeats', zeros') == sizes[..i + 1];
    } else {
      packed' := FlushZeros(packed', zeros', done');
      done' := done' + Copies(0, zeros');
      zeros' := 0;
      if size != prev {
        packed' := FlushRepeats(packed', prev, repeats', done');
        done' := done' + Copies(prev, repeats');
        repeats' := 0;
        OneMore(packed', done', size);
        packed' := packed' + [size];
        done' := done' + [size];
        assert Pending(done', size, repeats', zeros');
        assert WithPending(done', size, repeats', zeros') == sizes[..i + 1];
      } else {
        OneCopy(size, repeats');
        repeats' := repeats' + 1;
        if repeats' == 6 {
          packed' := FlushRepeats(packed', prev, repeats', done');
          done' := done' + Copies(prev, repeats');
          repeats' := 0;
        }
        assert Pending(done', size, repeats', zeros');
        assert WithPending(done', size, repeats', zeros') == sizes[..i + 1];
      }
    }
  }

  /** What is packed is what there is of the runs so far, and what is counted is what is left. */
  ghost predicate RunsPacked(s: seq<nat>, packed: seq<nat>, repeats: nat, zeros: nat) {
    packed == SoFar(s) && repeats == RepeatsLeft(s) && zeros == ZerosLeft(s)
  }

  /** What is to be packed before the next size, and with it. */
  lemma RunsPackedNext(sizes: seq<nat>, i: nat, packed: seq<nat>, repeats: nat, zeros: nat)
    requires i < |sizes| && sizes[i] < 16 && RunsPacked(sizes[..i], packed, repeats, zeros)
    ensures var x, prev, s' := sizes[i], if i == 0 then 255 else sizes[i - 1], sizes[..i + 1];
            && (x == 0 ==> packed + FewRepeats(prev, repeats) + (if zeros == 137 then FewZeros(138) else []) == SoFar(s')
                           && RepeatsLeft(s') == 0 && ZerosLeft(s') == if zeros == 137 then 0 else zeros + 1)
            && (x != 0 && x != prev ==> packed + FewZeros(zeros) + FewRepeats(prev, repeats) + [x] == SoFar(s')
                                        && RepeatsLeft(s') == 0 && ZerosLeft(s') == 0)
            && (x != 0 && x == prev ==> packed + FewZeros(zeros) + (if repeats == 5 then FewRepeats(x, 6) else []) == SoFar(s')
                                        && RepeatsLeft(s') == (if repeats == 5 then 0 else repeats + 1) && ZerosLeft(s') == 0)
            && repeats <= 5 && zeros <= 137
  {
    hide SoFar, ByRuns, ZerosLeft, RepeatsLeft, Tail, FewZeros, FewRepeats;
    var s, x := sizes[..i], sizes[i];
    assert sizes[..i + 1] == s + [x];
    InTwo(s);
    TailIs(s);
    LeftBounds(s);
    Fews(x);
    Fews(0);
    LastIs(s, x);
    OtherLeft(s);
    if s != [] {
      Fews(s[|s| - 1]);
    } else {
      Fews(255);
    }
    assert packed + [] == packed;
    if s != [] && s[|s| - 1] == x {
      SoFarOn(s, x);
    } else {
      SoFarAnew(s, x);
    }
  }

  lemma Fews(v: nat)
    ensures FewZeros(0) == [] && FewRepeats(v, 0) == [] && FewZeros(138) == [18, 127] && FewRepeats(v, 6) == [16, 3]
  {
  }

  /** Only what the last run is of can be left. */
  lemma OtherLeft(s: seq<nat>)
    ensures s == [] || s[|s| - 1] != 0 ==> ZerosLeft(s) == 0
    ensures s == [] || s[|s| - 1] == 0 ==> RepeatsLeft(s) == 0
  {
  }

  lemma LeftBounds(s: seq<nat>)
    ensures ZerosLeft(s) <= 137 && RepeatsLeft(s) <= 5
  {
  }

  lemma LastIs(s: seq<nat>, x: nat)
    ensures x == 0 ==> RepeatsLeft(s + [x]) == 0
    ensures x != 0 ==> ZerosLeft(s + [x]) == 0
  {
  }

  lemma NoCopies()
    ensures forall v :: Copies(v, 0) == []
  {
  }

  lemma OneCopy(v: nat, n: nat)
    ensures Copies(v, n + 1) == Copies(v, n) + [v]
  {
  }

  /** The packed code sizes stand for the sizes. */
  method Pack(sizes: seq<nat>) returns (packed: seq<nat>)
    requires forall i :: 0 <= i < |sizes| ==> sizes[i] < 16
    ensures Unpacked(packed, []) == Some(sizes) && Fits(packed) && packed == ByRuns(sizes)
  {
    hide Copies, SoFar, Tail, ByRuns, ZerosLeft, RepeatsLeft, FewZeros, FewRepeats;
    NothingPacked();
    var prev: nat, repeats: nat, zeros: nat := 255, 0, 0;
    packed := [];
    ghost var done: seq<nat> := [];
    NoCopies();
    for i := 0 to |sizes|
      invariant PacksUpTo(sizes, i, packed, prev, repeats, zeros, done) && RunsPacked(sizes[..i], packed, repeats, zeros)
    {
      packed, repeats, zeros, done := PackOne(sizes, i, packed, prev, repeats, zeros, done);
      prev := sizes[i];
    }
    assert sizes[..|sizes|] == sizes;
    InTwo(sizes);
    TailIs(sizes);
    TailLeft(sizes);
    assert done + Copies(prev, repeats) + [] == done + Copies(prev, repeats) && done + [] == done;
    if repeats != 0 {
      packed := FlushRepeats(packed, prev, repeats, done);
    } else {
      packed := FlushZeros(packed, zeros, done);
    }
  }

  lemma NothingPacked()
    ensures RunsPacked([], [], 0, 0)
  {
  }

  /** What is left at the end is packed, whatever it is. */
  lemma TailLeft(s: seq<nat>)
    ensures RepeatsLeft(s) != 0 ==> s != [] && Tail(s) == FewRepeats(s[|s| - 1], RepeatsLeft(s))
    ensures RepeatsLeft(s) == 0 ==> Tail(s) == FewZeros(ZerosLeft(s))
  {
    NoCopies();
  }

  // ---------- Unpacking ----------

  /** What the inflater takes: as many codes as it needs for `total` sizes. It fails if a run goes beyond, or repeats
      nothing, or if there are too few codes. */
  function Taken(packed: seq<nat>, total: nat, sofar: seq<nat>): Option<seq<nat>>
    decreases |packed|
  {
    if |sofar| >= total then (if |sofar| == total then Some(sofar) else None)
    else if packed == [] then None
    else if packed[0] < 16 then Taken(packed[1..], total, sofar + [packed[0]])
    else if |packed| == 1 || (packed[0] == 16 && sofar == []) then None
    else Taken(packed[2..], total, sofar + Run(packed[0], packed[1], sofar))
  }

  /** The inflater's loop over the code sizes. */
  method Unpack(packed: seq<nat>, total: nat) returns (sizes: seq<nat>, ok: bool)
    requires Fits(packed)
    ensures ok == Taken(packed, total, []).Some? && (ok ==> sizes == Taken(packed, total, []).value)
  {
    hide Copies;
    sizes, ok := [], false;
    var i := 0;
    assert packed[0..] == packed;
    while |sizes| < total
      invariant i <= |packed| && Fits(packed[i..]) && Taken(packed[i..], total, sizes) == Taken(packed, total, [])
      decreases |packed| - i
    {
      ghost var rest := packed[i..];
      if i == |packed| {
        return;
      }
      var dist := packed[i];
      assert rest[0] == dist && rest[1..] == packed[i + 1..];
      if dist < 16 {
        sizes, i := sizes + [dist], i + 1;
      } else {
        if dist == 16 && |sizes| == 0 {
          return;
        }
        assert rest[1] == packed[i + 1] && rest[2..] == packed[i + 2..];
        sizes, i := sizes + Run(dist, packed[i + 1], sizes), i + 2;
      }
    }
    ok := |sizes| == total;
  }

  /** Unpacking only adds. */
  lemma {:induction false} Grows(packed: seq<nat>, sofar: seq<nat>)
    requires Unpacked(packed, sofar).Some?
    ensures |sofar| <= |Unpacked(packed, sofar).value|
    ensures packed != [] ==> |sofar| < |Unpacked(packed, sofar).value|
    decreases |packed|
  {
    if packed != [] {
      if packed[0] < 16 {
        Grows(packed[1..], sofar + [packed[0]]);
      } else {
        Grows(packed[2..], sofar + Run(packed[0], packed[1], sofar));
      }
    }
  }

  /** What stands for `total` sizes is taken as these. */
  lemma {:induction false} AllTaken(packed: seq<nat>, sofar: seq<nat>)
    requires Unpacked(packed, sofar).Some?
    ensures Taken(packed, |Unpacked(packed, sofar).value|, sofar) == Unpacked(packed, sofar)
    decreases |packed|
  {
    Grows(packed, sofar);
    if packed != [] {
      if packed[0] < 16 {
        AllTaken(packed[1..], sofar + [packed[0]]);
      } else {
        AllTaken(packed[2..], sofar + Run(packed[0], packed[1], sofar));
      }
    }
  }

  /** Unpacking what has been packed returns the sizes. */
  method PackAndUnpack(sizes: seq<nat>) returns (again: seq<nat>, ok: bool)
    requires forall i :: 0 <= i < |sizes| ==> sizes[i] < 16
    ensures ok && again == sizes
  {
    var packed := Pack(sizes);
    AllTaken(packed, []);
    again, ok := Unpack(packed, |sizes|);
  }
}
