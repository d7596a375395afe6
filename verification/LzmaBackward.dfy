/** The optimal parse read back (Backward): a chain of cells, each pointing to where its packets begin, becomes the list of
    packets from the front, in the same cells. */
module LzmaBackward {
  import opened LzmaState

  const MARK_LIT: nat := 0xFFFF_FFFF

  /** The last packets on the best way to a position: one of `len` bytes; or a literal before it (extra is 1); or a match
      and a literal before it, of `extra` bytes, and the packet itself is a repeated match at distance 0. */
  datatype Cell = Cell(dist: nat, len: nat, extra: nat)

  datatype Step = Step(dist: nat, len: nat)

  function Expand(c: Cell): (r: seq<Step>)
    ensures 1 <= |r| <= 3
  {
    if c.extra == 0 then [Step(c.dist, c.len)]
    else if c.extra == 1 then [Step(MARK_LIT, 1), Step(c.dist, c.len)]
    else [Step(c.dist, c.extra - 1), Step(MARK_LIT, 1), Step(0, c.len)]
  }

  /** The cells from here lead to the beginning. */
  ghost predicate Chain(opt: seq<Cell>, cur: nat)
    decreases cur
  {
    && cur < |opt|
    && (cur > 0 ==> 1 <= opt[cur].len && opt[cur].len + opt[cur].extra <= cur && Chain(opt, cur - opt[cur].len - opt[cur].extra))
  }

  /** The packets on the way. */
  function Forward(opt: seq<Cell>, cur: nat): seq<Step>
    requires Chain(opt, cur)
    decreases cur
  {
    if cur == 0 then [] else Forward(opt, cur - opt[cur].len - opt[cur].extra) + Expand(opt[cur])
  }

  function Covered(packets: seq<Step>): nat { if packets == [] then 0 else Covered(packets[..|packets| - 1]) + packets[|packets| - 1].len }

  lemma {:induction false} CoveredSum(a: seq<Step>, b: seq<Step>)
    ensures Covered(a + b) == Covered(a) + Covered(b)
    decreases |b|
  {
    if b == [] {
      assert a + b == a;
    } else {
      assert (a + b)[..|a + b| - 1] == a + b[..|b| - 1];
      CoveredSum(a, b[..|b| - 1]);
    }
  }

  lemma CoveredOne(p: Step)
    ensures Covered([p]) == p.len
  {
    assert [p][..0] == [];
  }

  lemma ExpandCovers(c: Cell)
    ensures Covered(Expand(c)) == c.len + c.extra
  {
    hide Covered;
    var last := if c.extra > 1 then Step(0, c.len) else Step(c.dist, c.len);
    CoveredOne(last);
    if c.extra > 0 {
      CoveredOne(Step(MARK_LIT, 1));
      CoveredSum([Step(MARK_LIT, 1)], [last]);
      assert c.extra == 1 ==> Expand(c) == [Step(MARK_LIT, 1)] + [last];
      if c.extra > 1 {
        CoveredOne(Step(c.dist, c.extra - 1));
        CoveredSum([Step(c.dist, c.extra - 1)], [Step(MARK_LIT, 1)] + [last]);
        assert Expand(c) == [Step(c.dist, c.extra - 1)] + ([Step(MARK_LIT, 1)] + [last]);
      }
    }
  }

  /** The packets cover just the bytes up to the position. */
  lemma {:induction false} ForwardCovers(opt: seq<Cell>, cur: nat)
    requires Chain(opt, cur)
    ensures Covered(Forward(opt, cur)) == cur
    decreases cur
  {
    if cur > 0 {
      var before := cur - opt[cur].len - opt[cur].extra;
      ForwardCovers(opt, before);
      CoveredSum(Forward(opt, before), Expand(opt[cur]));
      ExpandCovers(opt[cur]);
    }
  }

  lemma ForwardStep(opt: seq<Cell>, cur: nat)
    requires Chain(opt, cur) && 0 < cur
    ensures cur < |opt| && 1 <= opt[cur].len && opt[cur].len + opt[cur].extra <= cur
    ensures var before := cur - opt[cur].len - opt[cur].extra;
            Chain(opt, before) && Forward(opt, cur) == Forward(opt, before) + Expand(opt[cur])
  {
  }

  lemma NothingBefore(opt: seq<Cell>)
    ensures Chain(opt, 0) ==> Forward(opt, 0) == []
  {
  }

  /** Packets in cells. */
  function Stored(cells: seq<Cell>): (r: seq<Step>)
    ensures |r| == |cells| && forall i :: 0 <= i < |cells| ==> r[i] == Step(cells[i].dist, cells[i].len)
  {
    seq(|cells|, i requires 0 <= i < |cells| => Step(cells[i].dist, cells[i].len))
  }

  class Optimum {
    const opt: array<Cell>
    var optCur: nat
    var optEnd: nat
    var backRes: nat

    constructor (cells: array<Cell>)
      ensures opt == cells && optCur == optEnd == 0
    {
      opt, optCur, optEnd, backRes := cells, 0, 0, MARK_LIT;
    }

    /** What is still to be coded. */
    ghost function Pending(): seq<Step>
      reads this, opt
      requires optCur <= optEnd <= opt.Length
    {
      Stored(opt[optCur..optEnd])
    }

    /** The packets of a cell: all but the first go before those that have been written, into cells behind it. */
    method Unfold(cur: nat, wr: nat) returns (cur': nat, wr': nat, dist: nat, len: nat)
      requires 0 < cur < wr <= optEnd <= opt.Length && 1 <= opt[cur].len && opt[cur].len + opt[cur].extra <= cur
      modifies opt
      ensures cur' == cur - old(opt[cur]).len - old(opt[cur]).extra && cur' + 1 < wr' <= wr
      ensures forall i :: 0 <= i < opt.Length && !(wr' <= i < wr) ==> opt[i] == old(opt[i])
      ensures [Step(dist, len)] + Stored(opt[wr'..wr]) == Expand(old(opt[cur]))
    {
      var extra := opt[cur].extra;
      dist, len := opt[cur].dist, opt[cur].len;
      cur', wr' := cur - len, wr;
      if extra != 0 {
        wr' := wr' - 1;
        opt[wr'] := opt[wr'].(len := len);
        cur' := cur' - extra;
        len := extra;
        if extra == 1 {
          opt[wr'] := opt[wr'].(dist := dist);
          dist := MARK_LIT;
        } else {
          opt[wr'] := opt[wr'].(dist := 0);
          len := len - 1;
          wr' := wr' - 1;
          opt[wr'] := opt[wr'].(dist := MARK_LIT);
          opt[wr'] := opt[wr'].(len := 1);
        }
      }
    }

    /** With what has been written before, and what is still to come. */
    method UnfoldBefore(cur: nat, wr: nat, ghost before: seq<Step>) returns (cur': nat, wr': nat, dist: nat, len: nat)
      requires 0 < cur < wr <= optEnd <= opt.Length && 1 <= opt[cur].len && opt[cur].len + opt[cur].extra <= cur
      modifies opt
      ensures cur' == cur - old(opt[cur]).len - old(opt[cur]).extra && cur' + 1 < wr' <= wr
      ensures forall i :: 0 <= i < wr' ==> opt[i] == old(opt[i])
      ensures (before + Expand(old(opt[cur]))) + old(Stored(opt[wr..optEnd])) == before + ([Step(dist, len)] + Stored(opt[wr'..optEnd]))
    {
      hide Expand, Stored;
      ghost var expanded, behind := Expand(opt[cur]), opt[wr..optEnd];
      cur', wr', dist, len := Unfold(cur, wr);
      assert opt[wr'..optEnd] == opt[wr'..wr] + behind;
      StoredSum(opt[wr'..wr], behind);
      Regrouped(before, expanded, Step(dist, len), Stored(opt[wr'..wr]), Stored(behind));
    }

    method Put(wr: nat, dist: nat, len: nat)
      requires wr < optEnd <= opt.Length
      modifies opt
      ensures forall i :: 0 <= i < wr ==> opt[i] == old(opt[i])
      ensures Stored(opt[wr..optEnd]) == [Step(dist, len)] + old(Stored(opt[wr + 1..optEnd]))
    {
      hide Stored;
      ghost var behind := opt[wr + 1..optEnd];
      opt[wr] := opt[wr].(dist := dist);
      opt[wr] := opt[wr].(len := len);
      assert opt[wr..optEnd] == [opt[wr]] + behind;
      StoredFirst(opt[wr], behind);
    }

    /** The first packet is returned, the others are left in the cells; no cell is overwritten before it is read. */
    method Backward(cur: nat) returns (len: nat)
      requires 0 < cur && Chain(opt[..], cur)
      modifies this, opt
      ensures 1 <= optCur <= optEnd == cur + 1 <= opt.Length && opt[..optCur] == old(opt[..])[..optCur]
      ensures [Step(backRes, len)] + Pending() == Forward(old(opt[..]), cur)
    {
      hide Expand, Stored, Chain, Forward;
      ghost var o := opt[..];
      var cur', wr := cur, cur + 1;
      optEnd := wr;
      ForwardStep(o, cur);
      StoredNone(opt[wr..optEnd]);
      while true
        invariant 0 < cur' < wr <= optEnd == cur + 1 <= opt.Length && Chain(o, cur')
        invariant forall i :: 0 <= i < wr ==> opt[i] == o[i]
        invariant Forward(o, cur) == Forward(o, cur') + Stored(opt[wr..optEnd])
        decreases cur'
      {
        ForwardStep(o, cur');
        var dist: nat;
        cur', wr, dist, len := UnfoldBefore(cur', wr, Forward(o, cur' - o[cur'].len - o[cur'].extra));
        if cur' == 0 {
          NothingBefore(o);
          backRes := dist;
          optCur := wr;
          return;
        }
        wr := wr - 1;
        Put(wr, dist, len);
      }
    }

    /** The next packet, while there is one. */
    method Take() returns (len: nat)
      requires optCur < optEnd <= opt.Length
      modifies this
      ensures optCur <= optEnd == old(optEnd) && [Step(backRes, len)] + Pending() == old(Pending())
    {
      ghost var rest := opt[optCur + 1..optEnd];
      assert opt[optCur..optEnd] == [opt[optCur]] + rest;
      StoredFirst(opt[optCur], rest);
      len := opt[optCur].len;
      backRes := opt[optCur].dist;
      optCur := optCur + 1;
    }

    /** One after the other they are the packets of the way, and cover just its bytes. */
    method TakeAll(cur: nat) returns (packets: seq<Step>)
      requires 0 < cur && Chain(opt[..], cur)
      modifies this, opt
      ensures optCur == optEnd && packets == Forward(old(opt[..]), cur) && Covered(packets) == cur
    {
      hide Chain, Forward, Covered, Expand, Stored;
      ForwardCovers(opt[..], cur);
      ghost var all := Forward(opt[..], cur);
      var len := Backward(cur);
      packets := [Step(backRes, len)];
      while optCur != optEnd
        invariant optCur <= optEnd <= opt.Length && packets + Pending() == all
        decreases optEnd - optCur
      {
        len := Take();
        packets := packets + [Step(backRes, len)];
      }
    }
  }

  lemma StoredNone(cells: seq<Cell>)
    requires cells == []
    ensures Stored(cells) == []
  {
  }

  lemma StoredSum(a: seq<Cell>, b: seq<Cell>)
    ensures Stored(a + b) == Stored(a) + Stored(b)
  {
  }

  lemma StoredFirst(c: Cell, cells: seq<Cell>)
    ensures Stored([c] + cells) == [Step(c.dist, c.len)] + Stored(cells)
  {
  }

  lemma Regrouped<T>(before: seq<T>, expanded: seq<T>, x: T, some: seq<T>, written: seq<T>)
    requires [x] + some == expanded
    ensures (before + expanded) + written == before + ([x] + (some + written))
  {
    assert (before + ([x] + some)) + written == before + ([x] + (some + written));
  }

  // ---------- State and distances on the way ----------

  datatype Mode = Mode(state: nat, reps: Reps)

  /** Following the packets. */
  function After(m: Mode, p: Step): Mode {
    if p.dist == MARK_LIT then Mode(AfterLit(m.state), m.reps)
    else if p == Step(0, 1) then Mode(AfterShortRep(m.state), m.reps)
    else if p.dist < 4 then Mode(AfterRep(m.state), m.reps.Promote(p.dist))
    else Mode(AfterMatch(m.state), m.reps.Push(p.dist - 4 + 1))
  }

  function AfterAll(m: Mode, packets: seq<Step>): Mode {
    if packets == [] then m else After(AfterAll(m, packets[..|packets| - 1]), packets[|packets| - 1])
  }

  lemma {:induction false} AfterSum(m: Mode, a: seq<Step>, b: seq<Step>)
    ensures AfterAll(m, a + b) == AfterAll(AfterAll(m, a), b)
    decreases |b|
  {
    if b == [] {
      assert a + b == a;
    } else {
      assert (a + b)[..|a + b| - 1] == a + b[..|b| - 1];
      AfterSum(m, a, b[..|b| - 1]);
    }
  }

  /** A single byte is a literal or a short repetition; pairs and triples end in a match. */
  ghost predicate CellOk(c: Cell) {
    && (c.len == 1 ==> c.extra == 0 && (c.dist == 0 || c.dist == MARK_LIT))
    && (c.len != 1 ==> 2 <= c.len && c.dist != MARK_LIT && c.extra != 2)
  }

  /** What the encoder notes for a cell, from where its packets begin: constants in place of steps in between. */
  function Arrive(m: Mode, c: Cell): Mode
    requires m.state < 12
  {
    if c.len == 1 then Mode(if c.dist == 0 then SHORT_REP_NEXT[m.state] else LITERAL_NEXT[m.state], m.reps)
    else
      var state := if c.extra == 1 then (if c.dist < 4 then 8 else 7)
                   else if c.extra != 0 then 8
                   else if c.dist < 4 then REP_NEXT[m.state] else MATCH_NEXT[m.state];
      Mode(state, if c.dist < 4 then m.reps.Promote(c.dist) else Reps(c.dist - 4 + 1, m.reps.r0, m.reps.r1, m.reps.r2))
  }

  lemma ArriveIsAfter(m: Mode, c: Cell)
    requires m.state < 12 && CellOk(c)
    ensures AfterAll(m, Expand(c)) == Arrive(m, c) && Arrive(m, c).state < 12
  {
    TablesAreArithmetic(m.state);
    var e := Expand(c);
    if c.extra == 0 {
      assert e[..0] == [];
    } else if c.extra == 1 {
      assert e[..1] == [e[0]] && [e[0]][..0] == [];
      assert AfterAll(m, [e[0]]) == After(m, e[0]);
    } else {
      assert e[..2] == [e[0], e[1]] && [e[0], e[1]][..1] == [e[0]] && [e[0]][..0] == [];
      assert AfterAll(m, [e[0]]) == After(m, e[0]);
      assert AfterAll(m, [e[0], e[1]]) == After(After(m, e[0]), e[1]);
    }
  }

  /** What has been noted for each cell in turn. */
  ghost predicate Noted(opt: seq<Cell>, modes: seq<Mode>) {
    && |modes| == |opt| && (forall i :: 0 < i < |opt| ==> CellOk(opt[i]))
    && (forall i :: 0 <= i < |opt| ==> modes[i].state < 12)
    && forall i :: 0 < i < |opt| && opt[i].len + opt[i].extra <= i ==>
         modes[i] == Arrive(modes[i - opt[i].len - opt[i].extra], opt[i])
  }

  /** It is what the coder will find after the packets that lead there. */
  lemma {:induction false} NotedIsAfter(opt: seq<Cell>, modes: seq<Mode>, cur: nat)
    requires Noted(opt, modes) && Chain(opt, cur)
    ensures AfterAll(modes[0], Forward(opt, cur)) == modes[cur]
    decreases cur
  {
    if cur > 0 {
      var before := cur - opt[cur].len - opt[cur].extra;
      NotedIsAfter(opt, modes, before);
      AfterSum(modes[0], Forward(opt, before), Expand(opt[cur]));
      ArriveIsAfter(modes[before], opt[cur]);
    }
  }
}
