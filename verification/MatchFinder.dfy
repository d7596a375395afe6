/** The match finder with binary trees and hashes of up to four bytes (LzFind.c), on a window that slides along a stream. */
module MatchFinder {
  import opened Bytes
  import opened CyclicTrees
  import opened MatchAnswers
  import opened MatchForest
  import opened MatchHashes
  import opened MatchNormalize
  import opened MatchRuns
  import opened MatchWindow
  import opened SuffixTrees

  /** How many positions may pass before the limits are looked at again, as far as the text goes. */
  function Room(avail: nat, keepAfter: nat): nat {
    if avail <= keepAfter then (if avail > 0 then 1 else 0) else avail - keepAfter
  }

  /** How much larger the window is than it needs to be, so that it is moved only now and then. */
  function Reserve(historySize: nat, keep: nat): (r: nat)
    ensures 0 < r
  {
    (if historySize >= 0xC000_0000 then historySize / 8 else if historySize >= 0x8000_0000 then historySize / 4 else historySize / 2)
    + keep / 2 + 0x8_0000
  }

  /** kMaxHistorySize. */
  const MAX_HISTORY: nat := 0xE000_0000

  class Finder {
    const win: Slider
    const cyc: nat
    const setup: Setup
    const hash2: array<nat>
    const hash3: array<nat>
    const heads: array<nat>
    const son: array<nat>
    var pos: nat
    var posLimit: nat
    var lenLimit: nat
    var cyclicPos: nat

    /** The text and the position in it, as the references see it. */
    ghost function W(): Window
      reads this, win
    {
      Window(win.text, win.n, pos, cyc, cyclicPos)
    }

    /** The state, as a value. */
    ghost function Now(): State
      reads this, win, hash2, hash3, heads, son
    {
      State(W(), hash2[..], hash3[..], heads[..], son[..])
    }

    ghost predicate Apart()
    {
      hash2 != hash3 && hash2 != heads && hash2 != son && hash3 != heads && hash3 != son && heads != son
    }

    /** The window keeps what the references may ask for, and what a match may reach. */
    ghost predicate WindowOk()
      reads this, win, win.stream, win.base
    {
      win.Valid() && cyc <= win.keepBefore && setup.maxLen <= win.keepAfter
    }

    ghost predicate LimitsOk()
      reads this, win, win.stream, win.base
    {
      && WindowOk() && win.Filled() && pos < MAX_POS && lenLimit == Limit(setup, W())
      && (win.ahead > 0 ==>
            1 <= posLimit - pos <= Room(win.ahead, win.keepAfter) && posLimit <= MAX_POS && posLimit - pos <= cyc - cyclicPos)
    }

    lemma Inside()
      requires win.Valid()
      ensures win.n + win.ahead <= |win.text|
    {
    }

    /** A match may be as long as what is ahead allows: what has not been read would be too far away. */
    lemma LimitIs()
      requires WindowOk()
      ensures win.n <= |win.text|
      ensures win.atEnd || win.keepAfter < win.ahead ==>
                Limit(setup, W()) == if win.ahead > setup.maxLen then setup.maxLen else win.ahead
    {
      hide Holds;
    }

    /** What the operations need to know of the limits. */
    lemma Ahead()
      requires LimitsOk()
      ensures WindowOk() && win.n <= |win.text| && lenLimit == Limit(setup, W()) && lenLimit <= win.ahead
      ensures win.n < |win.text| ==> 0 < win.ahead
    {
      hide Holds;
    }

    ghost predicate Valid()
      reads this, win, win.stream, win.base, hash2, hash3, heads, son
    {
      Apart() && ShapeOk(Now()) && LimitsOk() && cyc + NORMALIZE_STEP < MAX_POS
    }

    // ---------- The walk down a tree ----------

    /** How many bytes here and delta before agree, from len on, which is known to be below the limit. */
    method Compare(delta: nat, first: nat, limit: nat) returns (len: nat)
      requires WindowOk() && delta <= win.n && delta < cyc && first < limit <= win.ahead
      ensures len == Scan(win.text, win.n - delta, win.n, first, limit)
    {
      hide Same, Holds;
      len := first;
      while len != limit && win.At(delta, len) == win.At(0, len)
        invariant first <= len <= limit
        invariant Scan(win.text, win.n - delta, win.n, len, limit) == Scan(win.text, win.n - delta, win.n, first, limit)
        decreases limit - len
      {
        len := len + 1;
      }
    }

    /** The node at `pair` is hung at the place for its side of n, and one of its children is next. */
    method Descend(limit: nat, at: Place, pair: nat, len: nat) returns (next: Place)
      requires CanWalk(W(), limit, son[..], at) && Meets(W(), limit, at) && son.Length == 2 * cyc && at.p0 < son.Length && at.p1 < son.Length
      requires WindowOk() && limit <= win.ahead && pos - at.cur < cyc
      requires pair == 2 * Slot(W(), Met(W(), at)) && len == Agreed(W(), limit, at) < limit
      modifies son
      ensures son[..] == Hung(W(), limit, old(son[..]), at) && next == Next(W(), limit, old(son[..]), at)
    {
      hide Slot, Agreed, ArrayOk, CanWalk, Holds;
      if win.At(pos - at.cur, len) < win.At(0, len) {
        son[at.p1] := at.cur;
        assert son[..] == old(son[..])[at.p1 := at.cur];
        next := Place(at.p0, pair + 1, son[pair + 1], at.cut - 1, at.len0, len);
      } else {
        son[at.p0] := at.cur;
        assert son[..] == old(son[..])[at.p0 := at.cur];
        next := Place(pair, at.p1, son[pair], at.cut - 1, len, at.len1);
      }
    }

    method Hang(at: Place, v1: nat, v0: nat)
      requires at.p0 < son.Length && at.p1 < son.Length
      modifies son
      ensures son[..] == old(son[..])[at.p1 := v1][at.p0 := v0]
    {
      son[at.p1] := v1;
      son[at.p0] := v0;
    }

    /** The node at `pair` gives way to its children. */
    method Promote(at: Place, pair: nat)
      requires 0 < cyc && at.cur < pos && pos - at.cur <= win.n && pair == 2 * Slot(W(), Met(W(), at))
      requires son.Length == 2 * cyc && at.p0 < son.Length && at.p1 < son.Length
      modifies son
      ensures son[..] == Childless(W(), old(son[..]), at)
    {
      hide Slot;
      ghost var before := son[..];
      son[at.p1] := son[pair];
      assert son[..] == before[at.p1 := before[pair]];
      son[at.p0] := son[pair + 1];
    }

    /** One round of the walk: a node is compared, and hung or replaced. */
    method Visit(limit: nat, at: Place) returns (len: nat, next: Place)
      requires CanWalk(W(), limit, son[..], at) && !Stops(W(), at) && WindowOk() && limit <= win.ahead
      modifies son
      ensures Meets(W(), limit, at) && len == Agreed(W(), limit, at) && son.Length == 2 * cyc && at.p0 < son.Length && at.p1 < son.Length
      ensures len == limit ==> son[..] == Childless(W(), old(son[..]), at)
      ensures len != limit ==> son[..] == Hung(W(), limit, old(son[..]), at) && next == Next(W(), limit, old(son[..]), at)
    {
      hide ArrayOk, Slot, Agreed, Hung, Next, Childless, CanWalk, Stops, Slider.Valid;
      ItMeets(W(), limit, son[..], at);
      PairPlace(W(), limit, son[..], at);
      var delta := pos - at.cur;
      var pair := 2 * (cyclicPos - delta + if delta > cyclicPos then cyc else 0);
      len := Compare(delta, if at.len0 < at.len1 then at.len0 else at.len1, limit);
      AgreedIs(W(), limit, at, len);
      next := at;
      if len == limit {
        Promote(at, pair);
      } else {
        next := Descend(limit, at, pair, len);
      }
    }

    method GetMatchesSpec1(limit: nat, curMatch: nat, maxLen: nat) returns (distances: seq<Pair>)
      requires CanWalk(W(), limit, son[..], Root(setup, W(), curMatch)) && maxLen < limit && WindowOk() && limit <= win.ahead
      modifies son
      ensures son[..] == Walk(W(), limit, old(son[..]), Root(setup, W(), curMatch))
      ensures distances == Found(W(), limit, old(son[..]), Root(setup, W(), curMatch), maxLen)
    {
      hide Walk, Found, Going, CanWalk, Report, Max, Agreed, Childless, Hung, Next, Meets, Met, Slot;
      var at, best := Place(2 * cyclicPos + 1, 2 * cyclicPos, curMatch, setup.cut, 0, 0), maxLen;
      distances := [];
      ghost var goal, all := Walk(W(), limit, son[..], at), Found(W(), limit, son[..], at, best);
      ItBegins(W(), limit, son[..], at, best);
      while true
        invariant Going(W(), limit, son[..], at, best, distances, goal, all)
        decreases at.cut
      {
        GoingFacts(W(), limit, son[..], at, best, distances, goal, all);
        if at.cut == 0 || pos - at.cur >= cyc {
          ItStops(W(), limit, son[..], at, best, distances, goal, all);
          Hang(at, 0, 0);
          return;
        }
        Proceeds(W(), limit, son[..], at, best, distances, goal, all);
        Reported(W(), limit, at, best, distances);
        var delta := pos - at.cur;
        var len, next := Visit(limit, at);
        if best < len {
          best := len;
          distances := distances + [Pair(len, delta - 1)];
          if len == limit {
            return;
          }
        }
        at := next;
      }
    }

    method SkipMatchesSpec(limit: nat, curMatch: nat)
      requires CanWalk(W(), limit, son[..], Root(setup, W(), curMatch)) && 0 < limit && WindowOk() && limit <= win.ahead
      modifies son
      ensures son[..] == Walk(W(), limit, old(son[..]), Root(setup, W(), curMatch))
    {
      hide Walk, Found, Going, CanWalk, Report, Max, Agreed, Childless, Hung, Next;
      var at := Place(2 * cyclicPos + 1, 2 * cyclicPos, curMatch, setup.cut, 0, 0);
      ghost var best: nat, seen: seq<Pair> := 0, [];
      ghost var goal, all := Walk(W(), limit, son[..], at), Found(W(), limit, son[..], at, best);
      ItBegins(W(), limit, son[..], at, best);
      while true
        invariant Going(W(), limit, son[..], at, best, seen, goal, all)
        decreases at.cut
      {
        GoingFacts(W(), limit, son[..], at, best, seen, goal, all);
        if at.cut == 0 || pos - at.cur >= cyc {
          ItStops(W(), limit, son[..], at, best, seen, goal, all);
          Hang(at, 0, 0);
          return;
        }
        Proceeds(W(), limit, son[..], at, best, seen, goal, all);
        var len, next := Visit(limit, at);
        if len == limit {
          return;
        }
        best, seen := Max(best, len), seen + Report(W(), limit, at, best);
        at := next;
      }
    }

    // ---------- Limits and positions ----------

    method SetLimits()
      requires W().Ok() && cyc + NORMALIZE_STEP < MAX_POS && pos < MAX_POS && WindowOk() && win.Filled()
      modifies this`posLimit, this`lenLimit
      ensures LimitsOk()
    {
      hide Slider.Valid, Limit;
      LimitIs();
      var limit := MAX_POS - pos;
      var limit2 := cyc - cyclicPos;
      if limit2 < limit {
        limit := limit2;
      }
      limit2 := win.ahead;
      if limit2 <= win.keepAfter {
        if limit2 > 0 {
          limit2 := 1;
        }
      } else {
        limit2 := limit2 - win.keepAfter;
      }
      if limit2 < limit {
        limit := limit2;
      }
      lenLimit := win.ahead;
      if lenLimit > setup.maxLen {
        lenLimit := setup.maxLen;
      }
      posLimit := pos + limit;
    }

    /** MatchFinder_Normalize3, for one of the arrays. */
    method Normalize3(sub: nat, items: array<nat>)
      modifies items
      ensures items[..] == Reduced(old(items[..]), sub)
    {
      for i := 0 to items.Length
        invariant forall j :: 0 <= j < i ==> items[j] == if old(items[j]) <= sub then 0 else old(items[j]) - sub
        invariant forall j :: i <= j < items.Length ==> items[j] == old(items[j])
      {
        var value := items[i];
        if value <= sub {
          value := 0;
        } else {
          value := value - sub;
        }
        items[i] := value;
      }
    }

    method Normalize()
      requires Apart() && cyc <= pos && posLimit == pos
      modifies this, hash2, hash3, heads, son
      ensures Now() == Normalized(old(Now()))
    {
      hide Reduced;
      var sub := pos - cyc - (pos - cyc) % NORMALIZE_STEP;
      Normalize3(sub, hash2);
      Normalize3(sub, hash3);
      Normalize3(sub, heads);
      Normalize3(sub, son);
      posLimit, pos := posLimit - sub, pos - sub;
    }

    /** MatchFinder_CheckLimits. */
    method CheckLimits()
      requires Apart() && cyc <= pos <= MAX_POS && posLimit == pos && cyc + NORMALIZE_STEP < MAX_POS
      requires WindowOk() && (win.atEnd || win.keepAfter <= win.ahead)
      requires 0 < cyc && (if cyclicPos == cyc then 0 else cyclicPos) == win.n % cyc
      modifies this, win, win.stream, win.base, hash2, hash3, heads, son
      ensures LimitsOk()
      ensures Now() == Renumbered(Turned(old(Now())))
    {
      hide Slider.Valid, LimitsOk, Reduced;
      if pos == MAX_POS {
        Normalize();
      }
      if !win.atEnd && win.keepAfter == win.ahead {
        win.CheckAndMoveAndRead();
      }
      if cyclicPos == cyc {
        cyclicPos := 0;
      }
      Inside();
      SetLimits();
    }

    /** MOVE_POS: one position further. */
    method MovePos()
      requires Apart() && W().Ok() && cyc <= pos && LimitsOk() && 0 < win.ahead && cyc + NORMALIZE_STEP < MAX_POS
      modifies this, win, win.stream, win.base, hash2, hash3, heads, son
      ensures LimitsOk() && Now() == Renumbered(old(Now()).(w := After(old(W()))))
    {
      hide Renumbered, Slider.Valid, Limit;
      ghost var s := Now();
      Inside();
      LimitIs();
      NextSlot(win.n, cyc);
      cyclicPos := cyclicPos + 1;
      win.Advance();
      pos := pos + 1;
      assert Turned(Now()) == s.(w := After(s.w));
      if pos == posLimit {
        CheckLimits();
      } else {
        LimitIs();
        Inside();
        assert Now() == Turned(Now());
        NotYet(Now());
      }
    }

    // ---------- The two operations ----------

    /** MatchFinder_Create and MatchFinder_Init, for the text that is left in the stream. */
    constructor (stream: InStream, historySize: nat, keepAddBefore: nat, maxLen: nat, keepAddAfter: nat, cut: nat, buckets: nat)
      requires historySize <= MAX_HISTORY && 0 < buckets
      modifies stream
      ensures Valid() && setup == Setup(maxLen, cut) && Now() == Start(old(stream.left), historySize + 1, buckets)
      ensures fresh(win) && fresh(win.base) && win.stream == stream
      ensures fresh(hash2) && fresh(hash3) && fresh(heads) && fresh(son)
    {
      hide LimitsOk, ShapeOk, Slider.Valid, Reserve, Reports, Answers, Steps;
      var reserve := Reserve(historySize, keepAddBefore + maxLen + keepAddAfter);
      win := new Slider(stream, historySize + keepAddBefore + 1, maxLen + keepAddAfter, reserve);
      this.cyc, this.setup := historySize + 1, Setup(maxLen, cut);
      hash2 := new nat[0x400](_ => 0);
      hash3 := new nat[0x1_0000](_ => 0);
      heads := new nat[buckets](_ => 0);
      son := new nat[2 * (historySize + 1)](_ => 0);
      pos, cyclicPos := historySize + 1, 0;
      new;
      Inside();
      assert hash2[..] == Zeros(0x400) && hash3[..] == Zeros(0x1_0000) && heads[..] == Zeros(buckets) && son[..] == Zeros(2 * cyc);
      EveryAnswerIsTrue(setup, win.text, cyc, buckets, 0);
      SetLimits();
    }

    /** MatchFinder_GetNumAvailableBytes. */
    function GetNumAvailableBytes(): (num: nat)
      requires Valid()
      reads this, win, win.stream, win.base, hash2, hash3, heads, son
      ensures win.n + num <= |win.text| && (num == 0 <==> win.n == |win.text|)
    {
      hide ShapeOk, Holds;
      Inside();
      win.ahead
    }

    /** The matches that the small hash tables promise. */
    method Promises(d2: nat, d3: nat) returns (distances: seq<Pair>)
      requires WindowOk() && 0 < win.ahead && 1 <= d2 && 1 <= d3 && (d2 < cyc ==> d2 <= win.n) && (d3 < cyc ==> d3 <= win.n)
      ensures distances == Promised(W(), d2, d3) && forall i :: 0 <= i < |distances| ==> distances[i].dist + 1 < cyc
    {
      hide Hit, Holds;
      HitIs(W(), d2);
      HitIs(W(), d3);
      distances := [];
      if d2 < cyc && win.At(d2, 0) == win.At(0, 0) {
        distances := [Pair(2, d2 - 1)];
      }
      if d2 != d3 && d3 < cyc && win.At(d3, 0) == win.At(0, 0) {
        distances := distances + [Pair(3, d3 - 1)];
      }
    }

    /** The last of them as long as it goes. */
    method HashMatches(d2: nat, d3: nat) returns (distances: seq<Pair>, maxLen: nat)
      requires WindowOk() && 4 <= lenLimit <= win.ahead && 1 <= d2 && 1 <= d3
      requires (d2 < cyc ==> d2 <= win.n) && (d3 < cyc ==> d3 <= win.n)
      ensures distances == HashHits(W(), lenLimit, d2, d3) && maxLen == LastLen(distances, 0)
    {
      hide Same, Scan, Promised, Slider.Valid;
      distances := Promises(d2, d3);
      maxLen := 0;
      if distances != [] {
        var last := distances[|distances| - 1];
        maxLen := Compare(last.dist + 1, last.len, lenLimit);
        distances := distances[..|distances| - 1] + [Pair(maxLen, last.dist)];
      }
    }

    /** Enters the position in the hash tables, and tells what they held. */
    method EnterHashes() returns (d2: nat, d3: nat, curMatch: nat)
      requires Valid() && 4 <= lenLimit
      modifies hash2, hash3, heads
      ensures d2 == pos - old(hash2[..])[Hash2(win.text, win.n)] && d3 == pos - old(hash3[..])[Hash3(win.text, win.n)]
      ensures curMatch == old(heads[..])[Hash4(win.text, win.n, heads.Length)]
      ensures hash2[..] == old(hash2[..])[Hash2(win.text, win.n) := pos] && hash3[..] == old(hash3[..])[Hash3(win.text, win.n) := pos]
      ensures heads[..] == old(heads[..])[Hash4(win.text, win.n, heads.Length) := pos]
    {
      hide Hash2, Hash3, Hash4, ArrayOk, Holds;
      var here := [win.At(0, 0), win.At(0, 1), win.At(0, 2), win.At(0, 3)];
      HashHere(win.text, win.n, heads.Length, here);
      var h2, h3, h := Hash2(here, 0), Hash3(here, 0), Hash4(here, 0, heads.Length);
      d2, d3, curMatch := pos - hash2[h2], pos - hash3[h3], heads[h];
      hash2[h2], hash3[h3], heads[h] := pos, pos, pos;
    }

    /** Bt4_MatchFinder_GetMatches. */
    method GetMatches() returns (distances: seq<Pair>)
      requires Valid() && win.n < |win.text|
      modifies this, win, win.stream, win.base, hash2, hash3, heads, son
      ensures Valid() && Now() == Step(setup, old(Now())) && distances == Answers(setup, old(Now()))
    {
      hide ShapeOk, Hash2, Hash3, Hash4, Walk, Found, HashHits, Renumbered, After, CanWalk, Answers, Step, PlainStep, LimitsOk, WindowOk, Slider.Valid;
      ghost var s := Now();
      Ahead();
      StepShape(setup, s);
      if lenLimit < 4 {
        TooShort(setup, s);
        MovePos();
        return [];
      }
      Enters(setup, s);
      var d2, d3, curMatch := EnterHashes();
      var maxLen;
      distances, maxLen := HashMatches(d2, d3);
      if maxLen == lenLimit {
        SkipMatchesSpec(lenLimit, curMatch);
        MovePos();
        return;
      }
      if maxLen < 3 {
        maxLen := 3;
      }
      var more := GetMatchesSpec1(lenLimit, curMatch, maxLen);
      distances := distances + more;
      MovePos();
    }

    /** One round of Bt4_MatchFinder_Skip. */
    method SkipOne()
      requires Valid() && win.n < |win.text|
      modifies this, win, win.stream, win.base, hash2, hash3, heads, son
      ensures Valid() && Now() == Step(setup, old(Now()))
    {
      hide ShapeOk, Hash2, Hash3, Hash4, Walk, Found, HashHits, Renumbered, After, CanWalk, Answers, Step, PlainStep, Max, LimitsOk, WindowOk, Slider.Valid;
      ghost var s := Now();
      Ahead();
      StepShape(setup, s);
      if lenLimit < 4 {
        TooShort(setup, s);
        MovePos();
        return;
      }
      Enters(setup, s);
      var _, _, curMatch := EnterHashes();
      SkipMatchesSpec(lenLimit, curMatch);
      MovePos();
    }

    /** Bt4_MatchFinder_Skip: it leaves what num calls of GetMatches leave. */
    method Skip(num: nat)
      requires Valid() && 0 < num <= |win.text| - win.n
      modifies this, win, win.stream, win.base, hash2, hash3, heads, son
      ensures Valid() && Now() == Steps(setup, old(Now()), num)
    {
      hide ShapeOk, Step;
      ghost var goal := Steps(setup, Now(), num);
      var left := num;
      while left != 0
        invariant Valid() && left <= |win.text| - win.n && Steps(setup, Now(), left) == goal
        decreases left
      {
        SkipOne();
        left := left - 1;
      }
    }
  }

  /** The place in the cyclic array, turned round at its end. */
  ghost function Turned(s: State): State
    requires 0 < s.w.cyc
  {
    s.(w := s.w.(cyclicPos := s.w.n % s.w.cyc))
  }

  lemma NotYet(s: State)
    requires s.w.cyc <= s.w.pos < MAX_POS
    ensures Renumbered(s) == s
  {
  }

  // ---------- What a call does to the state ----------

  lemma TooShort(p: Setup, s: State)
    requires ShapeOk(s) && s.w.n < |s.w.text| && Limit(p, s.w) < 4
    ensures s.w.cyc <= s.w.pos && s.w.Ok() && Step(p, s) == Renumbered(s.(w := After(s.w))) && Answers(p, s) == []
  {
    hide Renumbered;
  }

  /** The parts of a state, of the next one, and of the answers in it. */
  lemma Enters(p: Setup, s: State)
    requires ShapeOk(s) && s.w.n < |s.w.text| && 4 <= Limit(p, s.w)
    ensures s.w.Ok() && s.w.cyc <= s.w.pos && |s.son| == 2 * s.w.cyc && |s.hash2| == 0x400 && |s.hash3| == 0x1_0000 && 0 < |s.heads|
    ensures var d2, d3 := s.w.pos - s.hash2[Hash2(s.w.text, s.w.n)], s.w.pos - s.hash3[Hash3(s.w.text, s.w.n)];
            && 1 <= d2 && 1 <= d3 && (d2 < s.w.cyc ==> d2 <= s.w.n) && (d3 < s.w.cyc ==> d3 <= s.w.n)
    ensures CanWalk(s.w, Limit(p, s.w), s.son, Root(p, s.w, s.heads[Hash4(s.w.text, s.w.n, |s.heads|)]))
    ensures Step(p, s) == Renumbered(Entered(p, s)) && AnswersAre(p, s)
  {
    hide Renumbered, HashHits, Hash2, Hash3, Hash4;
    RefsInWindow(s);
    HitsInLimit(s.w, Limit(p, s.w), s.w.pos - s.hash2[Hash2(s.w.text, s.w.n)], s.w.pos - s.hash3[Hash3(s.w.text, s.w.n)]);
    RootCanWalk(p, s, Limit(p, s.w), s.heads[Hash4(s.w.text, s.w.n, |s.heads|)]);
  }

  /** The hash values are those of the bytes at hand. */
  lemma HashHere(text: seq<Byte>, n: nat, buckets: nat, here: seq<Byte>)
    requires n + 4 <= |text| && 0 < buckets && here == [text[n], text[n + 1], text[n + 2], text[n + 3]]
    ensures Hash2(here, 0) == Hash2(text, n) && Hash3(here, 0) == Hash3(text, n) && Hash4(here, 0, buckets) == Hash4(text, n, buckets)
  {
  }

  lemma HitIs(w: Window, delta: nat)
    requires w.n < |w.text| && 1 <= delta && (delta < w.cyc ==> delta <= w.n)
    ensures Hit(w, delta) <==> delta < w.cyc && w.text[w.n - delta] == w.text[w.n]
  {
  }

  lemma HitsInLimit(w: Window, limit: nat, d2: nat, d3: nat)
    requires w.n + limit <= |w.text| && 4 <= limit
    ensures LastLen(HashHits(w, limit, d2, d3), 0) <= limit
  {
    hide Scan;
  }

  ghost function Entered(p: Setup, s: State): State
    requires s.w.Ok() && s.w.n < |s.w.text| && 4 <= Limit(p, s.w) && |s.hash2| == 0x400 && |s.hash3| == 0x1_0000 && 0 < |s.heads|
    requires CanWalk(s.w, Limit(p, s.w), s.son, Root(p, s.w, s.heads[Hash4(s.w.text, s.w.n, |s.heads|)]))
  {
    var n, h := s.w.n, Hash4(s.w.text, s.w.n, |s.heads|);
    State(After(s.w), s.hash2[Hash2(s.w.text, n) := s.w.pos], s.hash3[Hash3(s.w.text, n) := s.w.pos], s.heads[h := s.w.pos],
          Walk(s.w, Limit(p, s.w), s.son, Root(p, s.w, s.heads[h])))
  }

  ghost predicate AnswersAre(p: Setup, s: State)
    requires ShapeOk(s) && s.w.n < |s.w.text| && 4 <= Limit(p, s.w)
    requires CanWalk(s.w, Limit(p, s.w), s.son, Root(p, s.w, s.heads[Hash4(s.w.text, s.w.n, |s.heads|)]))
    requires s.hash2[Hash2(s.w.text, s.w.n)] < s.w.pos && s.hash3[Hash3(s.w.text, s.w.n)] < s.w.pos
  {
    var hits := HashHits(s.w, Limit(p, s.w), s.w.pos - s.hash2[Hash2(s.w.text, s.w.n)], s.w.pos - s.hash3[Hash3(s.w.text, s.w.n)]);
    var v := s.heads[Hash4(s.w.text, s.w.n, |s.heads|)];
    && LastLen(hits, 0) <= Limit(p, s.w)
    && Answers(p, s) == if LastLen(hits, 0) == Limit(p, s.w) then hits
                        else hits + Found(s.w, Limit(p, s.w), s.son, Root(p, s.w, v), Max(3, LastLen(hits, 0)))
  }

  // ---------- The loop of the walk ----------

  /** From here the walk ends with the array `goal` and, all in all, the pairs `all`. */
  ghost predicate Going(w: Window, limit: nat, son: seq<nat>, at: Place, best: nat, seen: seq<Pair>, goal: seq<nat>, all: seq<Pair>) {
    && CanWalk(w, limit, son, at) && best < limit
    && Walk(w, limit, son, at) == goal && seen + Found(w, limit, son, at, best) == all
  }

  lemma GoingFacts(w: Window, limit: nat, son: seq<nat>, at: Place, best: nat, seen: seq<Pair>, goal: seq<nat>, all: seq<Pair>)
    requires Going(w, limit, son, at, best, seen, goal, all)
    ensures CanWalk(w, limit, son, at) && best < limit && w.Ok() && |son| == 2 * w.cyc && at.p0 < |son| && at.p1 < |son| && at.cur < w.pos
  {
    hide Walk, Found;
  }

  lemma ItBegins(w: Window, limit: nat, son: seq<nat>, at: Place, best: nat)
    requires CanWalk(w, limit, son, at) && best < limit
    ensures Going(w, limit, son, at, best, [], Walk(w, limit, son, at), Found(w, limit, son, at, best))
  {
    hide Walk, Found, CanWalk;
    assert [] + Found(w, limit, son, at, best) == Found(w, limit, son, at, best);
  }

  lemma ItStops(w: Window, limit: nat, son: seq<nat>, at: Place, best: nat, seen: seq<Pair>, goal: seq<nat>, all: seq<Pair>)
    requires Going(w, limit, son, at, best, seen, goal, all) && Stops(w, at)
    ensures at.p0 < |son| && at.p1 < |son| && goal == son[at.p1 := 0][at.p0 := 0] && all == seen
  {
    hide Walk, Found, ArrayOk;
    WalkUnfolds(w, limit, son, at);
    FoundUnfolds(w, limit, son, at, best);
    assert seen + [] == seen;
  }

  /** A node is met: the walk ends there, or it goes on from one of its children. */
  lemma Proceeds(w: Window, limit: nat, son: seq<nat>, at: Place, best: nat, seen: seq<Pair>, goal: seq<nat>, all: seq<Pair>)
    requires Going(w, limit, son, at, best, seen, goal, all) && !Stops(w, at)
    ensures Meets(w, limit, at) && |son| == 2 * w.cyc && at.p0 < |son| && at.p1 < |son|
    ensures Agreed(w, limit, at) == limit ==> goal == Childless(w, son, at) && all == seen + Report(w, limit, at, best)
    ensures Agreed(w, limit, at) != limit ==>
      Going(w, limit, Hung(w, limit, son, at), Next(w, limit, son, at), Max(best, Agreed(w, limit, at)), seen + Report(w, limit, at, best), goal, all)
  {
    hide Walk, Found, CanWalk, Agreed, Hung, Next, Childless, Report, Stops;
    GoingFacts(w, limit, son, at, best, seen, goal, all);
    WalkUnfolds(w, limit, son, at);
    FoundUnfolds(w, limit, son, at, best);
    if Agreed(w, limit, at) != limit {
      var s, next, more := Hung(w, limit, son, at), Next(w, limit, son, at), Max(best, Agreed(w, limit, at));
      assert seen + (Report(w, limit, at, best) + Found(w, limit, s, next, more)) == (seen + Report(w, limit, at, best)) + Found(w, limit, s, next, more);
    }
  }

  /** Where the pair of a node is. */
  lemma PairPlace(w: Window, limit: nat, son: seq<nat>, at: Place)
    requires CanWalk(w, limit, son, at) && !Stops(w, at) && Meets(w, limit, at)
    ensures var delta := w.pos - at.cur;
            2 * (w.cyclicPos - delta + if delta > w.cyclicPos then w.cyc else 0) == 2 * Slot(w, Met(w, at))
  {
    hide Slot;
    SlotOfDelta(w, w.pos - at.cur);
  }

  lemma Reported(w: Window, limit: nat, at: Place, best: nat, seen: seq<Pair>)
    requires Meets(w, limit, at)
    ensures seen + Report(w, limit, at, best) == if best < Agreed(w, limit, at) then seen + [Pair(Agreed(w, limit, at), w.pos - at.cur - 1)] else seen
    ensures Max(best, Agreed(w, limit, at)) == if best < Agreed(w, limit, at) then Agreed(w, limit, at) else best
  {
  }

  lemma AgreedIs(w: Window, limit: nat, at: Place, len: nat)
    requires Meets(w, limit, at) && len == Scan(w.text, Met(w, at), w.n, if at.len0 < at.len1 then at.len0 else at.len1, limit)
    ensures len == Agreed(w, limit, at)
  {
  }

  /** Distances that the cyclic array still covers lie within the text. */
  lemma RefsInWindow(s: State)
    requires ShapeOk(s)
    ensures forall i :: 0 <= i < |s.hash2| ==> s.hash2[i] < s.w.pos && (s.w.pos - s.hash2[i] < s.w.cyc ==> s.w.pos - s.hash2[i] <= s.w.n)
    ensures forall i :: 0 <= i < |s.hash3| ==> s.hash3[i] < s.w.pos && (s.w.pos - s.hash3[i] < s.w.cyc ==> s.w.pos - s.hash3[i] <= s.w.n)
    ensures forall i :: 0 <= i < |s.heads| ==> s.w.RefOk(s.heads[i])
  {
    hide ArrayOk;
  }
}
