/** What a run of the logger puts into its lines and when it writes them out: the clock readings
    that the stamps come from, and the cause of each emission (src/nth_log.c).
  */
module LogRuns {
  import opened LogProtocol
  import opened LogTheorems

  /* ------------------------------------------------------------------ */
  /*  Clock readings                                                     */
  /* ------------------------------------------------------------------ */

  // The second a call read off the clock, in the order the calls came to compare theirs under the
  // lock, and the text formatting it yields.
  datatype Reading = Reading(now: int, text: Stamp)

  function ReadBy(s: State, m: Move): seq<Reading>
    requires Ready(s, m)
  {
    if s.threads[m.thread].TakeStamp? then [Reading(s.threads[m.thread].req.now, m.action.text)] else []
  }

  // The readings of a run, in order.
  function Readings(s: State, moves: seq<Move>): seq<Reading>
    decreases |moves|
  {
    if moves == [] || !Ready(s, moves[0]) then []
    else ReadBy(s, moves[0]) + Readings(Apply(s, moves[0].thread, moves[0].action), moves[1..])
  }

  // Reading i is later than `first` and than every reading before it.
  predicate Record(rs: seq<Reading>, first: int, i: nat)
    requires i < |rs|
  {
    rs[i].now > first && forall j :: 0 <= j < i ==> rs[i].now > rs[j].now
  }

  // `stamp` is the text of the last such reading, or the initial one if there is none.
  ghost predicate Shows(rs: seq<Reading>, first: int, initial: Stamp, stamp: Stamp) {
    || (exists i: nat :: i < |rs| && Record(rs, first, i) && stamp == rs[i].text
                         && forall j: nat :: i < j < |rs| ==> !Record(rs, first, j))
    || (stamp == initial && forall j: nat :: j < |rs| ==> !Record(rs, first, j))
  }

  // The latest second read, or `first`.
  ghost predicate Latest(rs: seq<Reading>, first: int, last: int) {
    && first <= last && (forall i :: 0 <= i < |rs| ==> rs[i].now <= last)
    && (last == first || exists i :: 0 <= i < |rs| && rs[i].now == last)
  }

  lemma RecordSnoc(rs: seq<Reading>, first: int, last: int, x: Reading, i: nat)
    requires Latest(rs, first, last) && i <= |rs|
    ensures Record(rs + [x], first, i) <==> if i < |rs| then Record(rs, first, i) else x.now > last
  {
    var more := rs + [x];
    assert forall j :: 0 <= j < |rs| ==> more[j] == rs[j];
  }

  lemma ShowsSnoc(rs: seq<Reading>, first: int, last: int, initial: Stamp, stamp: Stamp, x: Reading)
    requires Latest(rs, first, last) && Shows(rs, first, initial, stamp)
    ensures Latest(rs + [x], first, if x.now > last then x.now else last)
    ensures Shows(rs + [x], first, initial, if x.now > last then x.text else stamp)
  {
    var more := rs + [x];
    forall i: nat | i < |more|
      ensures Record(more, first, i) <==> if i < |rs| then Record(rs, first, i) else x.now > last
    {
      RecordSnoc(rs, first, last, x, i);
    }
    assert more[|rs|] == x;
    assert forall j :: 0 <= j < |rs| ==> more[j] == rs[j];
    hide Record;
  }

  /* ------------------------------------------------------------------ */
  /*  Each line shows the clock                                          */
  /* ------------------------------------------------------------------ */

  // Whether the thread in the locked part has read the clock and not yet reserved.
  predicate Stamped(s: State) {
    0 <= s.lock < |s.threads| && s.threads[s.lock].Reserve?
  }

  // One reading an entry, of that entry's request, and what the entry shows is told by the readings
  // up to its own.
  ghost predicate Told(s: State, rs: seq<Reading>, es: seq<Entry>, initial: Stamp) {
    && Latest(rs, -1, s.lastTime) && Shows(rs, -1, initial, s.time)
    && |rs| == |es| + (if Stamped(s) then 1 else 0)
    && (Stamped(s) ==> s.threads[s.lock].stamp == s.time && s.threads[s.lock].req.now == rs[|es|].now)
    && forall k :: 0 <= k < |es| ==> EntryTold(rs, es, k, initial)
  }

  ghost predicate EntryTold(rs: seq<Reading>, es: seq<Entry>, k: int, initial: Stamp)
    requires 0 <= k < |es| <= |rs|
  {
    rs[k].now == es[k].req.now && Shows(rs[..k + 1], -1, initial, es[k].stamp)
  }

  lemma TakeTold(s: State, t: nat, a: Action, rs: seq<Reading>, es: seq<Entry>, initial: Stamp)
    requires Inv(s) && Enabled(s, t, a) && Told(s, rs, es, initial) && s.threads[t].TakeStamp?
    ensures Told(Apply(s, t, a), rs + [Reading(s.threads[t].req.now, a.text)], es, initial)
  {
    Facts(s, t);
    var x := Reading(s.threads[t].req.now, a.text);
    ShowsSnoc(rs, -1, s.lastTime, initial, s.time, x);
    hide Inv, Latest, Shows;
    forall k | 0 <= k < |es|
      ensures EntryTold(rs + [x], es, k, initial)
    {
      assert EntryTold(rs, es, k, initial);
      assert (rs + [x])[..k + 1] == rs[..k + 1];
    }
  }

  lemma EntriesSnoc(rs: seq<Reading>, es: seq<Entry>, e: Entry, initial: Stamp)
    requires |rs| == |es| + 1 && rs[|es|].now == e.req.now && Shows(rs, -1, initial, e.stamp)
    requires forall k :: 0 <= k < |es| ==> EntryTold(rs, es, k, initial)
    ensures forall k :: 0 <= k < |es| + 1 ==> EntryTold(rs, es + [e], k, initial)
  {
    hide Shows;
    forall k | 0 <= k < |es| + 1
      ensures EntryTold(rs, es + [e], k, initial)
    {
      if k < |es| {
        assert EntryTold(rs, es, k, initial);
      } else {
        assert rs[..k + 1] == rs;
      }
    }
  }

  lemma ReserveTold(s: State, t: nat, a: Action, rs: seq<Reading>, es: seq<Entry>, initial: Stamp)
    requires Inv(s) && Enabled(s, t, a) && Told(s, rs, es, initial) && s.threads[t].Reserve?
    ensures Told(Apply(s, t, a), rs, es + ReservedBy(s, t), initial)
  {
    Facts(s, t);
    ReserveShape(s, t, a);
    hide Inv, Latest, Shows, Apply, EntryTold;
    EntriesSnoc(rs, es, ReservedBy(s, t)[0], initial);
  }

  lemma ReserveShape(s: State, t: nat, a: Action)
    requires Ready(s, Move(t, a)) && s.threads[t].Reserve?
    ensures var s' := Apply(s, t, a);
            && s'.time == s.time && s'.lastTime == s.lastTime && s'.lock == s.lock
            && |s'.threads| == |s.threads| && s'.threads[t].CountIn?
  {
    hide Line, FullSlice;
  }

  lemma OtherTold(s: State, t: nat, a: Action, rs: seq<Reading>, es: seq<Entry>, initial: Stamp)
    requires Inv(s) && Enabled(s, t, a) && Told(s, rs, es, initial)
    requires !s.threads[t].TakeStamp? && !s.threads[t].Reserve?
    ensures Told(Apply(s, t, a), rs, es, initial)
  {
    Facts(s, t);
    if 0 <= s.lock {
      Facts(s, s.lock);
    }
    StepMovesOne(s, t, a);
    OtherKeeps(s, t, a);
    hide Inv, Latest, Shows, Apply;
  }

  lemma OtherKeeps(s: State, t: nat, a: Action)
    requires Ready(s, Move(t, a)) && -1 <= s.lock < |s.threads|
    requires !s.threads[t].TakeStamp? && !s.threads[t].Reserve? && (HoldsLock(s.threads[t]) <==> s.lock == t)
    ensures var s' := Apply(s, t, a);
            && s'.time == s.time && s'.lastTime == s.lastTime && |s'.threads| == |s.threads|
            && !s'.threads[t].Reserve? && (s'.lock == s.lock || s'.lock == -1 || s'.lock == t)
            && (s'.lock != s.lock ==> s.lock == -1 || s.lock == t)
  {
    hide Line, FullSlice, Kept;
  }

  lemma StepTold(s: State, m: Move, rs: seq<Reading>, es: seq<Entry>, initial: Stamp)
    requires Inv(s) && Ready(s, m) && Told(s, rs, es, initial)
    ensures Told(Apply(s, m.thread, m.action), rs + ReadBy(s, m), es + ReservedBy(s, m.thread), initial)
  {
    hide Inv, Apply, Told;
    if s.threads[m.thread].TakeStamp? {
      TakeTold(s, m.thread, m.action, rs, es, initial);
      assert es + [] == es;
    } else if s.threads[m.thread].Reserve? {
      ReserveTold(s, m.thread, m.action, rs, es, initial);
      assert rs + [] == rs;
    } else {
      OtherTold(s, m.thread, m.action, rs, es, initial);
      assert es + [] == es && rs + [] == rs;
    }
  }

  lemma {:induction false} RunTold(s: State, moves: seq<Move>, s': State, rs: seq<Reading>, es: seq<Entry>,
                                   initial: Stamp)
    requires Inv(s) && Reaches(s, moves, s') && Told(s, rs, es, initial)
    ensures Told(s', rs + Readings(s, moves), es + Reservations(s, moves), initial)
    decreases |moves|
  {
    hide Inv, Apply, Told, ReadBy, ReservedBy;
    if moves == [] {
      assert rs + [] == rs && es + [] == es;
    } else {
      var m := moves[0];
      var s1 := Apply(s, m.thread, m.action);
      InvStep(s, m.thread, m.action);
      StepTold(s, m, rs, es, initial);
      RunTold(s1, moves[1..], s', rs + ReadBy(s, m), es + ReservedBy(s, m.thread), initial);
      Reassociate(rs, ReadBy(s, m), Readings(s1, moves[1..]));
      Reassociate(es, ReservedBy(s, m.thread), Reservations(s1, moves[1..]));
    }
  }

  lemma {:induction false} LinesOfAt(es: seq<Entry>, cap: nat)
    requires cap > FIXED_SIZE
    ensures |LinesOf(es, cap)| == |es|
    ensures forall k :: 0 <= k < |es| ==> LinesOf(es, cap)[k] == LineOf(es[k], cap)
  {
    if es != [] {
      hide LineOf;
      LinesOfAt(es[1..], cap);
    }
  }

  // The lines of a run are those of its entries, and what is told of the entries is told of them.
  ghost predicate LinesTold(rs: seq<Reading>, es: seq<Entry>, lines: seq<Bytes>, initial: Stamp) {
    && |es| == |lines| && |es| <= |rs| <= |es| + 1
    && forall k :: 0 <= k < |es| ==>
         && rs[k].now == es[k].req.now
         && |lines[k]| >= TIME_SIZE && Shows(rs[..k + 1], -1, initial, lines[k][..TIME_SIZE])
  }

  lemma ToldOfLines(s: State, rs: seq<Reading>, es: seq<Entry>, initial: Stamp)
    requires s.cap > FIXED_SIZE && Told(s, rs, es, initial) && s.lines == LinesOf(es, s.cap)
    ensures LinesTold(rs, es, s.lines, initial)
  {
    LinesOfAt(es, s.cap);
    hide Shows, Latest, LinesOf, Line;
    forall k | 0 <= k < |es|
      ensures |s.lines[k]| >= TIME_SIZE && s.lines[k][..TIME_SIZE] == es[k].stamp && EntryTold(rs, es, k, initial)
    {
      LineContent(es[k].stamp, es[k].req.level, es[k].req.msg, s.cap);
    }
  }

  // However the threads interleave, there is one reading a line, of that line's request, and the line
  // begins with the text of the last reading, its own included, that was later than every reading
  // before it; or with the stamp the logger began with, if there is none.
  lemma LinesShowTheClock(cap: nat, flushEach: bool, buf: Bytes, time: Stamp, n: nat, moves: seq<Move>, s: State)
    requires cap > FIXED_SIZE && |buf| == cap
    requires Reaches(Init(cap, flushEach, buf, time, n), moves, s)
    ensures var s0 := Init(cap, flushEach, buf, time, n);
            LinesTold(Readings(s0, moves), Reservations(s0, moves), s.lines, time)
  {
    var s0 := Init(cap, flushEach, buf, time, n);
    var rs, es := Readings(s0, moves), Reservations(s0, moves);
    InvInit(cap, flushEach, buf, time, n);
    assert Told(s0, [], [], time);
    assert s0.lines == [] && s0.cap == cap;
    hide *;
    RunTold(s0, moves, s, [], [], time);
    assert [] + rs == rs && [] + es == es;
    RunLines(s0, moves, s);
    CapKept(s0, moves, s);
    assert [] + LinesOf(es, cap) == LinesOf(es, cap);
    ToldOfLines(s, rs, es, time);
  }

  lemma {:induction false} CapKept(s: State, moves: seq<Move>, s': State)
    requires Reaches(s, moves, s')
    ensures s'.cap == s.cap
    decreases |moves|
  {
    hide Apply;
    if moves != [] {
      StepLines(s, moves[0].thread, moves[0].action);
      CapKept(Apply(s, moves[0].thread, moves[0].action), moves[1..], s');
    }
  }

  /* ------------------------------------------------------------------ */
  /*  Nothing is written out without a cause                             */
  /* ------------------------------------------------------------------ */

  predicate MakesRoom(p: Thread) {
    p.DrainForRoom? || p.EmitForRoom?
  }

  predicate InFlush(p: Thread) {
    p.WantFlush? || p.Drain? || p.Emit? || p.UnlockFlush?
  }

  predicate Asked(moves: seq<Move>, t: nat) {
    exists k :: 0 <= k < |moves| && moves[k] == Move(t, StartFlush)
  }

  // Who waits to make room has none, and who flushes was asked to, unless every call flushes.
  ghost predicate Caused(s: State, t: nat, asked: bool)
    requires s.cap > FIXED_SIZE && t < |s.threads|
  {
    && (MakesRoom(s.threads[t]) ==> !RoomFor(s, s.threads[t].req))
    && (InFlush(s.threads[t]) ==> s.flushEach || asked)
  }

  lemma StepCaused(s: State, u: nat, a: Action, t: nat, asked: bool)
    requires Inv(s) && Enabled(s, u, a) && t < |s.threads| && Caused(s, t, asked)
    ensures var s' := Apply(s, u, a);
            && s'.cap == s.cap && |s'.threads| == |s.threads| && s'.flushEach == s.flushEach
            && Caused(s', t, asked || (u == t && a == StartFlush))
  {
    Facts(s, u);
    Facts(s, t);
    hide Inv;
    StepMovesOne(s, u, a);
    if u == t {
      OwnCaused(s, t, a, asked);
    } else {
      IndexKept(s, u, a);
    }
  }

  lemma OwnCaused(s: State, t: nat, a: Action, asked: bool)
    requires Ready(s, Move(t, a)) && Caused(s, t, asked) && |Apply(s, t, a).threads| == |s.threads|
    ensures var s' := Apply(s, t, a);
            && s'.cap == s.cap && s'.flushEach == s.flushEach && Caused(s', t, asked || a == StartFlush)
  {
    IndexKept(s, t, a);
    if s.threads[t].CheckRoom? || s.threads[t].DrainForRoom? {
      WaitsWithoutRoom(s, t, a);
    } else {
      MakesNoRoom(s, t, a);
    }
    FlushesIfAsked(s, t, a);
    hide Apply, RoomFor;
  }

  lemma WaitsWithoutRoom(s: State, t: nat, a: Action)
    requires Ready(s, Move(t, a)) && |Apply(s, t, a).threads| == |s.threads|
    requires s.threads[t].CheckRoom? || (s.threads[t].DrainForRoom? && !RoomFor(s, s.threads[t].req))
    ensures var s' := Apply(s, t, a);
            s'.cap == s.cap && (MakesRoom(s'.threads[t]) ==> !RoomFor(s', s'.threads[t].req))
  {
    hide Kept;
  }

  lemma MakesNoRoom(s: State, t: nat, a: Action)
    requires Ready(s, Move(t, a)) && |Apply(s, t, a).threads| == |s.threads|
    requires !s.threads[t].CheckRoom? && !s.threads[t].DrainForRoom?
    ensures !MakesRoom(Apply(s, t, a).threads[t])
  {
    hide Line, FullSlice, Kept;
  }

  lemma FlushesIfAsked(s: State, t: nat, a: Action)
    requires Ready(s, Move(t, a)) && |Apply(s, t, a).threads| == |s.threads|
    ensures InFlush(Apply(s, t, a).threads[t]) ==> InFlush(s.threads[t]) || s.flushEach || a == StartFlush
  {
    hide Line, FullSlice, Kept;
  }

  // The cursor moves only in the locked part.
  lemma IndexKept(s: State, u: nat, a: Action)
    requires Ready(s, Move(u, a))
    ensures var s' := Apply(s, u, a);
            && s'.cap == s.cap && s'.flushEach == s.flushEach
            && (HoldsLock(s.threads[u]) || s'.index == s.index)
  {
    hide Line, FullSlice, Kept;
  }

  lemma {:induction false} RunCaused(s: State, moves: seq<Move>, s': State, t: nat, asked: bool)
    requires Inv(s) && Reaches(s, moves, s') && t < |s.threads| && Caused(s, t, asked)
    ensures Inv(s') && |s'.threads| == |s.threads| && s'.flushEach == s.flushEach
    ensures Caused(s', t, asked || Asked(moves, t))
    decreases |moves|
  {
    if moves != [] {
      var m := moves[0];
      StepCaused(s, m.thread, m.action, t, asked);
      hide Inv, Apply, Caused;
      InvStep(s, m.thread, m.action);
      RunCaused(Apply(s, m.thread, m.action), moves[1..], s', t, asked || m == Move(t, StartFlush));
      if Asked(moves[1..], t) {
        var k :| 0 <= k < |moves[1..]| && moves[1..][k] == Move(t, StartFlush);
        assert moves[k + 1] == Move(t, StartFlush);
      }
      if Asked(moves, t) && m != Move(t, StartFlush) {
        var k :| 0 <= k < |moves| && moves[k] == Move(t, StartFlush);
        assert moves[1..][k - 1] == Move(t, StartFlush);
      }
    }
  }

  lemma SinkKept(s: State, t: nat, a: Action)
    requires Ready(s, Move(t, a)) && !s.threads[t].EmitForRoom? && !s.threads[t].Emit?
    ensures Apply(s, t, a).sink == s.sink && Apply(s, t, a).emitted == s.emitted
  {
    hide Line, FullSlice, Kept;
  }

  // In no run is anything written out, but by a thread whose line the buffer has no room for, or one
  // that was asked to flush, or, where every call flushes, by one at the end of its call.
  lemma WritesForCause(cap: nat, flushEach: bool, buf: Bytes, time: Stamp, n: nat, moves: seq<Move>, s: State,
                       t: nat, a: Action)
    requires cap > FIXED_SIZE && |buf| == cap
    requires Reaches(Init(cap, flushEach, buf, time, n), moves, s)
    requires Ready(s, Move(t, a)) && (Apply(s, t, a).sink != s.sink || Apply(s, t, a).emitted != s.emitted)
    ensures if s.threads[t].EmitForRoom? then !RoomFor(s, s.threads[t].req)
            else s.threads[t].Emit? && (flushEach || Asked(moves, t))
  {
    var s0 := Init(cap, flushEach, buf, time, n);
    InvInit(cap, flushEach, buf, time, n);
    hide Reaches, Apply, Inv;
    ThreadsKept(s0, moves, s);
    RunCaused(s0, moves, s, t, false);
    if !s.threads[t].EmitForRoom? && !s.threads[t].Emit? {
      SinkKept(s, t, a);
      assert false;
    }
  }

  lemma {:induction false} ThreadsKept(s: State, moves: seq<Move>, s': State)
    requires Reaches(s, moves, s')
    ensures |s'.threads| == |s.threads|
    decreases |moves|
  {
    hide Apply;
    if moves != [] {
      StepMovesOne(s, moves[0].thread, moves[0].action);
      ThreadsKept(Apply(s, moves[0].thread, moves[0].action), moves[1..], s');
    }
  }
}
