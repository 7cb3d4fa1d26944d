/** Safety and progress of the logging protocol, over every interleaving of any number of threads. */
module LogTheorems {
  import opened LogProtocol

  /* ------------------------------------------------------------------ */
  /*  Concatenation                                                      */
  /* ------------------------------------------------------------------ */

  lemma ConcatSnoc(lines: seq<Bytes>, line: Bytes)
    ensures Concat(lines + [line]) == Concat(lines) + line
  {
    assert (lines + [line])[..|lines|] == lines;
  }

  lemma {:induction false} ConcatSplit(a: seq<Bytes>, b: seq<Bytes>)
    ensures Concat(a + b) == Concat(a) + Concat(b)
  {
    if b == [] {
      assert a + b == a;
    } else {
      var front, last := b[..|b| - 1], b[|b| - 1];
      assert a + b == (a + front) + [last];
      ConcatSplit(a, front);
      ConcatSnoc(a + front, last);
    }
  }

  /* ------------------------------------------------------------------ */
  /*  Invariant                                                          */
  /* ------------------------------------------------------------------ */

  predicate HoldsLock(p: Thread) {
    p.CheckRoom? || p.DrainForRoom? || p.EmitForRoom? || p.TakeStamp? || p.Reserve? || p.CountIn? || p.Unlock?
    || p.Drain? || p.Emit? || p.UnlockFlush?
  }

  // Between reserving a slice and leaving it.
  predicate Active(p: Thread) {
    p.CountIn? || p.Unlock? || p.Write? || p.CountOut?
  }

  // Between the two updates of `inflight`.
  predicate Counted(p: Thread) {
    p.Unlock? || p.Write? || p.CountOut?
  }

  function CountOf(threads: seq<Thread>): nat {
    if threads == [] then 0
    else CountOf(threads[..|threads| - 1]) + if Counted(threads[|threads| - 1]) then 1 else 0
  }

  // The lines reserved and not yet emitted, as they ought to stand in the buffer.
  function Pending(s: State): Bytes {
    if s.emitted <= |s.lines| then Concat(s.lines[s.emitted..]) else []
  }

  ghost predicate SliceOk(pending: Bytes, c: Slice) {
    && c.at + |c.line| <= |pending|
    && pending[c.at..c.at + |c.line|] == c.line
    && forall off :: off in c.todo ==> off < |c.line|
  }

  predicate Apart(c: Slice, d: Slice) {
    c.at + |c.line| <= d.at || d.at + |d.line| <= c.at
  }

  predicate RoomFor(s: State, r: Request)
    requires s.cap > FIXED_SIZE
  {
    s.index + FIXED_SIZE + Kept(|r.msg|, s.cap) <= s.cap
  }

  ghost predicate ThreadOk(s: State, t: nat)
    requires t < |s.threads| && s.cap > FIXED_SIZE
  {
    var p := s.threads[t];
    && (HoldsLock(p) <==> s.lock == t)
    && (Active(p) ==> SliceOk(Pending(s), p.slice))
    && (p.CountOut? ==> p.slice.todo == {})
    && (p.TakeStamp? || p.Reserve? ==> RoomFor(s, p.req))
    && (p.EmitForRoom? || p.Emit? ==> s.inflight == 0)
  }

  ghost predicate SlicesApart(threads: seq<Thread>) {
    forall t, u :: 0 <= t < |threads| && 0 <= u < |threads| && t != u && Active(threads[t]) && Active(threads[u]) ==>
                     Apart(threads[t].slice, threads[u].slice)
  }

  predicate Owes(p: Thread, k: int) {
    Active(p) && k >= p.slice.at && (k - p.slice.at) in p.slice.todo
  }

  // Some thread still has to write position k.
  ghost predicate Owed(threads: seq<Thread>, k: int) {
    exists t :: 0 <= t < |threads| && Owes(threads[t], k)
  }

  ghost predicate Faithful(s: State)
    requires s.index <= |s.buf| && s.index == |Pending(s)|
  {
    forall k :: 0 <= k < s.index ==> s.buf[k] == Pending(s)[k] || Owed(s.threads, k)
  }

  ghost predicate Inv(s: State) {
    && s.cap > FIXED_SIZE && s.index <= s.cap == |s.buf|
    && -1 <= s.lock < |s.threads|
    && s.inflight == CountOf(s.threads)
    && s.emitted <= |s.lines|
    && s.sink == Concat(s.lines[..s.emitted])
    && s.index == |Pending(s)|
    && (forall t :: 0 <= t < |s.threads| ==> ThreadOk(s, t))
    && SlicesApart(s.threads)
    && Faithful(s)
  }

  /* ------------------------------------------------------------------ */
  /*  Counting                                                           */
  /* ------------------------------------------------------------------ */

  lemma {:induction false} CountUpdate(threads: seq<Thread>, t: nat, p: Thread)
    requires t < |threads|
    ensures CountOf(threads[t := p])
            == CountOf(threads) - (if Counted(threads[t]) then 1 else 0) + (if Counted(p) then 1 else 0)
  {
    var n := |threads| - 1;
    if t == n {
      assert threads[t := p][..n] == threads[..n];
    } else {
      assert threads[t := p][..n] == threads[..n][t := p];
      CountUpdate(threads[..n], t, p);
    }
  }

  lemma {:induction false} CountZero(threads: seq<Thread>)
    ensures CountOf(threads) == 0 <==> forall t :: 0 <= t < |threads| ==> !Counted(threads[t])
  {
    if threads != [] {
      var front := threads[..|threads| - 1];
      CountZero(front);
      assert forall t :: 0 <= t < |front| ==> front[t] == threads[t];
    }
  }

  lemma {:induction false} CountIdle(threads: seq<Thread>)
    requires forall t :: 0 <= t < |threads| ==> threads[t] == Idle
    ensures CountOf(threads) == 0
  {
    CountZero(threads);
  }

  /* ------------------------------------------------------------------ */
  /*  Every step keeps the invariant                                     */
  /* ------------------------------------------------------------------ */

  lemma InvInit(cap: nat, flushEach: bool, buf: Bytes, time: Stamp, n: nat)
    requires cap > FIXED_SIZE && |buf| == cap
    ensures Inv(Init(cap, flushEach, buf, time, n))
  {
    var s := Init(cap, flushEach, buf, time, n);
    CountIdle(s.threads);
    assert s.lines[..0] == [] && s.lines[0..] == [];
  }

  // Steps that move only a thread without a slice, and perhaps the lock.
  lemma InvMove(s: State, t: nat, p: Thread, lock: int)
    requires Inv(s) && t < |s.threads| && !Active(s.threads[t]) && !Active(p)
    requires lock == (if HoldsLock(p) then t else if HoldsLock(s.threads[t]) then -1 else s.lock)
    requires HoldsLock(p) && !HoldsLock(s.threads[t]) ==> s.lock == -1
    requires p.TakeStamp? || p.Reserve? ==> RoomFor(s, p.req)
    requires p.EmitForRoom? || p.Emit? ==> s.inflight == 0
    ensures Inv(SetThread(s.(lock := lock), t, p))
  {
    var s' := SetThread(s.(lock := lock), t, p);
    CountUpdate(s.threads, t, p);
    forall u | 0 <= u < |s'.threads|
      ensures ThreadOk(s', u)
    {
      assert ThreadOk(s, u);
      assert ThreadOk(s, t);
    }
    forall k | 0 <= k < s.index
      ensures s.buf[k] == Pending(s)[k] || Owed(s'.threads, k)
    {
      if Owed(s.threads, k) {
        OwedElsewhere(s.threads, t, p, k);
      }
    }
  }

  lemma OwedElsewhere(threads: seq<Thread>, t: nat, p: Thread, k: int)
    requires t < |threads| && Owed(threads, k) && (Owes(threads[t], k) ==> Owes(p, k))
    ensures Owed(threads[t := p], k)
  {
    var u :| 0 <= u < |threads| && Owes(threads[u], k);
    assert threads[t := p][u] == if u == t then p else threads[u];
  }

  // Steps along which a thread keeps its slice: being counted, unlocking, finishing.
  lemma InvKeep(s: State, t: nat, p: Thread, lock: int)
    requires Inv(s) && t < |s.threads| && Active(s.threads[t]) && Active(p) && p.slice == s.threads[t].slice
    requires lock == (if HoldsLock(p) then t else if HoldsLock(s.threads[t]) then -1 else s.lock)
    requires HoldsLock(p) ==> HoldsLock(s.threads[t])
    requires p.CountOut? ==> p.slice.todo == {}
    requires Counted(s.threads[t]) ==> Counted(p)
    requires Counted(p) && !Counted(s.threads[t]) ==> s.lock == t
    ensures Inv(SetThread(s.(lock := lock, inflight := CountOf(s.threads[t := p])), t, p))
  {
    var s' := SetThread(s.(lock := lock, inflight := CountOf(s.threads[t := p])), t, p);
    CountUpdate(s.threads, t, p);
    forall u | 0 <= u < |s'.threads|
      ensures ThreadOk(s', u)
    {
      assert ThreadOk(s, u);
      assert ThreadOk(s, t);
    }
    forall k | 0 <= k < s.index
      ensures s.buf[k] == Pending(s)[k] || Owed(s'.threads, k)
    {
      if Owed(s.threads, k) {
        OwedElsewhere(s.threads, t, p, k);
      }
    }
  }

  function LetGo(s: State, t: nat): State
    requires t < |s.threads| && s.inflight > 0
  {
    SetThread(s.(inflight := s.inflight - 1), t, CheckFlushEach)
  }

  lemma CountOutThreads(s: State, t: nat)
    requires Inv(s) && t < |s.threads| && s.threads[t].CountOut? && s.inflight > 0
    ensures var s' := LetGo(s, t);
            (forall u :: 0 <= u < |s'.threads| ==> ThreadOk(s', u)) && SlicesApart(s'.threads)
  {
    hide SliceOk, Pending, CountOf, Faithful, Apart;
    var s' := LetGo(s, t);
    assert Pending(s') == Pending(s) by {
      SamePending(s, s');
    }
    forall u | 0 <= u < |s'.threads|
      ensures ThreadOk(s', u)
    {
      assert ThreadOk(s, u);
      assert ThreadOk(s, t);
    }
  }

  lemma SamePending(s: State, s': State)
    requires s'.lines == s.lines && s'.emitted == s.emitted
    ensures Pending(s') == Pending(s)
  {
  }

  lemma CountOutFaithful(s: State, t: nat)
    requires Inv(s) && t < |s.threads| && s.threads[t].CountOut? && s.inflight > 0
    ensures |Pending(LetGo(s, t))| == s.index && Faithful(LetGo(s, t))
  {
    assert ThreadOk(s, t);
    hide SliceOk, RoomFor, CountOf, SlicesApart, ThreadOk;
    var s' := LetGo(s, t);
    SamePending(s, s');
    hide Pending;
    forall k | 0 <= k < s.index
      ensures s.buf[k] == Pending(s)[k] || Owed(s'.threads, k)
    {
      if Owed(s.threads, k) {
        OwedElsewhere(s.threads, t, CheckFlushEach, k);
      }
    }
  }

  // Giving a slice up once nothing of it is left to write.
  lemma InvCountOut(s: State, t: nat)
    requires Inv(s) && t < |s.threads| && s.threads[t].CountOut?
    ensures s.inflight > 0 && Inv(LetGo(s, t))
  {
    hide ThreadOk, SlicesApart, Faithful, CountOf, Concat, Pending;
    CountUpdate(s.threads, t, CheckFlushEach);
    CountOutThreads(s, t);
    CountOutFaithful(s, t);
  }

  // The only thread with a slice outside `inflight` is one that holds the lock.
  lemma NoneActive(s: State, t: nat)
    requires Inv(s) && t < |s.threads| && s.lock == t && !Active(s.threads[t]) && s.inflight == 0
    ensures forall u :: 0 <= u < |s.threads| ==> !Active(s.threads[u])
  {
    CountZero(s.threads);
    forall u | 0 <= u < |s.threads|
      ensures !Active(s.threads[u])
    {
      assert ThreadOk(s, u);
    }
  }

  // With no writer in flight the buffer holds exactly the pending lines.
  lemma DrainedIsPending(s: State)
    requires Inv(s) && forall u :: 0 <= u < |s.threads| ==> !Active(s.threads[u])
    ensures s.buf[..s.index] == Pending(s)
  {
    forall k | 0 <= k < s.index
      ensures s.buf[k] == Pending(s)[k]
    {
      assert !Owed(s.threads, k);
    }
  }

  // Emission hands the sink whole lines only.
  lemma InvEmit(s: State, t: nat, p: Thread)
    requires Inv(s) && t < |s.threads| && s.lock == t && s.inflight == 0
    requires !Active(s.threads[t]) && (p == UnlockFlush || p.TakeStamp?)
    ensures Inv(SetThread(EmitBuffer(s), t, p))
  {
    var s' := SetThread(EmitBuffer(s), t, p);
    NoneActive(s, t);
    DrainedIsPending(s);
    assert s.lines == s.lines[..s.emitted] + s.lines[s.emitted..];
    ConcatSplit(s.lines[..s.emitted], s.lines[s.emitted..]);
    assert s.lines[..|s.lines|] == s.lines && s.lines[|s.lines|..] == [];
    CountUpdate(s.threads, t, p);
    forall u | 0 <= u < |s'.threads|
      ensures ThreadOk(s', u)
    {
      assert ThreadOk(s, u);
      assert ThreadOk(s, t);
    }
  }

  function Reserved(s: State, t: nat, line: Bytes): State
    requires t < |s.threads|
  {
    SetThread(s.(index := s.index + |line|, lines := s.lines + [line]), t, CountIn(FullSlice(s.index, line)))
  }

  lemma PendingReserved(s: State, t: nat, line: Bytes)
    requires t < |s.threads| && s.emitted <= |s.lines|
    ensures Pending(Reserved(s, t, line)) == Pending(s) + line
  {
    assert (s.lines + [line])[s.emitted..] == s.lines[s.emitted..] + [line];
    ConcatSnoc(s.lines[s.emitted..], line);
  }

  lemma SliceGrows(pending: Bytes, line: Bytes, c: Slice)
    requires SliceOk(pending, c)
    ensures SliceOk(pending + line, c)
  {
    assert (pending + line)[c.at..c.at + |c.line|] == pending[c.at..c.at + |c.line|];
  }

  lemma SliceNew(pending: Bytes, line: Bytes)
    ensures SliceOk(pending + line, FullSlice(|pending|, line))
  {
  }

  lemma ReserveThreads(s: State, t: nat, line: Bytes)
    requires Inv(s) && t < |s.threads| && s.threads[t].Reserve? && s.index + |line| <= s.cap
    ensures var s' := Reserved(s, t, line);
            (forall u :: 0 <= u < |s'.threads| ==> ThreadOk(s', u)) && SlicesApart(s'.threads)
  {
    var p := CountIn(FullSlice(s.index, line));
    var s' := Reserved(s, t, line);
    PendingReserved(s, t, line);
    SliceNew(Pending(s), line);
    hide Faithful, CountOf, Concat, Pending, FullSlice;
    forall u | 0 <= u < |s'.threads|
      ensures ThreadOk(s', u) && (u != t && Active(s.threads[u]) ==> Apart(s.threads[u].slice, p.slice))
    {
      assert ThreadOk(s, u) && ThreadOk(s, t);
      if u != t && Active(s.threads[u]) {
        SliceGrows(Pending(s), line, s.threads[u].slice);
      }
    }
  }

  lemma ReserveFaithful(s: State, t: nat, line: Bytes)
    requires Inv(s) && t < |s.threads| && s.threads[t].Reserve? && s.index + |line| <= s.cap
    ensures var s' := Reserved(s, t, line); s'.index == |Pending(s')| && Faithful(s')
  {
    var p := CountIn(FullSlice(s.index, line));
    var s' := Reserved(s, t, line);
    PendingReserved(s, t, line);
    forall k | 0 <= k < s'.index
      ensures s.buf[k] == Pending(s')[k] || Owed(s'.threads, k)
    {
      if k >= s.index {
        assert Owes(s'.threads[t], k);
      } else if Owed(s.threads, k) {
        OwedElsewhere(s.threads, t, p, k);
      }
    }
  }

  // Reserving: the new slice lies past every other, and the line joins the pending text whole.
  lemma InvReserve(s: State, t: nat, line: Bytes)
    requires Inv(s) && t < |s.threads| && s.threads[t].Reserve? && s.index + |line| <= s.cap
    ensures Inv(Reserved(s, t, line))
  {
    assert (s.lines + [line])[..s.emitted] == s.lines[..s.emitted];
    CountUpdate(s.threads, t, CountIn(FullSlice(s.index, line)));
    ReserveThreads(s, t, line);
    ReserveFaithful(s, t, line);
  }

  function Wrote(s: State, t: nat, off: nat): State
    requires t < |s.threads| && s.threads[t].Write?
    requires var c := s.threads[t].slice; off < |c.line| && c.at + off < |s.buf|
  {
    var c := s.threads[t].slice;
    SetThread(s.(buf := s.buf[c.at + off := c.line[off]]), t, Write(c.(todo := c.todo - {off})))
  }

  lemma OffsetInSlice(s: State, t: nat, off: nat)
    requires Inv(s) && t < |s.threads| && s.threads[t].Write? && off in s.threads[t].slice.todo
    ensures var c := s.threads[t].slice;
            off < |c.line| && c.at + off < s.index <= |s.buf| && Pending(s)[c.at + off] == c.line[off]
  {
    hide Faithful, SlicesApart, Concat, CountOf;
    var c := s.threads[t].slice;
    assert ThreadOk(s, t);
    assert Pending(s)[c.at + off] == Pending(s)[c.at..c.at + |c.line|][off];
  }

  lemma WriteThreads(s: State, t: nat, off: nat)
    requires Inv(s) && t < |s.threads| && s.threads[t].Write? && off in s.threads[t].slice.todo
    requires var c := s.threads[t].slice; off < |c.line| && c.at + off < |s.buf|
    ensures var s' := Wrote(s, t, off);
            (forall u :: 0 <= u < |s'.threads| ==> ThreadOk(s', u)) && SlicesApart(s'.threads)
  {
    hide Faithful, Concat, CountOf;
    var s' := Wrote(s, t, off);
    forall u | 0 <= u < |s'.threads|
      ensures ThreadOk(s', u)
    {
      assert ThreadOk(s, u);
    }
  }

  lemma WriteFaithful(s: State, t: nat, off: nat)
    requires Inv(s) && t < |s.threads| && s.threads[t].Write? && off in s.threads[t].slice.todo
    requires var c := s.threads[t].slice;
             off < |c.line| && c.at + off < s.index && Pending(s)[c.at + off] == c.line[off]
    ensures Faithful(Wrote(s, t, off))
  {
    hide SlicesApart, Concat, CountOf, ThreadOk;
    var c := s.threads[t].slice;
    var s' := Wrote(s, t, off);
    assert Pending(s') == Pending(s);
    forall k | 0 <= k < s'.index
      ensures s'.buf[k] == Pending(s')[k] || Owed(s'.threads, k)
    {
      if k != c.at + off && Owed(s.threads, k) {
        OwedElsewhere(s.threads, t, s'.threads[t], k);
      }
    }
  }

  // Writing a byte of one's own slice settles that position and disturbs no other.
  lemma InvWrite(s: State, t: nat, off: nat)
    requires Inv(s) && t < |s.threads| && s.threads[t].Write? && off in s.threads[t].slice.todo
    ensures var c := s.threads[t].slice;
            off < |c.line| && c.at + off < s.index <= |s.buf| && Inv(Wrote(s, t, off))
  {
    hide ThreadOk, SlicesApart, Faithful, CountOf, Concat;
    OffsetInSlice(s, t, off);
    CountUpdate(s.threads, t, Wrote(s, t, off).threads[t]);
    WriteThreads(s, t, off);
    WriteFaithful(s, t, off);
  }

  lemma InvTime(s: State, lastTime: int, time: Stamp)
    requires Inv(s)
    ensures Inv(s.(lastTime := lastTime, time := time))
  {
    var s' := s.(lastTime := lastTime, time := time);
    forall u | 0 <= u < |s.threads|
      ensures ThreadOk(s', u)
    {
      assert ThreadOk(s, u);
    }
  }

  lemma Facts(s: State, t: nat)
    requires Inv(s) && t < |s.threads|
    ensures s.cap > FIXED_SIZE && s.index <= s.cap == |s.buf|
    ensures -1 <= s.lock < |s.threads| && s.inflight == CountOf(s.threads)
    ensures HoldsLock(s.threads[t]) <==> s.lock == t
    ensures s.threads[t].TakeStamp? || s.threads[t].Reserve? ==> RoomFor(s, s.threads[t].req)
    ensures s.threads[t].EmitForRoom? || s.threads[t].Emit? ==> s.inflight == 0
    ensures s.threads[t].CountOut? ==> s.threads[t].slice.todo == {}
  {
    hide SliceOk, SlicesApart, Faithful, Pending, CountOf, RoomFor;
    assert ThreadOk(s, t);
  }

  // The steps up to the reservation, the steps of the writer, and the steps of the flush.
  lemma InvPrepare(s: State, t: nat, a: Action)
    requires Inv(s) && Enabled(s, t, a)
    requires var p := s.threads[t];
             p.Idle? || p.WantAppend? || p.CheckRoom? || p.DrainForRoom? || p.EmitForRoom? || p.TakeStamp? || p.Reserve?
    ensures Inv(Apply(s, t, a))
  {
    hide Inv, CountOf, Concat, Line;
    Facts(s, t);
    match s.threads[t]
    case Idle => InvMove(s, t, if a.StartAppend? then WantAppend(a.req) else WantFlush, s.lock);
    case WantAppend(r) => InvMove(s, t, CheckRoom(r), t);
    case CheckRoom(r) =>
      InvMove(s, t, if s.cap - s.index < FIXED_SIZE + Kept(|r.msg|, s.cap) then DrainForRoom(r) else TakeStamp(r), t);
    case DrainForRoom(r) => if s.inflight == 0 { InvMove(s, t, EmitForRoom(r), t); }
    case EmitForRoom(r) => InvEmit(s, t, TakeStamp(r));
    case TakeStamp(r) =>
      if r.now > s.lastTime {
        InvMove(s, t, Reserve(r, a.text), t);
        InvTime(SetThread(s, t, Reserve(r, a.text)), r.now, a.text);
      } else {
        InvMove(s, t, Reserve(r, s.time), t);
      }
    case Reserve(r, stamp) => InvReserve(s, t, Line(stamp, r.level, r.msg, s.cap));
  }

  lemma InvFill(s: State, t: nat, a: Action)
    requires Inv(s) && Enabled(s, t, a) && Active(s.threads[t])
    ensures Inv(Apply(s, t, a))
  {
    hide Inv, CountOf, Concat, Line;
    Facts(s, t);
    match s.threads[t]
    case CountIn(slice) =>
      CountUpdate(s.threads, t, Unlock(slice));
      InvKeep(s, t, Unlock(slice), t);
    case Unlock(slice) =>
      CountUpdate(s.threads, t, Write(slice));
      InvKeep(s, t, Write(slice), -1);
    case Write(slice) =>
      if slice.todo == {} {
        CountUpdate(s.threads, t, CountOut(slice));
        InvKeep(s, t, CountOut(slice), s.lock);
      } else {
        InvWrite(s, t, a.off);
      }
    case CountOut(slice) => InvCountOut(s, t);
  }

  lemma InvFlush(s: State, t: nat, a: Action)
    requires Inv(s) && Enabled(s, t, a)
    requires var p := s.threads[t]; p.CheckFlushEach? || p.WantFlush? || p.Drain? || p.Emit? || p.UnlockFlush?
    ensures Inv(Apply(s, t, a))
  {
    hide Inv, CountOf, Concat, Line;
    Facts(s, t);
    match s.threads[t]
    case CheckFlushEach => InvMove(s, t, if s.flushEach then WantFlush else Idle, s.lock);
    case WantFlush => InvMove(s, t, Drain, t);
    case Drain => if s.inflight == 0 { InvMove(s, t, Emit, t); }
    case Emit => InvEmit(s, t, UnlockFlush);
    case UnlockFlush => InvMove(s, t, Idle, -1);
  }

  lemma InvStep(s: State, t: nat, a: Action)
    requires Inv(s) && Enabled(s, t, a)
    ensures Inv(Apply(s, t, a))
  {
    hide Inv, Apply;
    var p := s.threads[t];
    if Active(p) {
      InvFill(s, t, a);
    } else if p.CheckFlushEach? || p.WantFlush? || p.Drain? || p.Emit? || p.UnlockFlush? {
      InvFlush(s, t, a);
    } else {
      InvPrepare(s, t, a);
    }
  }

  /* ------------------------------------------------------------------ */
  /*  Safety over every run                                              */
  /* ------------------------------------------------------------------ */

  datatype Move = Move(thread: nat, action: Action)

  ghost predicate Reaches(s: State, moves: seq<Move>, s': State)
    decreases |moves|
  {
    if moves == [] then s == s'
    else
      var m := moves[0];
      && s.cap > FIXED_SIZE && s.index <= s.cap == |s.buf|
      && Enabled(s, m.thread, m.action)
      && Reaches(Apply(s, m.thread, m.action), moves[1..], s')
  }

  lemma {:induction false} InvRun(s: State, moves: seq<Move>, s': State)
    requires Inv(s) && Reaches(s, moves, s')
    ensures Inv(s')
    decreases |moves|
  {
    hide Apply;
    if moves != [] {
      var m := moves[0];
      InvStep(s, m.thread, m.action);
      InvRun(Apply(s, m.thread, m.action), moves[1..], s');
    }
  }

  lemma InvMeans(s: State)
    requires Inv(s)
    ensures s.emitted <= |s.lines| && s.sink == Concat(s.lines[..s.emitted])
    ensures (forall t :: 0 <= t < |s.threads| ==> !Active(s.threads[t])) ==>
              s.index <= |s.buf| && s.sink + s.buf[..s.index] == Concat(s.lines)
  {
    hide ThreadOk, SlicesApart, Faithful, CountOf, Concat;
    if forall t :: 0 <= t < |s.threads| ==> !Active(s.threads[t]) {
      DrainedIsPending(s);
      assert s.lines == s.lines[..s.emitted] + s.lines[s.emitted..];
      ConcatSplit(s.lines[..s.emitted], s.lines[s.emitted..]);
    }
  }

  // However the threads interleave, the sink has received exactly the first `emitted` lines,
  // whole and in reservation order, and once no writer is left the buffer holds the rest.
  lemma NothingTornOrLost(cap: nat, flushEach: bool, buf: Bytes, time: Stamp, n: nat, moves: seq<Move>, s: State)
    requires cap > FIXED_SIZE && |buf| == cap
    requires Reaches(Init(cap, flushEach, buf, time, n), moves, s)
    ensures s.emitted <= |s.lines| && s.sink == Concat(s.lines[..s.emitted])
    ensures (forall t :: 0 <= t < |s.threads| ==> !Active(s.threads[t])) ==>
              s.index <= |s.buf| && s.sink + s.buf[..s.index] == Concat(s.lines)
  {
    hide Reaches, Inv, Concat, Init;
    InvInit(cap, flushEach, buf, time, n);
    InvRun(Init(cap, flushEach, buf, time, n), moves, s);
    InvMeans(s);
  }

  /* ------------------------------------------------------------------ */
  /*  Which lines a run logs, and in what order                          */
  /* ------------------------------------------------------------------ */

  datatype Entry = Entry(thread: nat, req: Request, stamp: Stamp)

  // The entry a step reserves room for, if it is a reservation.
  function ReservedBy(s: State, t: nat): seq<Entry>
    requires t < |s.threads|
  {
    if s.threads[t].Reserve? then [Entry(t, s.threads[t].req, s.threads[t].stamp)] else []
  }

  predicate Ready(s: State, m: Move) {
    s.cap > FIXED_SIZE && s.index <= s.cap == |s.buf| && Enabled(s, m.thread, m.action)
  }

  function Reservations(s: State, moves: seq<Move>): seq<Entry>
    decreases |moves|
  {
    if moves == [] || !Ready(s, moves[0]) then []
    else
      ReservedBy(s, moves[0].thread) + Reservations(Apply(s, moves[0].thread, moves[0].action), moves[1..])
  }

  function LineOf(e: Entry, cap: nat): Bytes
    requires cap > FIXED_SIZE
  {
    Line(e.stamp, e.req.level, e.req.msg, cap)
  }

  function LinesOf(entries: seq<Entry>, cap: nat): seq<Bytes>
    requires cap > FIXED_SIZE
  {
    if entries == [] then [] else [LineOf(entries[0], cap)] + LinesOf(entries[1..], cap)
  }

  // The requests of one thread, as it issued them and as they were logged.
  function AskedBy(moves: seq<Move>, t: nat): seq<Request> {
    if moves == [] then []
    else
      (if moves[0].thread == t && moves[0].action.StartAppend? then [moves[0].action.req] else [])
      + AskedBy(moves[1..], t)
  }

  function LoggedFor(entries: seq<Entry>, t: nat): seq<Request> {
    if entries == [] then []
    else (if entries[0].thread == t then [entries[0].req] else []) + LoggedFor(entries[1..], t)
  }

  // The request a thread has taken on and not yet reserved room for.
  function InHand(p: Thread): seq<Request> {
    if p.WantAppend? || p.CheckRoom? || p.DrainForRoom? || p.EmitForRoom? || p.TakeStamp? || p.Reserve?
    then [p.req] else []
  }

  lemma StepLines(s: State, t: nat, a: Action)
    requires Ready(s, Move(t, a))
    ensures Apply(s, t, a).cap == s.cap
    ensures Apply(s, t, a).lines == s.lines + LinesOf(ReservedBy(s, t), s.cap)
  {
    hide Line;
    assert s.lines + [] == s.lines;
  }

  // The lines are those of the reservations, one each, in the order they were made.
  lemma {:induction false} RunLines(s: State, moves: seq<Move>, s': State)
    requires s.cap > FIXED_SIZE && Reaches(s, moves, s')
    ensures s'.lines == s.lines + LinesOf(Reservations(s, moves), s.cap)
    decreases |moves|
  {
    hide Apply, LinesOf, ReservedBy;
    if moves == [] {
      LinesOfNone(s.cap);
      assert s.lines + [] == s.lines;
    } else {
      var m := moves[0];
      var s1 := Apply(s, m.thread, m.action);
      StepLines(s, m.thread, m.action);
      RunLines(s1, moves[1..], s');
      LinesOfAppend(ReservedBy(s, m.thread), Reservations(s1, moves[1..]), s.cap);
    }
  }

  lemma LinesOfNone(cap: nat)
    requires cap > FIXED_SIZE
    ensures LinesOf([], cap) == []
  {
  }

  lemma {:induction false} LinesOfAppend(a: seq<Entry>, b: seq<Entry>, cap: nat)
    requires cap > FIXED_SIZE
    ensures LinesOf(a + b, cap) == LinesOf(a, cap) + LinesOf(b, cap)
  {
    hide LinesOf, Line;
    if a == [] {
      assert a + b == b;
      LinesOfNone(cap);
      assert [] + LinesOf(b, cap) == LinesOf(b, cap);
    } else {
      assert (a + b)[1..] == a[1..] + b;
      LinesOfAppend(a[1..], b, cap);
      LinesOfCons(a, cap);
      LinesOfCons(a + b, cap);
      Reassociate([LineOf(a[0], cap)], LinesOf(a[1..], cap), LinesOf(b, cap));
    }
  }

  lemma Reassociate<T>(a: seq<T>, b: seq<T>, c: seq<T>)
    ensures a + (b + c) == (a + b) + c
  {
  }

  lemma LinesOfCons(entries: seq<Entry>, cap: nat)
    requires cap > FIXED_SIZE && entries != []
    ensures LinesOf(entries, cap) == [LineOf(entries[0], cap)] + LinesOf(entries[1..], cap)
  {
    hide Line;
  }

  // A step by u moves only u.
  lemma StepMovesOne(s: State, u: nat, a: Action)
    requires Ready(s, Move(u, a))
    ensures var s' := Apply(s, u, a);
            |s'.threads| == |s.threads| && s'.threads == s.threads[u := s'.threads[u]]
  {
    var p := s.threads[u];
    if Active(p) || p.CheckFlushEach? || p.WantFlush? || p.Drain? || p.Emit? || p.UnlockFlush? {
      LaterMovesOne(s, u, a);
    } else {
      EarlierMovesOne(s, u, a);
    }
    hide Apply;
  }

  lemma LaterMovesOne(s: State, u: nat, a: Action)
    requires Ready(s, Move(u, a))
    requires var p := s.threads[u];
             Active(p) || p.CheckFlushEach? || p.WantFlush? || p.Drain? || p.Emit? || p.UnlockFlush?
    ensures var s' := Apply(s, u, a);
            |s'.threads| == |s.threads| && s'.threads == s.threads[u := s'.threads[u]]
  {
    hide Line, FullSlice, Kept;
  }

  lemma EarlierMovesOne(s: State, u: nat, a: Action)
    requires Ready(s, Move(u, a))
    requires var p := s.threads[u];
             !(Active(p) || p.CheckFlushEach? || p.WantFlush? || p.Drain? || p.Emit? || p.UnlockFlush?)
    ensures var s' := Apply(s, u, a);
            |s'.threads| == |s.threads| && s'.threads == s.threads[u := s'.threads[u]]
  {
    hide Line, FullSlice, Kept;
  }

  lemma StepHands(s: State, u: nat, a: Action, t: nat)
    requires Ready(s, Move(u, a)) && t < |s.threads|
    ensures |Apply(s, u, a).threads| == |s.threads|
    ensures InHand(s.threads[t]) + (if u == t && a.StartAppend? then [a.req] else [])
            == (if u == t && s.threads[u].Reserve? then [s.threads[u].req] else []) + InHand(Apply(s, u, a).threads[t])
  {
    StepMovesOne(s, u, a);
    if u == t {
      StepHandsOwn(s, t, a);
    } else {
      hide Apply, InHand;
    }
  }

  lemma StepHandsOwn(s: State, t: nat, a: Action)
    requires Ready(s, Move(t, a)) && |Apply(s, t, a).threads| == |s.threads|
    ensures InHand(s.threads[t]) + (if a.StartAppend? then [a.req] else [])
            == (if s.threads[t].Reserve? then [s.threads[t].req] else []) + InHand(Apply(s, t, a).threads[t])
  {
    hide Line, FullSlice, Kept;
  }

  lemma Shift<T>(hand: seq<T>, asked: seq<T>, asks: seq<T>, logged: seq<T>, hand1: seq<T>, logs: seq<T>, hand2: seq<T>)
    requires hand + asked == logged + hand1 && hand1 + asks == logs + hand2
    ensures hand + (asked + asks) == (logged + logs) + hand2
  {
    calc {
      hand + (asked + asks);
      (hand + asked) + asks;
      (logged + hand1) + asks;
      logged + (hand1 + asks);
      logged + (logs + hand2);
      (logged + logs) + hand2;
    }
  }

  // Every request a thread issues is logged exactly once, in the order it issued them, save
  // the one it is still working on.
  lemma {:induction false} LoggedAsAsked(s: State, moves: seq<Move>, s': State, t: nat)
    requires Reaches(s, moves, s') && t < |s.threads|
    ensures |s'.threads| == |s.threads|
    ensures InHand(s.threads[t]) + AskedBy(moves, t)
            == LoggedFor(Reservations(s, moves), t) + InHand(s'.threads[t])
    decreases |moves|
  {
    hide Apply, InHand;
    if moves == [] {
      assert InHand(s.threads[t]) + [] == InHand(s.threads[t]);
    } else {
      var m := moves[0];
      var s1 := Apply(s, m.thread, m.action);
      var asked := if m.thread == t && m.action.StartAppend? then [m.action.req] else [];
      var logged := if m.thread == t && s.threads[m.thread].Reserve? then [s.threads[m.thread].req] else [];
      StepHands(s, m.thread, m.action, t);
      LoggedAsAsked(s1, moves[1..], s', t);
      LoggedForAppend(ReservedBy(s, m.thread), Reservations(s1, moves[1..]), t);
      assert LoggedFor(ReservedBy(s, m.thread), t) == logged;
      Shift(InHand(s.threads[t]), asked, AskedBy(moves[1..], t), logged, InHand(s1.threads[t]),
            LoggedFor(Reservations(s1, moves[1..]), t), InHand(s'.threads[t]));
    }
  }

  lemma {:induction false} LoggedForAppend(a: seq<Entry>, b: seq<Entry>, t: nat)
    ensures LoggedFor(a + b, t) == LoggedFor(a, t) + LoggedFor(b, t)
  {
    if a == [] {
      assert a + b == b;
    } else {
      var head := if a[0].thread == t then [a[0].req] else [];
      assert (a + b)[1..] == a[1..] + b;
      LoggedForAppend(a[1..], b, t);
      assert LoggedFor(a + b, t) == head + (LoggedFor(a[1..], t) + LoggedFor(b, t));
    }
  }

  predicate Within(c: Slice, k: int) {
    c.at <= k < c.at + |c.line|
  }

  // Every byte a writer stores lies inside the buffer and inside its own slice only.
  lemma StoresInBounds(s: State, t: nat, off: nat)
    requires Inv(s) && Enabled(s, t, WriteByte(off)) && s.threads[t].Write?
    ensures var c := s.threads[t].slice;
            && off < |c.line| && c.at + off < s.index <= s.cap == |s.buf|
            && Apply(s, t, WriteByte(off)).buf == s.buf[c.at + off := c.line[off]]
            && (forall u :: 0 <= u < |s.threads| && u != t && Active(s.threads[u]) ==>
                              !Within(s.threads[u].slice, c.at + off))
  {
    hide ThreadOk, Faithful, CountOf, Concat, Pending;
    var c := s.threads[t].slice;
    InvWrite(s, t, off);
    forall u | 0 <= u < |s.threads| && u != t && Active(s.threads[u])
      ensures !Within(s.threads[u].slice, c.at + off)
    {
      assert Apart(s.threads[t].slice, s.threads[u].slice);
    }
  }
}
