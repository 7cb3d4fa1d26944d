/** The logger always gets on: waiting for the writers in flight ends, and no state is stuck. */
module LogProgress {
  import opened LogProtocol
  import opened LogTheorems

  // Waiting, with the lock held, for `inflight` to reach zero.
  predicate Draining(p: Thread) {
    p.Drain? || p.DrainForRoom?
  }

  // Steps a writer still has to take before it leaves `inflight`.
  function Weight(p: Thread): nat {
    match p
    case Unlock(slice) => |slice.todo| + 3
    case Write(slice) => |slice.todo| + 2
    case CountOut(_) => 1
    case _ => 0
  }

  function Work(threads: seq<Thread>): nat {
    if threads == [] then 0 else Work(threads[..|threads| - 1]) + Weight(threads[|threads| - 1])
  }

  lemma {:induction false} WorkUpdate(threads: seq<Thread>, t: nat, p: Thread)
    requires t < |threads|
    ensures Work(threads[t := p]) == Work(threads) - Weight(threads[t]) + Weight(p)
  {
    var n := |threads| - 1;
    if t == n {
      assert threads[t := p][..n] == threads[..n];
    } else {
      assert threads[t := p][..n] == threads[..n][t := p];
      WorkUpdate(threads[..n], t, p);
    }
  }

  lemma {:induction false} WorkCounts(threads: seq<Thread>)
    ensures Work(threads) == 0 <==> CountOf(threads) == 0
  {
    if threads != [] {
      WorkCounts(threads[..|threads| - 1]);
    }
  }

  lemma {:induction false} SomeCounted(threads: seq<Thread>)
    requires CountOf(threads) > 0
    ensures exists u :: 0 <= u < |threads| && Counted(threads[u])
  {
    CountZero(threads);
  }

  lemma StepWeighs(s: State, u: nat, a: Action)
    requires Ready(s, Move(u, a)) && |Apply(s, u, a).threads| == |s.threads|
    requires s.threads[u].CountOut? || s.threads[u].Write? || !HoldsLock(s.threads[u])
    ensures Weight(Apply(s, u, a).threads[u]) == if Counted(s.threads[u]) then Weight(s.threads[u]) - 1 else 0
  {
    hide Line, FullSlice, Kept, EmitBuffer;
  }

  // While t waits, the others' steps leave it waiting with the lock, and each step by a
  // writer takes exactly one off the work that remains.
  lemma DrainStep(s: State, t: nat, u: nat, a: Action)
    requires Inv(s) && t < |s.threads| && Draining(s.threads[t]) && u != t && Enabled(s, u, a)
    ensures var s' := Apply(s, u, a);
            && |s'.threads| == |s.threads| && s'.threads[t] == s.threads[t]
            && s'.lock == t
            && Work(s'.threads) == Work(s.threads) - if Counted(s.threads[u]) then 1 else 0
  {
    Facts(s, t);
    Facts(s, u);
    hide Inv;
    StepMovesOne(s, u, a);
    StepWeighs(s, u, a);
    WorkUpdate(s.threads, u, Apply(s, u, a).threads[u]);
    StepLock(s, u, a);
  }

  lemma StepLock(s: State, u: nat, a: Action)
    requires Ready(s, Move(u, a)) && s.lock >= 0 && !HoldsLock(s.threads[u])
    ensures Apply(s, u, a).lock == s.lock
  {
    hide Line, FullSlice, Kept, EmitBuffer;
  }

  // Waiting is never stuck: somebody it waits for has a step that needs no lock, and when
  // there is nobody left the wait is over.
  lemma DrainNeverStuck(s: State, t: nat)
    requires Inv(s) && t < |s.threads| && Draining(s.threads[t])
    ensures s.inflight > 0 ==> exists u: nat, a :: u != t && Enabled(s, u, a) && Counted(s.threads[u])
    ensures s.inflight == 0 <==> Work(s.threads) == 0
    ensures s.inflight == 0 ==> forall a :: Enabled(s, t, a) ==> !Draining(Apply(s, t, a).threads[t])
  {
    Facts(s, t);
    WorkCounts(s.threads);
    if s.inflight > 0 {
      SomeCounted(s.threads);
      var v: int :| 0 <= v < |s.threads| && Counted(s.threads[v]);
      var u: nat := v;
      Facts(s, u);
      hide Inv;
      var a := WriterAction(s.threads[u]);
      assert Enabled(s, u, a);
    }
  }

  // What a writer does next: one of the bytes it still owes, or leave.
  ghost function WriterAction(p: Thread): (a: Action)
    ensures p.Write? && p.slice.todo != {} ==> a.WriteByte? && a.off in p.slice.todo
    ensures !(p.Write? && p.slice.todo != {}) ==> a.Go?
  {
    if p.Write? && p.slice.todo != {} then
      var off :| off in p.slice.todo;
      WriteByte(off)
    else
      Go(seq(TIME_SIZE, _ => 0))
  }

  function WriterSteps(s: State, moves: seq<Move>): nat
    decreases |moves|
  {
    if moves == [] || !Ready(s, moves[0]) then 0
    else
      (if Counted(s.threads[moves[0].thread]) then 1 else 0)
      + WriterSteps(Apply(s, moves[0].thread, moves[0].action), moves[1..])
  }

  // However the others are scheduled while t waits, the writers between them take no more
  // steps than the work there was; the wait is over exactly when they have taken them all.
  lemma {:induction false} DrainEnds(s: State, moves: seq<Move>, s': State, t: nat)
    requires Inv(s) && t < |s.threads| && Draining(s.threads[t])
    requires Reaches(s, moves, s') && forall m :: m in moves ==> m.thread != t
    ensures |s'.threads| == |s.threads| && s'.threads[t] == s.threads[t] && s'.lock == t
    ensures WriterSteps(s, moves) + Work(s'.threads) == Work(s.threads)
    ensures s'.inflight == 0 <==> WriterSteps(s, moves) == Work(s.threads)
    decreases |moves|
  {
    Facts(s, t);
    WorkCounts(s.threads);
    hide Inv, Apply, Work;
    if moves != [] {
      var m := moves[0];
      var s1 := Apply(s, m.thread, m.action);
      assert m in moves;
      Facts(s, m.thread);
      InvStep(s, m.thread, m.action);
      DrainStep(s, t, m.thread, m.action);
      assert forall n :: n in moves[1..] ==> n in moves;
      DrainEnds(s1, moves[1..], s', t);
    }
  }

  // No reachable state is stuck while any thread has something to do.
  lemma NeverStuck(s: State, t: nat)
    requires Inv(s) && t < |s.threads| && s.threads[t] != Idle
    ensures exists u: nat, a :: Enabled(s, u, a) && Apply(s, u, a) != s
  {
    hide Apply, CountOf, Work;
    Facts(s, t);
    if 0 <= s.lock {
      var h: nat := s.lock;
      HolderOfLock(s);
      if Draining(s.threads[h]) && s.inflight > 0 {
        DrainNeverStuck(s, h);
        var u: nat, a :| u != h && Enabled(s, u, a) && Counted(s.threads[u]);
        StepChanges(s, u, a);
      } else {
        StepChanges(s, h, Go(s.time));
      }
    } else {
      StepChanges(s, t, WriterAction(s.threads[t]));
    }
  }

  lemma HolderOfLock(s: State)
    requires Inv(s) && s.lock >= 0
    ensures s.lock < |s.threads| && HoldsLock(s.threads[s.lock])
  {
    assert ThreadOk(s, s.lock);
  }

  lemma StepChanges(s: State, u: nat, a: Action)
    requires Inv(s) && Enabled(s, u, a) && !(Draining(s.threads[u]) && s.inflight > 0)
    ensures Apply(s, u, a) != s
  {
    Facts(s, u);
    hide Inv;
    StepMovesOne(s, u, a);
    assert Apply(s, u, a).threads[u] != s.threads[u] by {
      hide Line, FullSlice, Kept, EmitBuffer;
    }
  }

  /* ------------------------------------------------------------------ */
  /*  A flush covers what came before it                                 */
  /* ------------------------------------------------------------------ */

  // Before the emission of a flush; and, when every call flushes, from its reservation on.
  predicate Flushing(p: Thread) {
    p.WantFlush? || p.Drain? || p.Emit?
  }

  predicate ToFlush(p: Thread, each: bool) {
    Flushing(p) || (each && (Active(p) || p.CheckFlushEach?))
  }

  ghost predicate Covers(s: State, t: nat, n: nat) {
    t < |s.threads| && n <= |s.lines| && (n <= s.emitted || ToFlush(s.threads[t], s.flushEach))
  }

  lemma StepCovers(s: State, u: nat, a: Action, t: nat, n: nat)
    requires Ready(s, Move(u, a)) && s.emitted <= |s.lines| && Covers(s, t, n)
    ensures Covers(Apply(s, u, a), t, n)
  {
    StepMovesOne(s, u, a);
    StepLines(s, u, a);
    StepEmits(s, u, a);
    if u == t && s.emitted < n && !s.threads[t].Emit? {
      StepToFlush(s, t, a);
    }
    hide Apply, ToFlush, LinesOf;
  }

  // What has been emitted stays so, and the emission step emits every line there is.
  lemma StepEmits(s: State, u: nat, a: Action)
    requires Ready(s, Move(u, a)) && s.emitted <= |s.lines|
    ensures var s' := Apply(s, u, a);
            s'.flushEach == s.flushEach && s.emitted <= s'.emitted && (s.threads[u].Emit? ==> s'.emitted == |s.lines|)
  {
    hide Line, FullSlice, Kept;
  }

  lemma StepToFlush(s: State, t: nat, a: Action)
    requires Ready(s, Move(t, a)) && |Apply(s, t, a).threads| == |s.threads|
    requires ToFlush(s.threads[t], s.flushEach) && !s.threads[t].Emit?
    ensures ToFlush(Apply(s, t, a).threads[t], s.flushEach)
  {
    hide Line, FullSlice, Kept;
  }

  lemma {:induction false} RunCovers(s: State, moves: seq<Move>, s': State, t: nat, n: nat)
    requires Inv(s) && Reaches(s, moves, s') && Covers(s, t, n)
    ensures Inv(s') && Covers(s', t, n)
    decreases |moves|
  {
    if moves != [] {
      var m := moves[0];
      StepCovers(s, m.thread, m.action, t, n);
      hide Inv, Apply, Covers;
      InvStep(s, m.thread, m.action);
      RunCovers(Apply(s, m.thread, m.action), moves[1..], s', t, n);
    }
  }

  lemma InvCap(s: State)
    requires Inv(s)
    ensures s.cap > FIXED_SIZE
  {
  }

  // When a flush has returned, every line that was reserved before it took the lock has reached the
  // sink; and where every call flushes, so has, when a call returns, the line it reserved.
  lemma FlushCovers(s: State, moves: seq<Move>, s': State, t: nat)
    requires Inv(s) && Reaches(s, moves, s') && t < |s.threads| && ToFlush(s.threads[t], s.flushEach)
    ensures t < |s'.threads| && (s'.threads[t] == Idle ==> |s.lines| <= s'.emitted && Concat(s.lines) <= s'.sink)
  {
    hide Inv;
    InvCap(s);
    RunCovers(s, moves, s', t, |s.lines|);
    RunLines(s, moves, s');
    InvMeans(s');
    IdleIsDone(s'.flushEach);
    hide Inv, Reaches, ToFlush, LinesOf, Concat;
    if |s.lines| <= s'.emitted {
      EmittedPrefix(s.lines, LinesOf(Reservations(s, moves), s.cap), s'.emitted);
    }
  }

  lemma EmittedPrefix(lines: seq<Bytes>, more: seq<Bytes>, k: nat)
    requires |lines| <= k <= |lines + more|
    ensures Concat(lines) <= Concat((lines + more)[..k])
  {
    hide Concat;
    var out := (lines + more)[..k];
    assert out == lines + out[|lines|..];
    ConcatSplit(lines, out[|lines|..]);
  }

  lemma IdleIsDone(each: bool)
    ensures !ToFlush(Idle, each)
  {
  }
}
