/** The compute-once cache (fs_cached_get in modules/filesystem/system.c) under any number of
    threads, as steps that each touch the shared slot at most once, and as one thread runs it.
  */
module CachedValue {
  import opened Lifecycle

  type Pointer = nat

  type Code = nat

  datatype Outcome = Success(value: Pointer) | Failure(code: Code)

  datatype Thread =
    | Idle
    | CheckAlive
    | ReadValue
    | Begin
    | Compute
    | Fail(code: Code)
    | Store(value: Pointer)
    | Publish(value: Pointer)

  // `slot` is unset until a thread has stored a value. `computed` and `failed` record what the
  // computations yielded and `returned` what the calls did, each in order; they are not in the program.
  datatype State = State(
    life: Life,
    slot: seq<Pointer>,
    threads: seq<Thread>,
    computed: seq<Pointer>,
    failed: seq<Code>,
    returned: seq<Outcome>)

  // A call begins, or goes one step further; `outcome` is what a computation yields.
  datatype Action = Call | Go(outcome: Outcome)

  predicate Enabled(s: State, t: nat, a: Action) {
    && t < |s.threads|
    && (a.Call? <==> s.threads[t] == Idle)
    && (s.threads[t] == ReadValue ==> |s.slot| == 1)
  }

  function At(s: State, t: nat, p: Thread): State
    requires t < |s.threads|
  {
    s.(threads := s.threads[t := p])
  }

  function Return(s: State, t: nat, r: Outcome): State
    requires t < |s.threads|
  {
    At(s, t, Idle).(returned := s.returned + [r])
  }

  function Apply(s: State, t: nat, a: Action): State
    requires Enabled(s, t, a)
  {
    match s.threads[t]
    case Idle => At(s, t, CheckAlive)
    case CheckAlive => At(s, t, if s.life == Alive then ReadValue else Begin)
    case ReadValue => Return(s, t, Success(s.slot[0]))
    case Begin =>
      At(s.(life := Swapped(s.life, Dead, Starting)), t, if s.life == Dead then Compute else CheckAlive)
    case Compute =>
      (match a.outcome
       case Success(v) => At(s.(computed := s.computed + [v]), t, Store(v))
       case Failure(e) => At(s.(failed := s.failed + [e]), t, Fail(e)))
    case Fail(e) => Return(s.(life := Dead), t, Failure(e))
    case Store(v) => At(s.(slot := [v]), t, Publish(v))
    case Publish(v) => Return(s.(life := Alive), t, Success(v))
  }

  function Init(n: nat): State {
    State(Dead, [], seq(n, _ => Idle), [], [], [])
  }

  /* ------------------------------------------------------------------ */
  /*  Invariant                                                          */
  /* ------------------------------------------------------------------ */

  // Between winning the word and letting it go.
  predicate Owns(p: Thread) {
    p.Compute? || p.Fail? || p.Store? || p.Publish?
  }

  // What an owner at p may rely on.
  predicate OwnerOk(s: State, p: Thread) {
    match p
    case Compute => s.computed == [] && s.slot == []
    case Fail(_) => s.computed == [] && s.slot == []
    case Store(v) => s.computed == [v] && s.slot == []
    case Publish(v) => s.computed == [v] && s.slot == [v]
    case _ => true
  }

  predicate ThreadOk(s: State, t: nat)
    requires t < |s.threads|
  {
    && (Owns(s.threads[t]) ==> s.life == Starting)
    && OwnerOk(s, s.threads[t])
    && (s.threads[t] == ReadValue ==> s.life == Alive)
  }

  function Codes(returned: seq<Outcome>): seq<Code> {
    if returned == [] then []
    else
      var last := returned[|returned| - 1];
      Codes(returned[..|returned| - 1]) + if last.Failure? then [last.code] else []
  }

  // The failure whose owner has not returned yet.
  function Unreturned(p: Thread): seq<Code> {
    if p.Fail? then [p.code] else []
  }

  predicate LifeOk(s: State) {
    match s.life
    case Dead => s.computed == [] && s.slot == []
    case Starting => true
    case Alive => |s.computed| == 1 && s.slot == s.computed
    case Stopping => false
  }

  ghost predicate Inv(s: State) {
    && LifeOk(s)
    && (forall t :: 0 <= t < |s.threads| ==> ThreadOk(s, t))
    && (forall t, u :: 0 <= t < u < |s.threads| ==> !(Owns(s.threads[t]) && Owns(s.threads[u])))
    && (s.life == Starting ==> exists t :: 0 <= t < |s.threads| && Owns(s.threads[t]))
    && (forall r :: r in s.returned ==> r.Success? ==> s.life == Alive && s.computed == [r.value])
    && (s.life != Starting ==> Codes(s.returned) == s.failed)
    && (forall t :: 0 <= t < |s.threads| && Owns(s.threads[t]) ==>
                      Codes(s.returned) + Unreturned(s.threads[t]) == s.failed)
  }

  lemma InvInit(n: nat)
    ensures Inv(Init(n))
  {
  }

  // The successes of a live slot are readable; the condition on reading in Enabled never binds.
  lemma ReadingIsSafe(s: State, t: nat)
    requires Inv(s) && t < |s.threads| && s.threads[t] == ReadValue
    ensures s.life == Alive && |s.computed| == 1 && s.slot == s.computed
    ensures forall o :: Enabled(s, t, Go(o))
  {
    assert ThreadOk(s, t);
  }

  lemma CodesSnoc(returned: seq<Outcome>, r: Outcome)
    ensures Codes(returned + [r]) == Codes(returned) + if r.Failure? then [r.code] else []
  {
    assert (returned + [r])[..|returned|] == returned;
  }

  // A thread that owns nothing before or after, while the word and the slot stay as they are.
  lemma InvBystander(s: State, t: nat, p: Thread)
    requires Inv(s) && t < |s.threads| && !Owns(s.threads[t]) && !Owns(p)
    requires p == ReadValue ==> s.life == Alive
    ensures Inv(At(s, t, p))
  {
    var s' := At(s, t, p);
    forall u | 0 <= u < |s'.threads|
      ensures ThreadOk(s', u)
    {
      assert ThreadOk(s, u);
    }
    if s.life == Starting {
      var o :| 0 <= o < |s.threads| && Owns(s.threads[o]);
      assert Owns(s'.threads[o]);
    }
  }

  lemma InvRead(s: State, t: nat)
    requires Inv(s) && t < |s.threads| && s.threads[t] == ReadValue && |s.slot| == 1
    ensures Inv(Return(s, t, Success(s.slot[0])))
  {
    ReadingIsSafe(s, t);
    InvBystander(s, t, Idle);
    CodesSnoc(s.returned, Success(s.slot[0]));
    var s' := Return(s, t, Success(s.slot[0]));
    forall u | 0 <= u < |s'.threads|
      ensures ThreadOk(s', u)
    {
      assert ThreadOk(s, u);
    }
  }

  // The owner is the only one, so its steps are all that happens to the word and the slot.
  lemma OnlyOwner(s: State, t: nat)
    requires Inv(s) && t < |s.threads| && Owns(s.threads[t])
    ensures forall u :: 0 <= u < |s.threads| && u != t ==> !Owns(s.threads[u]) && s.threads[u] != ReadValue
    ensures s.life == Starting
    ensures forall r :: r in s.returned ==> r.Failure?
  {
    assert ThreadOk(s, t);
    forall u | 0 <= u < |s.threads| && u != t
      ensures !Owns(s.threads[u]) && s.threads[u] != ReadValue
    {
      assert ThreadOk(s, u);
    }
  }

  lemma NoOwner(s: State)
    requires Inv(s) && s.life != Starting
    ensures forall u :: 0 <= u < |s.threads| ==> !Owns(s.threads[u])
  {
    forall u | 0 <= u < |s.threads|
      ensures !Owns(s.threads[u])
    {
      assert ThreadOk(s, u);
    }
  }

  lemma InvBegin(s: State, t: nat)
    requires Inv(s) && t < |s.threads| && s.threads[t] == Begin && s.life == Dead
    ensures Inv(At(s.(life := Starting), t, Compute))
  {
    NoOwner(s);
    var s' := At(s.(life := Starting), t, Compute);
    forall u | 0 <= u < |s'.threads|
      ensures ThreadOk(s', u)
    {
      assert ThreadOk(s, u);
    }
    assert Owns(s'.threads[t]);
    assert Codes(s.returned) + [] == Codes(s.returned);
  }

  lemma InvOwner(s: State, t: nat, a: Action)
    requires Inv(s) && Enabled(s, t, a) && (s.threads[t].Compute? || s.threads[t].Store?)
    ensures Inv(Apply(s, t, a))
  {
    OnlyOwner(s, t);
    assert ThreadOk(s, t);
    var s' := Apply(s, t, a);
    forall u | 0 <= u < |s'.threads|
      ensures ThreadOk(s', u)
    {
      assert u != t ==> s'.threads[u] == s.threads[u];
    }
    assert Owns(s'.threads[t]);
    assert Codes(s.returned) + [] == Codes(s.returned);
  }

  lemma InvLetGo(s: State, t: nat, a: Action)
    requires Inv(s) && Enabled(s, t, a) && (s.threads[t].Fail? || s.threads[t].Publish?)
    ensures Inv(Apply(s, t, a))
  {
    OnlyOwner(s, t);
    assert ThreadOk(s, t);
    var s' := Apply(s, t, a);
    CodesSnoc(s.returned, s'.returned[|s.returned|]);
    forall u | 0 <= u < |s'.threads|
      ensures ThreadOk(s', u) && !Owns(s'.threads[u])
    {
      assert u != t ==> s'.threads[u] == s.threads[u];
    }
    assert Codes(s.returned) + [] == Codes(s.returned);
  }

  lemma InvStep(s: State, t: nat, a: Action)
    requires Inv(s) && Enabled(s, t, a)
    ensures Inv(Apply(s, t, a))
  {
    hide Inv, LifeOk, ThreadOk;
    match s.threads[t]
    case Idle => InvBystander(s, t, CheckAlive);
    case CheckAlive => InvBystander(s, t, if s.life == Alive then ReadValue else Begin);
    case ReadValue => InvRead(s, t);
    case Begin =>
      if s.life == Dead {
        InvBegin(s, t);
      } else {
        InvBystander(s, t, CheckAlive);
      }
    case Compute => InvOwner(s, t, a);
    case Fail(_) => InvLetGo(s, t, a);
    case Store(_) => InvOwner(s, t, a);
    case Publish(_) => InvLetGo(s, t, a);
  }

  datatype Move = Move(thread: nat, action: Action)

  ghost predicate Reaches(s: State, moves: seq<Move>, s': State)
    decreases |moves|
  {
    if moves == [] then s == s'
    else
      Enabled(s, moves[0].thread, moves[0].action)
      && Reaches(Apply(s, moves[0].thread, moves[0].action), moves[1..], s')
  }

  lemma {:induction false} InvRun(s: State, moves: seq<Move>, s': State)
    requires Inv(s) && Reaches(s, moves, s')
    ensures Inv(s')
    decreases |moves|
  {
    hide Inv, Apply;
    if moves != [] {
      InvStep(s, moves[0].thread, moves[0].action);
      InvRun(Apply(s, moves[0].thread, moves[0].action), moves[1..], s');
    }
  }

  /* ------------------------------------------------------------------ */
  /*  Over every run                                                     */
  /* ------------------------------------------------------------------ */

  // Never two owners; at most one computation ever succeeds; nobody reads before publication;
  // every success returned is that one value; and every failure returned is one's own.
  lemma ComputesOnce(n: nat, moves: seq<Move>, s: State)
    requires Reaches(Init(n), moves, s)
    ensures forall t, u :: 0 <= t < |s.threads| && 0 <= u < |s.threads| && Owns(s.threads[t]) && Owns(s.threads[u]) ==>
                             t == u
    ensures |s.computed| <= 1
    ensures forall t :: 0 <= t < |s.threads| && s.threads[t] == ReadValue ==>
                          s.life == Alive && |s.computed| == 1 && s.slot == s.computed
    ensures forall r :: r in s.returned && r.Success? ==> s.computed == [r.value]
    ensures s.failed == Codes(s.returned) || (exists e :: s.failed == Codes(s.returned) + [e])
  {
    hide Reaches, Init;
    InvInit(n);
    InvRun(Init(n), moves, s);
    hide Codes;
    forall t | 0 <= t < |s.threads|
      ensures s.threads[t] == ReadValue ==> s.life == Alive && |s.computed| == 1 && s.slot == s.computed
    {
      assert ThreadOk(s, t);
    }
    AtMostOne(s);
  }

  lemma AtMostOne(s: State)
    requires Inv(s)
    ensures |s.computed| <= 1
    ensures s.failed == Codes(s.returned) || (exists e :: s.failed == Codes(s.returned) + [e])
  {
    hide Codes;
    if s.life == Starting {
      var t :| 0 <= t < |s.threads| && Owns(s.threads[t]);
      assert ThreadOk(s, t);
      if s.threads[t].Fail? {
        assert s.failed == Codes(s.returned) + [s.threads[t].code];
      } else {
        assert Codes(s.returned) + [] == Codes(s.returned);
      }
    }
  }

  // What the computations of a run yield, in order.
  function YieldedBy(s: State, m: Move): seq<Outcome>
    requires Enabled(s, m.thread, m.action)
  {
    if s.threads[m.thread].Compute? then [m.action.outcome] else []
  }

  function Yields(s: State, moves: seq<Move>): seq<Outcome>
    decreases |moves|
  {
    if moves == [] || !Enabled(s, moves[0].thread, moves[0].action) then []
    else YieldedBy(s, moves[0]) + Yields(Apply(s, moves[0].thread, moves[0].action), moves[1..])
  }

  function Values(outcomes: seq<Outcome>): seq<Pointer> {
    if outcomes == [] then []
    else
      var last := outcomes[|outcomes| - 1];
      Values(outcomes[..|outcomes| - 1]) + if last.Success? then [last.value] else []
  }

  lemma {:induction false} OutcomesConcat(a: seq<Outcome>, b: seq<Outcome>)
    ensures Values(a + b) == Values(a) + Values(b) && Codes(a + b) == Codes(a) + Codes(b)
  {
    if b == [] {
      assert a + b == a;
    } else {
      assert (a + b)[..|a + b| - 1] == a + b[..|b| - 1];
      OutcomesConcat(a, b[..|b| - 1]);
    }
  }

  lemma {:induction false} ValuesHave(outcomes: seq<Outcome>, v: Pointer)
    ensures Success(v) in outcomes <==> v in Values(outcomes)
  {
    if outcomes != [] {
      var front, last := outcomes[..|outcomes| - 1], outcomes[|outcomes| - 1];
      assert outcomes == front + [last];
      ValuesHave(front, v);
    }
  }

  lemma StepYields(s: State, m: Move)
    requires Enabled(s, m.thread, m.action)
    ensures var s' := Apply(s, m.thread, m.action); var ys := YieldedBy(s, m);
            && s'.computed == s.computed + Values(ys) && s'.failed == s.failed + Codes(ys)
            && |s'.threads| == |s.threads|
  {
    assert s.computed + [] == s.computed && s.failed + [] == s.failed;
    if s.threads[m.thread].Compute? {
      var o := m.action.outcome;
      assert [o][..0] == [];
      assert Values([o]) == Values([]) + (if o.Success? then [o.value] else []);
      assert Codes([o]) == Codes([]) + (if o.Failure? then [o.code] else []);
    }
  }

  lemma {:induction false} RunYields(s: State, moves: seq<Move>, s': State)
    requires Reaches(s, moves, s')
    ensures s'.computed == s.computed + Values(Yields(s, moves)) && s'.failed == s.failed + Codes(Yields(s, moves))
    decreases |moves|
  {
    hide Apply, YieldedBy, Values, Codes;
    if moves == [] {
      NoneYielded();
      assert s.computed + [] == s.computed && s.failed + [] == s.failed;
    } else {
      var s1 := Apply(s, moves[0].thread, moves[0].action);
      var a, b := YieldedBy(s, moves[0]), Yields(s1, moves[1..]);
      StepYields(s, moves[0]);
      RunYields(s1, moves[1..], s');
      assert Yields(s, moves) == a + b;
      OutcomesConcat(a, b);
      Reassociate(s.computed, Values(a), Values(b));
      Reassociate(s.failed, Codes(a), Codes(b));
    }
  }

  lemma NoneYielded()
    ensures Values([]) == [] && Codes([]) == []
  {
  }

  lemma Reassociate<T>(a: seq<T>, b: seq<T>, c: seq<T>)
    ensures a + (b + c) == (a + b) + c
  {
  }

  ghost predicate HasOwner(s: State, value: Pointer) {
    exists t :: 0 <= t < |s.threads| && (s.threads[t] == Store(value) || s.threads[t] == Publish(value))
  }

  // A computation that succeeds is the last one, and its value is published, or on its way there in
  // the hands of the thread that has it; and without one nothing is ever published or returned.
  lemma SuccessIsPublished(n: nat, moves: seq<Move>, s: State, v: Pointer)
    requires Reaches(Init(n), moves, s)
    ensures Success(v) in Yields(Init(n), moves) ==>
              && s.computed == [v]
              && if s.life == Alive then s.slot == [v] else s.life == Starting && HasOwner(s, v)
    ensures Codes(Yields(Init(n), moves)) == s.failed
    ensures (forall o :: o in Yields(Init(n), moves) ==> o.Failure?) ==>
              s.life != Alive && s.slot == [] && forall r :: r in s.returned ==> r.Failure?
  {
    var ys := Yields(Init(n), moves);
    InvInit(n);
    InvRun(Init(n), moves, s);
    RunYields(Init(n), moves, s);
    assert [] + Values(ys) == Values(ys) && [] + Codes(ys) == Codes(ys);
    ValuesHave(ys, v);
    hide Yields, Reaches, Codes;
    AtMostOne(s);
    if Success(v) in ys {
      OwnerHas(s, v);
    }
    if forall o :: o in ys ==> o.Failure? {
      if Values(ys) != [] {
        ValuesHave(ys, Values(ys)[0]);
        assert false;
      }
      NoneComputed(s);
    }
  }

  lemma OwnerHas(s: State, v: Pointer)
    requires Inv(s) && |s.computed| <= 1 && v in s.computed
    ensures s.computed == [v] && if s.life == Alive then s.slot == [v] else s.life == Starting && HasOwner(s, v)
  {
    if s.life == Starting {
      var t :| 0 <= t < |s.threads| && Owns(s.threads[t]);
      assert ThreadOk(s, t);
    }
  }

  lemma NoneComputed(s: State)
    requires Inv(s) && s.computed == []
    ensures s.life != Alive && s.slot == [] && forall r :: r in s.returned ==> r.Failure?
  {
    if s.life == Starting {
      var t :| 0 <= t < |s.threads| && Owns(s.threads[t]);
      assert ThreadOk(s, t);
    }
  }

  // Once published, the value is there for good.
  lemma {:induction false} PublishedForGood(s: State, moves: seq<Move>, s': State)
    requires Inv(s) && s.life == Alive && Reaches(s, moves, s')
    ensures s'.life == Alive && s'.slot == s.slot && s'.computed == s.computed
    decreases |moves|
  {
    if moves != [] {
      var m := moves[0];
      InvStep(s, m.thread, m.action);
      NoOwner(s);
      var s1 := Apply(s, m.thread, m.action);
      assert s1.life == Alive && s1.slot == s.slot && s1.computed == s.computed;
      hide Apply, Inv;
      PublishedForGood(s1, moves[1..], s');
    }
  }

  // Own steps left before a call returns, once the slot is alive.
  function Left(p: Thread): nat {
    match p
    case Begin => 3
    case CheckAlive => 2
    case ReadValue => 1
    case _ => 0
  }

  // From then on a call neither waits nor computes: each of its steps brings its return nearer.
  lemma AliveReturns(s: State, t: nat, a: Action)
    requires Inv(s) && s.life == Alive && Enabled(s, t, a) && s.threads[t] != Idle
    ensures var s' := Apply(s, t, a);
            && Left(s'.threads[t]) == Left(s.threads[t]) - 1
            && (s'.threads[t] == Idle <==> Left(s'.threads[t]) == 0)
            && (s'.threads[t] == Idle ==> s'.returned == s.returned + [Success(s.computed[0])])
  {
    NoOwner(s);
  }

  // Own steps an owner still has to take before it lets the slot go.
  function OwnerLeft(p: Thread): nat {
    match p
    case Compute => 3
    case Store(_) => 2
    case Publish(_) => 1
    case Fail(_) => 1
    case _ => 0
  }

  // A slot that is starting is not waited for in vain: one thread owns it, its next step needs
  // nobody else, whatever the others do leaves it as it is, and within three steps it lets go.
  lemma StartingLetsGo(s: State)
    requires Inv(s) && s.life == Starting
    ensures exists t: nat :: t < |s.threads| && Owns(s.threads[t])
    ensures forall t: nat, a :: Enabled(s, t, a) && Owns(s.threads[t]) ==>
              var s' := Apply(s, t, a);
              && 1 <= OwnerLeft(s.threads[t]) <= 3 && OwnerLeft(s'.threads[t]) < OwnerLeft(s.threads[t])
              && (s'.life != Starting <==> OwnerLeft(s'.threads[t]) == 0)
    ensures forall t: nat, o :: t < |s.threads| && Owns(s.threads[t]) ==> Enabled(s, t, Go(o))
    ensures forall t: nat, u: nat, a :: Enabled(s, u, a) && t < |s.threads| && Owns(s.threads[t]) && u != t ==>
              Apply(s, u, a).life == Starting && Apply(s, u, a).threads[t] == s.threads[t]
  {
    var o: int :| 0 <= o < |s.threads| && Owns(s.threads[o]);
    forall t: nat, u: nat, a | Enabled(s, u, a) && t < |s.threads| && Owns(s.threads[t]) && u != t
      ensures Apply(s, u, a).life == Starting && Apply(s, u, a).threads[t] == s.threads[t]
    {
      OnlyOwner(s, t);
    }
  }

  // Steps of a run that are t's own.
  function OwnSteps(moves: seq<Move>, t: nat): nat {
    if moves == [] then 0 else (if moves[0].thread == t then 1 else 0) + OwnSteps(moves[1..], t)
  }

  // t begins no new call.
  predicate NoCall(moves: seq<Move>, t: nat) {
    forall k :: 0 <= k < |moves| && moves[k].thread == t ==> !moves[k].action.Call?
  }

  lemma StepElsewhere(s: State, u: nat, a: Action, t: nat)
    requires Enabled(s, u, a) && t < |s.threads| && t != u
    ensures |Apply(s, u, a).threads| == |s.threads| && Apply(s, u, a).threads[t] == s.threads[t]
    ensures s.returned <= Apply(s, u, a).returned
  {
  }

  lemma StepShape(s: State, u: nat, a: Action)
    requires Enabled(s, u, a)
    ensures |Apply(s, u, a).threads| == |s.threads| && s.returned <= Apply(s, u, a).returned
  {
  }

  // Once the slot is alive a call returns the published value after exactly the steps it has left,
  // at most three of its own, however the other threads are scheduled.
  lemma {:induction false} AliveRun(s: State, moves: seq<Move>, s': State, t: nat)
    requires Inv(s) && s.life == Alive && |s.computed| == 1 && Reaches(s, moves, s')
    requires t < |s.threads| && NoCall(moves, t)
    ensures |s'.threads| == |s.threads| && s.returned <= s'.returned
    ensures OwnSteps(moves, t) + Left(s'.threads[t]) == Left(s.threads[t]) <= 3
    ensures s'.threads[t] == Idle <==> Left(s'.threads[t]) == 0
    ensures s.threads[t] != Idle && OwnSteps(moves, t) == Left(s.threads[t]) ==>
              s'.threads[t] == Idle && Success(s.computed[0]) in s'.returned
    decreases |moves|
  {
    NoOwner(s);
    hide Inv, Apply;
    if moves != [] {
      var m := moves[0];
      var s1 := Apply(s, m.thread, m.action);
      InvStep(s, m.thread, m.action);
      PublishedForGood(s, [m], s1);
      StepShape(s, m.thread, m.action);
      if m.thread == t {
        AliveReturns(s, t, m.action);
      } else {
        StepElsewhere(s, m.thread, m.action, t);
      }
      assert NoCall(moves[1..], t) by {
        forall k | 0 <= k < |moves[1..]| && moves[1..][k].thread == t
          ensures !moves[1..][k].action.Call?
        {
          assert moves[1..][k] == moves[k + 1];
        }
      }
      AliveRun(s1, moves[1..], s', t);
      if s1.threads[t] == Idle && s.threads[t] != Idle {
        assert s1.returned[|s.returned|] == Success(s.computed[0]);
        assert s'.returned[|s.returned|] == s1.returned[|s.returned|];
      }
    }
  }

  // However the other threads are scheduled, the owner of a starting slot takes at most three steps
  // until it has let go; as long as it has not, the slot is starting and its own.
  lemma {:induction false} StartingRun(s: State, moves: seq<Move>, s': State, t: nat)
    requires Inv(s) && Reaches(s, moves, s') && t < |s.threads| && NoCall(moves, t)
    requires Owns(s.threads[t]) || s.threads[t] == Idle
    ensures |s'.threads| == |s.threads|
    ensures OwnSteps(moves, t) + OwnerLeft(s'.threads[t]) <= OwnerLeft(s.threads[t]) <= 3
    ensures if OwnerLeft(s'.threads[t]) > 0 then Owns(s'.threads[t]) && s'.life == Starting else s'.threads[t] == Idle
    decreases |moves|
  {
    if Owns(s.threads[t]) {
      OnlyOwner(s, t);
    }
    hide Inv, Apply;
    if moves != [] {
      var m := moves[0];
      var s1 := Apply(s, m.thread, m.action);
      InvStep(s, m.thread, m.action);
      StepShape(s, m.thread, m.action);
      if m.thread == t {
        OwnerStep(s, t, m.action);
      } else {
        StepElsewhere(s, m.thread, m.action, t);
      }
      assert NoCall(moves[1..], t) by {
        forall k | 0 <= k < |moves[1..]| && moves[1..][k].thread == t
          ensures !moves[1..][k].action.Call?
        {
          assert moves[1..][k] == moves[k + 1];
        }
      }
      StartingRun(s1, moves[1..], s', t);
    }
  }

  lemma OwnerStep(s: State, t: nat, a: Action)
    requires Inv(s) && Enabled(s, t, a) && Owns(s.threads[t])
    ensures var p := Apply(s, t, a).threads[t];
            OwnerLeft(p) < OwnerLeft(s.threads[t]) && (Owns(p) || p == Idle)
  {
  }

  // A failed computation leaves the slot as if it had never been tried, for the next call to try.
  lemma FailureReopens(s: State, t: nat, a: Action)
    requires Inv(s) && Enabled(s, t, a) && s.threads[t].Fail?
    ensures var s' := Apply(s, t, a);
            && s'.life == Dead && s'.slot == [] && s'.computed == []
            && s'.returned == s.returned + [Failure(s.threads[t].code)]
            && forall u :: 0 <= u < |s'.threads| ==> !Owns(s'.threads[u])
  {
    OnlyOwner(s, t);
    assert ThreadOk(s, t);
  }

  /* ------------------------------------------------------------------ */
  /*  One thread's loop                                                  */
  /* ------------------------------------------------------------------ */

  // What the other threads do to the slot between two accesses of one's own.
  datatype Turn = Starts | Publishes(value: Pointer) | GivesUp

  predicate NobodyStarts(turns: seq<seq<Turn>>) {
    forall i :: 0 <= i < |turns| ==> Starts !in turns[i]
  }

  datatype Answer = Waiting | Returned(outcome: Outcome)

  class CachedPath {
    const word: LifeWord
    var value: seq<Pointer>

    ghost predicate Valid()
      reads this, word
    {
      match word.life
      case Dead => value == []
      case Starting => value == []
      case Alive => |value| == 1
      case Stopping => false
    }

    constructor ()
      ensures Valid() && word.life == Dead && fresh(word)
    {
      word := new LifeWord();
      value := [];
    }

    // Others start only a dead slot, and finish only one they have started.
    method TakeTurn(turn: Turn)
      requires Valid()
      modifies this, word
      ensures Valid()
      ensures old(word.life) == Alive ==> word.life == Alive && value == old(value)
      ensures old(word.life) == Dead && turn != Starts ==> word.life == Dead
    {
      match turn {
        case Starts =>
          if word.life == Dead {
            word.life := Starting;
          }
        case Publishes(v) =>
          if word.life == Starting {
            value := [v];
            word.life := Alive;
          }
        case GivesUp =>
          if word.life == Starting {
            word.life := Dead;
          }
      }
    }

    // Whatever the others do, one after another, between two accesses.
    method Meanwhile(turns: seq<Turn>)
      requires Valid()
      modifies this, word
      ensures Valid()
      ensures old(word.life) == Alive || turns == [] ==> word.life == old(word.life) && value == old(value)
      ensures old(word.life) == Dead && Starts !in turns ==> word.life == Dead
    {
      for k := 0 to |turns|
        invariant Valid()
        invariant old(word.life) == Alive || k == 0 ==> word.life == old(word.life) && value == old(value)
        invariant old(word.life) == Dead && Starts !in turns ==> word.life == Dead
      {
        TakeTurn(turns[k]);
      }
    }

    // The retry loop, for as long as the turns last. A success is always the value now published;
    // a failure is one's own, and leaves the slot dead; and a slot found dead or alive, which
    // nobody else starts, is never waited for.
    method Get(compute: Outcome, turns: seq<seq<Turn>>) returns (r: Answer)
      requires Valid()
      modifies this, word
      ensures Valid()
      ensures r.Returned? && r.outcome.Success? ==> word.life == Alive && value == [r.outcome.value]
      ensures r.Returned? && r.outcome.Failure? ==> r.outcome == compute && word.life == Dead
      ensures r == Waiting && |turns| >= 2 ==> word.life != Dead
      ensures old(word.life) == Alive ==> value == old(value) && (|turns| >= 2 ==> r == Returned(Success(value[0])))
      ensures old(word.life) == Dead && NobodyStarts(turns) && |turns| >= 2 ==> r == Returned(compute)
    {
      var i := 0;
      while i + 1 < |turns|
        invariant Valid()
        invariant old(word.life) == Alive ==> i == 0 && word.life == Alive && value == old(value)
        invariant old(word.life) == Dead && NobodyStarts(turns) ==> i == 0 && word.life == Dead
        invariant i > 0 ==> word.life != Dead
        invariant 0 <= i
      {
        Meanwhile(turns[i]);
        if word.life == Alive {
          return Returned(Success(value[0]));
        }
        Meanwhile(turns[i + 1]);
        var status := word.BeginInit();
        if status == Status.Ok {
          match compute {
            case Failure(_) =>
              word.FailInit();
              return Returned(compute);
            case Success(v) =>
              value := [v];
              word.EndInit();
              return Returned(compute);
          }
        }
        i := i + 2;
      }
      return Waiting;
    }
  }
}
