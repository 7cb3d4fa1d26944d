/** The logger as a protocol: any number of threads reserve slices of one buffer under a lock,
    fill them outside it, and are waited for before the buffer is emitted (src/nth_log.c).

    A thread's program counter says how far through log_append or nth_flush it is; one step is
    one access to shared state. Steps interleave arbitrarily and are sequentially consistent.
  */
module LogProtocol {

  type Bytes = seq<bv8>

  // Sizes of the stamp, of everything before the message, and of everything but the message.
  const TIME_SIZE: nat := 19
  const PREFIX_SIZE: nat := 28
  const FIXED_SIZE: nat := 29

  const NEWLINE: bv8 := 10

  type Stamp = s: Bytes | |s| == TIME_SIZE witness seq(TIME_SIZE, _ => 0)

  /* ------------------------------------------------------------------ */
  /*  Lines                                                              */
  /* ------------------------------------------------------------------ */

  // Three-letter names of the five levels; anything above DEBUG is logged as DEBUG.
  function LevelName(level: nat): (s: Bytes)
    ensures |s| == 3
  {
    if level == 0 then [70, 84, 76]
    else if level == 1 then [69, 82, 82]
    else if level == 2 then [87, 82, 78]
    else if level == 3 then [77, 83, 71]
    else [68, 66, 71]
  }

  const NAMES: seq<string> := ["FTL", "ERR", "WRN", "MSG", "DBG"]

  // The bytes are the names' characters, level by level.
  lemma LevelNames(level: nat, i: nat)
    requires i < 3
    ensures var name := NAMES[if level < |NAMES| then level else |NAMES| - 1];
            i < |name| && LevelName(level)[i] as int == name[i] as int
  {
  }

  function Prefix(stamp: Stamp, level: nat): (s: Bytes)
    ensures |s| == PREFIX_SIZE
  {
    stamp + [32, 91] + LevelName(level) + [93, 32, 45, 32]
  }

  // A message that does not fit the whole buffer is cut so that its line fills it.
  function Kept(len: nat, cap: nat): (n: nat)
    requires cap > FIXED_SIZE
    ensures n <= len && FIXED_SIZE + n <= cap
    ensures n < len ==> FIXED_SIZE + n == cap
  {
    if FIXED_SIZE + len > cap then cap - FIXED_SIZE else len
  }

  function Line(stamp: Stamp, level: nat, msg: Bytes, cap: nat): (s: Bytes)
    requires cap > FIXED_SIZE
    ensures |s| == FIXED_SIZE + Kept(|msg|, cap) <= cap
  {
    Prefix(stamp, level) + msg[..Kept(|msg|, cap)] + [NEWLINE]
  }

  // A line is the stamp, the level between brackets, a dash, what is kept of the message, a newline.
  lemma LineContent(stamp: Stamp, level: nat, msg: Bytes, cap: nat)
    requires cap > FIXED_SIZE
    ensures var s := Line(stamp, level, msg, cap);
            && s[..TIME_SIZE] == stamp
            && s[TIME_SIZE..PREFIX_SIZE] == [32, 91] + LevelName(level) + [93, 32, 45, 32]
            && s[PREFIX_SIZE..|s| - 1] == msg[..Kept(|msg|, cap)] && s[|s| - 1] == NEWLINE
  {
    hide LevelName;
    var p := Prefix(stamp, level);
    assert p[..TIME_SIZE] == stamp && p[TIME_SIZE..] == [32, 91] + LevelName(level) + [93, 32, 45, 32];
  }

  function Concat(lines: seq<Bytes>): Bytes {
    if lines == [] then [] else Concat(lines[..|lines| - 1]) + lines[|lines| - 1]
  }

  /* ------------------------------------------------------------------ */
  /*  State                                                              */
  /* ------------------------------------------------------------------ */

  datatype Request = Request(level: nat, msg: Bytes, now: int)

  // The slice of the buffer a thread has reserved, and the offsets it has still to write.
  datatype Slice = Slice(at: nat, line: Bytes, todo: set<nat>)

  datatype Thread =
    | Idle
      // log_append
    | WantAppend(req: Request)
    | CheckRoom(req: Request)
    | DrainForRoom(req: Request)
    | EmitForRoom(req: Request)
    | TakeStamp(req: Request)
    | Reserve(req: Request, stamp: Stamp)
    | CountIn(slice: Slice)
    | Unlock(slice: Slice)
    | Write(slice: Slice)
    | CountOut(slice: Slice)
    | CheckFlushEach
      // nth_flush
    | WantFlush
    | Drain
    | Emit
    | UnlockFlush

  // `lines` records every line reserved, in reservation order, and `emitted` how many of them
  // have been handed to the sink; neither exists in the program.
  datatype State = State(
    cap: nat,
    flushEach: bool,
    buf: Bytes,
    index: nat,
    inflight: nat,
    lastTime: int,
    time: Stamp,
    lock: int,          // -1, or the thread holding the mutex
    sink: Bytes,
    threads: seq<Thread>,
    lines: seq<Bytes>,
    emitted: nat)

  datatype Action =
    | StartAppend(req: Request)
    | StartFlush
    | Go(text: Stamp)    // the next step; `text` is what formatting the clock yields
    | WriteByte(off: nat)

  /* ------------------------------------------------------------------ */
  /*  Steps                                                              */
  /* ------------------------------------------------------------------ */

  predicate Enabled(s: State, t: nat, a: Action) {
    && t < |s.threads|
    && match s.threads[t]
       case Idle => a.StartAppend? || a.StartFlush?
       case WantAppend(_) => a.Go? && s.lock == -1
       case WantFlush => a.Go? && s.lock == -1
       case Write(slice) => if slice.todo == {} then a.Go? else a.WriteByte? && a.off in slice.todo
       case _ => a.Go?
  }

  function SetThread(s: State, t: nat, p: Thread): State
    requires t < |s.threads|
  {
    s.(threads := s.threads[t := p])
  }

  function EmitBuffer(s: State): State
    requires s.index <= |s.buf|
  {
    s.(sink := s.sink + s.buf[..s.index], index := 0, emitted := |s.lines|)
  }

  function Offsets(n: nat): (s: set<nat>)
    ensures forall i: nat :: i in s <==> i < n
  {
    if n == 0 then {} else Offsets(n - 1) + {n - 1}
  }

  function FullSlice(at: nat, line: Bytes): Slice {
    Slice(at, line, Offsets(|line|))
  }

  function Apply(s: State, t: nat, a: Action): State
    requires Enabled(s, t, a) && s.cap > FIXED_SIZE && s.index <= s.cap == |s.buf|
  {
    match s.threads[t]
    case Idle =>
      SetThread(s, t, if a.StartAppend? then WantAppend(a.req) else WantFlush)
    case WantAppend(r) =>
      SetThread(s.(lock := t), t, CheckRoom(r))
    case CheckRoom(r) =>
      SetThread(s, t, if s.cap - s.index < FIXED_SIZE + Kept(|r.msg|, s.cap) then DrainForRoom(r) else TakeStamp(r))
    case DrainForRoom(r) =>
      if s.inflight != 0 then s else SetThread(s, t, EmitForRoom(r))
    case EmitForRoom(r) =>
      SetThread(EmitBuffer(s), t, TakeStamp(r))
    case TakeStamp(r) =>
      if r.now > s.lastTime then
        SetThread(s.(lastTime := r.now, time := a.text), t, Reserve(r, a.text))
      else
        SetThread(s, t, Reserve(r, s.time))
    case Reserve(r, stamp) =>
      var line := Line(stamp, r.level, r.msg, s.cap);
      SetThread(s.(index := s.index + |line|, lines := s.lines + [line]), t, CountIn(FullSlice(s.index, line)))
    case CountIn(slice) =>
      SetThread(s.(inflight := s.inflight + 1), t, Unlock(slice))
    case Unlock(slice) =>
      SetThread(s.(lock := -1), t, Write(slice))
    case Write(slice) =>
      if slice.todo == {} then SetThread(s, t, CountOut(slice))
      else
        var k := slice.at + a.off;
        var b := if k < |s.buf| && a.off < |slice.line| then s.buf[k := slice.line[a.off]] else s.buf;
        SetThread(s.(buf := b), t, Write(slice.(todo := slice.todo - {a.off})))
    case CountOut(slice) =>
      SetThread(s.(inflight := if s.inflight > 0 then s.inflight - 1 else 0), t, CheckFlushEach)
    case CheckFlushEach =>
      SetThread(s, t, if s.flushEach then WantFlush else Idle)
    case WantFlush =>
      SetThread(s.(lock := t), t, Drain)
    case Drain =>
      if s.inflight != 0 then s else SetThread(s, t, Emit)
    case Emit =>
      SetThread(EmitBuffer(s), t, UnlockFlush)
    case UnlockFlush =>
      SetThread(s.(lock := -1), t, Idle)
  }

  function Init(cap: nat, flushEach: bool, buf: Bytes, time: Stamp, n: nat): State {
    State(cap, flushEach, buf, 0, 0, -1, time, -1, [], seq(n, _ => Idle), [], 0)
  }
}
