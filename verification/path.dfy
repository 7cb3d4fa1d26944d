/** The path object: one growable buffer, normalised in place by two cursors and a rewind
    stack (src/nth_path.c). Every method is proved against `PathSpec`.
  */
module PathObject {
  import opened PathSpec
  import opened PathTheorems
  import W = PackedWords

  // Ceiling of the 16-bit length and capacity fields.
  const LEN_MAX: nat := 0xFFFF
  const DEFAULT_CAP: nat := 4096

  datatype Result = Ok | OutOfMemory | AlreadyInitialized

  // Half as much again, or what is needed if that is more, up to the ceiling.
  function GrownCap(cap: nat, needed: nat): (c: nat)
    requires cap <= needed < LEN_MAX
    ensures cap <= needed < c <= LEN_MAX
    ensures c < cap + cap / 2 ==> c == LEN_MAX
    ensures c > cap + cap / 2 ==> c == needed + 1
  {
    var grown := if cap + cap / 2 <= needed then needed + 1 else cap + cap / 2;
    if grown > LEN_MAX then LEN_MAX else grown
  }

  // A view is null, or the bytes it points at.
  datatype View = NullView | View(bytes: Str)

  function Shown(v: View): Str {
    if v == NullView then [] else v.bytes
  }

  const STACK_CAP: nat := 16

  // The rewind stack: its entries, the capacity allocated, and how often enlarging it will succeed.
  datatype Stack = Stack(entries: seq<nat>, cap: nat, growths: nat)

  // Capacity after the given number of doublings.
  function Doubled(cap: nat, growths: nat): (c: nat)
    ensures cap <= c
    decreases growths
  {
    if growths == 0 then cap else Doubled(2 * cap, growths - 1)
  }

  // Whether the stack of a normalisation stays within what can be allocated.
  predicate StackSuffices(s: Str, growths: nat) {
    Shallow(IsAbsolute(s), [], 0, Segments(s), Doubled(STACK_CAP, growths))
  }

  // What the NORMALIZED flag promises of the content.
  ghost predicate Settled(s: Str) {
    s == [] || Normalize(s) == s
  }

  lemma RenderSnoc(abs: bool, out: seq<Str>, seg: Str)
    requires Names(out)
    ensures Render(abs, out + [seg]) == Render(abs, out) + (if out == [] then [] else [SEP]) + seg
    ensures |Render(abs, out)| >= (if abs then 1 else 0)
    ensures |Render(abs, out)| > (if abs then 1 else 0) <==> out != []
  {
    var g := out + [seg];
    assert g[..|g| - 1] == out;
    if out != [] {
      JoinNonEmpty(out);
    } else {
      assert Join(g) == seg;
    }
  }

  lemma RenderFront(abs: bool, out: seq<Str>)
    requires Names(out) && out != []
    ensures var w := |Render(abs, out[..|out| - 1])|;
            w <= |Render(abs, out)| && Render(abs, out)[..w] == Render(abs, out[..|out| - 1])
  {
    var front, last := out[..|out| - 1], out[|out| - 1];
    assert out == front + [last];
    RenderSnoc(abs, front, last);
  }

  lemma NormalizeIs(s: Str, r: Str)
    requires r == Render(IsAbsolute(s), Resolve(IsAbsolute(s), [], Segments(s)))
    ensures PathSpec.Normalize(s) == if r == [] then HERE else r
  {
  }

  // The rewind stack holds, per real component, where the rendering stood before it.
  ghost predicate Rewinds(abs: bool, out: seq<Str>, ups: nat, stack: seq<nat>) {
    && |out| == ups + |stack|
    && forall i :: 0 <= i < |stack| ==> stack[i] == |Render(abs, out[..ups + i])|
  }

  lemma RewindsPush(abs: bool, out: seq<Str>, ups: nat, stack: seq<nat>, seg: Str)
    requires Rewinds(abs, out, ups, stack)
    ensures Rewinds(abs, out + [seg], ups, stack + [|Render(abs, out)|])
  {
    var g := out + [seg];
    var more := stack + [|Render(abs, out)|];
    forall i | 0 <= i < |more|
      ensures more[i] == |Render(abs, g[..ups + i])|
    {
      assert g[..ups + i] == out[..ups + i];
      assert i == |stack| ==> out[..ups + i] == out;
    }
  }

  lemma ShapedPush(abs: bool, out: seq<Str>, ups: nat, stack: seq<nat>, seg: Str)
    requires Names(out) && Shaped(abs, out, ups) && Rewinds(abs, out, ups, stack)
    requires Name(seg) && seg != HERE && seg != UP
    ensures Names(out + [seg]) && Shaped(abs, out + [seg], ups)
    ensures Rewinds(abs, out + [seg], ups, stack + [|Render(abs, out)|])
  {
    RewindsPush(abs, out, ups, stack, seg);
  }

  lemma RewindsPop(abs: bool, out: seq<Str>, ups: nat, stack: seq<nat>)
    requires Rewinds(abs, out, ups, stack) && stack != []
    ensures Rewinds(abs, out[..|out| - 1], ups, stack[..|stack| - 1])
    ensures stack[|stack| - 1] == |Render(abs, out[..|out| - 1])|
  {
    var front, less := out[..|out| - 1], stack[..|stack| - 1];
    forall i | 0 <= i < |less|
      ensures less[i] == |Render(abs, front[..ups + i])|
    {
      assert front[..ups + i] == out[..ups + i];
    }
  }

  // What ".." does to the components, the stack and the rendering: rewind over the last real one,
  // stay at the root, or keep the "..".
  lemma UpSteps(abs: bool, out: seq<Str>, ups: nat, stack: seq<nat>)
    requires Names(out) && Shaped(abs, out, ups) && Rewinds(abs, out, ups, stack)
    ensures var out', ups' := Step(abs, out, UP), UpsAfter(abs, out, ups, UP);
            && Names(out') && Shaped(abs, out', ups')
            && Rewinds(abs, out', ups', if |stack| > 0 then stack[..|stack| - 1] else [])
            && if |stack| > 0 then
                 stack[|stack| - 1] <= |Render(abs, out)|
                 && Render(abs, out') == Render(abs, out)[..stack[|stack| - 1]]
               else if abs then Render(abs, out') == Render(abs, out)
               else Render(abs, out') == Render(abs, out) + (if |Render(abs, out)| == 0 then [] else [SEP]) + UP
    ensures |stack| > 0 ==> out != []
    ensures !abs ==> (out == [] <==> |Render(abs, out)| == 0)
  {
    StepShaped(abs, out, ups, UP);
    RenderSnoc(abs, out, UP);
    if |stack| > 0 {
      RewindsPop(abs, out, ups, stack);
      RenderFront(abs, out);
    }
    hide Render;
  }

  // The first segment of the unread text, and what is left after the separators behind it.
  lemma SegmentsAhead(s: Str, n: nat, m: nat)
    requires s != [] && s[0] != SEP && n == NameRun(s) && m == SepRun(s[n..])
    ensures n > 0 && n + m <= |s| && Segments(s) == [s[..n]] + Segments(s[n + m..])
  {
    var rest := s[n..];
    SegmentsSkip(rest);
    assert rest[m..] == s[n + m..];
  }

  lemma {:induction false} SegmentsSkip(s: Str)
    ensures Segments(s) == Segments(s[SepRun(s)..])
  {
    hide NameRun;
    if s != [] && s[0] == SEP {
      SegmentsSkip(s[1..]);
      assert s[1..][SepRun(s[1..])..] == s[SepRun(s)..];
    }
  }

  lemma SegmentsPastOne(s: Str)
    requires s != [] && s[0] == SEP
    ensures Segments(s) == Segments(s[1..])
  {
    hide NameRun, SepRun;
  }

  lemma SegmentsPastRoot(s: Str, read: nat)
    requires read == if IsAbsolute(s) then 1 + SepRun(s[1..]) else 0
    ensures read <= |s| && Segments(s[read..]) == Segments(s)
  {
    hide Segments, SepRun, NameRun;
    if IsAbsolute(s) {
      SegmentsPastOne(s);
      SegmentsSkip(s[1..]);
      assert s[1..][read - 1..] == s[read..];
    } else {
      assert s[0..] == s;
    }
  }

  // "a/" n times over.
  function DeepPath(n: nat): Str {
    if n == 0 then [] else [97, SEP] + DeepPath(n - 1)
  }

  function DeepSegments(n: nat): seq<Str> {
    if n == 0 then [] else [[97]] + DeepSegments(n - 1)
  }

  lemma DeepPathIsRelative(n: nat)
    ensures !IsAbsolute(DeepPath(n))
  {
  }

  lemma {:induction false} DeepPathSplits(n: nat)
    ensures Segments(DeepPath(n)) == DeepSegments(n)
  {
    if n > 0 {
      var rest := DeepPath(n - 1);
      DeepPathSplits(n - 1);
      hide NameRun, Segments;
      assert DeepPath(n) == [97] + ([SEP] + rest);
      SegmentsOfName([97], [SEP] + rest);
      SegmentsPastOne([SEP] + rest);
    }
  }

  lemma {:induction false} DeepSegmentsPile(out: seq<Str>, n: nat, room: nat)
    requires |out| <= room
    ensures Shallow(false, out, 0, DeepSegments(n), room) <==> |out| + n <= room
    decreases n
  {
    if n > 0 {
      ShallowStep(false, out, 0, [97], DeepSegments(n - 1), room);
      if |out| < room {
        DeepSegmentsPile(out + [[97]], n - 1, room);
      }
    }
  }

  // A path of n names needs a stack of n entries; one of seventeen is too deep for the first one.
  lemma DeepPathIff(n: nat, growths: nat)
    ensures StackSuffices(DeepPath(n), growths) <==> n <= Doubled(STACK_CAP, growths)
    ensures !StackSuffices(DeepPath(17), 0)
  {
    hide Shallow, Segments;
    DeepPathIsRelative(n);
    DeepPathIsRelative(17);
    DeepPathSplits(n);
    DeepSegmentsPile([], n, Doubled(STACK_CAP, growths));
    DeepPathSplits(17);
    DeepSegmentsPile([], 17, Doubled(STACK_CAP, 0));
  }

  // Reading one segment and the separators behind it is one step of the resolution.
  lemma NextSegment(abs: bool, out: seq<Str>, s: Str, read: nat, segEnd: nat, next: nat)
    requires read < |s| && s[read] != SEP
    requires segEnd == read + NameRun(s[read..]) && next == segEnd + SepRun(s[segEnd..])
    ensures read < segEnd <= next <= |s| && Name(s[read..segEnd])
    ensures segEnd < |s| ==> segEnd < next
    ensures next < |s| ==> s[next] != SEP
    ensures Resolve(abs, out, Segments(s[read..])) == Resolve(abs, Step(abs, out, s[read..segEnd]), Segments(s[next..]))
    ensures Segments(s[read..]) == [s[read..segEnd]] + Segments(s[next..])
  {
    hide Step, Resolve, Segments;
    var ahead, n := s[read..], NameRun(s[read..]);
    assert ahead[n..] == s[segEnd..] && ahead[..n] == s[read..segEnd];
    SegmentsAhead(ahead, n, next - segEnd);
    assert ahead[next - read..] == s[next..];
    ResolveStep(abs, out, s[read..segEnd], Segments(s[next..]));
  }

  lemma ShallowStep(abs: bool, out: seq<Str>, ups: nat, seg: Str, rest: seq<Str>, room: nat)
    ensures Shallow(abs, out, ups, [seg] + rest, room)
            == (|Step(abs, out, seg)| <= UpsAfter(abs, out, ups, seg) + room
                && Shallow(abs, Step(abs, out, seg), UpsAfter(abs, out, ups, seg), rest, room))
  {
    hide Step, UpsAfter;
    assert ([seg] + rest)[1..] == rest;
  }

  lemma ShallowDone(abs: bool, out: seq<Str>, ups: nat, s: Str, room: nat)
    requires s == []
    ensures Shallow(abs, out, ups, Segments(s), room)
  {
  }

  lemma ResolveStep(abs: bool, out: seq<Str>, seg: Str, rest: seq<Str>)
    ensures Resolve(abs, out, [seg] + rest) == Resolve(abs, Step(abs, out, seg), rest)
  {
    assert ([seg] + rest)[1..] == rest;
  }

  lemma ResolveDone(abs: bool, out: seq<Str>, s: Str)
    requires s == []
    ensures Resolve(abs, out, Segments(s)) == out
  {
  }

  lemma SameTail(s: Str, t: Str, a: nat, b: nat)
    requires a <= b <= |s| == |t| && s[a..] == t[a..]
    ensures s[b..] == t[b..] && s[a..b] == t[a..b]
  {
    assert s[b..] == s[a..][b - a..] && t[b..] == t[a..][b - a..];
    assert s[a..b] == s[a..][..b - a] && t[a..b] == t[a..][..b - a];
  }

  lemma {:induction false} TrimLocal(s: Str, t: Str, n: nat)
    requires n <= |s| && n <= |t| && s[..n] == t[..n]
    ensures TrimTo1(s, n) == TrimTo1(t, n)
  {
    if n > 1 {
      assert s[n - 1] == s[..n][n - 1] && t[n - 1] == t[..n][n - 1];
      assert s[..n - 1] == s[..n][..n - 1] && t[..n - 1] == t[..n][..n - 1];
      TrimLocal(s, t, n - 1);
    }
  }

  lemma DirectoryIs(s: Str, end: nat, size: nat)
    requires end == TrimTo0(s, |s|) && size <= |s|
    requires end == 0 ==> size == if |s| > 0 then 1 else 0
    requires end > 0 ==> var start := NameStart(s[..end]);
                         size == if start == 0 then 0
                                 else if end == |s| then TrimTo1(s[..start], start)
                                 else end
    ensures PathSpec.Directory(s) == s[..size]
  {
    if end == |s| {
      assert s[..end] == s;
      var start := NameStart(s);
      TrimLocal(s, s[..start], start);
    }
  }

  lemma LastDotIs(f: Str, i: nat)
    requires 0 < i < |f| && f[i] == DOT && forall k :: i < k < |f| ==> f[k] != DOT
    ensures LastDot(f) == i
  {
  }

  class Path {
    var alive: bool
    var ptr: array<bv8>
    var len: nat
    var cap: nat
    var owned: bool
    var invalid: bool
    var normalized: bool

    ghost function Content(): Str
      reads this, ptr
      requires len <= ptr.Length
    {
      ptr[..len]
    }

    ghost predicate Valid()
      reads this, ptr
    {
      alive ==>
        && len < cap == ptr.Length <= LEN_MAX && DEFAULT_CAP <= cap
        && ptr[len] == 0
        && (normalized ==> Settled(Content()))
    }

    // The fields of a live path fit the one word the source keeps them in, and read back from it.
    lemma MetaReadsBack()
      requires Valid() && alive
      ensures var m := W.Meta(len, cap, owned, invalid, normalized);
              && W.IsLive(m) && W.Len(m) == len && W.Cap(m) == cap && (W.Has(m, W.OWNED) <==> owned)
              && (W.Has(m, W.INVALID) <==> invalid) && (W.Has(m, W.NORMALIZED) <==> normalized)
    {
      hide W.Meta, W.IsLive, W.Len, W.Cap, W.Has, Settled;
      W.MetaReads(len, cap, owned, invalid, normalized);
    }

    // Storage that is not a path yet.
    constructor ()
      ensures Valid() && !alive
    {
      alive, len, cap, owned, invalid, normalized := false, 0, 0, false, false, false;
      ptr := new bv8[0];
    }

    // nth_setup_path; `memory` says whether allocation succeeds
    method Setup(memory: bool) returns (r: Result)
      requires Valid()
      modifies this
      ensures Valid() && r == (if old(alive) then AlreadyInitialized else if memory then Ok else OutOfMemory)
      ensures r == Ok ==> alive && fresh(ptr) && Content() == [] && normalized && !invalid && owned
      ensures r != Ok ==> alive == old(alive) && ptr == old(ptr) && len == old(len) && normalized == old(normalized)
      ensures r != Ok ==> cap == old(cap) && owned == old(owned) && invalid == old(invalid)
    {
      if alive {
        return AlreadyInitialized;
      }
      if !memory {
        return OutOfMemory;
      }
      ptr := new bv8[DEFAULT_CAP];
      ptr[0] := 0;
      alive, len, cap, owned, invalid, normalized := true, 0, DEFAULT_CAP, true, false, true;
      return Ok;
    }

    // nth_setup_path_cstr and nth_setup_path_view
    method SetupFrom(str: Str, memory: bool) returns (r: Result)
      requires Valid() && |str| < LEN_MAX
      modifies this
      ensures Valid() && r == (if old(alive) then AlreadyInitialized else if memory then Ok else OutOfMemory)
      ensures r == Ok ==> alive && fresh(ptr) && Content() == str && !normalized && !invalid && owned
      ensures r != Ok ==> alive == old(alive) && ptr == old(ptr) && len == old(len) && normalized == old(normalized)
      ensures r != Ok ==> cap == old(cap) && owned == old(owned) && invalid == old(invalid)
    {
      if alive {
        return AlreadyInitialized;
      }
      if !memory {
        return OutOfMemory;
      }
      cap := if |str| + 1 > DEFAULT_CAP then |str| + 1 else DEFAULT_CAP;
      ptr := new bv8[cap];
      WriteAt(ptr, 0, str);
      ptr[|str|] := 0;
      alive, len, owned, invalid, normalized := true, |str|, true, false, false;
      return Ok;
    }

    // nth_teardown_path
    method Teardown()
      requires Valid()
      modifies this
      ensures Valid() && !alive
    {
      alive := false;
    }

    // memcpy of a string that does not overlap the buffer
    static method WriteAt(buf: array<bv8>, at: nat, str: Str)
      requires at + |str| <= buf.Length
      modifies buf
      ensures buf[..] == old(buf[..at]) + str + old(buf[at + |str|..])
    {
      for i := 0 to |str|
        invariant buf[..] == old(buf[..at]) + str[..i] + old(buf[at + i..])
      {
        buf[at + i] := str[i];
      }
      assert str[..|str|] == str;
    }

    // path_grow
    method Reserve(needed: nat, memory: bool) returns (r: Result)
      requires Valid() && alive && needed < LEN_MAX
      modifies this`ptr, this`cap, this`invalid
      ensures Valid() && Content() == old(Content())
      ensures ptr == old(ptr) || fresh(ptr)
      ensures r == if needed < old(cap) || (owned && memory) then Ok else OutOfMemory
      ensures r == Ok ==> needed < cap && invalid == old(invalid)
      ensures r == Ok && needed < old(cap) ==> ptr == old(ptr)
      ensures r != Ok ==> invalid && ptr == old(ptr)
      ensures cap == if r == Ok && needed >= old(cap) then GrownCap(old(cap), needed) else old(cap)
    {
      hide Settled;
      if needed < cap {
        return Ok;
      }
      if !owned {
        invalid := true;
        return OutOfMemory;
      }
      var newCap := GrownCap(cap, needed);
      if !memory {
        invalid := true;
        return OutOfMemory;
      }
      var grown := new bv8[newCap];
      WriteAt(grown, 0, ptr[..]);
      assert grown[..len] == ptr[..len] && grown[len] == ptr[len];
      ptr, cap := grown, newCap;
      assert Content() == old(Content());
      return Ok;
    }

    // Overwrite the buffer from `at` on with a string and its terminator.
    method Fill(at: nat, str: Str)
      requires alive && at + |str| < cap == ptr.Length <= LEN_MAX && DEFAULT_CAP <= cap
      modifies this`len, this`normalized, ptr
      ensures Valid() && !normalized && Content() == old(ptr[..at]) + str
    {
      WriteAt(ptr, at, str);
      ptr[at + |str|] := 0;
      len := at + |str|;
      normalized := false;
      assert Content() == old(ptr[..at]) + str;
    }

    // nth_path_setn
    method SetN(str: Str, memory: bool)
      requires Valid() && alive && |str| < LEN_MAX
      modifies this, ptr
      ensures Valid() && alive && (ptr == old(ptr) || fresh(ptr))
      ensures var fits := |str| < old(cap) || (old(owned) && memory);
              && Content() == (if fits then str else old(Content()))
              && normalized == (if fits then false else old(normalized))
              && invalid == (old(invalid) || !fits)
    {
      var r := Reserve(|str|, memory);
      if r != Ok {
        return;
      }
      Fill(0, str);
    }

    // nth_path_appendn
    method AppendN(str: Str, memory: bool)
      requires Valid() && alive && |Append(Content(), str)| < LEN_MAX
      modifies this, ptr
      ensures Valid() && alive && (ptr == old(ptr) || fresh(ptr))
      ensures var joined := Append(old(Content()), str);
              var fits := str == [] || |joined| < old(cap) || (old(owned) && memory);
              && Content() == (if fits then joined else old(Content()))
              && normalized == (if fits && str != [] then false else old(normalized))
              && invalid == (old(invalid) || !fits)
    {
      hide Settled;
      if |str| == 0 {
        return;
      }
      var cur := len;
      var needSep := cur > 0 && ptr[cur - 1] != SEP;
      var newLen := cur + (if needSep then 1 else 0) + |str|;
      var r := Reserve(newLen, memory);
      if r != Ok {
        return;
      }
      if needSep {
        ptr[cur] := SEP;
        cur := cur + 1;
      }
      assert ptr[..cur] == old(Content()) + if needSep then [SEP] else [];
      Fill(cur, str);
    }

    // nth_path_clear
    method Clear()
      requires Valid() && alive
      modifies this, ptr
      ensures Valid() && alive && ptr == old(ptr) && Content() == [] && normalized && !invalid
    {
      ptr[0] := 0;
      len := 0;
      normalized, invalid := true, false;
    }

    // nth_path_copy
    method Copy(src: Path, memory: bool)
      requires Valid() && alive && src.Valid() && src.alive && (src == this || src.ptr != ptr)
      modifies this, ptr
      ensures Valid() && alive && (ptr == old(ptr) || fresh(ptr))
      ensures src != this ==> src.Valid() && src.Content() == old(src.Content())
      ensures var fits := old(src.len) < old(cap) || (old(owned) && memory);
              && Content() == (if fits then old(src.Content()) else old(Content()))
              && normalized == (if fits then old(src.normalized) else old(normalized))
              && invalid == (old(invalid) || !fits)
    {
      hide Settled;
      var n := src.len;
      var r := Reserve(n, memory);
      if r != Ok {
        return;
      }
      WriteAt(ptr, 0, src.ptr[..n]);
      ptr[n] := 0;
      len := n;
      assert Content() == old(src.Content());
      normalized := src.normalized;
    }

    /* Normalising */

    // The scans over a segment and over separators.
    method ScanName(from: nat) returns (to: nat)
      requires from <= len <= ptr.Length
      ensures to == from + NameRun(ptr[from..len]) <= len
    {
      to := from;
      while to < len && ptr[to] != SEP
        invariant from <= to <= len
        invariant to + NameRun(ptr[to..len]) == from + NameRun(ptr[from..len])
      {
        assert ptr[to..len][1..] == ptr[to + 1..len];
        to := to + 1;
      }
      assert to < len ==> ptr[to..len][0] == SEP;
      assert NameRun(ptr[to..len]) == 0;
    }

    method ScanSeps(from: nat) returns (to: nat)
      requires from <= len <= ptr.Length
      ensures to == from + SepRun(ptr[from..len]) <= len
    {
      to := from;
      while to < len && ptr[to] == SEP
        invariant from <= to <= len
        invariant to + SepRun(ptr[to..len]) == from + SepRun(ptr[from..len])
      {
        assert ptr[to..len][1..] == ptr[to + 1..len];
        to := to + 1;
      }
    }

    // memmove towards the front
    method MoveDown(dst: nat, src: nat, n: nat)
      requires dst <= src && src + n <= ptr.Length
      modifies ptr
      ensures ptr[..dst] == old(ptr[..dst]) && ptr[dst..dst + n] == old(ptr[src..src + n])
      ensures forall k :: dst + n <= k < ptr.Length ==> ptr[k] == old(ptr[k])
    {
      for i := 0 to n
        invariant ptr[..dst] == old(ptr[..dst]) && ptr[dst..dst + i] == old(ptr[src..src + i])
        invariant forall k :: dst + i <= k < ptr.Length ==> ptr[k] == old(ptr[k])
      {
        ptr[dst + i] := ptr[src + i];
      }
    }

    // Put a separator, when something is there to separate, at the write cursor.
    method PutSep(write: nat, rootEnd: nat) returns (write': nat)
      requires rootEnd <= write < ptr.Length
      modifies ptr
      ensures write' == if write > rootEnd then write + 1 else write
      ensures ptr[..write'] == old(ptr[..write]) + if write > rootEnd then [SEP] else []
      ensures forall k :: write' <= k < ptr.Length ==> ptr[k] == old(ptr[k])
    {
      write' := write;
      if write > rootEnd {
        ptr[write'] := SEP;
        write' := write' + 1;
      }
    }

    // What one pass of the loop is told and leaves: the text before the write cursor renders the
    // components, the rewind stack matches them, and the cursor is behind the text not yet read.
    ghost predicate Rendered(absolute: bool, out: seq<Str>, ups: nat, write: nat, stack: Stack)
      reads this, ptr
    {
      && Names(out) && Shaped(absolute, out, ups) && Rewinds(absolute, out, ups, stack.entries)
      && |stack.entries| <= stack.cap && 0 < stack.cap
      && write <= ptr.Length && ptr[..write] == Render(absolute, out)
    }

    // "..": rewind over the last real component, or keep it, or drop it at the root.
    method GoUp(absolute: bool, segStart: nat, write: nat, stack: Stack, ghost out: seq<Str>, ghost ups: nat)
      returns (write': nat, stack': Stack)
      requires segStart + 2 <= ptr.Length && Rendered(absolute, out, ups, write, stack)
      requires write <= segStart && (out != [] ==> write < segStart)
      modifies ptr
      ensures Rendered(absolute, Step(absolute, out, UP), UpsAfter(absolute, out, ups, UP), write', stack')
      ensures write' <= segStart + 2 && stack'.cap == stack.cap && stack'.growths == stack.growths
      ensures forall k :: segStart + 2 <= k < ptr.Length ==> ptr[k] == old(ptr[k])
    {
      var entries := stack.entries;
      UpSteps(absolute, out, ups, entries);
      hide Render, Shaped, Rewinds, Step, UpsAfter, Names;
      write', stack' := write, stack;
      if |entries| > 0 {
        write' := entries[|entries| - 1];
        stack' := stack.(entries := entries[..|entries| - 1]);
        assert ptr[..write'] == ptr[..write][..write'];
        assert ptr[..write'] == Render(absolute, Step(absolute, out, UP));
      } else if !absolute {
        write' := PutUp(segStart, write);
        assert ptr[..write'] == Render(absolute, Step(absolute, out, UP));
      }
    }

    // A ".." that cancels nothing is kept.
    method PutUp(segStart: nat, write: nat) returns (write': nat)
      requires segStart + 2 <= ptr.Length && write <= segStart && (write > 0 ==> write < segStart)
      modifies ptr
      ensures write <= write' <= segStart + 2
      ensures ptr[..write'] == old(ptr[..write]) + (if write == 0 then [] else [SEP]) + UP
      ensures forall k :: segStart + 2 <= k < ptr.Length ==> ptr[k] == old(ptr[k])
    {
      write' := PutSep(write, 0);
      ptr[write'] := DOT;
      ptr[write' + 1] := DOT;
      write' := write' + 2;
      assert ptr[..write'] == old(ptr[..write]) + (if write == 0 then [] else [SEP]) + UP;
    }

    method CopyDown(write: nat, rootEnd: nat, segStart: nat, segEnd: nat) returns (write': nat)
      requires rootEnd <= write <= segStart < segEnd <= ptr.Length && (write > rootEnd ==> write < segStart)
      modifies ptr
      ensures write' == write + (if write > rootEnd then 1 else 0) + (segEnd - segStart)
      ensures ptr[..write'] == old(ptr[..write]) + (if write > rootEnd then [SEP] else []) + old(ptr[segStart..segEnd])
      ensures forall k :: segEnd <= k < ptr.Length ==> ptr[k] == old(ptr[k])
    {
      var at := PutSep(write, rootEnd);
      assert ptr[segStart..segEnd] == old(ptr[segStart..segEnd]);
      MoveDown(at, segStart, segEnd - segStart);
      write' := at + (segEnd - segStart);
      assert ptr[..write'] == ptr[..at] + ptr[at..write'];
    }

    // A real name: remember where to rewind to, separate, copy the name down. Without room on the
    // stack only the separator has been put.
    method KeepName(absolute: bool, segStart: nat, segEnd: nat, write: nat, stack: Stack,
                    ghost out: seq<Str>, ghost ups: nat)
      returns (ok: bool, write': nat, stack': Stack)
      requires segStart < segEnd <= ptr.Length && Rendered(absolute, out, ups, write, stack)
      requires Name(ptr[segStart..segEnd]) && ptr[segStart..segEnd] != HERE && ptr[segStart..segEnd] != UP
      requires write <= segStart && (out != [] ==> write < segStart)
      modifies ptr
      ensures ok <==> |stack.entries| < Doubled(stack.cap, stack.growths)
      ensures ok ==> Rendered(absolute, out + [old(ptr[segStart..segEnd])], ups, write', stack') && write' <= segEnd
      ensures Doubled(stack'.cap, stack'.growths) == Doubled(stack.cap, stack.growths)
      ensures forall k :: segEnd <= k < ptr.Length ==> ptr[k] == old(ptr[k])
    {
      hide Render, Names, Shaped, Rewinds, Name;
      ghost var seg := ptr[segStart..segEnd];
      RenderSnoc(absolute, out, seg);
      stack' := stack;
      if |stack.entries| == stack.cap {
        if stack.growths == 0 {
          write' := PutSep(write, if absolute then 1 else 0);
          return false, write', stack;
        }
        stack' := Stack(stack.entries, 2 * stack.cap, stack.growths - 1);
      }
      ok := true;
      ShapedPush(absolute, out, ups, stack.entries, seg);
      write' := CopyDown(write, if absolute then 1 else 0, segStart, segEnd);
      stack' := stack'.(entries := stack.entries + [write]);
    }

    // The body of the loop for the segment at [segStart, segEnd). The write cursor ends no
    // further than the segment does, so nothing unread is overwritten.
    method Process(absolute: bool, segStart: nat, segEnd: nat, write: nat, stack: Stack,
                   ghost out: seq<Str>, ghost ups: nat)
      returns (ok: bool, write': nat, stack': Stack)
      requires segStart < segEnd <= ptr.Length && Name(ptr[segStart..segEnd])
      requires Rendered(absolute, out, ups, write, stack)
      requires write <= segStart && (out != [] ==> write < segStart)
      modifies ptr
      ensures var seg := old(ptr[segStart..segEnd]);
              var out', ups' := Step(absolute, out, seg), UpsAfter(absolute, out, ups, seg);
              && (ok ==> Rendered(absolute, out', ups', write', stack') && write' <= segEnd)
              && (ok <==> |out'| <= ups' + Doubled(stack.cap, stack.growths))
      ensures Doubled(stack'.cap, stack'.growths) == Doubled(stack.cap, stack.growths)
      ensures forall k :: segEnd <= k < ptr.Length ==> ptr[k] == old(ptr[k])
    {
      StackCounts(absolute, out, ups, write, stack);
      hide Rendered, Name;
      ok := true;
      ghost var seg := ptr[segStart..segEnd];
      var segLen := segEnd - segStart;
      assert segLen == 1 ==> seg == [ptr[segStart]];
      assert segLen == 2 ==> seg == [ptr[segStart], ptr[segStart + 1]];
      if segLen == 1 && ptr[segStart] == DOT {
        write', stack' := write, stack;
      } else if segLen == 2 && ptr[segStart] == DOT && ptr[segStart + 1] == DOT {
        write', stack' := GoUp(absolute, segStart, write, stack, out, ups);
        StackCounts(absolute, Step(absolute, out, seg), UpsAfter(absolute, out, ups, seg), write', stack');
      } else {
        ok, write', stack' := KeepName(absolute, segStart, segEnd, write, stack, out, ups);
      }
    }

    lemma StackCounts(absolute: bool, out: seq<Str>, ups: nat, write: nat, stack: Stack)
      requires Rendered(absolute, out, ups, write, stack)
      ensures |out| == ups + |stack.entries| && |stack.entries| <= stack.cap <= Doubled(stack.cap, stack.growths)
    {
    }

    lemma RenderedStart(absolute: bool)
      requires absolute ==> 0 < ptr.Length && ptr[0] == SEP
      ensures forall growths: nat :: Rendered(absolute, [], 0, if absolute then 1 else 0, Stack([], STACK_CAP, growths))
    {
      assert Render(absolute, []) == if absolute then [SEP] else [];
    }

    static lemma SliceOfPrefix(a: array<bv8>, n: nat, i: nat, j: nat)
      requires i <= j <= n <= a.Length
      ensures a[..n][i..j] == a[i..j]
    {
      forall k | 0 <= k < j - i
        ensures a[..n][i..j][k] == a[i..j][k]
      {
      }
    }

    // One pass of the loop: find the segment and the separators behind it, and process it.
    method Pass(absolute: bool, read: nat, write: nat, stack: Stack,
                ghost orig: Str, ghost out: seq<Str>, ghost ups: nat)
      returns (ok: bool, read': nat, write': nat, stack': Stack, ghost out': seq<Str>, ghost ups': nat)
      requires write <= read < len <= ptr.Length && |orig| == len && (out != [] ==> write < read)
      requires ptr[read..len] == orig[read..] && ptr[read] != SEP
      requires Rendered(absolute, out, ups, write, stack)
      modifies ptr
      ensures read < read' <= len && ptr[read'..len] == orig[read'..]
      ensures forall k :: len <= k < ptr.Length ==> ptr[k] == old(ptr[k])
      ensures ok ==> write' <= read' && (read' < len ==> write' < read' && ptr[read'] != SEP)
      ensures ok ==> Rendered(absolute, out', ups', write', stack')
      ensures Doubled(stack'.cap, stack'.growths) == Doubled(stack.cap, stack.growths)
      ensures Resolve(absolute, out', Segments(orig[read'..])) == Resolve(absolute, out, Segments(orig[read..]))
      ensures var room := Doubled(stack.cap, stack.growths);
              Shallow(absolute, out, ups, Segments(orig[read..]), room)
              == (ok && Shallow(absolute, out', ups', Segments(orig[read'..]), room))
    {
      hide Rendered, Step, UpsAfter, Resolve, Segments, Render, Shallow, Doubled;
      var segEnd := ScanName(read);
      SameTail(ptr[..len], orig, read, segEnd);
      read' := ScanSeps(segEnd);
      NextSegment(absolute, out, orig, read, segEnd, read');
      ghost var seg := ptr[read..segEnd];
      ghost var before := ptr[..len];
      SliceOfPrefix(ptr, len, read, segEnd);
      ok, write', stack' := Process(absolute, read, segEnd, write, stack, out, ups);
      out', ups' := Step(absolute, out, seg), UpsAfter(absolute, out, ups, seg);
      ShallowStep(absolute, out, ups, seg, Segments(orig[read'..]), Doubled(stack.cap, stack.growths));
      SameTail(before, orig, read, read');
      assert ptr[read'..len] == before[read'..];
    }

    // The loop: the text still unread is the original text, the text written renders the
    // components of the text read, and the write cursor stays behind the read cursor.
    method Rewrite(absolute: bool, start: nat, growths: nat, ghost orig: Str) returns (ok: bool, write: nat)
      requires len < ptr.Length && start <= len && |orig| == len && ptr[start..len] == orig[start..]
      requires absolute ==> 0 < start && ptr[0] == SEP
      requires start < len ==> ptr[start] != SEP
      modifies ptr
      ensures ok <==> Shallow(absolute, [], 0, Segments(orig[start..]), Doubled(STACK_CAP, growths))
      ensures ok ==> write <= len && ptr[..write] == Render(absolute, Resolve(absolute, [], Segments(orig[start..])))
      ensures forall k :: len <= k < ptr.Length ==> ptr[k] == old(ptr[k])
    {
      hide Rendered, Step, UpsAfter, Resolve, Segments, Render, Shallow, Doubled;
      RenderedStart(absolute);
      var read, stack := start, Stack([], STACK_CAP, growths);
      ghost var room := Doubled(STACK_CAP, growths);
      write := if absolute then 1 else 0;
      ghost var out: seq<Str>, ups := [], 0;
      while read < len
        invariant write <= read <= len && (out != [] && read < len ==> write < read)
        invariant ptr[read..len] == orig[read..] && (read < len ==> ptr[read] != SEP)
        invariant Rendered(absolute, out, ups, write, stack)
        invariant Resolve(absolute, out, Segments(orig[read..])) == Resolve(absolute, [], Segments(orig[start..]))
        invariant Doubled(stack.cap, stack.growths) == room
        invariant Shallow(absolute, out, ups, Segments(orig[read..]), room)
                  == Shallow(absolute, [], 0, Segments(orig[start..]), room)
        invariant forall k :: len <= k < ptr.Length ==> ptr[k] == old(ptr[k])
      {
        ok, read, write, stack, out, ups := Pass(absolute, read, write, stack, orig, out, ups);
        if !ok {
          return;
        }
      }
      ok := true;
      ShallowDone(absolute, out, ups, orig[read..], room);
      ResolveDone(absolute, out, orig[read..]);
      RenderedIs(absolute, out, ups, write, stack);
    }

    lemma RenderedIs(absolute: bool, out: seq<Str>, ups: nat, write: nat, stack: Stack)
      requires Rendered(absolute, out, ups, write, stack)
      ensures write <= ptr.Length && ptr[..write] == Render(absolute, out)
    {
    }

    // The separators a path begins with.
    method SkipRoot() returns (absolute: bool, read: nat)
      requires len <= ptr.Length
      modifies ptr
      ensures ptr[..] == old(ptr[..]) && absolute == IsAbsolute(Content())
      ensures read == (if absolute then 1 + SepRun(Content()[1..]) else 0) && read <= len
      ensures absolute ==> 0 < read
      ensures read < len ==> ptr[read] != SEP
    {
      absolute, read := false, 0;
      ghost var was := ptr[..];
      if len > 0 && ptr[0] == SEP {
        absolute := true;
        ptr[0] := SEP;
        assert ptr[..] == was;
        read := ScanSeps(1);
        assert ptr[1..len] == Content()[1..];
      }
    }

    // nth_path_normalize; `memory` says whether the rewind stack can be allocated, and `growths` how
    // often it can be doubled. Without a stack nothing changes; with one that cannot grow to the depth
    // of the path the content, still of its old length, may be half rewritten.
    method Normalize(memory: bool, growths: nat)
      requires Valid() && alive
      modifies this`len, this`normalized, this`invalid, ptr
      ensures var done := memory && StackSuffices(old(Content()), growths);
              && Valid() && normalized == (old(normalized) || done)
              && invalid == (old(invalid) || !(old(normalized) || done))
              && (!old(normalized) && done ==> Content() == PathSpec.Normalize(old(Content())))
      ensures old(normalized) || !memory ==> Content() == old(Content())
      ensures !normalized ==> len == old(len)
    {
      hide Segments, Resolve, Render, PathSpec.Normalize, Shallow, Doubled;
      if normalized {
        return;
      }
      ghost var orig := Content();
      var absolute, read := SkipRoot();
      if !memory {
        invalid := true;
        return;
      }
      SegmentsPastRoot(orig, read);
      var ok, write := Rewrite(absolute, read, growths, orig);
      if !ok {
        invalid := true;
        return;
      }
      NormalizeIs(orig, ptr[..write]);
      if write == 0 {
        ptr[write] := DOT;
        write := write + 1;
      }
      ptr[write] := 0;
      len := write;
      normalized := true;
      assert Content() == PathSpec.Normalize(orig);
      NormalizeIdempotent(orig);
    }

    /* Taking apart. A view is the bytes it shows. */

    // The scan back over the last name.
    method BackOverName(end: nat) returns (start: nat)
      requires end <= ptr.Length
      ensures start == NameStart(ptr[..end])
    {
      start := end;
      while start > 0 && ptr[start - 1] != SEP
        invariant start <= end
        invariant NameStart(ptr[..end]) <= start && forall i :: start <= i < end ==> ptr[i] != SEP
      {
        start := start - 1;
      }
      assert start > 0 ==> ptr[..end][start - 1] == SEP;
    }

    // The scan back over separators, stopping at `floor`.
    method BackOverSeps(end: nat, floor: nat) returns (start: nat)
      requires floor <= 1 && end <= ptr.Length
      ensures start == if floor == 0 then TrimTo0(ptr[..end], end) else TrimTo1(ptr[..end], end)
    {
      start := end;
      while start > floor && ptr[start - 1] == SEP
        invariant start <= end
        invariant floor == 0 ==> TrimTo0(ptr[..end], start) == TrimTo0(ptr[..end], end)
        invariant floor == 1 ==> TrimTo1(ptr[..end], start) == TrimTo1(ptr[..end], end)
      {
        start := start - 1;
      }
    }

    // nth_path_filename; the view is null when there is no name
    method Filename() returns (view: View)
      requires Valid() && alive
      ensures Shown(view) == PathSpec.Filename(Content()) && (view == NullView <==> Shown(view) == [])
    {
      if len == 0 || ptr[len - 1] == SEP {
        return NullView;
      }
      var start := BackOverName(len);
      view := View(ptr[start..len]);
    }

    // nth_path_directory; never a null view, though it may be an empty one
    method Directory() returns (view: View)
      requires Valid() && alive
      ensures view == View(PathSpec.Directory(Content()))
    {
      ghost var s := Content();
      var end := BackOverSeps(len, 0);
      var size := end;
      if end == 0 {
        size := if len > 0 then 1 else 0;
      } else {
        var start := BackOverName(end);
        SliceOfPrefix(ptr, len, 0, end);
        if start == 0 {
          size := 0;
        } else if end == len {
          size := BackOverSeps(start, 1);
          SliceOfPrefix(ptr, len, 0, start);
        }
      }
      DirectoryIs(s, end, size);
      SliceOfPrefix(ptr, len, 0, size);
      view := View(ptr[..size]);
    }

    // Whether the first i bytes are all dots.
    static method OnlyDots(f: Str, i: nat) returns (all: bool)
      requires i <= |f|
      ensures all <==> AllDots(f[..i])
    {
      var j := 0;
      while j < i && f[j] == DOT
        invariant j <= i && forall k :: 0 <= k < j ==> f[k] == DOT
      {
        j := j + 1;
      }
      all := j == i;
      assert j < i ==> f[..i][j] != DOT;
    }

    // nth_path_extension; the view is null when there is none
    method Extension() returns (view: View)
      requires Valid() && alive
      ensures Shown(view) == PathSpec.Extension(Content()) && (view == NullView <==> Shown(view) == [])
    {
      hide NameStart, Valid;
      var fname := Filename();
      if fname == NullView {
        return NullView;
      }
      var f := fname.bytes;
      var i := |f|;
      while i > 1
        invariant i <= |f| && (|f| > 0 ==> i > 0)
        invariant forall k :: i <= k < |f| && k > 0 ==> f[k] != DOT
      {
        i := i - 1;
        if f[i] == DOT {
          LastDotIs(f, i);
          var dots := OnlyDots(f, i);
          return if dots then NullView else View(f[i..]);
        }
      }
      return NullView;
    }

    // nth_path_stem; the view is null when there is no name
    method Stem() returns (view: View)
      requires Valid() && alive
      ensures Shown(view) == PathSpec.Stem(Content()) && (view == NullView <==> PathSpec.Filename(Content()) == [])
    {
      var fname := Filename();
      var ext := Extension();
      if fname == NullView {
        return NullView;
      }
      view := View(fname.bytes[..|fname.bytes| - |Shown(ext)|]);
    }
  }
}
