/** The logger as one thread runs it: the buffer, its cursor and the calls that change them
    (src/nth_log.c). The interleaving of several threads is LogProtocol's.
  */
module Log {
  import opened LogProtocol

  datatype InitResult = Ok | InvalidArgument | OutOfMemory

  const BUFFER_DEFAULT: nat := 65536
  const LEVEL_DEBUG: nat := 4

  function Tag(level: nat): (s: Bytes)
    ensures |s| == 9
  {
    [32, 91] + LevelName(level) + [93, 32, 45, 32]
  }

  lemma StreamGrows(sink: Bytes, was: Bytes, line: Bytes, now: Bytes, i: nat)
    requires i + |line| <= |was| && now == was[..i] + line + was[i + |line|..]
    ensures sink + now[..i + |line|] == (sink + was[..i]) + line
  {
    assert now[..i + |line|] == was[..i] + line;
  }

  // The name, written between the opening and the closing bytes, makes the tag.
  lemma TagAt(named: Bytes, s: Bytes, b: nat, level: nat)
    requires b + 9 <= |s| == |named| && named[b + 2..b + 5] == LevelName(level)
    requires forall k :: b <= k < b + 5 ==> s[k] == named[k]
    requires named[b] == 32 && named[b + 1] == 91
    requires s[b + 5] == 93 && s[b + 6] == 32 && s[b + 7] == 45 && s[b + 8] == 32
    ensures s[b..b + 9] == Tag(level)
  {
    hide LevelName;
    var tag := Tag(level);
    forall k | 0 <= k < 9
      ensures s[b..b + 9][k] == tag[k]
    {
      if 2 <= k < 5 {
        assert named[b + 2..b + 5][k - 2] == named[b + k];
      }
    }
  }

  lemma PrefixParts(stamp: Stamp, level: nat)
    ensures Prefix(stamp, level) == stamp + Tag(level)
  {
  }

  lemma Splice(was: Bytes, head: Bytes, tail: Bytes, at: nat, one: Bytes, two: Bytes)
    requires at + |head| + |tail| <= |was| == |two| && one == was[..at] + head + was[at + |head|..]
    requires two[at + |head|..at + |head| + |tail|] == tail
    requires forall k :: 0 <= k < |two| && !(at + |head| <= k < at + |head| + |tail|) ==> two[k] == one[k]
    ensures two == was[..at] + (head + tail) + was[at + |head| + |tail|..]
  {
    forall k | 0 <= k < |two|
      ensures two[k] == (was[..at] + (head + tail) + was[at + |head| + |tail|..])[k]
    {
      var b := at + |head|;
      if b <= k < b + |tail| {
        assert two[k] == two[b..b + |tail|][k - b];
      }
    }
  }

  // A level past the last is shown as the last, and a message is cut to what the buffer holds.
  lemma LineParts(stamp: Stamp, level: nat, msg: Bytes, cap: nat)
    requires cap > FIXED_SIZE
    ensures Line(stamp, level, msg, cap)
            == Prefix(stamp, if level > LEVEL_DEBUG then LEVEL_DEBUG else level) + msg[..Kept(|msg|, cap)] + [NEWLINE]
  {
    assert LevelName(if level > LEVEL_DEBUG then LEVEL_DEBUG else level) == LevelName(level);
  }

  lemma Assemble(was: Bytes, prefix: Bytes, msg: Bytes, i: nat, end: nat, one: Bytes, two: Bytes, three: Bytes)
    requires i + |prefix| + |msg| + 1 == end <= |was|
    requires one == was[..i] + prefix + was[i + |prefix|..]
    requires two == one[..i + |prefix|] + msg + one[i + |prefix| + |msg|..]
    requires three == two[end - 1 := NEWLINE]
    ensures three == was[..i] + (prefix + msg + [NEWLINE]) + was[end..]
  {
    assert one[..i + |prefix|] == was[..i] + prefix;
    assert one[i + |prefix| + |msg|..] == was[i + |prefix| + |msg|..];
  }

  class Logger {
    var buf: array<bv8>
    var index: nat
    var lastTime: int
    var time: Stamp
    var flushEach: bool
    var sink: Bytes        // what has been written to standard error so far

    ghost predicate Valid()
      reads this, buf
    {
      FIXED_SIZE < buf.Length && index <= buf.Length
    }

    // Everything logged so far, written out or still in the buffer.
    ghost function Stream(): Bytes
      requires Valid()
      reads this, buf
    {
      sink + buf[..index]
    }

    constructor ()
      ensures buf.Length == 0 && index == 0 && fresh(buf)
    {
      buf := new bv8[0];
      index := 0;
      lastTime := -1;
      time := seq(TIME_SIZE, _ => 0);
      flushEach := false;
      sink := [];
    }

    // A buffer with no room for the fixed parts of a line is refused; `memory` is malloc's answer,
    // which replaces the old buffer before it is looked at. No buffer is the empty array.
    method Init(described: bool, size: nat, each: bool, memory: bool) returns (r: InitResult)
      modifies this
      ensures r == InvalidArgument <==> described && 0 < size <= FIXED_SIZE
      ensures r == Ok ==>
                && memory && Valid() && fresh(buf)
                && buf.Length == (if described && size != 0 then size else BUFFER_DEFAULT)
                && index == 0 && lastTime == -1 && flushEach == (described && each)
      ensures r != Ok ==> index == old(index) && flushEach == old(flushEach) && lastTime == old(lastTime)
      ensures r == InvalidArgument ==> buf == old(buf)
      ensures r == OutOfMemory ==> fresh(buf) && buf.Length == 0
      ensures sink == old(sink) && time == old(time)
      ensures r == OutOfMemory ==> !memory
    {
      var wanted := BUFFER_DEFAULT;
      var wantedEach := false;
      if described {
        if size != 0 {
          wanted := size;
        }
        wantedEach := each;
      }
      if wanted <= FIXED_SIZE {
        return InvalidArgument;
      }
      if !memory {
        buf := new bv8[0];
        return OutOfMemory;
      }
      buf := new bv8[wanted];
      index := 0;
      lastTime := -1;
      flushEach := wantedEach;
      return Ok;
    }

    // memcpy into the buffer.
    method CopyIn(at: nat, s: Bytes)
      requires at + |s| <= buf.Length
      modifies buf
      ensures buf[..] == old(buf[..])[..at] + s + old(buf[..])[at + |s|..]
    {
      for k := 0 to |s|
        invariant buf[at..at + k] == s[..k]
        invariant buf[..at] == old(buf[..at])
        invariant buf[at + k..] == old(buf[at + k..])
      {
        buf[at + k] := s[k];
        assert buf[at + (k + 1)..] == old(buf[at + k..])[1..];
        assert buf[at..at + (k + 1)] == s[..k] + [s[k]];
      }
      assert buf[..] == buf[..at] + buf[at..at + |s|] + buf[at + |s|..];
    }

    method WritePrefix(at: nat, level: nat, stamp: Stamp)
      requires at + PREFIX_SIZE <= buf.Length && level <= LEVEL_DEBUG
      modifies buf
      ensures buf[..] == old(buf[..])[..at] + Prefix(stamp, level) + old(buf[..])[at + PREFIX_SIZE..]
    {
      ghost var was := buf[..];
      CopyIn(at, stamp);
      ghost var one := buf[..];
      WriteTag(at + TIME_SIZE, level);
      Splice(was, stamp, Tag(level), at, one, buf[..]);
      PrefixParts(stamp, level);
    }

    // The level between brackets, then a dash.
    method WriteTag(b: nat, level: nat)
      requires b + |Tag(level)| <= buf.Length && level <= LEVEL_DEBUG
      modifies buf
      ensures buf[b..b + |Tag(level)|] == Tag(level)
      ensures forall k :: 0 <= k < buf.Length && !(b <= k < b + |Tag(level)|) ==> buf[k] == old(buf[k])
    {
      hide LevelName;
      buf[b], buf[b + 1] := 32, 91;
      WriteName(b + 2, level);
      ghost var named := buf[..];
      buf[b + 5], buf[b + 6], buf[b + 7], buf[b + 8] := 93, 32, 45, 32;
      TagAt(named, buf[..], b, level);
    }

    method WriteName(b: nat, level: nat)
      requires b + 3 <= buf.Length && level <= LEVEL_DEBUG
      modifies buf
      ensures buf[b..b + 3] == LevelName(level)
      ensures forall k :: 0 <= k < buf.Length && !(b <= k < b + 3) ==> buf[k] == old(buf[k])
    {
      var name := LevelName(level);
      hide LevelName;
      buf[b], buf[b + 1], buf[b + 2] := name[0], name[1], name[2];
    }

    method Flush()
      requires Valid()
      modifies this`sink, this`index
      ensures Valid() && index == 0 && sink == old(Stream()) == Stream()
    {
      if index != 0 {
        sink := sink + buf[..index];
        index := 0;
      }
    }

    method MakeRoom(full: nat)
      requires Valid() && full <= buf.Length
      modifies this`sink, this`index
      ensures Valid() && index + full <= buf.Length && Stream() == old(Stream())
      ensures sink == if old(index) + full > buf.Length then old(Stream()) else old(sink)
    {
      if buf.Length - index < full {
        Flush();
      }
    }

    method NoteTime(now: int, text: Stamp)
      modifies this`lastTime, this`time
      ensures time == if now > old(lastTime) then text else old(time)
      ensures lastTime == if now > old(lastTime) then now else old(lastTime)
    {
      if now > lastTime {
        lastTime := now;
        time := text;
      }
    }

    // One message, one whole line at the end of the stream, and nothing else of it changes. It is
    // written out when the buffer has no room for the next, or at once if so configured.
    method Append(level: nat, msg: Bytes, now: int, text: Stamp)
      requires Valid()
      modifies this`sink, this`index, this`lastTime, this`time, buf
      ensures Valid()
      ensures time == if now > old(lastTime) then text else old(time)
      ensures lastTime == if now > old(lastTime) then now else old(lastTime)
      ensures Stream() == old(Stream()) + Line(time, level, msg, buf.Length)
      ensures sink == if flushEach then Stream()
                      else if old(index) + FIXED_SIZE + Kept(|msg|, buf.Length) > buf.Length then old(Stream())
                      else old(sink)
    {
      hide Line, Prefix, LevelName;
      var shown := if level > LEVEL_DEBUG then LEVEL_DEBUG else level;
      var cap := buf.Length;
      var full := FIXED_SIZE + |msg|;
      var len := |msg|;
      if full > cap {
        len := cap - FIXED_SIZE;
        full := cap;
      }
      MakeRoom(full);
      NoteTime(now, text);
      var i := index;
      index := i + full;
      ghost var was := buf[..];
      FillLine(i, shown, time, msg[..len]);
      assert len == Kept(|msg|, cap);
      LineParts(time, level, msg, cap);
      ghost var line := Line(time, level, msg, cap);
      assert line == Prefix(time, shown) + msg[..len] + [NEWLINE];
      StreamGrows(sink, was, line, buf[..], i);
      if flushEach {
        Flush();
      }
    }

    // The unlocked part: prefix, message and newline land in the reserved slice and nowhere else.
    method FillLine(i: nat, level: nat, stamp: Stamp, msg: Bytes)
      requires i + FIXED_SIZE + |msg| <= buf.Length && level <= LEVEL_DEBUG
      modifies buf
      ensures buf[..] == old(buf[..])[..i] + (Prefix(stamp, level) + msg + [NEWLINE])
                         + old(buf[..])[i + FIXED_SIZE + |msg|..]
    {
      hide Prefix, LevelName;
      ghost var was := buf[..];
      WritePrefix(i, level, stamp);
      ghost var one := buf[..];
      CopyIn(i + PREFIX_SIZE, msg);
      ghost var two := buf[..];
      buf[i + FIXED_SIZE + |msg| - 1] := NEWLINE;
      assert buf[..] == two[i + FIXED_SIZE + |msg| - 1 := NEWLINE];
      Assemble(was, Prefix(stamp, level), msg, i, i + FIXED_SIZE + |msg|, one, two, buf[..]);
    }
  }
}
