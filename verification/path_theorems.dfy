/** Normalisation preserves where a path leads, and is a canonical form for it. */
module PathTheorems {
  import opened PathSpec

  /* ------------------------------------------------------------------ */
  /*  Segments                                                           */
  /* ------------------------------------------------------------------ */

  // A name as it can appear between separators.
  ghost predicate Name(s: Str) {
    s != [] && forall i :: 0 <= i < |s| ==> s[i] != SEP
  }

  ghost predicate Names(out: seq<Str>) {
    forall i :: 0 <= i < |out| ==> Name(out[i])
  }

  lemma {:induction false} SegmentsAreNames(s: Str)
    ensures Names(Segments(s))
    decreases |s|
  {
    if s != [] {
      if s[0] == SEP {
        SegmentsAreNames(s[1..]);
      } else {
        SegmentsAreNames(s[NameRun(s)..]);
      }
    }
  }

  lemma {:induction false} NameRunOf(n: Str, rest: Str)
    requires forall i :: 0 <= i < |n| ==> n[i] != SEP
    requires rest == [] || rest[0] == SEP
    ensures NameRun(n + rest) == |n|
  {
    if n != [] {
      assert (n + rest)[1..] == n[1..] + rest;
      NameRunOf(n[1..], rest);
    } else {
      assert n + rest == rest;
    }
  }

  lemma SegmentsOfName(n: Str, rest: Str)
    requires Name(n) && (rest == [] || rest[0] == SEP)
    ensures Segments(n + rest) == [n] + Segments(rest)
  {
    NameRunOf(n, rest);
    assert (n + rest)[..|n|] == n && (n + rest)[|n|..] == rest;
  }

  lemma SegmentsPrepend(n: Str, p: Str, q: Str)
    requires Name(n) && (p == [] || p[0] == SEP) && (p + q == [] || (p + q)[0] == SEP)
    requires Segments(p + q) == Segments(p) + Segments(q)
    ensures Segments((n + p) + q) == Segments(n + p) + Segments(q)
  {
    hide Segments, NameRun;
    SegmentsOfName(n, p);
    SegmentsOfName(n, p + q);
    assert (n + p) + q == n + (p + q);
    assert [n] + (Segments(p) + Segments(q)) == ([n] + Segments(p)) + Segments(q);
  }

  // Splitting distributes over a separator.
  lemma {:induction false} SegmentsConcat(p: Str, q: Str)
    requires q == [] || q[0] == SEP || p == [] || p[|p| - 1] == SEP
    ensures Segments(p + q) == Segments(p) + Segments(q)
    decreases |p|
  {
    if p == [] {
      assert p + q == q;
    } else if p[0] == SEP {
      assert (p + q)[1..] == p[1..] + q;
      SegmentsConcat(p[1..], q);
    } else {
      var n := NameRun(p);
      SegmentsConcat(p[n..], q);
      assert p == p[..n] + p[n..];
      assert n == |p| ==> p[|p| - 1] != SEP && p[n..] + q == q;
      SegmentsPrepend(p[..n], p[n..], q);
    }
  }

  lemma {:induction false} SegmentsOfJoin(out: seq<Str>)
    requires Names(out)
    ensures Segments(Join(out)) == out
  {
    if |out| == 1 {
      SegmentsOfName(out[0], []);
      assert out[0] + [] == out[0] && out == [out[0]];
    } else if |out| > 1 {
      var front, last := out[..|out| - 1], out[|out| - 1];
      SegmentsOfJoin(front);
      SegmentsConcat(Join(front), [SEP] + last);
      assert Join(out) == Join(front) + ([SEP] + last);
      assert ([SEP] + last)[1..] == last;
      SegmentsOfName(last, []);
      assert last + [] == last;
      assert out == front + [last];
    }
  }

  lemma {:induction false} JoinNonEmpty(out: seq<Str>)
    requires Names(out) && out != []
    ensures Join(out) != [] && Join(out)[0] == out[0][0] && Join(out)[0] != SEP
  {
    if |out| > 1 {
      JoinNonEmpty(out[..|out| - 1]);
    }
  }

  // Rendering is read back exactly.
  lemma RenderReads(abs: bool, out: seq<Str>)
    requires Names(out)
    ensures Segments(Render(abs, out)) == out && IsAbsolute(Render(abs, out)) == abs
  {
    SegmentsOfJoin(out);
    if out != [] {
      JoinNonEmpty(out);
    }
    if abs {
      assert ([SEP] + Join(out))[1..] == Join(out);
    } else {
      assert [] + Join(out) == Join(out);
    }
  }

  /* ------------------------------------------------------------------ */
  /*  Shape of the resolved components                                   */
  /* ------------------------------------------------------------------ */

  // Resolved components: `ups` leading "..", then real names; none at the front of an absolute path.
  ghost predicate Shaped(abs: bool, out: seq<Str>, ups: nat) {
    && ups <= |out| && (abs ==> ups == 0)
    && (forall i :: 0 <= i < ups ==> out[i] == UP)
    && (forall i :: ups <= i < |out| ==> Name(out[i]) && out[i] != UP && out[i] != HERE)
  }

  function UpsAfter(abs: bool, out: seq<Str>, ups: nat, seg: Str): nat {
    if seg == UP && |out| <= ups && !abs then ups + 1 else ups
  }

  // Resolving the segments never keeps more than `room` real components at once.
  predicate Shallow(abs: bool, out: seq<Str>, ups: nat, segs: seq<Str>, room: nat)
    decreases |segs|
  {
    segs == []
    || (|Step(abs, out, segs[0])| <= UpsAfter(abs, out, ups, segs[0]) + room
        && Shallow(abs, Step(abs, out, segs[0]), UpsAfter(abs, out, ups, segs[0]), segs[1..], room))
  }

  lemma StepShaped(abs: bool, out: seq<Str>, ups: nat, seg: Str)
    requires Shaped(abs, out, ups) && Name(seg)
    ensures Shaped(abs, Step(abs, out, seg), UpsAfter(abs, out, ups, seg))
  {
  }

  lemma {:induction false} ResolveShaped(abs: bool, out: seq<Str>, ups: nat, segs: seq<Str>) returns (k: nat)
    requires Shaped(abs, out, ups) && Names(segs)
    ensures Shaped(abs, Resolve(abs, out, segs), k)
    decreases |segs|
  {
    if segs == [] {
      k := ups;
    } else {
      StepShaped(abs, out, ups, segs[0]);
      k := ResolveShaped(abs, Step(abs, out, segs[0]), UpsAfter(abs, out, ups, segs[0]), segs[1..]);
    }
  }

  lemma ComponentsShaped(s: Str) returns (k: nat)
    ensures Shaped(IsAbsolute(s), Components(s), k) && Names(Components(s))
  {
    SegmentsAreNames(s);
    k := ResolveShaped(IsAbsolute(s), [], 0, Segments(s));
  }

  /* ------------------------------------------------------------------ */
  /*  Meaning is preserved                                               */
  /* ------------------------------------------------------------------ */

  lemma {:induction false} EnterAllConcat(dir: seq<Str>, a: seq<Str>, b: seq<Str>)
    ensures EnterAll(dir, a + b) == EnterAll(EnterAll(dir, a), b)
    decreases |a|
  {
    if a == [] {
      assert a + b == b;
    } else {
      assert (a + b)[1..] == a[1..] + b;
      EnterAllConcat(Enter(dir, a[0]), a[1..], b);
    }
  }

  lemma EnterAllSnoc(dir: seq<Str>, a: seq<Str>, seg: Str)
    ensures EnterAll(dir, a + [seg]) == Enter(EnterAll(dir, a), seg)
  {
    EnterAllConcat(dir, a, [seg]);
    assert EnterAll(EnterAll(dir, a), [seg]) == EnterAll(Enter(EnterAll(dir, a), seg), []);
  }

  // Keeping a component list up to date with Step keeps where it leads.
  lemma StepWalks(abs: bool, base: seq<Str>, out: seq<Str>, ups: nat, seg: Str)
    requires Shaped(abs, out, ups) && (abs ==> base == [])
    ensures EnterAll(base, Step(abs, out, seg)) == Enter(EnterAll(base, out), seg)
  {
    if seg == UP && out != [] && out[|out| - 1] != UP {
      var front, last := out[..|out| - 1], out[|out| - 1];
      assert out == front + [last];
      EnterAllSnoc(base, front, last);
    } else if seg == UP && abs {
      assert out == [];
    } else if seg != HERE {
      EnterAllSnoc(base, out, seg);
    }
  }

  lemma {:induction false} ResolveWalks(abs: bool, base: seq<Str>, out: seq<Str>, ups: nat, segs: seq<Str>)
    requires Shaped(abs, out, ups) && Names(segs) && (abs ==> base == [])
    ensures EnterAll(base, Resolve(abs, out, segs)) == EnterAll(EnterAll(base, out), segs)
    decreases |segs|
  {
    if segs != [] {
      StepShaped(abs, out, ups, segs[0]);
      StepWalks(abs, base, out, ups, segs[0]);
      ResolveWalks(abs, base, Step(abs, out, segs[0]), UpsAfter(abs, out, ups, segs[0]), segs[1..]);
    }
  }

  lemma WalkComponents(base: seq<Str>, s: Str)
    ensures Walk(base, s) == EnterAll(if IsAbsolute(s) then [] else base, Components(s))
  {
    SegmentsAreNames(s);
    ResolveWalks(IsAbsolute(s), if IsAbsolute(s) then [] else base, [], 0, Segments(s));
  }

  lemma NormalizeReads(s: Str)
    ensures IsAbsolute(Normalize(s)) == IsAbsolute(s)
    ensures Segments(Normalize(s)) == if !IsAbsolute(s) && Components(s) == [] then [HERE] else Components(s)
  {
    var k := ComponentsShaped(s);
    var r := Render(IsAbsolute(s), Components(s));
    RenderReads(IsAbsolute(s), Components(s));
    if Components(s) != [] {
      JoinNonEmpty(Components(s));
    }
    SegmentsOfName(HERE, []);
    assert HERE + [] == HERE;
  }

  // From every base directory a path and its normal form lead to the same place.
  lemma NormalizeKeepsMeaning(base: seq<Str>, s: Str)
    ensures Walk(base, Normalize(s)) == Walk(base, s)
  {
    WalkComponents(base, s);
    NormalizeReads(s);
    assert EnterAll(base, [HERE]) == EnterAll(Enter(base, HERE), []);
  }

  /* ------------------------------------------------------------------ */
  /*  Canonicity                                                         */
  /* ------------------------------------------------------------------ */

  lemma {:induction false} EnterReals(dir: seq<Str>, segs: seq<Str>)
    requires forall i :: 0 <= i < |segs| ==> segs[i] != UP && segs[i] != HERE
    ensures EnterAll(dir, segs) == dir + segs
    decreases |segs|
  {
    if segs == [] {
      assert dir + segs == dir;
    } else {
      EnterReals(dir + [segs[0]], segs[1..]);
      assert dir + [segs[0]] + segs[1..] == dir + segs;
    }
  }

  lemma {:induction false} EnterUps(dir: seq<Str>, segs: seq<Str>)
    requires forall i :: 0 <= i < |segs| ==> segs[i] == UP
    ensures EnterAll(dir, segs) == if |segs| <= |dir| then dir[..|dir| - |segs|] else []
    decreases |segs|
  {
    if segs != [] {
      EnterUps(Enter(dir, UP), segs[1..]);
    }
  }

  // Where a shaped component list leads: up from the base, then down its real names.
  lemma ShapedWalk(dir: seq<Str>, abs: bool, out: seq<Str>, ups: nat)
    requires Shaped(abs, out, ups)
    ensures EnterAll(dir, out) == (if ups <= |dir| then dir[..|dir| - ups] else []) + out[ups..]
  {
    assert out == out[..ups] + out[ups..];
    EnterAllConcat(dir, out[..ups], out[ups..]);
    EnterUps(dir, out[..ups]);
    EnterReals(EnterAll(dir, out[..ups]), out[ups..]);
  }

  function Deep(n: nat): (d: seq<Str>)
    ensures |d| == n
  {
    seq(n, _ => [])
  }

  // Component lists that lead to the same place from the root and from a base deeper than
  // either climbs are the same list, of the same kind.
  lemma ShapedUnique(a: bool, p: seq<Str>, j: nat, b: bool, q: seq<Str>, k: nat)
    requires Shaped(a, p, j) && Shaped(b, q, k)
    requires EnterAll([], p) == EnterAll([], q)
    requires EnterAll(if a then [] else Deep(j + k + 1), p) == EnterAll(if b then [] else Deep(j + k + 1), q)
    ensures a == b && p == q
  {
    ShapedWalk([], a, p, j);
    ShapedWalk([], b, q, k);
    assert [] + p[j..] == p[j..] && [] + q[k..] == q[k..];
    ShapedLength(if a then [] else Deep(j + k + 1), a, p, j);
    ShapedLength(if b then [] else Deep(j + k + 1), b, q, k);
    assert |p[j..]| == |q[k..]|;
    assert a == b && j == k;
    ShapedSplit(p, j, q);
  }

  lemma ShapedSplit(p: seq<Str>, j: nat, q: seq<Str>)
    requires j <= |p| && j <= |q| && p[j..] == q[j..]
    requires forall i :: 0 <= i < j ==> p[i] == UP && q[i] == UP
    ensures p == q
  {
    assert p[..j] == q[..j];
    assert p == p[..j] + p[j..] && q == q[..j] + q[j..];
  }

  lemma ShapedLength(dir: seq<Str>, abs: bool, out: seq<Str>, ups: nat)
    requires Shaped(abs, out, ups)
    ensures |EnterAll(dir, out)| == (if ups <= |dir| then |dir| - ups else 0) + (|out| - ups)
  {
    ShapedWalk(dir, abs, out, ups);
  }

  // Two paths have the same normal form exactly when they lead to the same place from every base.
  lemma NormalFormsAgree(p: Str, q: Str)
    ensures Normalize(p) == Normalize(q) <==> Agree(p, q)
  {
    if Normalize(p) == Normalize(q) {
      forall base: seq<Str>
        ensures Walk(base, p) == Walk(base, q)
      {
        NormalizeKeepsMeaning(base, p);
        NormalizeKeepsMeaning(base, q);
      }
    }
    if Agree(p, q) {
      var j := ComponentsShaped(p);
      var k := ComponentsShaped(q);
      var deep := Deep(j + k + 1);
      assert Walk([], p) == Walk([], q) && Walk(deep, p) == Walk(deep, q);
      WalkComponents([], p);
      WalkComponents([], q);
      WalkComponents(deep, p);
      WalkComponents(deep, q);
      ShapedUnique(IsAbsolute(p), Components(p), j, IsAbsolute(q), Components(q), k);
    }
  }

  lemma NormalizeIdempotent(s: Str)
    ensures Normalize(Normalize(s)) == Normalize(s)
  {
    forall base: seq<Str>
      ensures Walk(base, Normalize(s)) == Walk(base, s)
    {
      NormalizeKeepsMeaning(base, s);
    }
    NormalFormsAgree(Normalize(s), s);
  }

  /* ------------------------------------------------------------------ */
  /*  Appending                                                          */
  /* ------------------------------------------------------------------ */

  // Appending to a non-empty path is walking on from where it leads.
  lemma WalkAppend(base: seq<Str>, p: Str, q: Str)
    requires p != []
    ensures Walk(base, Append(p, q)) == EnterAll(Walk(base, p), Segments(q))
  {
    if q != [] {
      if p[|p| - 1] != SEP {
        var s := [SEP] + q;
        assert Append(p, q) == p + s && s[1..] == q;
        SegmentsConcat(p, s);
      } else {
        SegmentsConcat(p, q);
      }
      EnterAllConcat(if IsAbsolute(p) then [] else base, Segments(p), Segments(q));
    }
  }

  lemma NormalizeNonEmpty(s: Str)
    ensures Normalize(s) != []
  {
  }

  // Normalising before an append is lost work, except where an absolute path is appended to
  // the empty one.
  lemma AppendNormalizedIff(p: Str, q: Str)
    ensures Normalize(Append(p, q)) == Normalize(Append(Normalize(p), q)) <==> p != [] || !IsAbsolute(q)
  {
    hide Normalize, Walk, Append, Segments, Components;
    var n := Normalize(p);
    if p != [] || !IsAbsolute(q) {
      forall base: seq<Str>
        ensures Walk(base, Append(p, q)) == Walk(base, Append(n, q))
      {
        AppendWalks(base, p, q);
      }
      NormalFormsAgree(Append(p, q), Append(n, q));
    } else {
      AppendToEmpty(q);
      NormalizeReads(q);
      NormalizeReads(Append(n, q));
    }
  }

  // "/x" appended to the empty path stays absolute; appended to the normal form "." it does not.
  lemma AppendToEmptyDiffers()
    ensures var q: Str := [SEP, 120]; Normalize(Append([], q)) != Normalize(Append(Normalize([]), q))
  {
    AppendNormalizedIff([], [SEP, 120]);
  }

  lemma AppendWalks(base: seq<Str>, p: Str, q: Str)
    requires p != [] || !IsAbsolute(q)
    ensures Walk(base, Append(p, q)) == Walk(base, Append(Normalize(p), q))
  {
    NormalizeNonEmpty(p);
    NormalizeKeepsMeaning(base, p);
    WalkAppend(base, Normalize(p), q);
    hide Normalize, Segments, Components;
    if p != [] {
      WalkAppend(base, p, q);
    } else {
      NothingWalked(base, p, q);
    }
  }

  lemma NothingWalked(base: seq<Str>, p: Str, q: Str)
    requires p == [] && !IsAbsolute(q)
    ensures Walk(base, p) == base && Append(p, q) == q && Walk(base, q) == EnterAll(base, Segments(q))
  {
    assert [] + q == q;
  }

  // The empty path normalises to ".", which is relative, so what is appended to it stays below it.
  lemma AppendToEmpty(q: Str)
    requires IsAbsolute(q)
    ensures Append([], q) == q && !IsAbsolute(Append(Normalize([]), q))
  {
    NormalizeReads([]);
    NormalizeNonEmpty([]);
    hide Normalize;
    assert [] + q == q;
  }

  /* ------------------------------------------------------------------ */
  /*  Normal paths                                                       */
  /* ------------------------------------------------------------------ */

  ghost predicate NoDouble(s: Str) {
    forall i :: 0 <= i < |s| - 1 ==> !(s[i] == SEP && s[i + 1] == SEP)
  }

  lemma {:induction false} JoinNoDouble(out: seq<Str>)
    requires Names(out)
    ensures NoDouble(Join(out))
    ensures out != [] ==> Join(out) != [] && Join(out)[0] != SEP && Join(out)[|Join(out)| - 1] != SEP
  {
    if |out| == 1 {
      assert Name(out[0]);
    } else if |out| > 1 {
      var front, last := out[..|out| - 1], out[|out| - 1];
      JoinNoDouble(front);
      assert Name(last);
      var f := Join(front);
      assert Join(out) == f + [SEP] + last;
      assert Join(out)[0] == f[0];
    }
  }

  // What is appended follows the path, after a separator exactly when the path is not empty and does
  // not end in one.
  lemma AppendBytes(p: Str, q: Str)
    requires q != []
    ensures var r := Append(p, q);
            && p <= r && |p| + |q| <= |r| <= |p| + |q| + 1 && r[|r| - |q|..] == q
            && (|r| == |p| + |q| + 1 <==> p != [] && p[|p| - 1] != SEP)
            && (|r| == |p| + |q| + 1 ==> r[|p|] == SEP)
    ensures Append(p, []) == p
  {
  }

  // So appending a relative path never doubles a separator.
  lemma AppendNoDouble(p: Str, q: Str)
    requires NoDouble(p) && NoDouble(q) && !IsAbsolute(q)
    ensures NoDouble(Append(p, q))
  {
    if q != [] {
      if p != [] && p[|p| - 1] != SEP {
        assert NoDouble(p + [SEP]);
        NoDoubleConcat(p + [SEP], q);
      } else {
        NoDoubleConcat(p, q);
      }
    }
  }

  lemma NoDoubleConcat(p: Str, q: Str)
    requires NoDouble(p) && NoDouble(q) && !IsAbsolute(q)
    ensures NoDouble(p + q)
  {
    var r := p + q;
    forall i | 0 <= i < |r| - 1
      ensures !(r[i] == SEP && r[i + 1] == SEP)
    {
      if i + 1 < |p| {
        assert r[i] == p[i] && r[i + 1] == p[i + 1];
      } else if i + 1 == |p| {
        assert r[i + 1] == q[0];
      } else {
        assert r[i] == q[i - |p|] && r[i + 1] == q[i + 1 - |p|];
      }
    }
  }

  // A normal path has no doubled separator, and ends in one only if it is the root.
  lemma NormalShape(s: Str)
    requires Normalize(s) == s
    ensures s != [] && NoDouble(s) && (s[|s| - 1] == SEP ==> s == [SEP])
  {
    var k := ComponentsShaped(s);
    var out := Components(s);
    JoinNoDouble(out);
    assert s == if IsAbsolute(s) then [SEP] + Join(out) else if out == [] then HERE else [] + Join(out);
  }

  /* ------------------------------------------------------------------ */
  /*  Directory, file name, stem, extension                              */
  /* ------------------------------------------------------------------ */

  lemma DirectoryOf(s: Str) returns (d: nat)
    requires s != [] && s[|s| - 1] != SEP
    ensures var start := NameStart(s);
            && d <= start < |s| && Directory(s) == s[..d] && (forall i :: d <= i < start ==> s[i] == SEP)
            && (d == start ==> Directory(s) == [] || Directory(s) == [SEP])
    ensures IsAbsolute(Directory(s)) == IsAbsolute(s)
  {
    assert s[..|s|] == s;
    var start := NameStart(s);
    d := if start == 0 then 0 else TrimTo1(s, start);
    if start > 0 {
      assert s[..d][0] == s[0];
      assert d == start ==> s[..d] == [SEP];
    }
  }

  lemma SplitAtSeps(s: Str, d: nat, start: nat)
    requires d <= start <= |s| && forall i :: d <= i < start ==> s[i] == SEP
    ensures s == s[..d] + Seps(start - d) + s[start..]
  {
  }

  // A path that does not end in a separator is its directory, separators and its file name.
  lemma DirectoryAndFilename(s: Str)
    requires s != [] && s[|s| - 1] != SEP
    ensures Name(Filename(s))
    ensures exists m: nat :: s == Directory(s) + Seps(m) + Filename(s)
                             && (m == 0 ==> Directory(s) == [] || Directory(s) == [SEP])
    ensures IsAbsolute(Directory(s)) == IsAbsolute(s)
  {
    var d := DirectoryOf(s);
    var m := NameStart(s) - d;
    assert Filename(s) == s[d + m..];
    assert Name(Filename(s));
    hide Directory, Filename, NameStart, IsAbsolute, Seps, Name;
    SplitAtSeps(s, d, d + m);
    assert s == Directory(s) + Seps(m) + Filename(s);
  }

  // The directory is empty exactly when there is no separator, and ends in one only as the root; so
  // there is one way only to take a path apart like this.
  lemma DirectoryEnds(s: Str)
    requires s != [] && s[|s| - 1] != SEP
    ensures var d := Directory(s); (d == [] <==> SEP !in s) && (d == [] || d == [SEP] || d[|d| - 1] != SEP)
  {
    var start := NameStart(s);
    assert start > 0 ==> s[start - 1] == SEP;
    assert SEP in s ==> start > 0;
  }

  lemma {:induction false} SegmentsOfSeps(m: nat)
    ensures Segments(Seps(m)) == []
  {
    if m > 0 {
      assert Seps(m)[1..] == Seps(m - 1);
      SegmentsOfSeps(m - 1);
    }
  }

  lemma SegmentsOfParts(d: Str, m: nat, f: Str)
    requires Name(f) && (m == 0 ==> d == [] || d == [SEP])
    ensures Segments(d + Seps(m) + f) == Segments(d) + [f]
  {
    SegmentsOfSeps(m);
    SegmentsConcat(d, Seps(m));
    SegmentsConcat(d + Seps(m), f);
    SegmentsOfName(f, []);
    assert f + [] == f && [f] + [] == [f];
  }

  lemma SegmentsOfAppend(d: Str, f: Str)
    requires Name(f)
    ensures Segments(Append(d, f)) == Segments(d) + [f] && IsAbsolute(Append(d, f)) == IsAbsolute(d)
  {
    if d != [] && d[|d| - 1] != SEP {
      assert Append(d, f) == d + Seps(1) + f;
      SegmentsOfParts(d, 1, f);
    } else {
      SegmentsConcat(d, f);
      SegmentsOfName(f, []);
      assert f + [] == f && [f] + [] == [f];
      assert d == [] ==> d + f == f;
    }
  }

  // Appending the file name to the directory leads where the path leads.
  lemma ReassembleNormalizes(s: Str)
    requires s != [] && s[|s| - 1] != SEP
    ensures Normalize(Append(Directory(s), Filename(s))) == Normalize(s)
  {
    var d, f := Directory(s), Filename(s);
    DirectoryAndFilename(s);
    var m: nat :| s == d + Seps(m) + f && (m == 0 ==> d == [] || d == [SEP]);
    SegmentsOfParts(d, m, f);
    SegmentsOfAppend(d, f);
  }

  lemma PartsWithoutDouble(d: Str, m: nat, f: Str)
    requires NoDouble(d + Seps(m) + f) && d != [] && (m == 0 ==> d == [SEP])
    ensures Append(d, f) == d + Seps(m) + f || f == []
  {
    var s := d + Seps(m) + f;
    assert s[|d| - 1] == d[|d| - 1];
    assert |d| + 1 < |s| ==> !(s[|d|] == SEP && s[|d| + 1] == SEP);
  }

  // On a normal path it gives the path back byte for byte.
  lemma ReassembleNormal(s: Str)
    requires Normalize(s) == s && s != [SEP]
    ensures Append(Directory(s), Filename(s)) == s
  {
    NormalShape(s);
    DirectoryAndFilename(s);
    var d, f := Directory(s), Filename(s);
    if d == [] {
      DirectoryEmpty(s);
      assert Append(d, f) == f;
    } else {
      var m: nat :| s == d + Seps(m) + f && (m == 0 ==> d == [] || d == [SEP]);
      PartsWithoutDouble(d, m, f);
    }
  }

  lemma DirectoryEmpty(s: Str)
    requires s != [] && s[|s| - 1] != SEP && Directory(s) == []
    ensures Filename(s) == s
  {
  }

  // A path ending in separators has no file name; its directory is all of it but those separators
  // exactly when there is another separator before them, and is empty for a single name.
  lemma TrailingSeparators(s: Str)
    requires s != [] && s[|s| - 1] == SEP && TrimTo0(s, |s|) > 0
    ensures Filename(s) == []
    ensures Directory(s) == s[..TrimTo0(s, |s|)] <==> SEP in s[..TrimTo0(s, |s|)]
    ensures SEP !in s[..TrimTo0(s, |s|)] ==> Directory(s) == []
  {
    var t := s[..TrimTo0(s, |s|)];
    assert t[|t| - 1] != SEP;
    assert NameStart(t) == 0 <==> SEP !in t;
  }

  // A path of nothing but separators is its own directory, but for repetition, and names no file.
  lemma OnlySeparators(s: Str)
    requires forall i :: 0 <= i < |s| ==> s[i] == SEP
    ensures Filename(s) == [] && Directory(s) == if s == [] then [] else [SEP]
    ensures Normalize(s) == if s == [] then HERE else Directory(s)
  {
    assert s == Seps(|s|);
    SegmentsOfSeps(|s|);
    assert [SEP] + [] == [SEP];
  }

  // The directory of "a/" is empty, not "a".
  lemma DirectoryOfOneName()
    ensures Directory([97, SEP]) == []
  {
    var s: Str := [97, SEP];
    assert TrimTo0(s, 1) == 1;
    TrailingSeparators(s);
  }

  // The file name is its stem and its extension; an extension is a last dot and what follows,
  // after something other than dots.
  lemma StemAndExtension(s: Str)
    ensures Filename(s) == Stem(s) + Extension(s)
    ensures Extension(s) != [] ==>
              && Extension(s)[0] == DOT && (forall i :: 0 < i < |Extension(s)| ==> Extension(s)[i] != DOT)
              && (exists i :: 0 <= i < |Stem(s)| && Stem(s)[i] != DOT)
    ensures Extension(s) == [] ==>
              forall i :: 0 < i < |Filename(s)| && Filename(s)[i] == DOT
                          && (forall j :: i < j < |Filename(s)| ==> Filename(s)[j] != DOT)
                          ==> forall j :: 0 <= j < i ==> Filename(s)[j] == DOT
  {
  }
}
