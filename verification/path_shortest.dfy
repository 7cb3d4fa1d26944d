/** Of all the paths that lead where a path leads, its normal form is the shortest (src/nth_path.c). */
module PathShortest {
  import opened PathSpec
  import opened PathTheorems

  // Bytes of the components, each with a separator of its own.
  function Weight(out: seq<Str>): nat {
    if out == [] then 0 else |out[0]| + 1 + Weight(out[1..])
  }

  lemma {:induction false} WeightSnoc(out: seq<Str>, seg: Str)
    ensures Weight(out + [seg]) == Weight(out) + |seg| + 1
  {
    if out == [] {
      assert out + [seg] == [seg];
      assert Weight([seg]) == |seg| + 1 + Weight([]);
    } else {
      assert (out + [seg])[1..] == out[1..] + [seg];
      WeightSnoc(out[1..], seg);
    }
  }

  lemma WeightCons(segs: seq<Str>)
    requires segs != []
    ensures Weight(segs) == |segs[0]| + 1 + Weight(segs[1..])
  {
  }

  lemma {:induction false} JoinLength(out: seq<Str>)
    requires Names(out)
    ensures |Join(out)| == if out == [] then 0 else Weight(out) - 1
    ensures out != [] ==> Weight(out) >= 2
  {
    if out == [] {
    } else {
      var front, last := out[..|out| - 1], out[|out| - 1];
      assert Name(last);
      assert out == front + [last];
      WeightSnoc(front, last);
      JoinLength(front);
    }
  }

  lemma {:induction false} JoinCons(seg: Str, out: seq<Str>)
    requires out != []
    ensures Join([seg] + out) == seg + [SEP] + Join(out)
  {
    var more := [seg] + out;
    var front, last := out[..|out| - 1], out[|out| - 1];
    assert more[..|more| - 1] == [seg] + front;
    if front == [] {
      assert more[..|more| - 1] == [seg];
      assert Join([seg]) == seg;
    } else {
      JoinCons(seg, front);
      assert seg + [SEP] + Join(front) + [SEP] + last == seg + [SEP] + (Join(front) + [SEP] + last);
    }
  }

  /* ------------------------------------------------------------------ */
  /*  Splitting                                                          */
  /* ------------------------------------------------------------------ */

  // What a path of its length can hold: a relative path spares one separator.
  function Room(s: Str): nat {
    |s| + if IsAbsolute(s) then 0 else 1
  }

  // The components fit, and tightly only if they are all there is but single separators.
  lemma {:induction false} SegmentsWeigh(s: Str)
    ensures Weight(Segments(s)) <= Room(s)
    ensures s != [] && Weight(Segments(s)) == Room(s) ==> s == Render(IsAbsolute(s), Segments(s))
    decreases |s|
  {
    if s == [] {
    } else if s[0] == SEP {
      SegmentsWeigh(s[1..]);
      assert s == [SEP] + s[1..];
      assert s[1..] == [] ==> Segments(s) == [];
    } else {
      var n := NameRun(s);
      SegmentsWeigh(s[n..]);
      NameWeighs(s[..n], s[n..]);
      assert s == s[..n] + s[n..];
    }
  }

  lemma NameWeighs(seg: Str, rest: Str)
    requires Name(seg) && (rest == [] || rest[0] == SEP)
    requires Weight(Segments(rest)) <= Room(rest)
    requires rest != [] && Weight(Segments(rest)) == Room(rest) ==> rest == Render(IsAbsolute(rest), Segments(rest))
    ensures var s := seg + rest;
            && Weight(Segments(s)) <= Room(s)
            && (Weight(Segments(s)) == Room(s) ==> s == Render(IsAbsolute(s), Segments(s)))
  {
    var s, more := seg + rest, Segments(rest);
    NameSplits(seg, rest);
    hide Segments, Weight, Render;
    if rest == [] {
      RenderOne(seg);
      assert s == seg;
    } else if more != [] && rest == Render(true, more) {
      RenderCons(seg, more);
    }
  }

  lemma NameSplits(seg: Str, rest: Str)
    requires Name(seg) && (rest == [] || rest[0] == SEP)
    ensures var more := Segments(rest);
            && Segments(seg + rest) == [seg] + more && Weight(Segments(seg + rest)) == |seg| + 1 + Weight(more)
            && (more == [] ==> Weight(more) == 0) && (rest == [] ==> more == [] && Segments(seg + rest) == [seg])
    ensures !IsAbsolute(seg + rest) && |seg + rest| == |seg| + |rest|
  {
    var more := Segments(rest);
    SegmentsOfName(seg, rest);
    assert rest == [] ==> more == [];
    hide Segments;
    WeightCons([seg] + more);
    assert ([seg] + more)[1..] == more;
    assert more == [] ==> [seg] + more == [seg];
  }

  lemma RenderOne(seg: Str)
    ensures Render(false, [seg]) == seg
  {
    assert Join([seg]) == seg;
  }

  lemma RenderCons(seg: Str, out: seq<Str>)
    requires out != []
    ensures Render(false, [seg] + out) == seg + Render(true, out)
  {
    JoinCons(seg, out);
    hide Join;
    assert seg + [SEP] + Join(out) == seg + ([SEP] + Join(out));
  }

  /* ------------------------------------------------------------------ */
  /*  Resolving                                                          */
  /* ------------------------------------------------------------------ */

  lemma StepWeighs(abs: bool, out: seq<Str>, seg: Str)
    ensures Weight(Step(abs, out, seg)) <= Weight(out) + |seg| + 1
    ensures Weight(Step(abs, out, seg)) == Weight(out) + |seg| + 1 ==> Step(abs, out, seg) == out + [seg]
  {
    WeightSnoc(out, seg);
    if out != [] {
      var front, last := out[..|out| - 1], out[|out| - 1];
      assert out == front + [last];
      WeightSnoc(front, last);
    }
  }

  // Resolving never makes the components longer, and keeps their length only if it changes nothing.
  lemma {:induction false} ResolveWeighs(abs: bool, out: seq<Str>, segs: seq<Str>)
    ensures Weight(Resolve(abs, out, segs)) <= Weight(out) + Weight(segs)
    ensures Weight(Resolve(abs, out, segs)) == Weight(out) + Weight(segs) ==> Resolve(abs, out, segs) == out + segs
    decreases |segs|
  {
    if segs == [] {
      assert out + segs == out;
    } else {
      var next := Step(abs, out, segs[0]);
      StepWeighs(abs, out, segs[0]);
      ResolveWeighs(abs, next, segs[1..]);
      hide Step, Weight;
      assert Weight(segs) == |segs[0]| + 1 + Weight(segs[1..]) by {
        WeightCons(segs);
      }
      assert (out + [segs[0]]) + segs[1..] == out + segs;
    }
  }

  /* ------------------------------------------------------------------ */
  /*  Shortest                                                           */
  /* ------------------------------------------------------------------ */

  lemma RenderLength(abs: bool, out: seq<Str>)
    requires Names(out)
    ensures |Render(abs, out)| == (if abs then 1 else 0) + (if out == [] then 0 else Weight(out) - 1)
    ensures Weight(out) == 0 <==> out == []
  {
    JoinLength(out);
  }

  // A path is no shorter than its components joined, and no longer only if it is just that.
  lemma SplitLength(s: Str)
    ensures |Render(IsAbsolute(s), Segments(s))| <= |s|
    ensures |Render(IsAbsolute(s), Segments(s))| == |s| ==> s == Render(IsAbsolute(s), Segments(s))
  {
    SegmentsAreNames(s);
    SegmentsWeigh(s);
    RenderLength(IsAbsolute(s), Segments(s));
    if Segments(s) == [] && IsAbsolute(s) && |s| == 1 {
      assert s == [SEP];
    }
  }

  // Normalising never makes a path longer, and one that it does not make shorter is normal already.
  lemma NormalizeShortens(s: Str)
    requires s != []
    ensures |Normalize(s)| <= |s| && (|Normalize(s)| == |s| ==> Normalize(s) == s)
  {
    var abs, segs, out := IsAbsolute(s), Segments(s), Components(s);
    var k := ComponentsShaped(s);
    SegmentsAreNames(s);
    SplitLength(s);
    ResolveWeighs(abs, [], segs);
    RenderLength(abs, segs);
    RenderLength(abs, out);
    assert [] + segs == segs;
    if Render(abs, out) == [] && |s| == 1 {
      assert s + [] == s;
      SegmentsOfName(s, []);
      assert segs == [s];
      assert Resolve(abs, [], segs) == Resolve(abs, Step(abs, [], s), segs[1..]);
    }
  }

  // The normal form of s is the one shortest path, other than the empty one, that leads from every
  // base where s leads.
  lemma NormalIsShortest(s: Str, q: Str)
    requires Agree(s, q) && q != []
    ensures |Normalize(s)| <= |q| && (|q| == |Normalize(s)| ==> q == Normalize(s))
  {
    NormalFormsAgree(s, q);
    NormalizeShortens(q);
  }
}
