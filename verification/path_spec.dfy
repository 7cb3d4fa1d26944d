/** What normalising a POSIX path means (src/nth_path.c): split on separators, resolve "." and
    "..", join; and what a path means: where it leads from a base directory.
  */
module PathSpec {

  type Str = seq<bv8>

  const SEP: bv8 := 47
  const DOT: bv8 := 46

  const HERE: Str := [DOT]
  const UP: Str := [DOT, DOT]

  predicate IsAbsolute(s: Str) {
    s != [] && s[0] == SEP
  }

  // Length of the leading run of separators, and of non-separators.
  function SepRun(s: Str): (n: nat)
    ensures n <= |s|
    ensures forall i :: 0 <= i < n ==> s[i] == SEP
    ensures n < |s| ==> s[n] != SEP
  {
    if s == [] || s[0] != SEP then 0 else 1 + SepRun(s[1..])
  }

  function NameRun(s: Str): (n: nat)
    ensures n <= |s|
    ensures forall i :: 0 <= i < n ==> s[i] != SEP
    ensures n < |s| ==> s[n] == SEP
  {
    if s == [] || s[0] == SEP then 0 else 1 + NameRun(s[1..])
  }

  // The non-empty runs between separators.
  function Segments(s: Str): seq<Str>
    decreases |s|
  {
    if s == [] then []
    else if s[0] == SEP then Segments(s[1..])
    else
      var n := NameRun(s);
      [s[..n]] + Segments(s[n..])
  }

  // One segment against the components kept so far: "." vanishes, ".." cancels a real
  // component, is kept at the front of a relative path and vanishes at the root.
  function Step(abs: bool, out: seq<Str>, seg: Str): seq<Str> {
    if seg == HERE then out
    else if seg == UP then
      if out != [] && out[|out| - 1] != UP then out[..|out| - 1]
      else if abs then out
      else out + [UP]
    else out + [seg]
  }

  function Resolve(abs: bool, out: seq<Str>, segs: seq<Str>): seq<Str>
    decreases |segs|
  {
    if segs == [] then out else Resolve(abs, Step(abs, out, segs[0]), segs[1..])
  }

  function Join(out: seq<Str>): Str {
    if out == [] then []
    else if |out| == 1 then out[0]
    else Join(out[..|out| - 1]) + [SEP] + out[|out| - 1]
  }

  function Render(abs: bool, out: seq<Str>): Str {
    (if abs then [SEP] else []) + Join(out)
  }

  function Components(s: Str): seq<Str> {
    Resolve(IsAbsolute(s), [], Segments(s))
  }

  function Normalize(s: Str): Str {
    var r := Render(IsAbsolute(s), Components(s));
    if r == [] then HERE else r
  }

  /* ------------------------------------------------------------------ */
  /*  Meaning                                                            */
  /* ------------------------------------------------------------------ */

  // A directory is the list of names leading to it from the root; ".." at the root stays put.
  function Enter(dir: seq<Str>, seg: Str): seq<Str> {
    if seg == HERE then dir
    else if seg == UP then if dir == [] then [] else dir[..|dir| - 1]
    else dir + [seg]
  }

  function EnterAll(dir: seq<Str>, segs: seq<Str>): seq<Str>
    decreases |segs|
  {
    if segs == [] then dir else EnterAll(Enter(dir, segs[0]), segs[1..])
  }

  // Where path s leads from directory `base`.
  function Walk(base: seq<Str>, s: Str): seq<Str> {
    EnterAll(if IsAbsolute(s) then [] else base, Segments(s))
  }

  ghost predicate Agree(p: Str, q: Str) {
    forall base: seq<Str> :: Walk(base, p) == Walk(base, q)
  }

  /* ------------------------------------------------------------------ */
  /*  Building and taking apart                                          */
  /* ------------------------------------------------------------------ */

  function Append(p: Str, q: Str): Str {
    if q == [] then p
    else if p != [] && p[|p| - 1] != SEP then p + [SEP] + q
    else p + q
  }

  function Seps(m: nat): Str {
    seq(m, _ => SEP)
  }

  // Where the trailing run of non-separators starts.
  function NameStart(s: Str): (k: nat)
    ensures k <= |s|
    ensures forall i :: k <= i < |s| ==> s[i] != SEP
    ensures k > 0 ==> s[k - 1] == SEP
  {
    if s == [] || s[|s| - 1] == SEP then |s| else NameStart(s[..|s| - 1])
  }

  // Drop the separators ending s[..n], all of them or down to one byte.
  function TrimTo0(s: Str, n: nat): (k: nat)
    requires n <= |s|
    ensures k <= n
    ensures forall i :: k <= i < n ==> s[i] == SEP
    ensures k > 0 ==> s[k - 1] != SEP
  {
    if n > 0 && s[n - 1] == SEP then TrimTo0(s, n - 1) else n
  }

  function TrimTo1(s: Str, n: nat): (k: nat)
    requires n <= |s|
    ensures k <= n && (n > 0 ==> k > 0)
    ensures forall i :: k <= i < n ==> s[i] == SEP
    ensures k > 1 ==> s[k - 1] != SEP
  {
    if n > 1 && s[n - 1] == SEP then TrimTo1(s, n - 1) else n
  }

  function Filename(s: Str): Str {
    s[NameStart(s)..]
  }

  function Directory(s: Str): Str {
    var end := TrimTo0(s, |s|);
    if end == 0 then s[..if |s| > 0 then 1 else 0]
    else
      var start := NameStart(s[..end]);
      if start == 0 then []
      else if end == |s| then s[..TrimTo1(s, start)]
      else s[..end]
  }

  // The last dot of a name that does not start it, or 0.
  function LastDot(f: Str): (i: nat)
    ensures i == 0 || (i < |f| && f[i] == DOT)
    ensures forall j :: i < j < |f| ==> f[j] != DOT
  {
    if |f| <= 1 then 0 else if f[|f| - 1] == DOT then |f| - 1 else LastDot(f[..|f| - 1])
  }

  predicate AllDots(f: Str) {
    forall j :: 0 <= j < |f| ==> f[j] == DOT
  }

  function Extension(s: Str): Str {
    var f := Filename(s);
    var i := LastDot(f);
    if i == 0 || AllDots(f[..i]) then [] else f[i..]
  }

  function Stem(s: Str): Str {
    var f := Filename(s);
    f[..|f| - |Extension(s)|]
  }
}
