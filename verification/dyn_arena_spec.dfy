/** The multi-span arena as values: what each call makes of its state (modules/allocator/dyn_arena.c). */
module DynArenaSpec {
  import opened Align
  import opened Spans

  datatype Arena = Arena(spans: seq<Span>, idx: nat, offset: nat)

  datatype Reply = Null | Block(addr: nat)

  datatype Answer = Answer(arena: Arena, reply: Reply)

  const MARK_OFF: nat := 0x1_0000_0000_0000
  const MARK_IDX: nat := 0x1_0000

  ghost predicate SpansHeld(spans: seq<Span>) {
    && (forall i :: 0 <= i < |spans| ==> SpanOk(spans[i]))
    && (forall i, j :: 0 <= i < |spans| && 0 <= j < |spans| && i != j ==> SpansDisjoint(spans[i], spans[j]))
  }

  ghost predicate WellFormed(a: Arena) {
    && SpansHeld(a.spans)
    && if a.spans == [] then a.idx == 0 && a.offset == 0
       else a.idx < |a.spans| && a.offset <= a.spans[a.idx].size
  }

  /* ------------------------------------------------------------------ */
  /*  Allocation                                                         */
  /* ------------------------------------------------------------------ */

  // Whether `size` bytes fit a span once `used` bytes are gone and the address is padded.
  predicate Fits(s: Span, used: nat, size: nat, align: nat)
    requires SpanOk(s) && used <= s.size && align > 0
  {
    var pad := AlignPad(s.base + used, align);
    pad <= s.size - used && size <= s.size - used - pad
  }

  // The first span from i on that has room.
  function FirstFit(spans: seq<Span>, i: nat, size: nat, align: nat): (k: nat)
    requires i <= |spans| && align > 0 && forall j :: 0 <= j < |spans| ==> SpanOk(spans[j])
    ensures i <= k <= |spans|
    ensures k < |spans| ==> Fits(spans[k], 0, size, align)
    ensures forall j :: i <= j < k ==> !Fits(spans[j], 0, size, align)
    decreases |spans| - i
  {
    if i == |spans| || Fits(spans[i], 0, size, align) then i else FirstFit(spans, i + 1, size, align)
  }

  function Swap(spans: seq<Span>, i: nat, j: nat): seq<Span>
    requires i < |spans| && j < |spans|
  {
    spans[i := spans[j]][j := spans[i]]
  }

  function Alloc(a: Arena, size: nat, align: nat): Answer
    requires WellFormed(a) && align > 0
  {
    if a.spans == [] then Answer(a, Null)
    else
      var cur := a.spans[a.idx];
      if Fits(cur, a.offset, size, align) then
        var at := a.offset + AlignPad(cur.base + a.offset, align);
        Answer(a.(offset := at + size), Block(cur.base + at))
      else
        var k := FirstFit(a.spans, a.idx + 1, size, align);
        if k == |a.spans| then Answer(a, Null)
        else
          var p := AlignPad(a.spans[k].base, align);
          Answer(Arena(Swap(a.spans, a.idx + 1, k), a.idx + 1, p + size), Block(a.spans[k].base + p))
  }

  /* ------------------------------------------------------------------ */
  /*  Spans, marks and cleaning                                          */
  /* ------------------------------------------------------------------ */

  function Grow(a: Arena, s: Span): Arena {
    a.(spans := a.spans + [s])
  }

  // Whether the last span is in use.
  predicate Refuses(a: Arena) {
    a.spans == [] || (a.idx == |a.spans| - 1 && !(a.idx == 0 && a.offset == 0))
  }

  function Shrink(a: Arena): Arena {
    if Refuses(a) then a else a.(spans := a.spans[..|a.spans| - 1])
  }

  // `idx << 48 | offset` in 64 bits, and the two fields read back from a word.
  function MarkWord(idx: nat, offset: nat): nat {
    Or((idx * MARK_OFF) % WORD, offset)
  }

  function MarkIdx(v: nat): nat {
    v / MARK_OFF
  }

  function MarkOffset(v: nat): nat {
    And(v, MARK_OFF - 1)
  }

  predicate Restores(a: Arena, v: nat)
    requires a.idx < |a.spans| || a.idx == 0
  {
    MarkIdx(v) <= a.idx && MarkOffset(v) <= if MarkIdx(v) == a.idx then a.offset else a.spans[MarkIdx(v)].size
  }

  function Restore(a: Arena, v: nat): Arena
    requires a.idx < |a.spans| || a.idx == 0
  {
    if Restores(a, v) then a.(idx := MarkIdx(v), offset := MarkOffset(v)) else a
  }

  function Clean(a: Arena): Arena {
    a.(idx := 0, offset := 0)
  }
}
