/** What an arena guarantees: placement, marks, and the safety of live blocks over every run. */
module DynArenaTheorems {
  import opened Align
  import opened DynArenaSpec
  import opened Spans

  /* ------------------------------------------------------------------ */
  /*  Placement                                                          */
  /* ------------------------------------------------------------------ */

  // `addr` is an aligned place for `size` bytes in s, past its first `used`.
  predicate Place(s: Span, used: nat, size: nat, align: nat, addr: nat)
    requires align > 0
  {
    s.base + used <= addr && Multiple(addr, align) && addr + size <= End(s)
  }

  // The wraparound test is exact, and the padded address is the lowest place there is.
  lemma FitsIff(s: Span, used: nat, size: nat, align: nat)
    requires SpanOk(s) && used <= s.size && align < WORD && IsPow2(align)
    ensures Fits(s, used, size, align) <==> exists addr: nat :: Place(s, used, size, align, addr)
    ensures Fits(s, used, size, align) ==>
              var addr := s.base + used + AlignPad(s.base + used, align);
              && Place(s, used, size, align, addr)
              && forall u: nat :: Place(s, used, size, align, u) ==> addr <= u
  {
    var lo := s.base + used;
    AlignPadLeast(lo, align);
    if Fits(s, used, size, align) {
      assert Place(s, used, size, align, lo + AlignPad(lo, align));
    }
  }

  // What of span i is already behind the arena's position.
  function Used(a: Arena, i: nat): nat {
    if i == a.idx then a.offset else 0
  }

  ghost predicate HasPlace(a: Arena, i: nat, size: nat, align: nat)
    requires i < |a.spans| && align > 0
  {
    exists addr: nat :: Place(a.spans[i], Used(a, i), size, align, addr)
  }

  // The lowest place in the first span, from the current one on, that has a place at all.
  ghost predicate Lowest(a: Arena, i: nat, size: nat, align: nat, addr: nat)
    requires a.idx <= i < |a.spans| && align > 0
  {
    && Place(a.spans[i], Used(a, i), size, align, addr)
    && (forall u: nat :: Place(a.spans[i], Used(a, i), size, align, u) ==> addr <= u)
    && (forall j: nat :: a.idx <= j < i ==> !HasPlace(a, j, size, align))
  }

  lemma FirstFitIs(a: Arena, size: nat, align: nat)
    requires WellFormed(a) && align < WORD && IsPow2(align) && a.spans != []
    requires !Fits(a.spans[a.idx], a.offset, size, align)
    ensures var k := FirstFit(a.spans, a.idx + 1, size, align);
            && (forall j: nat :: a.idx <= j < k ==> !HasPlace(a, j, size, align))
            && (k < |a.spans| ==> Lowest(a, k, size, align, a.spans[k].base + AlignPad(a.spans[k].base, align)))
  {
    hide AlignPad, Fits;
    var k := FirstFit(a.spans, a.idx + 1, size, align);
    forall j: nat | a.idx <= j < k
      ensures !HasPlace(a, j, size, align)
    {
      FitsIff(a.spans[j], Used(a, j), size, align);
    }
    if k < |a.spans| {
      FitsIff(a.spans[k], 0, size, align);
    }
  }

  // NULL means there is no aligned place in the rest of the current span or in any later one;
  // otherwise the block is the lowest place in the first of those spans that has one.
  lemma AllocIff(a: Arena, size: nat, align: nat)
    requires WellFormed(a) && align < WORD && IsPow2(align)
    ensures Alloc(a, size, align).reply == Null <==>
              forall i: nat :: a.idx <= i < |a.spans| ==> !HasPlace(a, i, size, align)
    ensures Alloc(a, size, align).reply.Block? ==>
              exists i: nat :: a.idx <= i < |a.spans| && Lowest(a, i, size, align, Alloc(a, size, align).reply.addr)
  {
    SpansAreOk(a.spans);
    hide AlignPad, Fits, FirstFit, HasPlace, SpansHeld;
    if a.spans != [] {
      FitsIff(a.spans[a.idx], a.offset, size, align);
      if Fits(a.spans[a.idx], a.offset, size, align) {
        var addr := Alloc(a, size, align).reply.addr;
        assert Lowest(a, a.idx, size, align, addr);
        PlaceIsHas(a, a.idx, size, align, addr);
      } else {
        FirstFitIs(a, size, align);
        var k := FirstFit(a.spans, a.idx + 1, size, align);
        if k < |a.spans| {
          PlaceIsHas(a, k, size, align, Alloc(a, size, align).reply.addr);
        }
      }
    }
  }

  lemma PlaceIsHas(a: Arena, i: nat, size: nat, align: nat, addr: nat)
    requires i < |a.spans| && align > 0 && Place(a.spans[i], Used(a, i), size, align, addr)
    ensures HasPlace(a, i, size, align)
  {
  }

  /* ------------------------------------------------------------------ */
  /*  Well-formedness                                                    */
  /* ------------------------------------------------------------------ */

  lemma SwapOk(spans: seq<Span>, i: nat, j: nat)
    requires SpansHeld(spans) && i <= j < |spans|
    ensures SpansHeld(Swap(spans, i, j)) && |Swap(spans, i, j)| == |spans|
    ensures Swap(spans, i, j)[..i] == spans[..i] && Swap(spans, i, j)[i] == spans[j]
    ensures multiset(Swap(spans, i, j)) == multiset(spans)
  {
  }

  lemma SpansAreOk(spans: seq<Span>)
    requires SpansHeld(spans)
    ensures forall i :: 0 <= i < |spans| ==> SpanOk(spans[i])
  {
  }

  // Allocation swaps spans above the current one only; those at and below it stay put.
  lemma AllocKeeps(a: Arena, size: nat, align: nat)
    requires WellFormed(a) && align > 0
    ensures var a' := Alloc(a, size, align).arena;
            && WellFormed(a') && multiset(a'.spans) == multiset(a.spans)
            && |a'.spans| == |a.spans| && a.idx <= a'.idx <= a.idx + 1
            && (a.spans != [] ==> a'.spans[..a.idx + 1] == a.spans[..a.idx + 1])
            && (a'.idx == a.idx ==> a'.spans == a.spans && a'.offset >= a.offset)
            && (Alloc(a, size, align).reply == Null ==> a' == a)
  {
    hide AlignPad, SpansHeld, Swap, FirstFit;
    SpansAreOk(a.spans);
    if a.spans != [] && !Fits(a.spans[a.idx], a.offset, size, align) {
      var k := FirstFit(a.spans, a.idx + 1, size, align);
      if k < |a.spans| {
        SwapOk(a.spans, a.idx + 1, k);
      }
    }
  }

  lemma GrowOk(a: Arena, s: Span)
    requires WellFormed(a) && SpanOk(s) && forall i :: 0 <= i < |a.spans| ==> SpansDisjoint(a.spans[i], s)
    ensures WellFormed(Grow(a, s))
  {
  }

  lemma ShrinkOk(a: Arena)
    requires WellFormed(a)
    ensures WellFormed(Shrink(a))
  {
  }

  /* ------------------------------------------------------------------ */
  /*  Marks                                                              */
  /* ------------------------------------------------------------------ */

  lemma MarkOffIsPow2()
    ensures Pow2(48) == MARK_OFF && MARK_IDX * MARK_OFF == WORD
  {
    Widths();
  }

  lemma MarkOffsetIs(v: nat)
    ensures MarkOffset(v) == v % MARK_OFF < MARK_OFF
  {
    MarkOffIsPow2();
    AndLowMask(v, 48);
  }

  // A mark word gives back the position it was made from exactly when both fields fit: 65536
  // spans, and 2^48 bytes.
  lemma MarkRoundTripIff(idx: nat, offset: nat)
    requires offset < WORD
    ensures MarkIdx(MarkWord(idx, offset)) == idx && MarkOffset(MarkWord(idx, offset)) == offset
            <==> idx < MARK_IDX && offset < MARK_OFF
  {
    MarkOffIsPow2();
    MarkOffsetIs(MarkWord(idx, offset));
    if offset < MARK_OFF {
      var r := idx % MARK_IDX;
      ShiftWraps(idx);
      OrDisjoint(r, 48, offset);
      assert MarkWord(idx, offset) == r * MARK_OFF + offset;
      ModUnique(r * MARK_OFF + offset, MARK_OFF, r, offset);
    }
  }

  lemma ShiftWraps(idx: nat)
    ensures (idx * MARK_OFF) % WORD == (idx % MARK_IDX) * MARK_OFF
  {
    var q, r := idx / MARK_IDX, idx % MARK_IDX;
    assert idx * MARK_OFF == q * WORD + r * MARK_OFF;
    ModUnique(idx * MARK_OFF, WORD, q, r * MARK_OFF);
  }

  // The 65537th span cannot be told from the first.
  lemma MarkOfSpan65536(offset: nat)
    requires offset < MARK_OFF
    ensures MarkWord(MARK_IDX, offset) == MarkWord(0, offset) && MarkIdx(MarkWord(MARK_IDX, offset)) == 0
  {
    ShiftWraps(MARK_IDX);
    MarkOffIsPow2();
    ModUnique(offset, MARK_OFF, 0, offset);
  }

  // Any word at all is either turned down, or names a position no later than the present one.
  lemma RestoreAny(a: Arena, v: nat)
    requires WellFormed(a) && v < WORD
    ensures WellFormed(Restore(a, v)) && Restore(a, v).spans == a.spans
    ensures !Restores(a, v) ==> Restore(a, v) == a
    ensures Restores(a, v) ==> NotLater(Restore(a, v), a)
    ensures Restores(a, v) <==>
              exists b: Arena :: b.spans == a.spans && WellFormed(b) && NotLater(b, a)
                                 && MarkWord(b.idx, b.offset) == v && b.idx < MARK_IDX && b.offset < MARK_OFF
  {
    hide SpansHeld, And, Or;
    MarkOffsetIs(v);
    MarkOffIsPow2();
    var i, o := v / MARK_OFF, v % MARK_OFF;
    assert v == i * MARK_OFF + o && i < MARK_IDX;
    ShiftWraps(i);
    OrDisjoint(i, 48, o);
    if Restores(a, v) {
      var b := Restore(a, v);
      assert MarkWord(b.idx, b.offset) == v;
    }
    if b: Arena :| b.spans == a.spans && WellFormed(b) && NotLater(b, a)
                   && MarkWord(b.idx, b.offset) == v && b.idx < MARK_IDX && b.offset < MARK_OFF {
      MarkRoundTripIff(b.idx, b.offset);
    }
  }

  predicate NotLater(b: Arena, a: Arena) {
    b.idx < a.idx || (b.idx == a.idx && b.offset <= a.offset)
  }

  /* ------------------------------------------------------------------ */
  /*  Runs                                                               */
  /* ------------------------------------------------------------------ */

  datatype Live = Live(addr: nat, size: nat, align: nat, index: nat)

  // A mark outstanding, and how many blocks were live when it was taken.
  datatype Saved = Saved(idx: nat, offset: nat, word: nat, kept: nat)

  datatype World = World(arena: Arena, blocks: seq<Live>, marks: seq<Saved>)

  datatype Op =
    | DoAlloc(size: nat, align: nat)
    | DoGrow(span: Span)
    | DoShrink
    | DoClean
    | DoMark
    | DoRestore(k: nat)

  // What the source asks of callers: a real request, memory of their own, a position that a
  // mark can hold, and a mark no older restore has cut off.
  ghost predicate Legal(w: World, op: Op) {
    match op
    case DoAlloc(size, align) => size > 0 && size < WORD && align < WORD && IsPow2(align)
    case DoGrow(s) => SpanOk(s) && forall i :: 0 <= i < |w.arena.spans| ==> SpansDisjoint(w.arena.spans[i], s)
    case DoMark => w.arena.idx < MARK_IDX && w.arena.offset < MARK_OFF
    case DoRestore(k) => k < |w.marks| && w.marks[k].kept <= |w.blocks|
    case _ => true
  }

  function Exec(w: World, op: Op): World
    requires WellFormed(w.arena) && Legal(w, op)
  {
    match op
    case DoAlloc(size, align) =>
      var r := Alloc(w.arena, size, align);
      World(r.arena,
            if r.reply == Null then w.blocks else w.blocks + [Live(r.reply.addr, size, align, r.arena.idx)],
            w.marks)
    case DoGrow(s) => w.(arena := Grow(w.arena, s))
    case DoShrink => w.(arena := Shrink(w.arena))
    case DoClean => World(Clean(w.arena), [], [])
    case DoMark =>
      var a := w.arena;
      w.(marks := w.marks + [Saved(a.idx, a.offset, MarkWord(a.idx, a.offset), |w.blocks|)])
    case DoRestore(k) =>
      var a := Restore(w.arena, w.marks[k].word);
      if Restores(w.arena, w.marks[k].word)
      then World(a, w.blocks[..w.marks[k].kept], w.marks[..k + 1])
      else w
  }

  // b lies in its span, below position (idx, offset).
  predicate Below(spans: seq<Span>, b: Live, idx: nat, offset: nat) {
    && b.size > 0 && b.align > 0 && Multiple(b.addr, b.align)
    && b.index < |spans| && b.index <= idx
    && spans[b.index].base <= b.addr
    && b.addr + b.size <= End(spans[b.index])
    && (b.index == idx ==> b.addr + b.size <= spans[b.index].base + offset)
  }

  predicate Disjoint(b: Live, c: Live) {
    b.addr + b.size <= c.addr || c.addr + c.size <= b.addr
  }

  // A mark names a position at or before the present one, and its word says so.
  ghost predicate MarkOk(w: World, m: Saved) {
    && m.idx < MARK_IDX && m.offset < MARK_OFF && m.word == MarkWord(m.idx, m.offset)
    && m.kept <= |w.blocks|
    && (m.idx < w.arena.idx || (m.idx == w.arena.idx && m.offset <= w.arena.offset))
    && (m.idx < w.arena.idx ==> m.idx < |w.arena.spans| && m.offset <= w.arena.spans[m.idx].size)
    && (forall j :: 0 <= j < m.kept ==> Below(w.arena.spans, w.blocks[j], m.idx, m.offset))
  }

  ghost predicate Inv(w: World) {
    && WellFormed(w.arena)
    && (forall j :: 0 <= j < |w.blocks| ==> Below(w.arena.spans, w.blocks[j], w.arena.idx, w.arena.offset))
    && (forall i, j :: 0 <= i < j < |w.blocks| ==> Disjoint(w.blocks[i], w.blocks[j]))
    && (forall k :: 0 <= k < |w.marks| ==> MarkOk(w, w.marks[k]))
    && (forall k, l :: 0 <= k < l < |w.marks| ==> w.marks[k].kept <= w.marks[l].kept)
    && (forall k, l :: 0 <= k < l < |w.marks| ==> EarlierMark(w.marks[k], w.marks[l]))
  }

  predicate EarlierMark(m: Saved, n: Saved) {
    m.idx < n.idx || (m.idx == n.idx && m.offset <= n.offset)
  }

  lemma InvSetup(span: Span)
    requires SpanOk(span)
    ensures Inv(World(Arena([span], 0, 0), [], []))
  {
  }

  // What lies below a position stays below any later one, as long as the spans up to it stay put.
  lemma BelowMoves(spans: seq<Span>, spans': seq<Span>, b: Live, i: nat, o: nat, i': nat, o': nat)
    requires Below(spans, b, i, o) && (i < i' || (i == i' && o <= o'))
    requires b.index < |spans'| && spans'[b.index] == spans[b.index]
    ensures Below(spans', b, i', o')
  {
    hide Multiple;
  }

  lemma AllocPlaces(a: Arena, size: nat, align: nat)
    requires WellFormed(a) && size > 0 && align < WORD && IsPow2(align)
    requires Alloc(a, size, align).reply.Block?
    ensures var r := Alloc(a, size, align); var b := Live(r.reply.addr, size, align, r.arena.idx);
            && Below(r.arena.spans, b, r.arena.idx, r.arena.offset)
            && (r.arena.idx == a.idx ==> a.spans[a.idx].base + a.offset <= b.addr)
  {
    hide AlignPad, Fits, FirstFit, Multiple, SpansHeld;
    SpansAreOk(a.spans);
    FitsIff(a.spans[a.idx], a.offset, size, align);
    if !Fits(a.spans[a.idx], a.offset, size, align) {
      var k := FirstFit(a.spans, a.idx + 1, size, align);
      FitsIff(a.spans[k], 0, size, align);
    }
  }

  lemma NewIsDisjoint(spans: seq<Span>, b: Live, c: Live, idx: nat, offset: nat, lo: nat)
    requires SpansHeld(spans) && Below(spans, c, idx, offset) && Below(spans, b, b.index, lo)
    requires b.index > idx || (b.index == idx && spans[idx].base + offset <= b.addr)
    ensures Disjoint(c, b)
  {
    hide Multiple;
    if c.index != b.index {
      assert SpansDisjoint(spans[c.index], spans[b.index]);
    }
  }

  lemma InvAllocBlocks(w: World, size: nat, align: nat)
    requires Inv(w) && Legal(w, DoAlloc(size, align)) && Alloc(w.arena, size, align).reply.Block?
    ensures var w' := Exec(w, DoAlloc(size, align));
            && (forall j :: 0 <= j < |w'.blocks| ==> Below(w'.arena.spans, w'.blocks[j], w'.arena.idx, w'.arena.offset))
            && (forall i, j :: 0 <= i < j < |w'.blocks| ==> Disjoint(w'.blocks[i], w'.blocks[j]))
  {
    var a, r := w.arena, Alloc(w.arena, size, align);
    AllocKeeps(a, size, align);
    AllocPlaces(a, size, align);
    var b := Live(r.reply.addr, size, align, r.arena.idx);
    hide Alloc, Below, Multiple, SpansHeld, IsPow2, MarkOk;
    forall j | 0 <= j < |w.blocks|
      ensures Below(r.arena.spans, w.blocks[j], r.arena.idx, r.arena.offset) && Disjoint(w.blocks[j], b)
    {
      var c := w.blocks[j];
      StaysPut(a, r.arena, c);
      NewIsDisjoint(r.arena.spans, b, c, a.idx, a.offset, r.arena.offset);
      BelowMoves(r.arena.spans, r.arena.spans, c, a.idx, a.offset, r.arena.idx, r.arena.offset);
    }
  }

  lemma StaysPut(a: Arena, a': Arena, c: Live)
    requires Below(a.spans, c, a.idx, a.offset) && a.idx < |a.spans| && |a'.spans| == |a.spans|
    requires a'.spans[..a.idx + 1] == a.spans[..a.idx + 1]
    ensures a'.spans[a.idx] == a.spans[a.idx]
    ensures c.index < |a'.spans| && a'.spans[c.index] == a.spans[c.index]
    ensures Below(a'.spans, c, a.idx, a.offset)
  {
    hide Multiple;
    assert a'.spans[..a.idx + 1][c.index] == a.spans[..a.idx + 1][c.index];
    assert a'.spans[..a.idx + 1][a.idx] == a.spans[..a.idx + 1][a.idx];
  }

  // A mark stays good while the position moves on and the spans up to the mark stay put.
  lemma MarkMoves(w: World, w': World, m: Saved)
    requires MarkOk(w, m) && m.kept <= |w'.blocks| && w'.blocks[..m.kept] == w.blocks[..m.kept]
    requires m.idx < w'.arena.idx || (m.idx == w'.arena.idx && m.offset <= w'.arena.offset)
    requires m.idx < w'.arena.idx ==> m.idx < |w'.arena.spans| && m.offset <= w'.arena.spans[m.idx].size
    requires m.kept == 0 || (m.idx < |w.arena.spans| && m.idx < |w'.arena.spans|
                             && w'.arena.spans[..m.idx + 1] == w.arena.spans[..m.idx + 1])
    ensures MarkOk(w', m)
  {
    hide Multiple, MarkWord;
    forall j | 0 <= j < m.kept
      ensures Below(w'.arena.spans, w'.blocks[j], m.idx, m.offset)
    {
      var b := w.blocks[j];
      assert w'.blocks[..m.kept][j] == w.blocks[..m.kept][j];
      assert w'.arena.spans[..m.idx + 1][b.index] == w.arena.spans[..m.idx + 1][b.index];
    }
  }

  lemma InvAlloc(w: World, size: nat, align: nat)
    requires Inv(w) && Legal(w, DoAlloc(size, align))
    ensures Inv(Exec(w, DoAlloc(size, align)))
  {
    var w' := Exec(w, DoAlloc(size, align));
    AllocKeeps(w.arena, size, align);
    if Alloc(w.arena, size, align).reply.Block? {
      InvAllocBlocks(w, size, align);
      hide Below, IsPow2, Alloc, SpansHeld, Disjoint, MarkWord;
      forall k | 0 <= k < |w'.marks|
        ensures MarkOk(w', w'.marks[k])
      {
        var m := w.marks[k];
        assert MarkOk(w, m);
        assert w'.arena.spans[..w.arena.idx + 1][..m.idx + 1] == w.arena.spans[..w.arena.idx + 1][..m.idx + 1];
        assert w'.arena.spans[..m.idx + 1] == w.arena.spans[..m.idx + 1];
        assert w'.arena.spans[..m.idx + 1][m.idx] == w.arena.spans[..m.idx + 1][m.idx];
        assert w'.blocks[..m.kept] == w.blocks[..m.kept];
        MarkMoves(w, w', m);
      }
    }
  }

  lemma InvGrow(w: World, s: Span)
    requires Inv(w) && Legal(w, DoGrow(s))
    ensures Inv(Exec(w, DoGrow(s)))
  {
    var w' := Exec(w, DoGrow(s));
    GrowOk(w.arena, s);
    hide Multiple, SpansHeld, Disjoint, MarkWord;
    forall k | 0 <= k < |w'.marks|
      ensures MarkOk(w', w'.marks[k])
    {
      assert MarkOk(w, w.marks[k]);
    }
  }

  // A span that is given back holds no live block, and no mark but one at the very start names it.
  lemma ShrinkGivesDead(w: World)
    requires Inv(w) && !Refuses(w.arena)
    ensures var last := |w.arena.spans| - 1;
            && (forall j :: 0 <= j < |w.blocks| ==> 
                                w.blocks[j].index < last
                                && SpansDisjoint(w.arena.spans[w.blocks[j].index], w.arena.spans[last]))
            && (forall k :: 0 <= k < |w.marks| ==> w.marks[k].idx < last || (w.marks[k].idx == 0 == w.marks[k].offset))
  {
    forall k | 0 <= k < |w.marks|
      ensures w.marks[k].idx < |w.arena.spans| - 1 || w.marks[k].idx == 0 == w.marks[k].offset
    {
      assert MarkOk(w, w.marks[k]);
    }
  }

  lemma InvShrink(w: World)
    requires Inv(w)
    ensures Inv(Exec(w, DoShrink))
  {
    if !Refuses(w.arena) {
      var w' := Exec(w, DoShrink);
      ShrinkOk(w.arena);
      ShrinkGivesDead(w);
      hide Multiple, SpansHeld, Disjoint, MarkWord;
      forall k | 0 <= k < |w'.marks|
        ensures MarkOk(w', w'.marks[k])
      {
        var m := w.marks[k];
        assert MarkOk(w, m);
        if m.kept > 0 {
          assert w.blocks[0].index < |w'.arena.spans|;
        }
      }
    }
  }

  lemma InvMark(w: World)
    requires Inv(w) && Legal(w, DoMark)
    ensures Inv(Exec(w, DoMark))
  {
    var w' := Exec(w, DoMark);
    hide Below, SpansHeld, Disjoint, MarkWord;
    forall k | 0 <= k < |w'.marks|
      ensures MarkOk(w', w'.marks[k])
    {
      if k < |w.marks| {
        assert MarkOk(w, w.marks[k]);
      }
    }
    forall k, l | 0 <= k < l < |w'.marks|
      ensures EarlierMark(w'.marks[k], w'.marks[l]) && w'.marks[k].kept <= w'.marks[l].kept
    {
      assert MarkOk(w, w.marks[k]);
    }
  }

  // An outstanding mark is always accepted, and brings back the very position it was taken at.
  lemma RestoreAccepts(w: World, k: nat)
    requires Inv(w) && k < |w.marks|
    ensures var m := w.marks[k];
            && m.kept <= |w.blocks| && Restores(w.arena, m.word)
            && Restore(w.arena, m.word) == w.arena.(idx := m.idx, offset := m.offset)
  {
    var m := w.marks[k];
    assert MarkOk(w, m);
    MarkRoundTripIff(m.idx, m.offset);
    hide Below, SpansHeld, Disjoint, MarkWord, MarkIdx, MarkOffset;
  }

  lemma InvRestore(w: World, k: nat)
    requires Inv(w) && k < |w.marks|
    ensures w.marks[k].kept <= |w.blocks| && Inv(Exec(w, DoRestore(k)))
  {
    RestoreAccepts(w, k);
    var w' := Exec(w, DoRestore(k));
    var m := w.marks[k];
    assert MarkOk(w, m);
    hide Multiple, SpansHeld, Disjoint, MarkWord, Restore, Restores, Below;
    forall l | 0 <= l < |w'.marks|
      ensures MarkOk(w', w'.marks[l])
    {
      assert MarkOk(w, w.marks[l]);
      assert l < k ==> EarlierMark(w.marks[l], w.marks[k]);
    }
  }

  lemma InvExec(w: World, op: Op)
    requires Inv(w) && Legal(w, op)
    ensures Inv(Exec(w, op))
  {
    match op
    case DoAlloc(size, align) => hide *; InvAlloc(w, size, align);
    case DoGrow(s) => hide *; InvGrow(w, s);
    case DoShrink => hide *; InvShrink(w);
    case DoClean =>
    case DoMark => hide *; InvMark(w);
    case DoRestore(k) => InvRestore(w, k);
  }

  ghost predicate Reaches(w: World, ops: seq<Op>, w': World)
    decreases |ops|
  {
    if ops == [] then w == w'
    else WellFormed(w.arena) && Legal(w, ops[0]) && Reaches(Exec(w, ops[0]), ops[1..], w')
  }

  lemma {:induction false} InvRun(w: World, ops: seq<Op>, w': World)
    requires Inv(w) && Reaches(w, ops, w')
    ensures Inv(w')
    decreases |ops|
  {
    hide Inv, Exec, Legal;
    if ops != [] {
      InvExec(w, ops[0]);
      InvRun(Exec(w, ops[0]), ops[1..], w');
    }
  }

  // Whatever calls are made, live blocks are aligned, inside memory handed to the arena, and
  // share no byte.
  lemma LiveBlocksSafe(span: Span, ops: seq<Op>, w: World)
    requires SpanOk(span) && Reaches(World(Arena([span], 0, 0), [], []), ops, w)
    ensures forall j :: 0 <= j < |w.blocks| ==>
              var b := w.blocks[j];
              && b.align > 0 && Multiple(b.addr, b.align) && b.index < |w.arena.spans|
              && w.arena.spans[b.index].base <= b.addr && b.addr + b.size <= End(w.arena.spans[b.index])
    ensures forall i, j :: 0 <= i < j < |w.blocks| ==> Disjoint(w.blocks[i], w.blocks[j])
  {
    InvSetup(span);
    InvRun(World(Arena([span], 0, 0), [], []), ops, w);
  }

  /* ------------------------------------------------------------------ */
  /*  A mark outlasts whatever is done above it                          */
  /* ------------------------------------------------------------------ */

  // w still has the mark at k of w0, the blocks live then, and the spans up to it in place.
  ghost predicate Keeps(w0: World, w: World, k: nat)
    requires k < |w0.marks| && w0.marks[k].kept <= |w0.blocks|
  {
    var m := w0.marks[k];
    && k < |w.marks| && w.marks[k] == m
    && m.kept <= |w.blocks| && w.blocks[..m.kept] == w0.blocks[..m.kept]
    && (m.idx == 0 == m.offset
        || (m.idx < |w.arena.spans| && m.idx < |w0.arena.spans|
            && w.arena.spans[..m.idx + 1] == w0.arena.spans[..m.idx + 1]))
  }

  // Not going back past mark k: no clean, and no restore of an older mark.
  predicate StaysAbove(op: Op, k: nat) {
    !op.DoClean? && (op.DoRestore? ==> op.k >= k)
  }

  lemma KeepsAlloc(w: World, size: nat, align: nat, k: nat)
    requires Inv(w) && Legal(w, DoAlloc(size, align)) && k < |w.marks| && w.marks[k].kept <= |w.blocks|
    ensures Keeps(w, Exec(w, DoAlloc(size, align)), k)
  {
    var m := w.marks[k];
    assert MarkOk(w, m);
    AllocKeeps(w.arena, size, align);
    hide Alloc, SpansHeld, Below, Disjoint, MarkWord, IsPow2, MarkOk, EarlierMark;
    var w' := Exec(w, DoAlloc(size, align));
    if m.idx < |w.arena.spans| {
      var s, s' := w.arena.spans, w'.arena.spans;
      assert s'[..m.idx + 1] == s'[..w.arena.idx + 1][..m.idx + 1];
      assert s[..m.idx + 1] == s[..w.arena.idx + 1][..m.idx + 1];
    }
    assert w'.blocks[..m.kept] == w.blocks[..m.kept];
  }

  lemma KeepsShrink(w: World, k: nat)
    requires Inv(w) && k < |w.marks| && w.marks[k].kept <= |w.blocks|
    ensures Keeps(w, Exec(w, DoShrink), k)
  {
    var m := w.marks[k];
    assert MarkOk(w, m);
    if !Refuses(w.arena) {
      ShrinkGivesDead(w);
      hide SpansHeld, Below, Disjoint, MarkWord, MarkOk, EarlierMark;
      assert m.idx < |w.arena.spans| - 1 ==> Exec(w, DoShrink).arena.spans[..m.idx + 1] == w.arena.spans[..m.idx + 1];
    }
  }

  lemma KeepsRestore(w: World, l: nat, k: nat)
    requires Inv(w) && k <= l < |w.marks| && w.marks[l].kept <= |w.blocks| && w.marks[k].kept <= |w.blocks|
    ensures Keeps(w, Exec(w, DoRestore(l)), k)
  {
    var m := w.marks[k];
    assert MarkOk(w, m);
    RestoreAccepts(w, l);
    assert k < l ==> w.marks[k].kept <= w.marks[l].kept;
    hide SpansHeld, Below, Disjoint, MarkWord, Restore, Restores, MarkOk, EarlierMark;
    assert Exec(w, DoRestore(l)).blocks[..m.kept] == w.blocks[..m.kept];
  }

  lemma KeepsRest(w: World, op: Op, k: nat)
    requires Inv(w) && Legal(w, op) && k < |w.marks| && w.marks[k].kept <= |w.blocks| && (op.DoGrow? || op.DoMark?)
    ensures Keeps(w, Exec(w, op), k)
  {
    var m := w.marks[k];
    assert MarkOk(w, m);
    hide SpansHeld, Below, Disjoint, MarkWord, MarkOk, EarlierMark;
    assert m.idx < |w.arena.spans| ==> Exec(w, op).arena.spans[..m.idx + 1] == w.arena.spans[..m.idx + 1];
  }

  lemma KeepsOn(w0: World, w: World, w': World, k: nat)
    requires k < |w0.marks| && w0.marks[k].kept <= |w0.blocks| && Keeps(w0, w, k)
    requires k < |w.marks| && w.marks[k].kept <= |w.blocks| && Keeps(w, w', k)
    ensures Keeps(w0, w', k)
  {
  }

  lemma KeepsOne(w: World, op: Op, k: nat)
    requires Inv(w) && Legal(w, op) && StaysAbove(op, k) && k < |w.marks| && w.marks[k].kept <= |w.blocks|
    ensures Keeps(w, Exec(w, op), k)
  {
    hide Inv, Exec, Keeps;
    match op {
      case DoAlloc(size, align) => KeepsAlloc(w, size, align, k);
      case DoGrow(_) => KeepsRest(w, op, k);
      case DoShrink => KeepsShrink(w, k);
      case DoMark => KeepsRest(w, op, k);
      case DoRestore(l) => KeepsRestore(w, l, k);
      case DoClean => assert false;
    }
  }

  lemma KeepsStep(w0: World, w: World, op: Op, k: nat)
    requires Inv(w) && Legal(w, op) && StaysAbove(op, k)
    requires k < |w0.marks| && w0.marks[k].kept <= |w0.blocks| && Keeps(w0, w, k)
    ensures Keeps(w0, Exec(w, op), k)
  {
    assert WellFormed(w.arena);
    hide Inv, Exec, WellFormed;
    hide StaysAbove, Legal;
    var w' := Exec(w, op);
    assert Keeps(w, w', k) by {
      KeepsOne(w, op, k);
    }
    KeepsOn(w0, w, w', k);
  }

  lemma {:induction false} KeepsRun(w0: World, w: World, ops: seq<Op>, w': World, k: nat)
    requires Inv(w) && Reaches(w, ops, w') && forall op :: op in ops ==> StaysAbove(op, k)
    requires k < |w0.marks| && w0.marks[k].kept <= |w0.blocks| && Keeps(w0, w, k)
    ensures Inv(w') && Keeps(w0, w', k)
    decreases |ops|
  {
    hide Inv, Exec, Legal, Keeps, StaysAbove;
    if ops != [] {
      assert ops[0] in ops;
      InvExec(w, ops[0]);
      KeepsStep(w0, w, ops[0], k);
      assert forall op :: op in ops[1..] ==> op in ops;
      KeepsRun(w0, Exec(w, ops[0]), ops[1..], w', k);
    }
  }

  // Mark, do anything that does not go back further, restore: the position and the live blocks
  // are those of the moment of the mark, and the spans up to it never moved.
  lemma MarkThenRestore(w: World, ops: seq<Op>, w': World)
    requires Inv(w) && Legal(w, DoMark) && Reaches(Exec(w, DoMark), ops, w')
    requires forall op :: op in ops ==> StaysAbove(op, |w.marks|)
    ensures Inv(w') && |w.marks| < |w'.marks| && w'.marks[|w.marks|].kept <= |w'.blocks|
    ensures var back := Exec(w', DoRestore(|w.marks|));
            && back.arena.idx == w.arena.idx && back.arena.offset == w.arena.offset
            && back.blocks == w.blocks
            && (w.arena.idx == 0 == w.arena.offset
                || (w.arena.idx < |back.arena.spans| && w.arena.idx < |w.arena.spans|
                    && back.arena.spans[..w.arena.idx + 1] == w.arena.spans[..w.arena.idx + 1]))
  {
    hide *;
    MarkAdds(w);
    InvMark(w);
    var k, w0 := |w.marks|, Exec(w, DoMark);
    KeepsItself(w0, k);
    KeepsRun(w0, w0, ops, w', k);
    RestoreKept(w0, w', k);
    assert w0.blocks[..|w.blocks|] == w.blocks;
  }

  lemma MarkAdds(w: World)
    requires Inv(w) && Legal(w, DoMark)
    ensures var w0 := Exec(w, DoMark);
            && |w0.marks| == |w.marks| + 1 && w0.blocks == w.blocks && w0.arena == w.arena
            && var m := w0.marks[|w.marks|];
               m.idx == w.arena.idx && m.offset == w.arena.offset && m.kept == |w.blocks|
    ensures WellFormed(w.arena) && (w.arena.idx < |w.arena.spans| || w.arena.idx == 0 == w.arena.offset)
  {
  }

  lemma KeepsItself(w: World, k: nat)
    requires k < |w.marks| && w.marks[k].kept <= |w.blocks|
    requires w.marks[k].idx < |w.arena.spans| || w.marks[k].idx == 0 == w.marks[k].offset
    ensures Keeps(w, w, k)
  {
  }

  lemma RestoreKept(w0: World, w: World, k: nat)
    requires Inv(w) && k < |w0.marks| && w0.marks[k].kept <= |w0.blocks| && Keeps(w0, w, k)
    ensures k < |w.marks| && w.marks[k].kept <= |w.blocks|
    ensures var m := w0.marks[k]; var back := Exec(w, DoRestore(k));
            && back.arena.idx == m.idx && back.arena.offset == m.offset && back.blocks == w0.blocks[..m.kept]
            && (m.idx == 0 == m.offset
                || (m.idx < |back.arena.spans| && m.idx < |w0.arena.spans|
                    && back.arena.spans[..m.idx + 1] == w0.arena.spans[..m.idx + 1]))
  {
    RestoreAccepts(w, k);
    hide Inv, Restores, Restore;
  }
}
