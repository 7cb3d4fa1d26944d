/** Where an arena's position stands over every run: right behind the last live block, which is packed
    against the one before; and what becomes of the spans (modules/allocator/dyn_arena.c).
  */
module DynArenaLayout {
  import opened Align
  import opened DynArenaSpec
  import opened DynArenaTheorems
  import opened Spans

  /* ------------------------------------------------------------------ */
  /*  One allocation                                                     */
  /* ------------------------------------------------------------------ */

  // b starts at the first of its aligned addresses from lo in span idx, or from the start of the next.
  predicate Follows(spans: seq<Span>, b: Live, idx: nat, lo: nat) {
    || (b.index == idx && lo <= b.addr < lo + b.align)
    || (b.index == idx + 1 < |spans| && spans[b.index].base <= b.addr < spans[b.index].base + b.align)
  }

  // s' is s with the spans at i and j exchanged.
  predicate Exchanged(s: seq<Span>, s': seq<Span>, i: nat, j: nat) {
    && |s'| == |s| && i < |s| && j < |s| && s'[i] == s[j] && s'[j] == s[i]
    && forall k :: 0 <= k < |s| && k != i && k != j ==> s'[k] == s[k]
  }

  lemma SwapExchanges(spans: seq<Span>, i: nat, j: nat)
    requires i < |spans| && j < |spans|
    ensures Exchanged(spans, Swap(spans, i, j), i, j)
  {
  }

  // What an allocation has done that found its place in span i: the position is right behind the
  // block, in that span, which is the current one or takes the place of the next.
  predicate Ends(a: Arena, r: Answer, i: nat, size: nat) {
    && r.reply.Block? && a.idx <= i < |a.spans| && r.arena.idx < |r.arena.spans|
    && r.arena.spans[r.arena.idx].base + r.arena.offset == r.reply.addr + size
    && if i == a.idx then r.arena.spans == a.spans && r.arena.idx == a.idx
       else r.arena.idx == a.idx + 1 && Exchanged(a.spans, r.arena.spans, r.arena.idx, i)
  }

  lemma AllocHere(a: Arena, size: nat, align: nat)
    requires WellFormed(a) && align < WORD && IsPow2(align) && a.spans != []
    requires Fits(a.spans[a.idx], a.offset, size, align)
    ensures var r := Alloc(a, size, align);
            && Ends(a, r, a.idx, size) && Lowest(a, a.idx, size, align, r.reply.addr)
            && Follows(r.arena.spans, Live(r.reply.addr, size, align, r.arena.idx), a.idx,
                       a.spans[a.idx].base + a.offset)
  {
    var cur := a.spans[a.idx];
    FitsIff(cur, a.offset, size, align);
    AlignPadLeast(cur.base + a.offset, align);
    hide AlignPad, Fits, SpansHeld, IsPow2, Multiple;
  }

  lemma AllocNext(a: Arena, size: nat, align: nat)
    requires WellFormed(a) && align < WORD && IsPow2(align) && a.spans != []
    requires !Fits(a.spans[a.idx], a.offset, size, align) && FirstFit(a.spans, a.idx + 1, size, align) < |a.spans|
    ensures var r := Alloc(a, size, align); var k := FirstFit(a.spans, a.idx + 1, size, align);
            && Ends(a, r, k, size) && Lowest(a, k, size, align, r.reply.addr)
            && Follows(r.arena.spans, Live(r.reply.addr, size, align, r.arena.idx), a.idx,
                       a.spans[a.idx].base + a.offset)
  {
    var k := FirstFit(a.spans, a.idx + 1, size, align);
    FirstFitIs(a, size, align);
    AlignPadLeast(a.spans[k].base, align);
    hide AlignPad, Fits, FirstFit, Lowest, Swap, SpansHeld, IsPow2, Multiple;
    SwapExchanges(a.spans, a.idx + 1, k);
  }

  // A block given leaves the position right behind it, in the span with the lowest place for it; no
  // other span moves than that one and the one it changes places with.
  lemma AllocEnds(a: Arena, size: nat, align: nat)
    requires WellFormed(a) && align < WORD && IsPow2(align) && Alloc(a, size, align).reply.Block?
    ensures var r := Alloc(a, size, align);
            && a.spans != []
            && (exists i: nat :: Ends(a, r, i, size) && Lowest(a, i, size, align, r.reply.addr))
            && Follows(r.arena.spans, Live(r.reply.addr, size, align, r.arena.idx), a.idx,
                       a.spans[a.idx].base + a.offset)
  {
    SpansAreOk(a.spans);
    hide Lowest, Ends, Follows, AlignPad, FirstFit, SpansHeld, Swap;
    if Fits(a.spans[a.idx], a.offset, size, align) {
      AllocHere(a, size, align);
    } else {
      AllocNext(a, size, align);
    }
  }

  /* ------------------------------------------------------------------ */
  /*  The spans                                                          */
  /* ------------------------------------------------------------------ */

  // A span grown by comes straight back, and the arena with it.
  lemma GrowThenShrink(a: Arena, s: Span)
    requires WellFormed(a)
    ensures !Refuses(Grow(a, s)) && Shrink(Grow(a, s)) == a
    ensures var spans := Grow(a, s).spans; spans != [] && spans[|spans| - 1] == s
  {
    assert (a.spans + [s])[..|a.spans|] == a.spans;
  }

  // The spans a call hands in, and the spans one gives back.
  function HandedIn(op: Op): seq<Span> {
    if op.DoGrow? then [op.span] else []
  }

  function GivenBack(a: Arena, op: Op): seq<Span> {
    if op.DoShrink? && !Refuses(a) then [a.spans[|a.spans| - 1]] else []
  }

  lemma StepSpans(w: World, op: Op)
    requires WellFormed(w.arena) && Legal(w, op)
    ensures multiset(Exec(w, op).arena.spans) + multiset(GivenBack(w.arena, op))
            == multiset(w.arena.spans) + multiset(HandedIn(op))
    ensures op.DoClean? || op.DoMark? || op.DoRestore? ==> Exec(w, op).arena.spans == w.arena.spans
  {
    var spans := w.arena.spans;
    match op {
      case DoAlloc(size, align) => AllocKeeps(w.arena, size, align);
      case DoShrink =>
        if !Refuses(w.arena) {
          assert spans == spans[..|spans| - 1] + [spans[|spans| - 1]];
        }
      case _ =>
    }
  }

  function AllHandedIn(ops: seq<Op>): seq<Span> {
    if ops == [] then [] else HandedIn(ops[0]) + AllHandedIn(ops[1..])
  }

  ghost function AllGivenBack(w: World, ops: seq<Op>): seq<Span>
    decreases |ops|
  {
    if ops == [] || !WellFormed(w.arena) || !Legal(w, ops[0]) then []
    else GivenBack(w.arena, ops[0]) + AllGivenBack(Exec(w, ops[0]), ops[1..])
  }

  // Over every run the spans held and the spans given back are those handed in, each as often.
  lemma {:induction false} SpansAccountedFor(w: World, ops: seq<Op>, w': World)
    requires Reaches(w, ops, w')
    ensures multiset(w'.arena.spans) + multiset(AllGivenBack(w, ops))
            == multiset(w.arena.spans) + multiset(AllHandedIn(ops))
    decreases |ops|
  {
    hide WellFormed, Legal, Exec, GivenBack, HandedIn;
    if ops != [] {
      var w1 := Exec(w, ops[0]);
      StepSpans(w, ops[0]);
      SpansAccountedFor(w1, ops[1..], w');
      Balance(multiset(w.arena.spans), multiset(w1.arena.spans), multiset(w'.arena.spans),
              multiset(GivenBack(w.arena, ops[0])), multiset(HandedIn(ops[0])),
              multiset(AllGivenBack(w1, ops[1..])), multiset(AllHandedIn(ops[1..])));
    }
  }

  lemma Balance(x: multiset<Span>, y: multiset<Span>, z: multiset<Span>,
                given: multiset<Span>, handed: multiset<Span>, rest: multiset<Span>, more: multiset<Span>)
    requires y + given == x + handed && z + rest == y + more
    ensures z + (given + rest) == x + (handed + more)
  {
    forall s: Span
      ensures (z + (given + rest))[s] == (x + (handed + more))[s]
    {
      assert (y + given)[s] == (x + handed)[s] && (z + rest)[s] == (y + more)[s];
    }
  }

  /* ------------------------------------------------------------------ */
  /*  Packed blocks                                                      */
  /* ------------------------------------------------------------------ */

  // The span of the last block and the address behind it; the start of the first span if there is none.
  function TopIndex(blocks: seq<Live>): nat {
    if blocks == [] then 0 else blocks[|blocks| - 1].index
  }

  function TopEnd(spans: seq<Span>, blocks: seq<Live>): nat {
    if blocks != [] then blocks[|blocks| - 1].addr + blocks[|blocks| - 1].size
    else if spans != [] then spans[0].base
    else 0
  }

  // The position is right behind the last block.
  predicate AtTop(spans: seq<Span>, blocks: seq<Live>, idx: nat, offset: nat) {
    && idx == TopIndex(blocks)
    && if blocks == [] then offset == 0 else idx < |spans| && spans[idx].base + offset == TopEnd(spans, blocks)
  }

  // Each block follows the one before with no more than its alignment asks for in between.
  predicate Packed(spans: seq<Span>, blocks: seq<Live>) {
    forall j :: 0 <= j < |blocks| ==> Follows(spans, blocks[j], TopIndex(blocks[..j]), TopEnd(spans, blocks[..j]))
  }

  ghost predicate Tight(w: World) {
    && AtTop(w.arena.spans, w.blocks, w.arena.idx, w.arena.offset) && Packed(w.arena.spans, w.blocks)
    && forall k :: 0 <= k < |w.marks| ==> MarkTight(w, k)
  }

  predicate MarkTight(w: World, k: nat)
    requires k < |w.marks|
  {
    var m := w.marks[k];
    m.kept <= |w.blocks| && AtTop(w.arena.spans, w.blocks[..m.kept], m.idx, m.offset)
  }

  // Nothing changes while the spans the blocks lie in stay put.
  lemma TopStays(spans: seq<Span>, spans': seq<Span>, blocks: seq<Live>, n: nat, idx: nat, offset: nat)
    requires n <= |spans| && n <= |spans'| && spans[..n] == spans'[..n]
    requires forall j :: 0 <= j < |blocks| ==> blocks[j].index < n
    requires AtTop(spans, blocks, idx, offset)
    ensures AtTop(spans', blocks, idx, offset)
  {
    if blocks != [] {
      assert spans[..n][idx] == spans'[..n][idx];
    }
  }

  lemma PackedStays(spans: seq<Span>, spans': seq<Span>, blocks: seq<Live>, n: nat)
    requires n <= |spans| && n <= |spans'| && spans[..n] == spans'[..n]
    requires forall j :: 0 <= j < |blocks| ==> blocks[j].index < n
    requires Packed(spans, blocks)
    ensures Packed(spans', blocks)
  {
    forall j | 0 <= j < |blocks|
      ensures Follows(spans', blocks[j], TopIndex(blocks[..j]), TopEnd(spans', blocks[..j]))
    {
      assert n > blocks[j].index && spans[..n][0] == spans'[..n][0];
      assert spans[..n][blocks[j].index] == spans'[..n][blocks[j].index];
    }
  }

  lemma TightStays(w: World, w': World, n: nat)
    requires Tight(w) && w'.blocks == w.blocks && w'.marks == w.marks
    requires w'.arena.idx == w.arena.idx && w'.arena.offset == w.arena.offset
    requires n <= |w.arena.spans| && n <= |w'.arena.spans| && w.arena.spans[..n] == w'.arena.spans[..n]
    requires forall j :: 0 <= j < |w.blocks| ==> w.blocks[j].index < n
    ensures Tight(w')
  {
    var s, s' := w.arena.spans, w'.arena.spans;
    TopStays(s, s', w.blocks, n, w.arena.idx, w.arena.offset);
    PackedStays(s, s', w.blocks, n);
    hide AtTop, Packed;
    forall k | 0 <= k < |w'.marks|
      ensures MarkTight(w', k)
    {
      var m := w.marks[k];
      assert MarkTight(w, k);
      TopStays(s, s', w.blocks[..m.kept], n, m.idx, m.offset);
    }
  }

  lemma PackedSnoc(spans: seq<Span>, blocks: seq<Live>, b: Live)
    requires Packed(spans, blocks) && Follows(spans, b, TopIndex(blocks), TopEnd(spans, blocks))
    ensures Packed(spans, blocks + [b])
  {
    var more := blocks + [b];
    hide Follows;
    forall j | 0 <= j < |more|
      ensures Follows(spans, more[j], TopIndex(more[..j]), TopEnd(spans, more[..j]))
    {
      assert more[..j] == blocks[..j];
      assert j == |blocks| ==> more[..j] == blocks;
    }
  }

  // What an allocation makes of the world, as far as the layout goes.
  lemma AllocWorld(w: World, size: nat, align: nat)
    requires Inv(w) && Legal(w, DoAlloc(size, align)) && Alloc(w.arena, size, align).reply.Block?
    ensures var r := Alloc(w.arena, size, align); var s, s' := w.arena.spans, r.arena.spans; var n := w.arena.idx + 1;
            var b := Live(r.reply.addr, size, align, r.arena.idx);
            && Exec(w, DoAlloc(size, align)) == World(r.arena, w.blocks + [b], w.marks)
            && n <= |s| == |s'| && s[..n] == s'[..n] && b.index < |s'|
            && Follows(s', b, n - 1, s[n - 1].base + w.arena.offset)
            && s'[b.index].base + r.arena.offset == b.addr + b.size
            && forall j :: 0 <= j < |w.blocks| ==> w.blocks[j].index < n
  {
    AllocKeeps(w.arena, size, align);
    AllocEnds(w.arena, size, align);
    hide Alloc, IsPow2, Multiple, Lowest, MarkOk, Disjoint, Follows, SpansHeld;
    forall j | 0 <= j < |w.blocks|
      ensures w.blocks[j].index <= w.arena.idx
    {
      assert Below(w.arena.spans, w.blocks[j], w.arena.idx, w.arena.offset);
    }
  }

  lemma TightAlloc(w: World, size: nat, align: nat)
    requires Inv(w) && Legal(w, DoAlloc(size, align)) && Tight(w)
    ensures Tight(Exec(w, DoAlloc(size, align)))
  {
    var r := Alloc(w.arena, size, align);
    if r.reply.Block? {
      AllocWorld(w, size, align);
      hide Alloc, Legal, Exec, Inv, Follows;
      TightPush(w, r.arena, Live(r.reply.addr, size, align, r.arena.idx));
    } else {
      AllocKeeps(w.arena, size, align);
    }
  }

  lemma TightPush(w: World, a: Arena, b: Live)
    requires Tight(w) && w.arena.idx < |w.arena.spans| == |a.spans| && b.index == a.idx < |a.spans|
    requires var n := w.arena.idx + 1;
             && w.arena.spans[..n] == a.spans[..n]
             && Follows(a.spans, b, n - 1, w.arena.spans[n - 1].base + w.arena.offset)
             && forall j :: 0 <= j < |w.blocks| ==> w.blocks[j].index < n
    requires a.spans[a.idx].base + a.offset == b.addr + b.size
    ensures Tight(World(a, w.blocks + [b], w.marks))
  {
    var n, s, s' := w.arena.idx + 1, w.arena.spans, a.spans;
    var moved := World(w.arena.(spans := s'), w.blocks, w.marks);
    TightStays(w, moved, n);
    assert s[..n][n - 1] == s'[..n][n - 1];
    TopIs(moved);
    NewTop(s', w.blocks, b, a.offset);
    assert Packed(s', w.blocks);
    hide Follows, AtTop, Packed;
    PackedSnoc(s', w.blocks, b);
    forall k | 0 <= k < |w.marks|
      ensures MarkTight(World(a, w.blocks + [b], w.marks), k)
    {
      assert MarkTight(moved, k);
      assert (w.blocks + [b])[..w.marks[k].kept] == w.blocks[..w.marks[k].kept];
    }
  }

  lemma TopIs(w: World)
    requires Tight(w) && w.arena.spans != [] && w.arena.idx < |w.arena.spans|
    ensures w.arena.idx == TopIndex(w.blocks)
    ensures w.arena.spans[w.arena.idx].base + w.arena.offset == TopEnd(w.arena.spans, w.blocks)
  {
  }

  lemma NewTop(spans: seq<Span>, blocks: seq<Live>, b: Live, offset: nat)
    requires b.index < |spans| && spans[b.index].base + offset == b.addr + b.size
    ensures AtTop(spans, blocks + [b], b.index, offset)
  {
  }

  lemma PackedPrefix(spans: seq<Span>, blocks: seq<Live>, n: nat)
    requires Packed(spans, blocks) && n <= |blocks|
    ensures Packed(spans, blocks[..n])
  {
    hide Follows;
    forall j | 0 <= j < n
      ensures Follows(spans, blocks[..n][j], TopIndex(blocks[..n][..j]), TopEnd(spans, blocks[..n][..j]))
    {
      assert blocks[..n][..j] == blocks[..j];
    }
  }

  lemma RestoreWorld(w: World, k: nat)
    requires Inv(w) && k < |w.marks| && w.marks[k].kept <= |w.blocks|
    ensures var m := w.marks[k];
            Exec(w, DoRestore(k))
            == World(w.arena.(idx := m.idx, offset := m.offset), w.blocks[..m.kept], w.marks[..k + 1])
    ensures forall l :: 0 <= l < k ==> w.marks[l].kept <= w.marks[k].kept
  {
    RestoreAccepts(w, k);
    hide Restore, Restores, MarkOk, Below, Disjoint;
  }

  lemma TightBack(w: World, k: nat)
    requires Tight(w) && k < |w.marks| && w.marks[k].kept <= |w.blocks|
    requires forall l :: 0 <= l < k ==> w.marks[l].kept <= w.marks[k].kept
    ensures var m := w.marks[k];
            Tight(World(w.arena.(idx := m.idx, offset := m.offset), w.blocks[..m.kept], w.marks[..k + 1]))
  {
    var m := w.marks[k];
    var w' := World(w.arena.(idx := m.idx, offset := m.offset), w.blocks[..m.kept], w.marks[..k + 1]);
    assert MarkTight(w, k);
    PackedPrefix(w.arena.spans, w.blocks, m.kept);
    hide AtTop, Packed;
    forall l | 0 <= l < |w'.marks|
      ensures MarkTight(w', l)
    {
      assert MarkTight(w, l);
      assert w.blocks[..m.kept][..w.marks[l].kept] == w.blocks[..w.marks[l].kept];
    }
  }

  lemma TightRestore(w: World, k: nat)
    requires Inv(w) && k < |w.marks| && w.marks[k].kept <= |w.blocks| && Tight(w)
    ensures Tight(Exec(w, DoRestore(k)))
  {
    assert WellFormed(w.arena);
    hide *;
    RestoreWorld(w, k);
    TightBack(w, k);
  }

  lemma TightMark(w: World)
    requires Inv(w) && Legal(w, DoMark) && Tight(w)
    ensures Tight(Exec(w, DoMark))
  {
    var w' := Exec(w, DoMark);
    hide AtTop, Packed, Inv, MarkWord;
    forall k | 0 <= k < |w'.marks|
      ensures MarkTight(w', k)
    {
      if k < |w.marks| {
        assert MarkTight(w, k);
      } else {
        assert w.blocks[..|w.blocks|] == w.blocks;
      }
    }
  }

  lemma TightSpans(w: World, op: Op)
    requires Inv(w) && Legal(w, op) && Tight(w) && (op.DoGrow? || op.DoShrink?)
    ensures Tight(Exec(w, op))
  {
    var n := |w.arena.spans| - if op.DoShrink? && !Refuses(w.arena) then 1 else 0;
    if op.DoShrink? && !Refuses(w.arena) {
      ShrinkGivesDead(w);
    }
    hide Tight, MarkOk, Disjoint, SpansHeld;
    assert Exec(w, op).arena.spans[..n] == w.arena.spans[..n];
    TightStays(w, Exec(w, op), n);
  }

  lemma TightExec(w: World, op: Op)
    requires Inv(w) && Legal(w, op) && Tight(w)
    ensures Tight(Exec(w, op))
  {
    match op
    case DoAlloc(size, align) => hide *; TightAlloc(w, size, align);
    case DoGrow(_) => hide *; TightSpans(w, op);
    case DoShrink => hide *; TightSpans(w, op);
    case DoClean =>
    case DoMark => hide *; TightMark(w);
    case DoRestore(k) => TightRestore(w, k);
  }

  lemma {:induction false} TightRun(w: World, ops: seq<Op>, w': World)
    requires Inv(w) && Tight(w) && Reaches(w, ops, w')
    ensures Inv(w') && Tight(w')
    decreases |ops|
  {
    hide Inv, Exec, Legal, Tight;
    if ops != [] {
      InvExec(w, ops[0]);
      TightExec(w, ops[0]);
      TightRun(Exec(w, ops[0]), ops[1..], w');
    }
  }

  // Over every run the live blocks are packed, each at the first aligned address behind the one before
  // it or at the start of the next span, and the position stands right behind the last of them.
  lemma PositionIsTop(span: Span, ops: seq<Op>, w: World)
    requires SpanOk(span) && Reaches(World(Arena([span], 0, 0), [], []), ops, w)
    ensures AtTop(w.arena.spans, w.blocks, w.arena.idx, w.arena.offset) && Packed(w.arena.spans, w.blocks)
  {
    hide Reaches, Packed;
    assert Packed([span], []) by {
      NothingPacked([span]);
    }
    InvSetup(span);
    TightRun(World(Arena([span], 0, 0), [], []), ops, w);
  }

  lemma NothingPacked(spans: seq<Span>)
    ensures Packed(spans, [])
  {
  }

  // And so, over every run, the last span is refused exactly when a live block lies in it.
  lemma ShrinkRefusesIff(span: Span, ops: seq<Op>, w: World)
    requires SpanOk(span) && Reaches(World(Arena([span], 0, 0), [], []), ops, w)
    ensures Refuses(w.arena) <==>
              w.arena.spans == [] || exists j :: 0 <= j < |w.blocks| && w.blocks[j].index == |w.arena.spans| - 1
  {
    InvSetup(span);
    InvRun(World(Arena([span], 0, 0), [], []), ops, w);
    PositionIsTop(span, ops, w);
    hide Reaches, Packed, MarkOk, Disjoint, SpansHeld, Multiple;
    if w.blocks != [] {
      var b := w.blocks[|w.blocks| - 1];
      assert Below(w.arena.spans, b, w.arena.idx, w.arena.offset);
    }
  }
}
