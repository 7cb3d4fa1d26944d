/** Properties of whole runs of the free-list allocator, and of its operations together. */
module FreeListTheorems {
  import opened Align
  import opened Blocks
  import opened FreeListSpec
  import opened FreeListInvariant
  import opened Spans
  import W = PackedWords

  /* ------------------------------------------------------------------ */
  /*  Runs                                                               */
  /* ------------------------------------------------------------------ */

  datatype Op =
    | OpGrow(span: Span)
    | OpShrink
    | OpFirstFit(size: nat)
    | OpFree(addr: nat)
    | OpRealloc(ptr: nat, newSize: nat)
    | OpClear

  // The first-fit reallocation adaptor, apart from its copy of the payload.
  function Realloc(h: Heap, p: nat, size: nat): (Heap, nat) {
    if p == 0 then FirstFit(h, size)
    else if size == 0 then (Free(h, p), 0)
    else
      var (h', q) := FirstFit(h, size);
      if q == 0 then (h, 0) else (Free(h', p), q)
  }

  // Bytes of payload a block holds.
  function Room(b: Block): int {
    (b.csize - 1) * CHUNK
  }

  // Whether the bytes a reallocation copies lie inside the payload of the block they go to. When
  // they do, its lists are those of `Realloc`; when they do not, the copy runs over the next header.
  predicate CopyFits(h: Heap, p: nat, size: nat) {
    var i := UsedIndex(h.used, p);
    var (g, q) := FirstFit(h, size);
    && i < |h.used|
    && (q != 0 ==> g.used != [] && (Room(h.used[i]) <= Room(g.used[0]) || size <= Room(g.used[0])))
  }

  // What a caller owes: a grown span is one the allocator accepts and is disjoint from the spans
  // it holds, and a block reallocated is live and stays within what can be copied. Clearing needs
  // the span table itself to be acceptable.
  predicate Legal(h: Heap, op: Op) {
    match op
    case OpGrow(s) => CanGrow(h, s)
    case OpClear => SpansOk(h.spans)
    case OpFirstFit(size) => 0 < size < WORD
    case OpRealloc(p, size) =>
      && size < WORD
      && if p == 0 then 0 < size
         else UsedIndex(h.used, p) < |h.used| && (size != 0 ==> CopyFits(h, p, size))
    case _ => true
  }

  function Exec(h: Heap, op: Op): Heap
    requires Legal(h, op)
  {
    match op
    case OpGrow(s) => Grow(h, s)
    case OpShrink => Shrink(h).0
    case OpFirstFit(size) => FirstFit(h, size).0
    case OpFree(p) => Free(h, p)
    case OpRealloc(p, size) => Realloc(h, p, size).0
    case OpClear => Clear(h)
  }

  // `h'` is reached from `h` by the operations in order.
  ghost predicate Reaches(h: Heap, ops: seq<Op>, h': Heap)
    decreases |ops|
  {
    if ops == [] then h == h'
    else Legal(h, ops[0]) && Reaches(Exec(h, ops[0]), ops[1..], h')
  }

  lemma InvRealloc(h: Heap, p: nat, size: nat)
    requires Inv(h)
    ensures Inv(Realloc(h, p, size).0)
  {
    InvFirstFit(h, size);
    InvFree(h, p);
    InvFree(FirstFit(h, size).0, p);
  }

  lemma InvExec(h: Heap, op: Op)
    requires Inv(h) && Legal(h, op)
    ensures Inv(Exec(h, op))
  {
    match op
    case OpGrow(s) => InvGrow(h, s);
    case OpShrink => InvShrink(h);
    case OpFirstFit(size) => InvFirstFit(h, size);
    case OpFree(p) => InvFree(h, p);
    case OpRealloc(p, size) => InvRealloc(h, p, size);
    case OpClear => InvClear(h);
  }

  lemma {:induction false} InvRun(h: Heap, ops: seq<Op>, h': Heap)
    requires Inv(h) && Reaches(h, ops, h')
    ensures Inv(h')
    decreases |ops|
  {
    if ops != [] {
      InvExec(h, ops[0]);
      InvRun(Exec(h, ops[0]), ops[1..], h');
    }
  }

  // Over every run from setup the two lists hold, once each, exactly the chunks that lie whole in
  // some span, the free ones in canonical form.
  lemma RunFromSetup(s: Span, ops: seq<Op>, h: Heap)
    requires Carvable(s) && Reaches(Setup(s), ops, h)
    ensures Canonical(h.free) && PairwiseDisjoint(h.used) && AllApart(h.free, h.used)
    ensures SpansOk(h.spans)
    ensures forall c: nat, t: nat ::
              t < |h.spans| && WholeChunk(h.spans[t], c) <==> Covers(h.free, c, t) || Covers(h.used, c, t)
    ensures forall c: nat, t: nat :: !(Covers(h.free, c, t) && Covers(h.used, c, t))
  {
    InvSetup(s);
    InvRun(Setup(s), ops, h);
    forall c: nat, t: nat
      ensures t < |h.spans| && WholeChunk(h.spans[t], c) <==> Covers(h.free, c, t) || Covers(h.used, c, t)
      ensures !(Covers(h.free, c, t) && Covers(h.used, c, t))
    {
      FreeCovers(h, c, t);
      if Covers(h.used, c, t) {
        CoversInRegion(h.used, h.spans, c, t);
      }
      if t < |h.spans| {
        CarveIff(h.spans[t], t, c);
      }
    }
  }

  /* ------------------------------------------------------------------ */
  /*  Headers and payloads                                               */
  /* ------------------------------------------------------------------ */

  ghost predicate PayloadChunk(b: Block, c: nat) {
    b.addr < c < b.End()
  }

  // A live payload chunk belongs to no other live block and is the header of no block at all.
  lemma PayloadIsPrivate(h: Heap, j: nat, c: nat)
    requires Inv(h) && j < |h.used| && PayloadChunk(h.used[j], c)
    ensures forall i :: 0 <= i < |h.free| ==> !(h.free[i].addr <= c < h.free[i].End())
    ensures forall i :: 0 <= i < |h.used| && i != j ==> !(h.used[i].addr <= c < h.used[i].End())
    ensures forall i :: 0 <= i < |h.used| ==> h.used[i].addr != c
  {
    assert Apart(h.free, h.used[j]);
    forall i | 0 <= i < |h.used| && i != j
      ensures !(h.used[i].addr <= c < h.used[i].End())
    {
      assert Disjoint(h.used[if i < j then i else j], h.used[if i < j then j else i]);
    }
    forall i | 0 <= i < |h.free|
      ensures !(h.free[i].addr <= c < h.free[i].End())
    {
      assert Disjoint(h.free[i], h.used[j]);
    }
  }

  // Every block's size and span index fit the two fields of its header word.
  lemma KeyFits(h: Heap, b: Block)
    requires Inv(h) && (b in h.free || b in h.used)
    ensures 0 < b.csize < CSIZE_MAX && b.span < SPAN_LIMIT
  {
    assert HomeOf(b, h.spans) by {
      if b in h.free {
        var i :| 0 <= i < |h.free| && h.free[i] == b;
        assert HomeOf(h.free[i], h.spans);
      } else {
        var i :| 0 <= i < |h.used| && h.used[i] == b;
        assert HomeOf(h.used[i], h.spans);
      }
    }
    CarveInside(h.spans[b.span], b.span);
  }

  // So a header written for any block of either list reads back as that block, whatever its chunk
  // held before.
  lemma KeyReadsBack(h: Heap, b: Block, raw: nat)
    requires Inv(h) && (b in h.free || b in h.used) && raw < WORD
    ensures var key := W.SetSpanIdx(W.SetCsize(raw, b.csize), b.span);
            W.Csize(key) == b.csize && W.SpanIdx(key) == b.span
  {
    hide W.Get, W.Put, Pow2;
    KeyFits(h, b);
    W.Rewritten(raw, b.csize, b.span);
    Widths();
    ModUnique(b.csize, Pow2(48), 0, b.csize);
    ModUnique(b.span, Pow2(16), 0, b.span);
  }

  /* ------------------------------------------------------------------ */
  /*  Canonical form                                                     */
  /* ------------------------------------------------------------------ */

  // The free list is a function of the span table and the chunks in use.
  lemma FreeDetermined(g: Heap, h: Heap)
    requires Inv(g) && Inv(h) && g.spans == h.spans && SameCover(g.used, h.used)
    ensures g.free == h.free
  {
    forall c: nat, t: nat
      ensures Covers(g.free, c, t) <==> Covers(h.free, c, t)
    {
      FreeCovers(g, c, t);
      FreeCovers(h, c, t);
    }
    CanonicalUnique(g.free, h.free);
  }

  function FreeEach(h: Heap, ps: seq<nat>): Heap
    decreases |ps|
  {
    if ps == [] then h else FreeEach(Free(h, ps[0]), ps[1..])
  }

  // The blocks of `u` whose payload address is not in `ps`, in order.
  function Survivors(u: seq<Block>, ps: seq<nat>): seq<Block> {
    if u == [] then []
    else (if Payload(u[0]) in ps then [] else [u[0]]) + Survivors(u[1..], ps)
  }

  ghost predicate DistinctPayloads(u: seq<Block>) {
    forall i, j :: 0 <= i < j < |u| ==> Payload(u[i]) != Payload(u[j])
  }

  lemma UsedDistinct(h: Heap)
    requires Inv(h)
    ensures DistinctPayloads(h.used)
  {
    forall i, j | 0 <= i < j < |h.used|
      ensures Payload(h.used[i]) != Payload(h.used[j])
    {
      assert HomeOf(h.used[i], h.spans) && HomeOf(h.used[j], h.spans);
      assert Disjoint(h.used[i], h.used[j]);
    }
  }

  lemma {:induction false} SurvivorsNone(u: seq<Block>, ps: seq<nat>)
    requires forall i :: 0 <= i < |u| ==> Payload(u[i]) !in ps
    ensures Survivors(u, ps) == u
  {
    if u != [] {
      SurvivorsNone(u[1..], ps);
      assert u == [u[0]] + u[1..];
    }
  }

  lemma {:induction false} SurvivorsAll(u: seq<Block>, ps: seq<nat>)
    requires forall i :: 0 <= i < |u| ==> Payload(u[i]) in ps
    ensures Survivors(u, ps) == []
  {
    if u != [] {
      SurvivorsAll(u[1..], ps);
    }
  }

  // `u` once the block with payload p, if there is one, is released.
  function Released(u: seq<Block>, p: nat): seq<Block> {
    var i := UsedIndex(u, p);
    if i == |u| then u else Without(u, i)
  }

  lemma ReleasedCons(u: seq<Block>, p: nat)
    requires u != []
    ensures Released(u, p) == if Payload(u[0]) == p then u[1..] else [u[0]] + Released(u[1..], p)
  {
    var i := UsedIndex(u, p);
    assert u == [u[0]] + u[1..];
    if i == 0 {
      assert u[..0] + u[1..] == u[1..];
    } else if i < |u| {
      assert u[..i] == [u[0]] + u[1..][..i - 1] && u[i + 1..] == u[1..][i..];
      assert Without(u, i) == [u[0]] + Without(u[1..], i - 1);
    }
  }

  lemma SurvivorsCons(b: Block, u: seq<Block>, ps: seq<nat>)
    ensures Survivors([b] + u, ps) == (if Payload(b) in ps then [] else [b]) + Survivors(u, ps)
  {
    assert ([b] + u)[1..] == u;
  }

  // Freeing one address first, then the rest, removes what freeing all of them removes.
  lemma {:induction false} SurvivorsStep(u: seq<Block>, ps: seq<nat>)
    requires ps != [] && DistinctPayloads(u)
    ensures Survivors(Released(u, ps[0]), ps[1..]) == Survivors(u, ps)
  {
    assert ps == [ps[0]] + ps[1..];
    if u != [] {
      ReleasedCons(u, ps[0]);
      if Payload(u[0]) == ps[0] {
        SurvivorsSkip(u[1..], ps);
      } else {
        SurvivorsStep(u[1..], ps);
        SurvivorsCons(u[0], Released(u[1..], ps[0]), ps[1..]);
      }
    }
  }

  lemma {:induction false} SurvivorsSkip(u: seq<Block>, ps: seq<nat>)
    requires ps != [] && forall i :: 0 <= i < |u| ==> Payload(u[i]) != ps[0]
    ensures Survivors(u, ps[1..]) == Survivors(u, ps)
  {
    assert ps == [ps[0]] + ps[1..];
    if u != [] {
      SurvivorsSkip(u[1..], ps);
    }
  }

  lemma {:induction false} FreeEachInv(h: Heap, ps: seq<nat>)
    requires Inv(h)
    ensures Inv(FreeEach(h, ps)) && FreeEach(h, ps).spans == h.spans
    ensures FreeEach(h, ps).used == Survivors(h.used, ps)
    decreases |ps|
  {
    if ps == [] {
      SurvivorsNone(h.used, []);
    } else {
      InvFree(h, ps[0]);
      UsedDistinct(h);
      FreeEachInv(Free(h, ps[0]), ps[1..]);
      SurvivorsStep(h.used, ps);
    }
  }

  lemma {:induction false} SurvivorsSame(u: seq<Block>, ps: seq<nat>, qs: seq<nat>)
    requires forall p :: p in ps <==> p in qs
    ensures Survivors(u, ps) == Survivors(u, qs)
  {
    if u != [] {
      SurvivorsSame(u[1..], ps, qs);
    }
  }

  // The order of frees, repeated frees and frees of addresses that are not live never matter.
  lemma FreeOrderIrrelevant(h: Heap, ps: seq<nat>, qs: seq<nat>)
    requires Inv(h) && forall p :: p in ps <==> p in qs
    ensures FreeEach(h, ps) == FreeEach(h, qs)
  {
    FreeEachInv(h, ps);
    FreeEachInv(h, qs);
    SurvivorsSame(h.used, ps, qs);
    FreeDetermined(FreeEach(h, ps), FreeEach(h, qs));
  }

  // Freeing every live block, in any order, rebuilds exactly the heap that clearing builds.
  lemma FreeAllIsClear(h: Heap, ps: seq<nat>)
    requires Inv(h) && forall i :: 0 <= i < |h.used| ==> Payload(h.used[i]) in ps
    ensures FreeEach(h, ps) == Clear(h)
  {
    FreeEachInv(h, ps);
    SurvivorsAll(h.used, ps);
    InvClear(h);
    FreeDetermined(FreeEach(h, ps), Clear(h));
  }

  /* ------------------------------------------------------------------ */
  /*  Allocation                                                         */
  /* ------------------------------------------------------------------ */

  // A free block comes straight back when the block just taken is released.
  lemma FirstFitThenFree(h: Heap, size: nat)
    requires Inv(h)
    ensures var (h', p) := FirstFit(h, size); p != 0 ==> Free(h', p) == h
  {
    var (h', p) := FirstFit(h, size);
    if p != 0 {
      InvFirstFit(h, size);
      InvFree(h', p);
      assert Free(h', p).used == h.used;
      FreeDetermined(Free(h', p), h);
    }
  }

  // `n` contiguous free chunks of one span starting at `c`.
  ghost predicate FreeRun(h: Heap, c: nat, n: nat, t: nat) {
    CoversRun(h.free, c, n, t)
  }

  // A free run that cannot be extended at either end.
  ghost predicate MaximalRun(h: Heap, c: nat, n: nat, t: nat) {
    && n > 0 && FreeRun(h, c, n, t)
    && !Covers(h.free, c + n, t) && (c > 0 ==> !Covers(h.free, c - 1, t))
  }

  // Nothing of block i's span is free just past either end of block i.
  lemma RunStops(f: seq<Block>, i: nat, j: nat)
    requires Canonical(f) && i < |f| && j < |f|
    ensures !f[j].Has(f[i].End(), f[i].span)
    ensures f[i].addr > 0 ==> !f[j].Has(f[i].addr - 1, f[i].span)
  {
    assert NoTouchAt(f, i) && NoTouchAt(f, j);
    if i < j {
      assert f[i].End() <= f[i + 1].addr <= f[j].addr;
    } else if j < i {
      assert f[j].End() <= f[j + 1].addr <= f[i].addr;
    }
  }

  lemma BlockIsRun(h: Heap, i: nat)
    requires Inv(h) && i < |h.free|
    ensures var b := h.free[i]; MaximalRun(h, b.addr, b.csize, b.span)
  {
    var f, b := h.free, h.free[i];
    forall x: nat | b.addr <= x < b.End()
      ensures Covers(f, x, b.span)
    {
      assert f[i].Has(x, b.span);
    }
    forall j: nat | j < |f|
      ensures !f[j].Has(b.End(), b.span) && (b.addr > 0 ==> !f[j].Has(b.addr - 1, b.span))
    {
      RunStops(f, i, j);
    }
  }

  lemma MaximalRunIsBlock(h: Heap, c: nat, n: nat, t: nat)
    requires Inv(h) && MaximalRun(h, c, n, t)
    ensures Block(c, n, t) in h.free
  {
    var i := RunInOneBlock(h.free, c, n, t);
    var b := h.free[i];
    forall x: nat | b.Has(x, t)
      ensures Covers(h.free, x, t)
    {
      assert h.free[i].Has(x, t);
    }
    assert h.free[i] == Block(c, n, t);
  }

  // First fit fails exactly when no span holds a long enough run of free chunks.
  lemma FirstFitFailsIff(h: Heap, size: nat)
    requires Inv(h)
    ensures FirstFit(h, size).1 == 0 <==> !exists c: nat, t: nat :: FreeRun(h, c, NeedOf(size), t)
    ensures FirstFit(h, size).1 == 0 ==> FirstFit(h, size).0 == h
  {
    var need := NeedOf(size);
    var i := FitIndex(h.free, need);
    if c: nat, t: nat :| FreeRun(h, c, need, t) {
      var j := RunInOneBlock(h.free, c, need, t);
      assert i < |h.free|;
    }
    if i < |h.free| {
      BlockIsRun(h, i);
      var b := h.free[i];
      assert FreeRun(h, b.addr, need, b.span);
    }
  }

  // `a` starts the lowest maximal free run of at least `need` chunks.
  ghost predicate LowestFit(h: Heap, a: nat, need: nat) {
    && (exists n: nat, t: nat :: n >= need && MaximalRun(h, a, n, t))
    && (forall c: nat, n: nat, t: nat :: MaximalRun(h, c, n, t) && n >= need ==> a <= c)
  }

  lemma FitIndexIsLowest(h: Heap, need: nat)
    requires Inv(h) && FitIndex(h.free, need) < |h.free|
    ensures LowestFit(h, h.free[FitIndex(h.free, need)].addr, need)
  {
    var i := FitIndex(h.free, need);
    var b := h.free[i];
    BlockIsRun(h, i);
    assert b.csize >= need && MaximalRun(h, b.addr, b.csize, b.span);
    assert Ordered(h.free);
    hide MaximalRun, Inv, Ordered, FitIndex;
    forall c: nat, n: nat, t: nat | MaximalRun(h, c, n, t) && n >= need
      ensures b.addr <= c
    {
      MaximalRunIsBlock(h, c, n, t);
      FirstIsLowest(h.free, need, Block(c, n, t));
    }
  }

  lemma FirstIsLowest(f: seq<Block>, need: nat, x: Block)
    requires Ordered(f) && x in f && x.csize >= need
    ensures FitIndex(f, need) < |f| && f[FitIndex(f, need)].addr <= x.addr
  {
    hide FitIndex;
    var j :| 0 <= j < |f| && f[j] == x;
    assert FitIndex(f, need) <= j;
  }

  // Otherwise it returns the start of the lowest maximal run that is long enough, taking the
  // needed chunks and at most one more.
  lemma FirstFitIsLowest(h: Heap, size: nat)
    requires Inv(h) && FirstFit(h, size).1 != 0
    ensures var (h', p) := FirstFit(h, size);
            && h'.used != [] && h'.used[1..] == h.used && p == Payload(h'.used[0])
            && LowestFit(h, h'.used[0].addr, NeedOf(size))
            && NeedOf(size) <= h'.used[0].csize <= NeedOf(size) + 1
  {
    FitIndexIsLowest(h, NeedOf(size));
  }

  // It takes exactly the needed chunks from that run, and the whole run only when what would be left
  // is no more than a header.
  lemma FirstFitTakes(h: Heap, size: nat, n: nat, t: nat)
    requires Inv(h) && FirstFit(h, size).1 != 0
    requires MaximalRun(h, FirstFit(h, size).0.used[0].addr, n, t)
    ensures var b := FirstFit(h, size).0.used[0];
            b.span == t && b.csize == if NeedOf(size) + 2 <= n then NeedOf(size) else n
  {
    var f, i := h.free, FitIndex(h.free, NeedOf(size));
    var b := FirstFit(h, size).0.used[0];
    MaximalRunIsBlock(h, b.addr, n, t);
    var j :| 0 <= j < |f| && f[j] == Block(b.addr, n, t);
    assert f[i].addr == f[j].addr;
  }

  // The bytes asked for lie in one span, aligned, behind a header of their own, and every chunk of
  // them was free.
  lemma FirstFitGives(h: Heap, size: nat)
    requires Inv(h) && 0 < size <= WORD - CHUNK && FirstFit(h, size).1 != 0
    ensures var p := FirstFit(h, size).1;
            && p % CHUNK == 0
            && exists t: nat :: t < |h.spans| && Gives(h, p, size, t)
  {
    var b := FirstFit(h, size).0.used[0];
    var f, i, t := h.free, FitIndex(h.free, NeedOf(size)), b.span;
    var p := Payload(b);
    PayloadHoldsIff(h, size);
    assert HomeOf(f[i], h.spans);
    CarveInside(h.spans[t], t);
    forall c: nat | p <= c * CHUNK < p + size
      ensures Covers(f, c, t)
    {
      assert f[i].Has(c, t);
    }
    assert Gives(h, p, size, t);
  }

  ghost predicate Gives(h: Heap, p: nat, size: nat, t: nat)
    requires t < |h.spans|
  {
    && h.spans[t].base + CHUNK <= p && p + size <= End(h.spans[t])
    && forall c: nat :: p <= c * CHUNK < p + size ==> Covers(h.free, c, t)
  }

  // The payload holds the requested bytes exactly when rounding the size up to whole chunks
  // does not wrap the 64-bit word.
  lemma PayloadHoldsIff(h: Heap, size: nat)
    requires Inv(h) && 0 < size < WORD && FirstFit(h, size).1 != 0
    ensures var b := FirstFit(h, size).0.used[0];
            size <= (b.csize - 1) * CHUNK <==> size <= WORD - CHUNK
    ensures var b := FirstFit(h, size).0.used[0];
            size <= WORD - CHUNK ==> (b.csize - 1) * CHUNK < size + 2 * CHUNK
  {
    var need := NeedOf(size);
    var i := FitIndex(h.free, need);
    var b := Taken(h.free[i], need);
    assert need <= b.csize <= need + 1;
    if size <= WORD - CHUNK {
      assert (size + 15) % WORD == size + 15;
    } else {
      assert (size + 15) % WORD == size + 15 - WORD;
      assert SizeUp(size) == 0;
    }
  }

  // The wrap is reachable: the largest request succeeds on a fresh one-page heap.
  lemma HugeRequestWraps()
    ensures var s := Span(4096, 4096);
            Carvable(s) && FirstFit(Setup(s), WORD - 1) == (Heap([Block(257, 255, 0)], [Block(256, 1, 0)], [s]), 4112)
  {
    var s := Span(4096, 4096);
    assert Carve(s, 0) == Block(256, 256, 0);
    var h := Setup(s);
    assert h.free == [Block(256, 256, 0)];
    assert SizeUp(WORD - 1) == 0;
    assert FitIndex(h.free, 1) == 0;
    assert TakeAt(h.free, 0, 1) == [Block(257, 255, 0)];
    assert [Block(256, 1, 0)] + h.used == [Block(256, 1, 0)];
  }

  // A reallocation copies inside the block it has taken exactly when rounding the size does not
  // wrap, or when the old block holds no more than the new one happens to.
  lemma CopyFitsIff(h: Heap, p: nat, size: nat)
    requires Inv(h) && 0 < size < WORD && UsedIndex(h.used, p) < |h.used| && FirstFit(h, size).1 != 0
    ensures h.free != []
    ensures var room, b := Room(h.used[UsedIndex(h.used, p)]), FirstFit(h, size).0.used[0];
            CopyFits(h, p, size) <==> size <= WORD - CHUNK || room <= Room(b)
    ensures var room := Room(h.used[UsedIndex(h.used, p)]);
            CopyFits(h, p, size) <==>
              size <= WORD - CHUNK || room <= if h.free[0].csize == 2 then CHUNK else 0
  {
    var i, live := FitIndex(h.free, NeedOf(size)), h.used[UsedIndex(h.used, p)];
    var b := FirstFit(h, size).0.used[0];
    assert b == Taken(h.free[i], NeedOf(size));
    PayloadHoldsIff(h, size);
    KeyFits(h, live);
    hide Inv;
    if size > WORD - CHUNK {
      WrappedNeed(size);
      KeyFits(h, h.free[0]);
      assert i == 0;
    }
  }

  lemma WrappedNeed(size: nat)
    requires WORD - CHUNK < size < WORD
    ensures NeedOf(size) == 1
  {
    ModUnique(size + 15, WORD, 1, size + 15 - WORD);
  }

  function AfterHundred(): Heap {
    Heap([Block(264, 248, 0)], [Block(256, 8, 0)], [Span(4096, 4096)])
  }

  lemma WrapsToHeader()
    ensures !CopyFits(AfterHundred(), 4112, WORD - 1)
    ensures FirstFit(AfterHundred(), WORD - 1)
            == (Heap([Block(265, 247, 0)], [Block(264, 1, 0), Block(256, 8, 0)], [Span(4096, 4096)]), 4240)
  {
    var h := AfterHundred();
    WrappedNeed(WORD - 1);
    assert FitIndex(h.free, 1) == 0 && UsedIndex(h.used, 4112) == 0;
    assert TakeAt(h.free, 0, 1) == [Block(265, 247, 0)];
    assert [Block(264, 1, 0)] + h.used == [Block(264, 1, 0), Block(256, 8, 0)];
  }

  // The wrap breaks a run: a block of 112 bytes is reallocated to 2^64 - 1, the block found for
  // that holds none, and the chunk after it, which the 112 bytes overwrite, heads the free list.
  lemma ReallocOverwrites()
    ensures var s := Span(4096, 4096);
            Carvable(s) && FirstFit(Setup(s), 100) == (AfterHundred(), 4112) && Inv(AfterHundred())
    ensures Room(AfterHundred().used[0]) == 112 && !CopyFits(AfterHundred(), 4112, WORD - 1)
    ensures FirstFit(AfterHundred(), WORD - 1).1 == 265 * CHUNK
    ensures Block(265, 247, 0) in FirstFit(AfterHundred(), WORD - 1).0.free
  {
    var s := Span(4096, 4096);
    assert Carve(s, 0) == Block(256, 256, 0);
    assert Setup(s).free == [Block(256, 256, 0)];
    InvSetup(s);
    InvFirstFit(Setup(s), 100);
    assert FitIndex(Setup(s).free, 8) == 0;
    assert TakeAt(Setup(s).free, 0, 8) == [Block(264, 248, 0)];
    assert [Block(256, 8, 0)] + Setup(s).used == [Block(256, 8, 0)];
    hide Inv;
    WrapsToHeader();
  }

  /* ------------------------------------------------------------------ */
  /*  Shrinking                                                          */
  /* ------------------------------------------------------------------ */

  // The last span is refused exactly when a live block was carved from it; otherwise the span
  // itself comes back.
  lemma ShrinkRefusesIff(h: Heap)
    requires Inv(h)
    ensures Shrink(h).1 == NULL_SPAN <==>
              h.spans == [] || exists j :: 0 <= j < |h.used| && h.used[j].span == |h.spans| - 1
    ensures Shrink(h).1 == NULL_SPAN ==> Shrink(h).0 == h
    ensures Shrink(h).1 != NULL_SPAN ==>
              h.spans == Shrink(h).0.spans + [Shrink(h).1] && Shrink(h).0.used == h.used
  {
    var last := |h.spans| - 1;
    if h.spans != [] {
      assert h.spans == h.spans[..last] + [h.spans[last]];
    }
    forall j | 0 <= j < |h.used|
      ensures InSpan(h.used[j], h.spans[last]) <==> h.used[j].span == last
    {
      assert HomeOf(h.used[j], h.spans);
      InSpanIffTag(h.used[j], h.spans, last);
    }
  }

  // Growing by a span and shrinking again restores the heap.
  lemma GrowThenShrink(h: Heap, s: Span)
    requires Inv(h) && CanGrow(h, s)
    ensures Shrink(Grow(h, s)) == (h, s)
  {
    var g := Grow(h, s);
    InvGrow(h, s);
    ShrinkRefusesIff(g);
    forall j | 0 <= j < |h.used|
      ensures h.used[j].span < |h.spans|
    {
      assert HomeOf(h.used[j], h.spans);
    }
    InvShrink(g);
    assert g.spans[..|h.spans|] == h.spans;
    FreeDetermined(Shrink(g).0, h);
  }

  /* ------------------------------------------------------------------ */
  /*  Reallocation                                                       */
  /* ------------------------------------------------------------------ */

  lemma UsedIndexPush(b: Block, u: seq<Block>, p: nat)
    requires Payload(b) != p && UsedIndex(u, p) < |u|
    ensures var i := UsedIndex(u, p);
            UsedIndex([b] + u, p) == i + 1 && Without([b] + u, i + 1) == [b] + Without(u, i)
  {
    assert ([b] + u)[1..] == u;
    hide Without, Payload;
    WithoutPush(b, u, UsedIndex(u, p));
  }

  lemma WithoutPush(b: Block, u: seq<Block>, i: nat)
    requires i < |u|
    ensures Without([b] + u, i + 1) == [b] + Without(u, i)
  {
  }

  lemma FirstFitPushes(h: Heap, size: nat)
    requires FirstFit(h, size).1 != 0
    ensures var (g, q) := FirstFit(h, size);
            g.used != [] && g.used == [g.used[0]] + h.used && Payload(g.used[0]) == q
  {
  }

  // On success the new block is on the used list in place of the old one, and every other live
  // block stays; on failure nothing changes.
  lemma ReallocUsed(h: Heap, p: nat, size: nat)
    requires Inv(h) && 0 < p && 0 < size && UsedIndex(h.used, p) < |h.used|
    ensures var (h', q) := Realloc(h, p, size);
            && (q == 0 ==> h' == h)
            && (q != 0 ==> h'.used != [] && Payload(h'.used[0]) == q && q != p
                           && h'.used[1..] == Without(h.used, UsedIndex(h.used, p)))
  {
    var (g, q) := FirstFit(h, size);
    if q == 0 {
    } else {
      FirstFitPushes(h, size);
      InvFirstFit(h, size);
      UsedDistinct(g);
      ReallocRelease(h, g, p);
    }
  }

  lemma ReallocRelease(h: Heap, g: Heap, p: nat)
    requires g.used != [] && g.used == [g.used[0]] + h.used && DistinctPayloads(g.used)
    requires UsedIndex(h.used, p) < |h.used|
    ensures Free(g, p).used == [g.used[0]] + Without(h.used, UsedIndex(h.used, p)) && Payload(g.used[0]) != p
  {
    var i := UsedIndex(h.used, p);
    assert g.used[i + 1] == h.used[i];
    UsedIndexPush(g.used[0], h.used, p);
  }

  // It fails exactly when there is no room for a new block beside the old one, and otherwise the new
  // block is the lowest that first fit could give.
  lemma ReallocIff(h: Heap, p: nat, size: nat)
    requires Inv(h) && 0 < size && (p == 0 || UsedIndex(h.used, p) < |h.used|)
    ensures Realloc(h, p, size).1 == 0 <==> !exists c: nat, t: nat :: FreeRun(h, c, NeedOf(size), t)
    ensures var (h', q) := Realloc(h, p, size);
            q != 0 ==>
              && h'.used != [] && q == Payload(h'.used[0]) && LowestFit(h, h'.used[0].addr, NeedOf(size))
              && NeedOf(size) <= h'.used[0].csize <= NeedOf(size) + 1
  {
    FirstFitFailsIff(h, size);
    if FirstFit(h, size).1 != 0 {
      FirstFitIsLowest(h, size);
      if p != 0 {
        var g := FirstFit(h, size).0;
        FirstFitPushes(h, size);
        InvFirstFit(h, size);
        UsedDistinct(g);
        ReallocRelease(h, g, p);
      }
    }
  }

  // Of the null pointer it is an allocation: every live block stays, and freeing the new one brings
  // the heap back. To no bytes it is a release: the block is gone from the live ones.
  lemma ReallocEdges(h: Heap, p: nat, size: nat)
    requires Inv(h) && 0 < size && 0 < p && UsedIndex(h.used, p) < |h.used|
    ensures var (g, q) := Realloc(h, 0, size);
            if q == 0 then g == h else g.used != [] && g.used[1..] == h.used && Free(g, q) == h
    ensures var (g, q) := Realloc(h, p, 0);
            q == 0 && Inv(g) && g.spans == h.spans && g.used == Survivors(h.used, [p])
  {
    FirstFitThenFree(h, size);
    FreeEachInv(h, [p]);
    assert FreeEach(h, [p]) == FreeEach(Free(h, p), []);
    if FirstFit(h, size).1 == 0 {
      FirstFitFailsIff(h, size);
    } else {
      FirstFitPushes(h, size);
    }
  }
}
