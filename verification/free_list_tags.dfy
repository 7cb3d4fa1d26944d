/** The free list with any number of spans, when a tag holds only the low 16 bits of a span's index
    (modules/allocator/free_list.c). Two spans whose indices agree there are told apart by nothing
    but the gap between them.
  */
module FreeListTags {
  import opened Align
  import opened Blocks
  import opened Spans
  import opened FreeListSpec
  import opened FreeListInvariant
  import T = FreeListTheorems
  import W = PackedWords

  // The tag written for a span is its index modulo 65536, and the size beside it stays.
  lemma TagReadsBack(key: nat, idx: nat)
    requires key < WORD
    ensures W.SpanIdx(W.SetSpanIdx(key, idx)) == idx % SPAN_LIMIT
    ensures W.Csize(W.SetSpanIdx(key, idx)) == W.Csize(key)
  {
    hide W.Get, W.Put;
    Widths();
    W.PutGet(key, 48, 16, idx);
    W.KeyFields(key, idx);
  }

  /* ------------------------------------------------------------------ */
  /*  Regions                                                            */
  /* ------------------------------------------------------------------ */

  predicate Table(spans: seq<Span>) {
    && (forall i :: 0 <= i < |spans| ==> Carvable(spans[i]))
    && (forall i, j :: 0 <= i < j < |spans| ==> SpansDisjoint(spans[i], spans[j]))
  }

  // What is carved from span i, under the tag its header can hold.
  function Region(spans: seq<Span>, i: nat): Block
    requires Table(spans) && i < |spans|
  {
    Carve(spans[i], i % SPAN_LIMIT)
  }

  predicate Meet(a: Block, b: Block) {
    Touches(a, b) || Touches(b, a)
  }

  // No two regions under one tag lie next to each other.
  ghost predicate Separated(spans: seq<Span>)
    requires Table(spans)
  {
    forall i: nat, j: nat :: i < j < |spans| ==> !Meet(Region(spans, i), Region(spans, j))
  }

  // x is part of r, under its tag.
  predicate Inside(x: Block, r: Block) {
    0 < x.csize && x.span == r.span && r.addr <= x.addr && x.End() <= r.End()
  }

  // x holds memory of one span only.
  ghost predicate InOne(x: Block, spans: seq<Span>)
    requires Table(spans)
  {
    exists i: nat :: i < |spans| && Inside(x, Region(spans, i))
  }

  ghost predicate Housed(f: seq<Block>, spans: seq<Span>)
    requires Table(spans)
  {
    forall k :: 0 <= k < |f| ==> InOne(f[k], spans)
  }

  lemma RegionHolds(spans: seq<Span>, i: nat)
    requires Table(spans) && i < |spans|
    ensures Inside(Region(spans, i), Region(spans, i))
    ensures spans[i].base <= Region(spans, i).addr * CHUNK
    ensures Region(spans, i).End() * CHUNK <= End(spans[i])
  {
    CarveInside(spans[i], i % SPAN_LIMIT);
  }

  lemma RegionsDisjoint(spans: seq<Span>, i: nat, j: nat)
    requires Table(spans) && i < |spans| && j < |spans| && i != j
    ensures Disjoint(Region(spans, i), Region(spans, j))
  {
    var a, b := if i < j then i else j, if i < j then j else i;
    assert SpansDisjoint(spans[a], spans[b]);
    RegionsApart(spans[a], a % SPAN_LIMIT, spans[b], b % SPAN_LIMIT);
  }

  // Two disjoint regions are next to each other exactly when some parts of them can ever be.
  lemma PartsMeetIff(p: Block, q: Block)
    requires 0 < p.csize && 0 < q.csize && Disjoint(p, q)
    ensures Meet(p, q) <==> exists x, y :: Inside(x, p) && Inside(y, q) && Meet(x, y)
  {
    if Meet(p, q) {
      assert Inside(p, p) && Inside(q, q);
    }
  }

  // For any two spans that the allocator accepts: under one tag, the regions carved from them are
  // apart exactly when no block of one and block of the other can ever be merged.
  lemma SpansNeverMergeIff(a: Span, b: Span, t: nat)
    requires Carvable(a) && Carvable(b) && SpansDisjoint(a, b)
    ensures !Meet(Carve(a, t), Carve(b, t)) <==>
              forall x, y :: Inside(x, Carve(a, t)) && Inside(y, Carve(b, t)) ==> !Meet(x, y)
  {
    CarveInside(a, t);
    CarveInside(b, t);
    RegionsApart(a, t, b, t);
    PartsMeetIff(Carve(a, t), Carve(b, t));
  }

  /* ------------------------------------------------------------------ */
  /*  Blocks of one span stay so                                         */
  /* ------------------------------------------------------------------ */

  lemma PartMeets(p: Block, q: Block, x: Block, y: Block)
    requires Disjoint(p, q) && Inside(x, p) && Inside(y, q) && Meet(x, y)
    ensures Meet(p, q)
  {
  }

  lemma SameRegion(x: Block, y: Block, spans: seq<Span>, i: nat, j: nat)
    requires Table(spans) && Separated(spans) && i < |spans| && j < |spans|
    requires Inside(x, Region(spans, i)) && Inside(y, Region(spans, j)) && Meet(x, y)
    ensures i == j
  {
    if i != j {
      RegionsDisjoint(spans, i, j);
      PartMeets(Region(spans, i), Region(spans, j), x, y);
    }
  }

  lemma MergedInOne(x: Block, y: Block, spans: seq<Span>)
    requires Table(spans) && Separated(spans) && InOne(x, spans) && InOne(y, spans) && Touches(x, y)
    ensures InOne(Merged(x, y), spans)
  {
    var i: nat :| i < |spans| && Inside(x, Region(spans, i));
    var j: nat :| j < |spans| && Inside(y, Region(spans, j));
    SameRegion(x, y, spans, i, j);
    assert Inside(Merged(x, y), Region(spans, i));
  }

  lemma CoalesceHoused(f: seq<Block>, i: nat, spans: seq<Span>)
    requires Table(spans) && Separated(spans) && Housed(f, spans)
    ensures Housed(Coalesce(f, i), spans)
  {
    if i + 1 < |f| && Touches(f[i], f[i + 1]) {
      MergedInOne(f[i], f[i + 1], spans);
      hide InOne, Separated, Table, Merged, Coalesce;
      var g := Coalesce(f, i);
      CoalescedAt(f, i);
      forall k | 0 <= k < |g|
        ensures InOne(g[k], spans)
      {
        assert g[k] == if k < i then f[k] else if k == i then Merged(f[i], f[i + 1]) else f[k + 1];
      }
    } else {
      assert Coalesce(f, i) == f;
    }
  }

  lemma CoalescedAt(f: seq<Block>, i: nat)
    requires i + 1 < |f| && Touches(f[i], f[i + 1])
    ensures var g := Coalesce(f, i);
            |g| == |f| - 1
            && forall k :: 0 <= k < |g| ==>
                 g[k] == if k < i then f[k] else if k == i then Merged(f[i], f[i + 1]) else f[k + 1]
  {
  }

  lemma AddFreeHoused(f: seq<Block>, b: Block, spans: seq<Span>)
    requires Table(spans) && Separated(spans) && Housed(f, spans) && InOne(b, spans)
    ensures Housed(AddFree(f, b), spans)
  {
    hide InOne, Separated, Coalesce;
    var k := InsertPos(f, b.addr);
    var l := Link(f, k, b);
    forall j | 0 <= j < |l|
      ensures InOne(l[j], spans)
    {
      assert l[j] == if j < k then f[j] else if j == k then b else f[j - 1];
    }
    CoalesceHoused(l, k, spans);
    if k > 0 {
      CoalesceHoused(Coalesce(l, k), k - 1, spans);
    }
  }

  // A part of a block is in the span the block is in.
  lemma PartInOne(x: Block, y: Block, spans: seq<Span>)
    requires Table(spans) && InOne(x, spans) && Inside(y, x)
    ensures InOne(y, spans)
  {
    var i: nat :| i < |spans| && Inside(x, Region(spans, i));
    assert Inside(y, Region(spans, i));
  }

  lemma TakeAtHoused(f: seq<Block>, i: nat, need: nat, spans: seq<Span>)
    requires Table(spans) && Housed(f, spans) && i < |f| && 0 < need <= f[i].csize
    ensures Housed(TakeAt(f, i, need), spans) && InOne(Taken(f[i], need), spans)
  {
    var g := TakeAt(f, i, need);
    PartInOne(f[i], Taken(f[i], need), spans);
    if Splits(f[i], need) {
      PartInOne(f[i], Rest(f[i], need)[0], spans);
    }
    hide InOne;
    forall k | 0 <= k < |g|
      ensures InOne(g[k], spans)
    {
      assert k < i ==> g[k] == f[k];
      if Splits(f[i], need) {
        assert k > i ==> g[k] == f[k];
      } else {
        assert k >= i ==> g[k] == f[k + 1];
      }
    }
  }

  /* ------------------------------------------------------------------ */
  /*  The calls, with the tags they write                                */
  /* ------------------------------------------------------------------ */

  function Grow(h: Heap, s: Span): Heap
    requires Carvable(s)
  {
    Heap(AddFree(h.free, Carve(s, |h.spans| % SPAN_LIMIT)), h.used, h.spans + [s])
  }

  function Recarved(spans: seq<Span>, n: nat): seq<Block>
    requires n <= |spans| && Table(spans)
  {
    if n == 0 then [] else AddFree(Recarved(spans, n - 1), Region(spans, n - 1))
  }

  function Clear(h: Heap): Heap
    requires Table(h.spans)
  {
    Heap(Recarved(h.spans, |h.spans|), [], h.spans)
  }

  // Below the limit these are the calls of the specification.
  lemma {:induction false} RecarvedIsCarved(spans: seq<Span>, n: nat)
    requires n <= |spans| <= SPAN_LIMIT && Table(spans)
    ensures Recarved(spans, n) == Carved(spans, n)
  {
    hide AddFree;
    if n > 0 {
      RecarvedIsCarved(spans, n - 1);
      ModUnique(n - 1, SPAN_LIMIT, 0, n - 1);
    }
  }

  lemma AgreesBelowLimit(h: Heap, s: Span)
    requires Table(h.spans) && Carvable(s) && |h.spans| <= SPAN_LIMIT
    ensures |h.spans| < SPAN_LIMIT ==> Grow(h, s) == FreeListSpec.Grow(h, s)
    ensures Clear(h) == FreeListSpec.Clear(h)
  {
    RecarvedIsCarved(h.spans, |h.spans|);
    if |h.spans| < SPAN_LIMIT {
      ModUnique(|h.spans|, SPAN_LIMIT, 0, |h.spans|);
    }
  }

  // Any number of spans, each apart from all before it and not next to one of the same tag.
  ghost predicate CanGrow(h: Heap, s: Span)
    requires Table(h.spans)
  {
    Carvable(s) && Table(h.spans + [s])
    && forall i: nat :: i < |h.spans| ==> !Meet(Region(h.spans, i), Carve(s, |h.spans| % SPAN_LIMIT))
  }

  ghost predicate Legal(h: Heap, op: T.Op)
    requires Table(h.spans)
  {
    match op
    case OpGrow(s) => CanGrow(h, s)
    case OpClear => true
    case _ => T.Legal(h, op)
  }

  function Exec(h: Heap, op: T.Op): Heap
    requires Table(h.spans) && Legal(h, op)
  {
    match op
    case OpGrow(s) => Grow(h, s)
    case OpClear => Clear(h)
    case OpShrink => T.Exec(h, op)
    case OpFirstFit(_) => T.Exec(h, op)
    case OpFree(_) => T.Exec(h, op)
    case OpRealloc(_, _) => T.Exec(h, op)
  }

  ghost predicate Reaches(h: Heap, ops: seq<T.Op>, h': Heap)
    decreases |ops|
  {
    if ops == [] then h == h'
    else Table(h.spans) && Legal(h, ops[0]) && Reaches(Exec(h, ops[0]), ops[1..], h')
  }

  /* ------------------------------------------------------------------ */
  /*  Invariant                                                          */
  /* ------------------------------------------------------------------ */

  // Every chunk of every region is on one of the lists, or in b.
  ghost predicate Filled(h: Heap, b: Block)
    requires Table(h.spans)
  {
    forall i: nat, c: nat :: i < |h.spans| && InRegion(h.spans, i, c) ==>
                               Covers(h.free, c, i % SPAN_LIMIT) || Covers(h.used, c, i % SPAN_LIMIT)
                               || b.Has(c, i % SPAN_LIMIT)
  }

  predicate InRegion(spans: seq<Span>, i: nat, c: nat)
    requires Table(spans) && i < |spans|
  {
    Region(spans, i).addr <= c < Region(spans, i).End()
  }

  const NOTHING := Block(0, 0, 0)

  ghost predicate Inv(h: Heap) {
    && Table(h.spans) && Separated(h.spans)
    && Canonical(h.free) && PairwiseDisjoint(h.used) && AllApart(h.free, h.used)
    && Housed(h.free, h.spans) && Housed(h.used, h.spans)
    && Filled(h, NOTHING)
  }

  // The same of a heap from which b has been taken out of both lists.
  ghost predicate InvBut(h: Heap, b: Block) {
    && Table(h.spans) && Separated(h.spans)
    && Canonical(h.free) && PairwiseDisjoint(h.used) && AllApart(h.free, h.used)
    && Housed(h.free, h.spans) && Housed(h.used, h.spans) && InOne(b, h.spans)
    && Apart(h.free, b) && Apart(h.used, b)
    && Filled(h, b)
  }

  lemma AddFreeApart(f: seq<Block>, b: Block, u: Block)
    requires Canonical(f) && 0 < b.csize && Apart(f, b) && 0 < u.csize && Apart(f, u) && Disjoint(u, b)
    ensures Apart(AddFree(f, b), u)
  {
    var g := AddFree(f, b);
    AddFreeCanonical(f, b);
    hide AddFree;
    forall c: nat, t: nat | Covers(g, c, t)
      ensures !(u.addr <= c < u.End())
    {
      if !b.Has(c, t) {
        CoverOutside(f, u, c, t);
      }
    }
    ApartByCover(g, u);
  }

  lemma HousedHolds(f: seq<Block>, spans: seq<Span>, k: nat)
    requires Table(spans) && Housed(f, spans) && k < |f|
    ensures 0 < f[k].csize
  {
    assert InOne(f[k], spans);
  }

  lemma InvAddFree(h: Heap, b: Block)
    requires InvBut(h, b)
    ensures Inv(h.(free := AddFree(h.free, b)))
  {
    var r := AddFree(h.free, b);
    HousedHolds([b], h.spans, 0);
    AddFreeCanonical(h.free, b);
    AddFreeHoused(h.free, b, h.spans);
    forall j | 0 <= j < |h.used|
      ensures Apart(r, h.used[j])
    {
      HousedHolds(h.used, h.spans, j);
      AddFreeApart(h.free, b, h.used[j]);
    }
    hide AddFree, Housed, Separated, Canonical, Apart, InOne, Table;
    forall i: nat, c: nat | i < |h.spans| && InRegion(h.spans, i, c)
      ensures Covers(r, c, i % SPAN_LIMIT) || Covers(h.used, c, i % SPAN_LIMIT)
    {
      AddFreeCovers(h.free, b, c, i % SPAN_LIMIT);
    }
  }

  lemma InvFree(h: Heap, p: nat)
    requires Inv(h)
    ensures Inv(Free(h, p))
  {
    var i := UsedIndex(h.used, p);
    if i < |h.used| {
      ReleaseKeeps(h, i);
      InvAddFree(h.(used := Without(h.used, i)), h.used[i]);
    }
  }

  lemma ReleaseKeeps(h: Heap, i: nat)
    requires Inv(h) && i < |h.used|
    ensures InvBut(h.(used := Without(h.used, i)), h.used[i])
  {
    var u, b, w := h.used, h.used[i], Without(h.used, i);
    hide Separated, Canonical, InOne, Table, Apart;
    forall j | 0 <= j < |w|
      ensures w[j] == u[if j < i then j else j + 1] && InOne(w[j], h.spans) && Apart(h.free, w[j]) && Disjoint(w[j], b)
    {
    }
    assert Apart(w, b) by {
      AllDisjoint(w, b);
    }
    assert PairwiseDisjoint(w);
    forall k: nat, c: nat | k < |h.spans| && InRegion(h.spans, k, c)
      ensures Covers(h.free, c, k % SPAN_LIMIT) || Covers(w, c, k % SPAN_LIMIT) || b.Has(c, k % SPAN_LIMIT)
    {
      WithoutCovers(u, i, c, k % SPAN_LIMIT);
    }
  }

  lemma AllDisjoint(w: seq<Block>, b: Block)
    requires forall j :: 0 <= j < |w| ==> Disjoint(w[j], b)
    ensures Apart(w, b)
  {
  }

  /* ------------------------------------------------------------------ */
  /*  Growing                                                            */
  /* ------------------------------------------------------------------ */

  lemma RegionStays(spans: seq<Span>, s: Span, i: nat)
    requires Table(spans) && Table(spans + [s]) && i < |spans|
    ensures Region(spans + [s], i) == Region(spans, i)
  {
  }

  lemma HousedStays(f: seq<Block>, spans: seq<Span>, s: Span)
    requires Table(spans) && Table(spans + [s]) && Housed(f, spans)
    ensures Housed(f, spans + [s]) && Apart(f, Region(spans + [s], |spans|))
  {
    var more := spans + [s];
    forall k | 0 <= k < |f|
      ensures InOne(f[k], more) && Disjoint(f[k], Region(more, |spans|))
    {
      assert InOne(f[k], spans);
      var i: nat :| i < |spans| && Inside(f[k], Region(spans, i));
      RegionStays(spans, s, i);
      assert Inside(f[k], Region(more, i));
      RegionsDisjoint(more, i, |spans|);
    }
  }

  lemma SeparatedStays(h: Heap, s: Span)
    requires Table(h.spans) && Separated(h.spans) && CanGrow(h, s)
    ensures Separated(h.spans + [s])
  {
    var more := h.spans + [s];
    forall i: nat, j: nat | i < j < |more|
      ensures !Meet(Region(more, i), Region(more, j))
    {
      RegionStays(h.spans, s, i);
      if j < |h.spans| {
        RegionStays(h.spans, s, j);
      }
    }
  }

  lemma InvGrow(h: Heap, s: Span)
    requires Inv(h) && CanGrow(h, s)
    ensures Inv(Grow(h, s))
  {
    var n, more := |h.spans|, h.spans + [s];
    var b := Region(more, n);
    SeparatedStays(h, s);
    HousedStays(h.free, h.spans, s);
    HousedStays(h.used, h.spans, s);
    RegionHolds(more, n);
    assert InOne(b, more);
    hide Separated, Housed, Canonical, Apart, InOne, AddFree;
    forall i: nat, c: nat | i < |more| && InRegion(more, i, c)
      ensures Covers(h.free, c, i % SPAN_LIMIT) || Covers(h.used, c, i % SPAN_LIMIT) || b.Has(c, i % SPAN_LIMIT)
    {
      if i < n {
        RegionStays(h.spans, s, i);
        assert InRegion(h.spans, i, c);
      }
    }
    InvAddFree(h.(spans := more), b);
  }

  /* ------------------------------------------------------------------ */
  /*  Taking a block                                                     */
  /* ------------------------------------------------------------------ */

  // What stays of a list and what is taken from it are apart from whatever the list is apart from.
  lemma TakeAtApart(f: seq<Block>, i: nat, need: nat, u: Block)
    requires Canonical(f) && i < |f| && 0 < need <= f[i].csize && 0 < u.csize && Apart(f, u)
    ensures Apart(TakeAt(f, i, need), u) && Disjoint(Taken(f[i], need), u)
  {
    var r := TakeAt(f, i, need);
    assert Disjoint(f[i], u);
    TakeAtOrdered(f, i, need);
    forall c: nat, t: nat | Covers(r, c, t)
      ensures !(u.addr <= c < u.End())
    {
      TakeAtCovers(f, i, need, c, t);
      CoverOutside(f, u, c, t);
    }
    ApartByCover(r, u);
  }

  lemma TakenApart(f: seq<Block>, i: nat, need: nat)
    requires Canonical(f) && i < |f| && 0 < need <= f[i].csize
    ensures Apart(TakeAt(f, i, need), Taken(f[i], need))
  {
    var r, b := TakeAt(f, i, need), Taken(f[i], need);
    TakeAtOrdered(f, i, need);
    forall c: nat, t: nat | Covers(r, c, t)
      ensures !(b.addr <= c < b.End())
    {
      TakeAtCovers(f, i, need, c, t);
    }
    ApartByCover(r, b);
  }

  lemma PushCovers(b: Block, u: seq<Block>, c: nat, t: nat)
    ensures Covers([b] + u, c, t) <==> b.Has(c, t) || Covers(u, c, t)
  {
    var v := [b] + u;
    if b.Has(c, t) {
      assert v[0].Has(c, t);
    }
    if Covers(u, c, t) {
      var j :| 0 <= j < |u| && u[j].Has(c, t);
      assert v[j + 1].Has(c, t);
    }
  }

  lemma TakeFills(h: Heap, i: nat, need: nat)
    requires Table(h.spans) && Canonical(h.free) && Filled(h, NOTHING) && i < |h.free| && 0 < need <= h.free[i].csize
    ensures Filled(h.(free := TakeAt(h.free, i, need), used := [Taken(h.free[i], need)] + h.used), NOTHING)
  {
    var b, r := Taken(h.free[i], need), TakeAt(h.free, i, need);
    forall k: nat, c: nat | k < |h.spans| && InRegion(h.spans, k, c)
      ensures Covers(r, c, k % SPAN_LIMIT) || Covers([b] + h.used, c, k % SPAN_LIMIT)
    {
      hide Table, InRegion;
      TakeAtCovers(h.free, i, need, c, k % SPAN_LIMIT);
      PushCovers(b, h.used, c, k % SPAN_LIMIT);
    }
  }

  lemma InvTake(h: Heap, i: nat, need: nat)
    requires Inv(h) && i < |h.free| && 0 < need <= h.free[i].csize
    ensures Inv(h.(free := TakeAt(h.free, i, need), used := [Taken(h.free[i], need)] + h.used))
  {
    var b, r := Taken(h.free[i], need), TakeAt(h.free, i, need);
    var v := [b] + h.used;
    TakeAtCanonical(h.free, i, need);
    TakeAtHoused(h.free, i, need, h.spans);
    TakenApart(h.free, i, need);
    forall j | 0 <= j < |h.used|
      ensures v[j + 1] == h.used[j] && Apart(r, v[j + 1]) && Disjoint(b, h.used[j]) && InOne(v[j + 1], h.spans)
    {
      HousedHolds(h.used, h.spans, j);
      TakeAtApart(h.free, i, need, h.used[j]);
    }
    TakeFills(h, i, need);
    PushDisjoint(b, h.used);
    hide TakeAt, Taken, Canonical, Filled, Apart, InOne, Table, Separated;
    assert AllApart(r, v) && Housed(v, h.spans);
  }

  lemma InvFirstFit(h: Heap, size: nat)
    requires Inv(h)
    ensures Inv(FirstFit(h, size).0)
  {
    var need := NeedOf(size);
    var i := FitIndex(h.free, need);
    if i < |h.free| {
      InvTake(h, i, need);
    }
  }

  /* ------------------------------------------------------------------ */
  /*  Shrinking                                                          */
  /* ------------------------------------------------------------------ */

  // A block of another span is not in the last one, and one of the last span is.
  lemma InLastIff(x: Block, spans: seq<Span>, i: nat)
    requires Table(spans) && i < |spans| && Inside(x, Region(spans, i))
    ensures InSpan(x, spans[|spans| - 1]) <==> i == |spans| - 1
  {
    RegionHolds(spans, i);
    var last := |spans| - 1;
    assert i < last ==> SpansDisjoint(spans[i], spans[last]);
  }

  lemma NotLastInOne(x: Block, spans: seq<Span>)
    requires Table(spans) && spans != [] && InOne(x, spans) && !InSpan(x, spans[|spans| - 1])
    ensures InOne(x, spans[..|spans| - 1])
  {
    var less := spans[..|spans| - 1];
    var i: nat :| i < |spans| && Inside(x, Region(spans, i));
    InLastIff(x, spans, i);
    assert Inside(x, Region(less, i));
  }

  lemma StripFills(h: Heap)
    requires Inv(h) && h.spans != [] && !Pinned(h)
    ensures Filled(Shrink(h).0, NOTHING)
  {
    var last := |h.spans| - 1;
    var s, less := h.spans[last], h.spans[..last];
    var r := Strip(h.free, s);
    forall i: nat, c: nat | i < |less| && InRegion(less, i, c)
      ensures Covers(r, c, i % SPAN_LIMIT) || Covers(h.used, c, i % SPAN_LIMIT)
    {
      assert Region(less, i) == Region(h.spans, i);
      assert InRegion(h.spans, i, c);
      if Covers(h.free, c, i % SPAN_LIMIT) {
        var k :| 0 <= k < |h.free| && h.free[k].Has(c, i % SPAN_LIMIT);
        HomeOfChunk(h.free[k], h.spans, i, c);
        InLastIff(h.free[k], h.spans, i);
        StripMember(h.free, s, h.free[k]);
        MemberCovers(r, h.free[k], c, i % SPAN_LIMIT);
      }
    }
  }

  // A block of one span that has a chunk of region i is inside region i.
  lemma HomeOfChunk(x: Block, spans: seq<Span>, i: nat, c: nat)
    requires Table(spans) && i < |spans| && InOne(x, spans) && InRegion(spans, i, c) && x.addr <= c < x.End()
    ensures Inside(x, Region(spans, i))
  {
    var j: nat :| j < |spans| && Inside(x, Region(spans, j));
    if j != i {
      RegionsDisjoint(spans, i, j);
    }
  }

  lemma RegionKept(spans: seq<Span>, i: nat)
    requires Table(spans) && i + 1 < |spans|
    ensures Table(spans[..|spans| - 1]) && Region(spans[..|spans| - 1], i) == Region(spans, i)
  {
  }

  lemma StripSeparated(spans: seq<Span>)
    requires Table(spans) && Separated(spans) && spans != []
    ensures Table(spans[..|spans| - 1]) && Separated(spans[..|spans| - 1])
  {
    var less := spans[..|spans| - 1];
    forall i: nat, j: nat | i < j < |less|
      ensures !Meet(Region(less, i), Region(less, j))
    {
      RegionKept(spans, i);
      RegionKept(spans, j);
    }
  }

  lemma StripHoused(h: Heap)
    requires Inv(h) && h.spans != [] && !Pinned(h)
    ensures var last := |h.spans| - 1; var r := Strip(h.free, h.spans[last]);
            && Table(h.spans[..last]) && Housed(r, h.spans[..last]) && Housed(h.used, h.spans[..last])
            && AllApart(r, h.used)
  {
    var last := |h.spans| - 1;
    var s, less := h.spans[last], h.spans[..last];
    var r := Strip(h.free, s);
    StripSeparated(h.spans);
    hide Separated, Canonical, InOne, Strip, Table;
    forall k | 0 <= k < |r|
      ensures InOne(r[k], less)
    {
      StripMember(h.free, s, r[k]);
      NotLastInOne(r[k], h.spans);
    }
    forall j | 0 <= j < |h.used|
      ensures InOne(h.used[j], less) && Apart(r, h.used[j])
    {
      NotLastInOne(h.used[j], h.spans);
      StripApart(h.free, s, h.used[j]);
    }
  }

  lemma InvShrink(h: Heap)
    requires Inv(h)
    ensures Inv(Shrink(h).0)
  {
    if h.spans != [] && !Pinned(h) {
      StripCanonical(h.free, h.spans[|h.spans| - 1]);
      StripSeparated(h.spans);
      StripHoused(h);
      StripFills(h);
      hide Separated, Canonical, Housed, AllApart, Filled, Table, PairwiseDisjoint, Pinned;
    }
  }

  /* ------------------------------------------------------------------ */
  /*  Clearing                                                           */
  /* ------------------------------------------------------------------ */

  lemma RecarvedNext(spans: seq<Span>, n: nat)
    requires 0 < n <= |spans| && Table(spans)
    ensures Recarved(spans, n) == AddFree(Recarved(spans, n - 1), Region(spans, n - 1))
  {
    hide AddFree;
  }

  lemma RecarvedNone(spans: seq<Span>)
    requires Table(spans)
    ensures Canonical(Recarved(spans, 0)) && Housed(Recarved(spans, 0), spans)
    ensures forall b: Block :: Apart(Recarved(spans, 0), b)
  {
  }

  // Recarving some spans gives a canonical list, apart from the region of any span still to come.
  lemma {:induction false} RecarvedIs(spans: seq<Span>, n: nat, i: nat)
    requires n <= i <= |spans| && Table(spans)
    ensures Canonical(Recarved(spans, n))
    ensures i < |spans| ==> Apart(Recarved(spans, n), Region(spans, i))
    decreases n
  {
    hide AddFree, Canonical, Recarved, Apart, Region;
    if n == 0 {
      RecarvedNone(spans);
    } else {
      RecarvedNext(spans, n);
      RecarvedIs(spans, n - 1, n - 1);
      RecarvedIs(spans, n - 1, i);
      RegionHolds(spans, n - 1);
      var f, b := Recarved(spans, n - 1), Region(spans, n - 1);
      AddFreeCanonical(f, b);
      if i < |spans| {
        RegionHolds(spans, i);
        RegionsDisjoint(spans, i, n - 1);
        AddFreeApart(f, b, Region(spans, i));
      }
    }
  }

  lemma {:induction false} RecarvedCovers(spans: seq<Span>, n: nat, i: nat, c: nat)
    requires i < n <= |spans| && Table(spans) && InRegion(spans, i, c)
    ensures Covers(Recarved(spans, n), c, i % SPAN_LIMIT)
  {
    hide AddFree;
    var f, b := Recarved(spans, n - 1), Region(spans, n - 1);
    AddFreeCovers(f, b, c, i % SPAN_LIMIT);
    if i < n - 1 {
      RecarvedCovers(spans, n - 1, i, c);
    }
  }

  lemma {:induction false} RecarvedHoused(spans: seq<Span>, n: nat)
    requires n <= |spans| && Table(spans) && Separated(spans)
    ensures Housed(Recarved(spans, n), spans)
  {
    hide AddFree, Recarved, Housed, Separated, Table, Region;
    if n == 0 {
      RecarvedNone(spans);
    } else {
      RecarvedNext(spans, n);
      RecarvedHoused(spans, n - 1);
      RegionHolds(spans, n - 1);
      assert InOne(Region(spans, n - 1), spans);
      AddFreeHoused(Recarved(spans, n - 1), Region(spans, n - 1), spans);
    }
  }

  lemma InvClear(h: Heap)
    requires Inv(h)
    ensures Inv(Clear(h))
  {
    var f := Recarved(h.spans, |h.spans|);
    RecarvedIs(h.spans, |h.spans|, |h.spans|);
    RecarvedHoused(h.spans, |h.spans|);
    hide Recarved;
    forall i: nat, c: nat | i < |h.spans| && InRegion(h.spans, i, c)
      ensures Covers(f, c, i % SPAN_LIMIT)
    {
      RecarvedCovers(h.spans, |h.spans|, i, c);
    }
  }

  // Recarving keeps every block to one span exactly when no two regions under one tag are next to
  // each other; otherwise some block comes to hold all of two spans.
  lemma ClearKeepsApartIff(h: Heap)
    requires Table(h.spans)
    ensures Housed(Clear(h).free, h.spans) <==> Separated(h.spans)
    ensures forall i: nat, j: nat :: i < j < |h.spans| && Meet(Region(h.spans, i), Region(h.spans, j)) ==>
                                       Holds(Clear(h).free, Region(h.spans, i), Region(h.spans, j))
  {
    var f := Recarved(h.spans, |h.spans|);
    RecarvedIs(h.spans, |h.spans|, |h.spans|);
    forall i: nat, j: nat | i < j < |h.spans| && Meet(Region(h.spans, i), Region(h.spans, j))
      ensures Holds(f, Region(h.spans, i), Region(h.spans, j)) && !Housed(f, h.spans)
    {
      RegionsMerge(h.spans, i, j);
    }
    if Separated(h.spans) {
      RecarvedHoused(h.spans, |h.spans|);
    }
  }

  lemma RegionsMerge(spans: seq<Span>, i: nat, j: nat)
    requires Table(spans) && i < j < |spans| && Meet(Region(spans, i), Region(spans, j))
    ensures var f := Recarved(spans, |spans|);
            Holds(f, Region(spans, i), Region(spans, j)) && !Housed(f, spans)
  {
    var f, p, q := Recarved(spans, |spans|), Region(spans, i), Region(spans, j);
    RecarvedIs(spans, |spans|, |spans|);
    RegionHolds(spans, i);
    RegionHolds(spans, j);
    RegionsDisjoint(spans, i, j);
    var lo := if p.addr < q.addr then p.addr else q.addr;
    var n := p.csize + q.csize;
    hide Recarved;
    forall c: nat | lo <= c < lo + n
      ensures Covers(f, c, p.span)
    {
      var m := if InRegion(spans, i, c) then i else j;
      RecarvedCovers(spans, |spans|, m, c);
    }
    var k := RunInOneBlock(f, lo, n, p.span);
    if InOne(f[k], spans) {
      HomeOfChunk(f[k], spans, i, p.addr);
    }
    assert !InOne(f[k], spans);
  }

  // What growing does at once: the new span's block is merged exactly when it is next to a free block
  // of its tag, whichever span that is from. Later calls may still merge it.
  lemma GrowPastLimit(h: Heap, s: Span)
    requires Inv(h) && Carvable(s) && Table(h.spans + [s])
    ensures var b := Carve(s, |h.spans| % SPAN_LIMIT);
            && (b in Grow(h, s).free <==> !Meets(h.free, b))
            && (forall i :: 0 <= i < |h.free| && Meet(h.free[i], b) ==> Holds(Grow(h, s).free, h.free[i], b))
  {
    hide AddFree;
    var b := Carve(s, |h.spans| % SPAN_LIMIT);
    CarveInside(s, |h.spans| % SPAN_LIMIT);
    HousedStays(h.free, h.spans, s);
    StandsAloneIff(h.free, b);
    forall i | 0 <= i < |h.free| && Meet(h.free[i], b)
      ensures Holds(AddFree(h.free, b), h.free[i], b)
    {
      TouchingMerge(h.free, b, i);
    }
  }

  /* ------------------------------------------------------------------ */
  /*  Up to the limit                                                    */
  /* ------------------------------------------------------------------ */

  lemma OneIsHome(x: Block, spans: seq<Span>)
    requires SpansOk(spans)
    ensures Table(spans) && (InOne(x, spans) <==> HomeOf(x, spans))
  {
    forall i: nat | i < |spans|
      ensures i % SPAN_LIMIT == i
    {
      ModUnique(i, SPAN_LIMIT, 0, i);
    }
    if HomeOf(x, spans) {
      assert Inside(x, Region(spans, x.span));
    }
  }

  lemma SeparatedByTag(spans: seq<Span>)
    requires Table(spans) && |spans| <= SPAN_LIMIT
    ensures Separated(spans)
  {
    forall i: nat, j: nat | i < j < |spans|
      ensures !Meet(Region(spans, i), Region(spans, j))
    {
      ModUnique(i, SPAN_LIMIT, 0, i);
      ModUnique(j, SPAN_LIMIT, 0, j);
    }
  }

  lemma FilledIsTiled(h: Heap)
    requires SpansOk(h.spans)
    ensures Table(h.spans) && (Filled(h, NOTHING) <==> Tiled(h))
  {
    forall i: nat | i < |h.spans|
      ensures i % SPAN_LIMIT == i
    {
      ModUnique(i, SPAN_LIMIT, 0, i);
    }
    if Tiled(h) {
      forall i: nat, c: nat | i < |h.spans| && InRegion(h.spans, i, c)
        ensures Covers(h.free, c, i % SPAN_LIMIT) || Covers(h.used, c, i % SPAN_LIMIT)
      {
        assert FreeListSpec.InRegion(h.spans, c, i);
      }
    }
    if Filled(h, NOTHING) {
      forall c: nat, t: nat | FreeListSpec.InRegion(h.spans, c, t)
        ensures Covers(h.free, c, t) || Covers(h.used, c, t)
      {
        assert InRegion(h.spans, t, c);
      }
    }
  }

  // With as many spans as there are tags this is the invariant of the specification.
  lemma SameInvariantBelowLimit(h: Heap)
    requires |h.spans| <= SPAN_LIMIT
    ensures Inv(h) <==> FreeListSpec.Inv(h)
  {
    if SpansOk(h.spans) {
      FilledIsTiled(h);
      SeparatedByTag(h.spans);
      hide Filled, Tiled, Separated, InOne, HomeOf, Canonical, PairwiseDisjoint, AllApart, Table, SpansOk;
      HousedIsHomed(h.free, h.spans);
      HousedIsHomed(h.used, h.spans);
    }
  }

  lemma HousedIsHomed(f: seq<Block>, spans: seq<Span>)
    requires SpansOk(spans)
    ensures Table(spans) && (Housed(f, spans) <==> Homed(f, spans))
  {
    OneIsHome(NOTHING, spans);
    forall k | 0 <= k < |f|
      ensures InOne(f[k], spans) <==> HomeOf(f[k], spans)
    {
      OneIsHome(f[k], spans);
    }
  }

  /* ------------------------------------------------------------------ */
  /*  Runs                                                               */
  /* ------------------------------------------------------------------ */

  lemma InvSetup(s: Span)
    requires Carvable(s)
    ensures Inv(Setup(s))
  {
    var e := Heap([], [], []);
    assert CanGrow(e, s) by {
      assert [] + [s] == [s];
    }
    assert Inv(e);
    InvGrow(e, s);
    assert 0 % SPAN_LIMIT == 0;
    assert Setup(s) == Grow(e, s);
  }

  lemma InvExec(h: Heap, op: T.Op)
    requires Inv(h) && Legal(h, op)
    ensures Inv(Exec(h, op))
  {
    match op
    case OpGrow(s) => InvGrow(h, s);
    case OpClear => InvClear(h);
    case OpShrink => InvShrink(h);
    case OpFirstFit(size) => InvFirstFit(h, size);
    case OpFree(p) => InvFree(h, p);
    case OpRealloc(p, size) =>
      InvFirstFit(h, size);
      InvFree(h, p);
      InvFree(FirstFit(h, size).0, p);
  }

  lemma {:induction false} InvRun(h: Heap, ops: seq<T.Op>, h': Heap)
    requires Inv(h) && Reaches(h, ops, h')
    ensures Inv(h')
    decreases |ops|
  {
    hide Inv, Exec, Legal;
    if ops != [] {
      InvExec(h, ops[0]);
      InvRun(Exec(h, ops[0]), ops[1..], h');
    }
  }

  // x has a chunk of region i.
  predicate Shares(x: Block, spans: seq<Span>, i: nat)
    requires Table(spans) && i < |spans|
  {
    !Disjoint(x, Region(spans, i))
  }

  // However many spans there are, and whatever is called: as long as no span is added next to one of
  // the same tag, the lists are canonical and disjoint, between them they hold every chunk of every
  // region, and no block ever holds memory of two spans.
  lemma NeverTwoSpans(s: Span, ops: seq<T.Op>, h: Heap)
    requires Carvable(s) && Reaches(Setup(s), ops, h)
    ensures Table(h.spans) && Canonical(h.free) && PairwiseDisjoint(h.used) && AllApart(h.free, h.used)
    ensures Housed(h.free, h.spans) && Housed(h.used, h.spans) && Filled(h, NOTHING)
    ensures forall x, i: nat, j: nat ::
              (x in h.free || x in h.used) && i < |h.spans| && j < |h.spans|
              && Shares(x, h.spans, i) && Shares(x, h.spans, j)
              ==> i == j
  {
    InvSetup(s);
    InvRun(Setup(s), ops, h);
    hide Filled, Canonical, Separated, Reaches;
    forall x, i: nat, j: nat | (x in h.free || x in h.used) && i < |h.spans| && j < |h.spans|
                               && Shares(x, h.spans, i) && Shares(x, h.spans, j)
      ensures i == j
    {
      OnlyOne(x, h.spans, i);
      OnlyOne(x, h.spans, j);
    }
  }

  lemma OnlyOne(x: Block, spans: seq<Span>, i: nat)
    requires Table(spans) && InOne(x, spans) && i < |spans| && !Disjoint(x, Region(spans, i))
    ensures Inside(x, Region(spans, i)) && forall j: nat :: j < |spans| && j != i ==> Disjoint(x, Region(spans, j))
  {
    var k: nat :| k < |spans| && Inside(x, Region(spans, k));
    if k != i {
      RegionsDisjoint(spans, k, i);
    }
    forall j: nat | j < |spans| && j != i
      ensures Disjoint(x, Region(spans, j))
    {
      RegionsDisjoint(spans, j, i);
    }
  }

  // Without the gap it is only a matter of time: the new span's block, tagged 0, is carved beside a
  // span 0 that is all in use and stands alone; freeing that use merges the two; and giving the new
  // span back leaves the merged block, which begins in the other, on the list.
  lemma MergesLater()
    ensures var u, b := Block(256, 256, 0), Block(512, 256, 0);
            var merged := Block(256, 512, 0);
            && u == Carve(Span(4096, 4096), 0) && b == Carve(Span(8192, 4096), SPAN_LIMIT % SPAN_LIMIT)
            && AddFree([], b) == [b] && AddFree([b], u) == [merged]
            && Strip([merged], Span(8192, 4096)) == [merged]
  {
    assert Carve(Span(4096, 4096), 0) == Block(256, 256, 0);
    assert Carve(Span(8192, 4096), 0) == Block(512, 256, 0);
    var u, b := Block(256, 256, 0), Block(512, 256, 0);
    assert InsertPos([b], u.addr) == 0;
    assert Link([b], 0, u) == [u, b];
  }
}
