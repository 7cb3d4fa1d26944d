/** Every operation of the free-list allocator keeps the heap invariant. */
module FreeListInvariant {
  import opened Blocks
  import opened FreeListSpec
  import opened Spans

  /* ------------------------------------------------------------------ */
  /*  From covered chunks to blocks                                      */
  /* ------------------------------------------------------------------ */

  lemma HomeCovers(b: Block, spans: seq<Span>, c: nat, t: nat)
    requires SpansOk(spans) && HomeOf(b, spans) && b.Has(c, t)
    ensures InRegion(spans, c, t)
  {
  }

  lemma CoversInRegion(f: seq<Block>, spans: seq<Span>, c: nat, t: nat)
    requires SpansOk(spans) && Homed(f, spans) && Covers(f, c, t)
    ensures InRegion(spans, c, t)
  {
    var i :| 0 <= i < |f| && f[i].Has(c, t);
    HomeCovers(f[i], spans, c, t);
  }

  // Blocks whose chunks all lie in their spans' regions are homed.
  lemma HomedByCover(f: seq<Block>, spans: seq<Span>)
    requires SpansOk(spans)
    requires forall i :: 0 <= i < |f| ==> f[i].csize > 0
    requires forall c: nat, t: nat :: Covers(f, c, t) ==> InRegion(spans, c, t)
    ensures Homed(f, spans)
  {
    forall i | 0 <= i < |f|
      ensures HomeOf(f[i], spans)
    {
      var b := f[i];
      assert b.Has(b.addr, b.span) && b.Has(b.End() - 1, b.span);
      assert Covers(f, b.addr, b.span) && Covers(f, b.End() - 1, b.span);
      assert InRegion(spans, b.addr, b.span) && InRegion(spans, b.End() - 1, b.span);
    }
  }

  // Blocks none of whose chunks belong to `u` are disjoint from `u`.
  lemma ApartByCover(f: seq<Block>, u: Block)
    requires u.csize > 0 && forall i :: 0 <= i < |f| ==> f[i].csize > 0
    requires forall c: nat, t: nat :: Covers(f, c, t) ==> !(u.addr <= c < u.End())
    ensures Apart(f, u)
  {
    forall i | 0 <= i < |f|
      ensures Disjoint(f[i], u)
    {
      var c := if f[i].addr <= u.addr then u.addr else f[i].addr;
      if !Disjoint(f[i], u) {
        assert f[i].Has(c, f[i].span);
        assert Covers(f, c, f[i].span);
      }
    }
  }

  lemma CoverOutside(f: seq<Block>, u: Block, c: nat, t: nat)
    requires Apart(f, u) && Covers(f, c, t)
    ensures !(u.addr <= c < u.End())
  {
    var i :| 0 <= i < |f| && f[i].Has(c, t);
    assert Disjoint(f[i], u);
  }

  // Under the invariant a region's chunk is free exactly when it is not in use.
  lemma FreeCovers(h: Heap, c: nat, t: nat)
    requires Inv(h)
    ensures Covers(h.free, c, t) <==> InRegion(h.spans, c, t) && !Covers(h.used, c, t)
  {
    if Covers(h.free, c, t) {
      CoversInRegion(h.free, h.spans, c, t);
      if Covers(h.used, c, t) {
        var j :| 0 <= j < |h.used| && h.used[j].Has(c, t);
        CoverOutside(h.free, h.used[j], c, t);
      }
    }
  }

  /* ------------------------------------------------------------------ */
  /*  Returning a block                                                  */
  /* ------------------------------------------------------------------ */

  // The invariant of a heap from which block `b` has been taken out of both lists.
  ghost predicate InvBut(h: Heap, b: Block) {
    && SpansOk(h.spans)
    && Canonical(h.free)
    && PairwiseDisjoint(h.used)
    && AllApart(h.free, h.used)
    && Homed(h.free, h.spans) && Homed(h.used, h.spans) && HomeOf(b, h.spans)
    && Apart(h.free, b) && Apart(h.used, b)
    && (forall c: nat, t: nat :: InRegion(h.spans, c, t) ==>
                                   Covers(h.free, c, t) || Covers(h.used, c, t) || b.Has(c, t))
  }

  lemma InvAddFree(h: Heap, b: Block)
    requires InvBut(h, b)
    ensures Inv(h.(free := AddFree(h.free, b)))
  {
    var r := AddFree(h.free, b);
    AddFreeCanonical(h.free, b);
    forall c: nat, t: nat | Covers(r, c, t)
      ensures InRegion(h.spans, c, t)
    {
      if b.Has(c, t) {
        HomeCovers(b, h.spans, c, t);
      } else {
        CoversInRegion(h.free, h.spans, c, t);
      }
    }
    HomedByCover(r, h.spans);
    forall j | 0 <= j < |h.used|
      ensures Apart(r, h.used[j])
    {
      var u := h.used[j];
      assert HomeOf(u, h.spans);
      forall c: nat, t: nat | Covers(r, c, t)
        ensures !(u.addr <= c < u.End())
      {
        if b.Has(c, t) {
          assert Disjoint(h.used[j], b);
        } else {
          CoverOutside(h.free, u, c, t);
        }
      }
      ApartByCover(r, u);
    }
  }

  lemma WithoutCovers(u: seq<Block>, i: nat, c: nat, t: nat)
    requires i < |u|
    ensures Covers(u, c, t) <==> Covers(Without(u, i), c, t) || u[i].Has(c, t)
  {
    var w := Without(u, i);
    if Covers(u, c, t) && !u[i].Has(c, t) {
      var j :| 0 <= j < |u| && u[j].Has(c, t);
      assert w[if j < i then j else j - 1].Has(c, t);
    }
    if Covers(w, c, t) {
      var j :| 0 <= j < |w| && w[j].Has(c, t);
      assert u[if j < i then j else j + 1].Has(c, t);
    }
  }

  lemma WithoutKeeps(h: Heap, i: nat)
    requires Inv(h) && i < |h.used|
    ensures InvBut(h.(used := Without(h.used, i)), h.used[i])
  {
    var u, b, w := h.used, h.used[i], Without(h.used, i);
    forall j | 0 <= j < |w|
      ensures w[j] == u[if j < i then j else j + 1] && Apart(h.free, w[j]) && HomeOf(w[j], h.spans) && Disjoint(w[j], b)
    {
    }
    forall c: nat, t: nat | InRegion(h.spans, c, t)
      ensures Covers(h.free, c, t) || Covers(w, c, t) || b.Has(c, t)
    {
      WithoutCovers(u, i, c, t);
    }
    assert HomeOf(b, h.spans);
  }

  lemma InvFree(h: Heap, p: nat)
    requires Inv(h)
    ensures Inv(Free(h, p))
  {
    var i := UsedIndex(h.used, p);
    if i < |h.used| {
      WithoutKeeps(h, i);
      InvAddFree(h.(used := Without(h.used, i)), h.used[i]);
    }
  }

  /* ------------------------------------------------------------------ */
  /*  Growing, setting up, clearing                                      */
  /* ------------------------------------------------------------------ */

  predicate CanGrow(h: Heap, s: Span) {
    && Carvable(s) && |h.spans| < SPAN_LIMIT
    && forall i :: 0 <= i < |h.spans| ==> SpansDisjoint(h.spans[i], s)
  }

  lemma HomedApartNew(f: seq<Block>, spans: seq<Span>, s: Span)
    requires SpansOk(spans) && Homed(f, spans) && Carvable(s)
    requires forall i :: 0 <= i < |spans| ==> SpansDisjoint(spans[i], s)
    ensures Apart(f, Carve(s, |spans|))
  {
    forall i | 0 <= i < |f|
      ensures Disjoint(f[i], Carve(s, |spans|))
    {
      var t := f[i].span;
      assert HomeOf(f[i], spans);
      RegionsApart(spans[t], t, s, |spans|);
    }
  }

  lemma HomedMoreSpans(f: seq<Block>, spans: seq<Span>, s: Span)
    requires SpansOk(spans) && SpansOk(spans + [s]) && Homed(f, spans)
    ensures Homed(f, spans + [s])
  {
    forall i | 0 <= i < |f|
      ensures HomeOf(f[i], spans + [s])
    {
      assert HomeOf(f[i], spans);
    }
  }

  lemma InvGrow(h: Heap, s: Span)
    requires Inv(h) && CanGrow(h, s)
    ensures Inv(Grow(h, s))
  {
    var more, b := h.spans + [s], Carve(s, |h.spans|);
    CarveInside(s, |h.spans|);
    HomedApartNew(h.free, h.spans, s);
    HomedApartNew(h.used, h.spans, s);
    assert SpansOk(more);
    HomedMoreSpans(h.free, h.spans, s);
    HomedMoreSpans(h.used, h.spans, s);
    forall c: nat, t: nat | InRegion(more, c, t)
      ensures Covers(h.free, c, t) || Covers(h.used, c, t) || b.Has(c, t)
    {
      if t < |h.spans| {
        assert InRegion(h.spans, c, t);
      }
    }
    InvAddFree(h.(spans := more), b);
  }

  lemma InvEmpty()
    ensures Inv(Heap([], [], []))
  {
  }

  lemma SetupIsGrow(s: Span)
    requires Carvable(s)
    ensures Setup(s) == Grow(Heap([], [], []), s)
  {
  }

  lemma InvSetup(s: Span)
    requires Carvable(s)
    ensures Inv(Setup(s))
  {
    InvEmpty();
    SetupIsGrow(s);
    InvGrow(Heap([], [], []), s);
  }

  function CarvedHeap(spans: seq<Span>, n: nat): Heap
    requires SpansOk(spans) && n <= |spans|
  {
    Heap(Carved(spans, n), [], spans[..n])
  }

  lemma CarvedStep(spans: seq<Span>, n: nat)
    requires SpansOk(spans) && 0 < n <= |spans|
    ensures CarvedHeap(spans, n) == Grow(CarvedHeap(spans, n - 1), spans[n - 1])
  {
    assert spans[..n] == spans[..n - 1] + [spans[n - 1]];
  }

  lemma CarvedNext(spans: seq<Span>, n: nat)
    requires SpansOk(spans) && 0 < n <= |spans| && Inv(CarvedHeap(spans, n - 1))
    ensures Inv(CarvedHeap(spans, n))
  {
    CarvedStep(spans, n);
    assert CanGrow(CarvedHeap(spans, n - 1), spans[n - 1]);
    InvGrow(CarvedHeap(spans, n - 1), spans[n - 1]);
  }

  lemma {:induction false} CarvedInv(spans: seq<Span>, n: nat)
    requires SpansOk(spans) && n <= |spans|
    ensures Inv(CarvedHeap(spans, n))
  {
    if n == 0 {
      assert CarvedHeap(spans, 0) == Heap([], [], []);
      InvEmpty();
    } else {
      CarvedInv(spans, n - 1);
      CarvedNext(spans, n);
    }
  }

  lemma InvClear(h: Heap)
    requires Inv(h)
    ensures Inv(Clear(h))
  {
    CarvedInv(h.spans, |h.spans|);
    assert h.spans[..|h.spans|] == h.spans;
  }

  /* ------------------------------------------------------------------ */
  /*  Taking a block                                                     */
  /* ------------------------------------------------------------------ */

  lemma TakeAtOrdered(f: seq<Block>, i: nat, need: nat)
    requires Ordered(f) && i < |f| && 0 < need <= f[i].csize
    ensures Ordered(TakeAt(f, i, need))
  {
    if Splits(f[i], need) {
      assert TakeAt(f, i, need) == f[i := Rest(f[i], need)[0]];
    } else {
      assert TakeAt(f, i, need) == Without(f, i);
    }
  }

  lemma WithoutNoTouch(f: seq<Block>, i: nat)
    requires Canonical(f) && i < |f|
    ensures forall j :: 0 <= j < |Without(f, i)| - 1 ==> NoTouchAt(Without(f, i), j)
  {
    var r := Without(f, i);
    assert i > 0 ==> f[i - 1].End() <= f[i].addr;
    assert i + 1 < |f| ==> f[i].End() <= f[i + 1].addr;
    forall j | 0 <= j < |r| - 1
      ensures NoTouchAt(r, j)
    {
      assert NoTouchAt(f, if j < i then j else j + 1);
    }
  }

  // Raising the start of block i, keeping its end, makes no new pair touch.
  lemma RaiseNoTouch(f: seq<Block>, i: nat, b: Block)
    requires Canonical(f) && i < |f|
    requires b.span == f[i].span && b.End() == f[i].End() && f[i].addr < b.addr
    ensures var r := f[i := b]; forall j :: 0 <= j < |r| - 1 ==> NoTouchAt(r, j)
  {
    var r := f[i := b];
    assert i > 0 ==> f[i - 1].End() <= f[i].addr;
    forall j | 0 <= j < |r| - 1
      ensures NoTouchAt(r, j)
    {
      assert NoTouchAt(f, j);
    }
  }

  lemma TakeAtCanonical(f: seq<Block>, i: nat, need: nat)
    requires Canonical(f) && i < |f| && 0 < need <= f[i].csize
    ensures Canonical(TakeAt(f, i, need))
  {
    TakeAtOrdered(f, i, need);
    if Splits(f[i], need) {
      var b := Rest(f[i], need)[0];
      RaiseNoTouch(f, i, b);
      assert TakeAt(f, i, need) == f[i := b];
    } else {
      WithoutNoTouch(f, i);
      assert TakeAt(f, i, need) == Without(f, i);
    }
  }

  // The two parts a free block is divided into hold its chunks between them.
  lemma PartsCover(b: Block, need: nat, c: nat, t: nat)
    requires 0 < need <= b.csize
    ensures b.Has(c, t) <==> Covers(Rest(b, need), c, t) || Taken(b, need).Has(c, t)
  {
    var r := Rest(b, need);
    if Splits(b, need) {
      assert Covers(r, c, t) <==> r[0].Has(c, t);
    }
  }

  lemma WithoutFree(f: seq<Block>, i: nat, c: nat, t: nat)
    requires Ordered(f) && i < |f| && Covers(Without(f, i), c, t)
    ensures !(f[i].addr <= c < f[i].End())
  {
    var w := Without(f, i);
    var j :| 0 <= j < |w| && w[j].Has(c, t);
    var m := if j < i then j else j + 1;
    assert f[m] == w[j];
    assert if m < i then f[m].End() <= f[i].addr else f[i].End() <= f[m].addr;
  }

  lemma TakeAtSplit(f: seq<Block>, i: nat, need: nat, c: nat, t: nat)
    requires i < |f|
    ensures Covers(TakeAt(f, i, need), c, t) <==> Covers(Without(f, i), c, t) || Covers(Rest(f[i], need), c, t)
  {
    var r, q := TakeAt(f, i, need), Rest(f[i], need);
    if q == [] {
      assert r == Without(f, i);
    } else {
      assert r == f[i := q[0]];
      WithoutCovers(r, i, c, t);
      assert Without(r, i) == Without(f, i);
      assert Covers(q, c, t) <==> q[0].Has(c, t);
    }
  }

  lemma TakeAtCovers(f: seq<Block>, i: nat, need: nat, c: nat, t: nat)
    requires Canonical(f) && i < |f| && 0 < need <= f[i].csize
    ensures Covers(f, c, t) <==> Covers(TakeAt(f, i, need), c, t) || Taken(f[i], need).Has(c, t)
    ensures Covers(TakeAt(f, i, need), c, t) ==> !(Taken(f[i], need).addr <= c < Taken(f[i], need).End())
  {
    TakeAtSplit(f, i, need, c, t);
    WithoutCovers(f, i, c, t);
    PartsCover(f[i], need, c, t);
    if Covers(Without(f, i), c, t) {
      WithoutFree(f, i, c, t);
    }
  }

  // The block taken is disjoint from every live block, and so is what stays free.
  lemma TakeApartFromUsed(h: Heap, i: nat, need: nat, j: nat)
    requires Inv(h) && i < |h.free| && 0 < need <= h.free[i].csize && j < |h.used|
    ensures Apart(TakeAt(h.free, i, need), h.used[j]) && Disjoint(Taken(h.free[i], need), h.used[j])
    ensures h.used[j].csize > 0 && HomeOf(h.used[j], h.spans)
  {
    var r, u := TakeAt(h.free, i, need), h.used[j];
    assert Apart(h.free, u) && HomeOf(u, h.spans);
    assert Disjoint(h.free[i], u);
    TakeAtOrdered(h.free, i, need);
    forall c: nat, t: nat | Covers(r, c, t)
      ensures !(u.addr <= c < u.End())
    {
      TakeAtCovers(h.free, i, need, c, t);
      CoverOutside(h.free, u, c, t);
    }
    ApartByCover(r, u);
  }

  lemma TakeHomed(h: Heap, i: nat, need: nat)
    requires Inv(h) && i < |h.free| && 0 < need <= h.free[i].csize
    ensures Homed(TakeAt(h.free, i, need), h.spans) && HomeOf(Taken(h.free[i], need), h.spans)
    ensures Apart(TakeAt(h.free, i, need), Taken(h.free[i], need))
    ensures forall c: nat, t: nat ::
              Covers(h.free, c, t) <==> Covers(TakeAt(h.free, i, need), c, t) || Taken(h.free[i], need).Has(c, t)
  {
    var r, b := TakeAt(h.free, i, need), Taken(h.free[i], need);
    TakeAtOrdered(h.free, i, need);
    assert HomeOf(h.free[i], h.spans);
    forall c: nat, t: nat
      ensures Covers(h.free, c, t) <==> Covers(r, c, t) || b.Has(c, t)
      ensures Covers(r, c, t) ==> InRegion(h.spans, c, t) && !(b.addr <= c < b.End())
    {
      TakeAtCovers(h.free, i, need, c, t);
      FreeCovers(h, c, t);
    }
    HomedByCover(r, h.spans);
    ApartByCover(r, b);
  }

  lemma InvTake(h: Heap, i: nat, need: nat)
    requires Inv(h) && i < |h.free| && 0 < need <= h.free[i].csize
    ensures var b := Taken(h.free[i], need);
            Inv(h.(free := TakeAt(h.free, i, need), used := [b] + h.used))
  {
    var b, r := Taken(h.free[i], need), TakeAt(h.free, i, need);
    var v := [b] + h.used;
    TakeAtCanonical(h.free, i, need);
    TakeHomed(h, i, need);
    forall j | 0 <= j < |h.used|
      ensures v[j + 1] == h.used[j] && Apart(r, v[j + 1]) && Disjoint(b, h.used[j]) && HomeOf(v[j + 1], h.spans)
    {
      TakeApartFromUsed(h, i, need, j);
    }
    PushTiles(h, b, r);
    PushDisjoint(b, h.used);
    hide TakeAt, Taken, Canonical, Tiled, Apart, HomeOf, SpansOk;
    assert AllApart(r, v) && Homed(v, h.spans);
  }

  lemma PushDisjoint(b: Block, u: seq<Block>)
    requires PairwiseDisjoint(u) && forall j :: 0 <= j < |u| ==> Disjoint(b, u[j])
    ensures PairwiseDisjoint([b] + u)
  {
    var v := [b] + u;
    forall i, j | 0 <= i < j < |v|
      ensures Disjoint(v[i], v[j])
    {
      assert v[j] == u[j - 1];
      if i > 0 {
        assert v[i] == u[i - 1];
      }
    }
  }

  lemma PushTiles(h: Heap, b: Block, r: seq<Block>)
    requires SpansOk(h.spans) && Tiled(h)
    requires forall c: nat, t: nat :: Covers(h.free, c, t) <==> Covers(r, c, t) || b.Has(c, t)
    ensures Tiled(h.(free := r, used := [b] + h.used))
  {
    var v := [b] + h.used;
    forall c: nat, t: nat | InRegion(h.spans, c, t)
      ensures Covers(r, c, t) || Covers(v, c, t)
    {
      if b.Has(c, t) {
        assert v[0].Has(c, t);
      }
      if Covers(h.used, c, t) {
        var j :| 0 <= j < |h.used| && h.used[j].Has(c, t);
        assert v[j + 1].Has(c, t);
      }
    }
  }

  lemma InvFirstFit(h: Heap, size: nat)
    requires Inv(h)
    ensures Inv(FirstFit(h, size).0)
  {
    var need := NeedOf(size);
    var i := FitIndex(h.free, need);
    if i < |h.free| {
      InvTake(h, i, need);
    }
  }

  /* ------------------------------------------------------------------ */
  /*  Shrinking                                                          */
  /* ------------------------------------------------------------------ */

  // The address test and the tag test agree on every block of a well-formed heap.
  lemma InSpanIffTag(b: Block, spans: seq<Span>, t: nat)
    requires SpansOk(spans) && HomeOf(b, spans) && t < |spans|
    ensures InSpan(b, spans[t]) <==> b.span == t
  {
    var k := b.span;
    CarveInside(spans[k], k);
    if k != t {
      assert SpansDisjoint(spans[k], spans[t]) || SpansDisjoint(spans[t], spans[k]);
    }
  }

  lemma {:induction false} StripMember(f: seq<Block>, s: Span, b: Block)
    ensures b in Strip(f, s) <==> b in f && !InSpan(b, s)
  {
    if f != [] {
      StripMember(f[1..], s, b);
      assert f == [f[0]] + f[1..];
    }
  }

  // What the strip leaves of a canonical list starts at its first block or after it.
  lemma StripHead(f: seq<Block>, s: Span)
    requires Ordered(f) && Strip(f, s) != []
    ensures f != [] && (Strip(f, s)[0] == f[0] || f[0].End() <= Strip(f, s)[0].addr)
  {
    StripMember(f, s, Strip(f, s)[0]);
  }

  lemma PrependCanonical(b: Block, r: seq<Block>)
    requires Canonical(r) && b.csize > 0
    requires forall x :: x in r ==> b.End() <= x.addr
    requires r != [] ==> !Touches(b, r[0])
    ensures Canonical([b] + r)
  {
    var g := [b] + r;
    forall i, j | 0 <= i < j < |g|
      ensures g[i].End() <= g[j].addr
    {
      assert g[j] == r[j - 1] && r[j - 1] in r;
      assert i > 0 ==> g[i] == r[i - 1];
    }
    forall j | 0 <= j < |g| - 1
      ensures NoTouchAt(g, j)
    {
      assert j > 0 ==> NoTouchAt(r, j - 1);
    }
  }

  lemma {:induction false} StripCanonical(f: seq<Block>, s: Span)
    requires Canonical(f)
    ensures Canonical(Strip(f, s))
  {
    if f != [] {
      var r := Strip(f[1..], s);
      TailCanonical(f);
      StripCanonical(f[1..], s);
      if InSpan(f[0], s) {
        assert Strip(f, s) == r;
      } else {
        forall x | x in r
          ensures f[0].End() <= x.addr
        {
          StripMember(f[1..], s, x);
        }
        if r != [] {
          StripHead(f[1..], s);
          assert NoTouchAt(f, 0) && f[1..][0] == f[1];
        }
        PrependCanonical(f[0], r);
      }
    }
  }

  lemma MemberCovers(f: seq<Block>, b: Block, c: nat, t: nat)
    requires b in f && b.Has(c, t)
    ensures Covers(f, c, t)
  {
    var i :| 0 <= i < |f| && f[i] == b;
    assert f[i].Has(c, t);
  }

  lemma ShrinkTiles(h: Heap)
    requires Inv(h) && h.spans != [] && !Pinned(h)
    ensures Tiled(Shrink(h).0)
  {
    var last := |h.spans| - 1;
    var s, less := h.spans[last], h.spans[..last];
    var r := Strip(h.free, s);
    forall c: nat, t: nat | InRegion(less, c, t)
      ensures Covers(r, c, t) || Covers(h.used, c, t)
    {
      assert InRegion(h.spans, c, t);
      if Covers(h.free, c, t) {
        var i :| 0 <= i < |h.free| && h.free[i].Has(c, t);
        InSpanIffTag(h.free[i], h.spans, last);
        StripMember(h.free, s, h.free[i]);
        MemberCovers(r, h.free[i], c, t);
      }
    }
  }

  lemma StripHomed(h: Heap)
    requires Inv(h) && h.spans != []
    ensures var last := |h.spans| - 1; Homed(Strip(h.free, h.spans[last]), h.spans[..last])
  {
    var last := |h.spans| - 1;
    var r := Strip(h.free, h.spans[last]);
    forall i | 0 <= i < |r|
      ensures HomeOf(r[i], h.spans[..last])
    {
      StripMember(h.free, h.spans[last], r[i]);
      assert HomeOf(r[i], h.spans);
      InSpanIffTag(r[i], h.spans, last);
    }
  }

  lemma StripApart(f: seq<Block>, s: Span, u: Block)
    requires Apart(f, u)
    ensures Apart(Strip(f, s), u)
  {
    forall i | 0 <= i < |Strip(f, s)|
      ensures Disjoint(Strip(f, s)[i], u)
    {
      StripMember(f, s, Strip(f, s)[i]);
    }
  }

  lemma InvShrink(h: Heap)
    requires Inv(h)
    ensures Inv(Shrink(h).0)
  {
    if h.spans != [] && !Pinned(h) {
      var last := |h.spans| - 1;
      StripCanonical(h.free, h.spans[last]);
      StripHomed(h);
      ShrinkTiles(h);
      forall j | 0 <= j < |h.used|
        ensures HomeOf(h.used[j], h.spans[..last]) && Apart(Strip(h.free, h.spans[last]), h.used[j])
      {
        assert HomeOf(h.used[j], h.spans);
        StripApart(h.free, h.spans[last], h.used[j]);
      }
    }
  }
}
