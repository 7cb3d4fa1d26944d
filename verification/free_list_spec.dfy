/** What each operation of the free-list allocator does, as a function on the values its two
    lists and its span table denote (modules/allocator/free_list.c), and the invariant that
    every operation keeps.
  */
module FreeListSpec {
  import opened Align
  import opened Blocks
  import opened Spans

  // sizeof(NthFreeListMeta), also its alignment.
  const CHUNK: nat := 16
  // Largest value of the 48-bit size field, and number of values of the 16-bit span field.
  const CSIZE_MAX: nat := 0xFFFF_FFFF_FFFF
  const SPAN_LIMIT: nat := 0x1_0000

  // Payload addresses are in bytes; 0 is the null pointer.
  datatype Heap = Heap(free: seq<Block>, used: seq<Block>, spans: seq<Span>)

  function SizeUp(size: nat): nat {
    (size + 15) % WORD / CHUNK
  }

  function NeedOf(size: nat): nat {
    SizeUp(size) + 1
  }

  // What the allocator asserts of a span it is given.
  predicate Carvable(s: Span) {
    && SpanOk(s)
    && Residue(s.base, CHUNK) + CHUNK <= s.size
    && (s.size + 15) / CHUNK < CSIZE_MAX
  }

  function Carve(s: Span, idx: nat): Block
    requires Carvable(s)
  {
    var pad := Residue(s.base, CHUNK);
    Block((s.base + pad) / CHUNK, (s.size - pad) / CHUNK, idx)
  }

  function Payload(b: Block): nat {
    (b.addr + 1) * CHUNK
  }

  function FitIndex(f: seq<Block>, need: nat): (i: nat)
    ensures i <= |f|
    ensures forall j :: 0 <= j < i ==> f[j].csize < need
    ensures i < |f| ==> need <= f[i].csize
  {
    if f == [] || f[0].csize >= need then 0 else 1 + FitIndex(f[1..], need)
  }

  // Splits only when the remainder would hold a header and at least one payload chunk.
  predicate Splits(b: Block, need: nat) {
    b.csize > need + 1
  }

  function Taken(b: Block, need: nat): Block {
    if Splits(b, need) then Block(b.addr, need, b.span) else b
  }

  function Rest(b: Block, need: nat): seq<Block> {
    if Splits(b, need) then [Block(b.addr + need, b.csize - need, b.span)] else []
  }

  function TakeAt(f: seq<Block>, i: nat, need: nat): seq<Block>
    requires i < |f|
  {
    f[..i] + Rest(f[i], need) + f[i + 1..]
  }

  function FirstFit(h: Heap, size: nat): (Heap, nat) {
    var need := NeedOf(size);
    var i := FitIndex(h.free, need);
    if i == |h.free| then (h, 0)
    else
      var b := Taken(h.free[i], need);
      (h.(free := TakeAt(h.free, i, need), used := [b] + h.used), Payload(b))
  }

  function UsedIndex(u: seq<Block>, p: nat): (i: nat)
    ensures i <= |u|
    ensures forall j :: 0 <= j < i ==> Payload(u[j]) != p
    ensures i < |u| ==> Payload(u[i]) == p
  {
    if u == [] || Payload(u[0]) == p then 0 else 1 + UsedIndex(u[1..], p)
  }

  function Without(u: seq<Block>, i: nat): seq<Block>
    requires i < |u|
  {
    u[..i] + u[i + 1..]
  }

  // Freeing an address that is not a live payload changes nothing.
  function Free(h: Heap, p: nat): Heap {
    var i := UsedIndex(h.used, p);
    if i == |h.used| then h
    else h.(free := AddFree(h.free, h.used[i]), used := Without(h.used, i))
  }

  predicate SpansOk(spans: seq<Span>) {
    && |spans| <= SPAN_LIMIT
    && (forall i :: 0 <= i < |spans| ==> Carvable(spans[i]))
    && (forall i, j :: 0 <= i < j < |spans| ==> SpansDisjoint(spans[i], spans[j]))
  }

  // The free list after carving the first n spans in index order.
  function Carved(spans: seq<Span>, n: nat): seq<Block>
    requires n <= |spans| && forall i :: 0 <= i < |spans| ==> Carvable(spans[i])
  {
    if n == 0 then [] else AddFree(Carved(spans, n - 1), Carve(spans[n - 1], n - 1))
  }

  function Clear(h: Heap): Heap
    requires SpansOk(h.spans)
  {
    Heap(Carved(h.spans, |h.spans|), [], h.spans)
  }

  function Setup(s: Span): Heap
    requires Carvable(s)
  {
    Heap(AddFree([], Carve(s, 0)), [], [s])
  }

  function Grow(h: Heap, s: Span): Heap
    requires Carvable(s)
  {
    Heap(AddFree(h.free, Carve(s, |h.spans|)), h.used, h.spans + [s])
  }

  predicate InSpan(b: Block, s: Span) {
    s.base <= b.addr * CHUNK < s.base + s.size
  }

  predicate Pinned(h: Heap)
    requires h.spans != []
  {
    var last := |h.spans| - 1;
    exists i :: 0 <= i < |h.used| && (InSpan(h.used[i], h.spans[last]) || h.used[i].span == last)
  }

  function Strip(f: seq<Block>, s: Span): seq<Block> {
    if f == [] then []
    else (if InSpan(f[0], s) then [] else [f[0]]) + Strip(f[1..], s)
  }

  function Shrink(h: Heap): (Heap, Span) {
    if h.spans == [] || Pinned(h) then (h, NULL_SPAN)
    else
      var last := |h.spans| - 1;
      (Heap(Strip(h.free, h.spans[last]), h.used, h.spans[..last]), h.spans[last])
  }

  /* ------------------------------------------------------------------ */
  /*  Invariant                                                          */
  /* ------------------------------------------------------------------ */

  ghost predicate InRegion(spans: seq<Span>, c: nat, t: nat)
    requires SpansOk(spans)
  {
    t < |spans| && Carve(spans[t], t).Has(c, t)
  }

  predicate HomeOf(b: Block, spans: seq<Span>)
    requires SpansOk(spans)
  {
    && b.csize > 0 && b.span < |spans|
    && Carve(spans[b.span], b.span).addr <= b.addr && b.End() <= Carve(spans[b.span], b.span).End()
  }

  predicate Homed(f: seq<Block>, spans: seq<Span>)
    requires SpansOk(spans)
  {
    forall i :: 0 <= i < |f| ==> HomeOf(f[i], spans)
  }

  predicate PairwiseDisjoint(u: seq<Block>) {
    forall i, j :: 0 <= i < j < |u| ==> Disjoint(u[i], u[j])
  }

  ghost predicate AllApart(f: seq<Block>, u: seq<Block>) {
    forall j :: 0 <= j < |u| ==> Apart(f, u[j])
  }

  ghost predicate Tiled(h: Heap)
    requires SpansOk(h.spans)
  {
    forall c: nat, t: nat :: InRegion(h.spans, c, t) ==> Covers(h.free, c, t) || Covers(h.used, c, t)
  }

  ghost predicate Inv(h: Heap) {
    && SpansOk(h.spans)
    && Canonical(h.free)
    && PairwiseDisjoint(h.used)
    && AllApart(h.free, h.used)
    && Homed(h.free, h.spans) && Homed(h.used, h.spans)
    && Tiled(h)
  }

  /* ------------------------------------------------------------------ */
  /*  Geometry of carved regions                                         */
  /* ------------------------------------------------------------------ */

  // The pad the carver computes with `&` on wrapped words is the residue used here.
  lemma PadOf(base: nat)
    requires base < WORD
    ensures IsPow2(CHUNK) && AlignPad(base, CHUNK) == Residue(base, CHUNK)
  {
    assert CHUNK == Pow2(4);
    IsPow2Iff(CHUNK);
    AlignPadIsResidue(base, CHUNK);
  }

  // A carved region is a non-empty whole number of chunks inside its span, below the size field's limit.
  lemma CarveInside(s: Span, idx: nat)
    requires Carvable(s)
    ensures var r := Carve(s, idx);
            0 < r.addr && 0 < r.csize < CSIZE_MAX
            && s.base <= r.addr * CHUNK && r.End() * CHUNK <= s.base + s.size
            && r.addr * CHUNK < s.base + CHUNK && s.base + s.size < (r.End() + 1) * CHUNK
  {
    ResidueAligns(s.base, CHUNK);
    var first, avail := s.base + Residue(s.base, CHUNK), s.size - Residue(s.base, CHUNK);
    assert first == first / CHUNK * CHUNK;
    assert avail / CHUNK * CHUNK <= avail < avail / CHUNK * CHUNK + CHUNK;
  }

  // Chunk c, aligned as every chunk is, lies in span s whole.
  predicate WholeChunk(s: Span, c: nat) {
    s.base <= c * CHUNK && (c + 1) * CHUNK <= End(s)
  }

  // What is carved from a span is every chunk that lies in it whole, and nothing else.
  lemma CarveIff(s: Span, idx: nat, c: nat)
    requires Carvable(s)
    ensures Carve(s, idx).span == idx && (Carve(s, idx).Has(c, idx) <==> WholeChunk(s, c))
  {
    CarveInside(s, idx);
    ResidueAligns(s.base, CHUNK);
  }

  // The allocator accepts a span exactly when some chunk lies in it whole and the size field can
  // count the chunks it would take to cover it.
  lemma CarvableIff(s: Span)
    requires SpanOk(s)
    ensures Carvable(s) <==> (exists c: nat :: WholeChunk(s, c)) && s.size <= (CSIZE_MAX - 1) * CHUNK
  {
    ResidueAligns(s.base, CHUNK);
    var first := s.base + Residue(s.base, CHUNK);
    assert first == first / CHUNK * CHUNK;
    if Residue(s.base, CHUNK) + CHUNK <= s.size {
      assert WholeChunk(s, first / CHUNK);
    }
    if c: nat :| WholeChunk(s, c) {
      assert first <= c * CHUNK;
    }
  }

  lemma RegionsApart(a: Span, i: nat, b: Span, j: nat)
    requires Carvable(a) && Carvable(b) && SpansDisjoint(a, b)
    ensures Disjoint(Carve(a, i), Carve(b, j))
  {
    CarveInside(a, i);
    CarveInside(b, j);
  }
}
