/** The value a list of allocator blocks denotes, and the three steps that free-list
    insertion takes on it: link, coalesce with the successor, coalesce with the predecessor.

    Memory is counted in 16-byte chunks. A block starts at its header chunk `addr` and
    spans `csize` chunks, header included; `span` is the index of the span it was carved from.
  */
module Blocks {

  datatype Block = Block(addr: nat, csize: nat, span: nat) {
    function End(): nat {
      addr + csize
    }

    predicate Has(c: nat, t: nat) {
      addr <= c < End() && span == t
    }
  }

  predicate Disjoint(a: Block, b: Block) {
    a.End() <= b.addr || b.End() <= a.addr
  }

  // The coalescing test: contiguous, and carved from the same span.
  predicate Touches(a: Block, b: Block) {
    a.span == b.span && a.End() == b.addr
  }

  function Merged(a: Block, b: Block): Block {
    Block(a.addr, a.csize + b.csize, a.span)
  }

  // Non-empty blocks in strictly increasing address order, none overlapping another.
  ghost predicate Ordered(f: seq<Block>) {
    && (forall i :: 0 <= i < |f| ==> f[i].csize > 0)
    && (forall i, j :: 0 <= i < j < |f| ==> f[i].End() <= f[j].addr)
  }

  ghost predicate NoTouchAt(f: seq<Block>, i: int) {
    0 <= i < |f| - 1 ==> !Touches(f[i], f[i + 1])
  }

  // The canonical form of a free list.
  ghost predicate Canonical(f: seq<Block>) {
    && Ordered(f)
    && (forall i :: 0 <= i < |f| - 1 ==> NoTouchAt(f, i))
  }

  // Chunk `c` of span `t` lies in some block of `f`.
  ghost predicate Covers(f: seq<Block>, c: nat, t: nat) {
    exists i :: 0 <= i < |f| && f[i].Has(c, t)
  }

  ghost predicate Apart(f: seq<Block>, b: Block) {
    forall i :: 0 <= i < |f| ==> Disjoint(f[i], b)
  }

  // Number of leading blocks that start below `a`: where the address walk stops.
  function InsertPos(f: seq<Block>, a: nat): (k: nat)
    ensures k <= |f|
    ensures forall i :: 0 <= i < k ==> f[i].addr < a
    ensures k < |f| ==> a <= f[k].addr
  {
    if f == [] || f[0].addr >= a then 0 else 1 + InsertPos(f[1..], a)
  }

  // Replace blocks i and i+1 by their union when they touch.
  function Coalesce(f: seq<Block>, i: nat): seq<Block> {
    if i + 1 < |f| && Touches(f[i], f[i + 1]) then
      f[..i] + [Merged(f[i], f[i + 1])] + f[i + 2..]
    else f
  }

  function Link(f: seq<Block>, k: nat, b: Block): seq<Block>
    requires k <= |f|
  {
    f[..k] + [b] + f[k..]
  }

  function AddFree(f: seq<Block>, b: Block): seq<Block> {
    var k := InsertPos(f, b.addr);
    var g := Coalesce(Link(f, k, b), k);
    if k == 0 then g else Coalesce(g, k - 1)
  }

  // Blocks before the insertion point end by `b`, and the rest start after it.
  lemma PosSplits(f: seq<Block>, b: Block)
    requires Ordered(f) && b.csize > 0 && Apart(f, b)
    ensures var k := InsertPos(f, b.addr);
            && (forall i :: 0 <= i < k ==> f[i].End() <= b.addr)
            && (forall i :: k <= i < |f| ==> b.End() <= f[i].addr)
  {
    hide InsertPos;
    var k := InsertPos(f, b.addr);
    forall i | 0 <= i < k
      ensures f[i].End() <= b.addr
    {
      assert Disjoint(f[i], b);
    }
    forall i | k <= i < |f|
      ensures b.End() <= f[i].addr
    {
      assert Disjoint(f[i], b);
      assert f[k].addr <= f[i].addr;
    }
  }

  lemma LinkOrdered(f: seq<Block>, b: Block)
    requires Ordered(f) && b.csize > 0 && Apart(f, b)
    ensures Ordered(Link(f, InsertPos(f, b.addr), b))
  {
    var k := InsertPos(f, b.addr);
    PosSplits(f, b);
    ConcatOrdered(f[..k], [b]);
    ConcatOrdered(f[..k] + [b], f[k..]);
  }

  lemma ConcatOrdered(f: seq<Block>, g: seq<Block>)
    requires Ordered(f) && Ordered(g)
    requires forall x, y :: x in f && y in g ==> x.End() <= y.addr
    ensures Ordered(f + g)
  {
    var h := f + g;
    forall i, j | 0 <= i < j < |h|
      ensures h[i].End() <= h[j].addr
    {
      if i < |f| <= j {
        assert f[i] in f && g[j - |f|] in g;
      }
    }
  }

  lemma LinkCovers(f: seq<Block>, k: nat, b: Block, c: nat, t: nat)
    requires k <= |f|
    ensures Covers(Link(f, k, b), c, t) <==> Covers(f, c, t) || b.Has(c, t)
  {
    var g := Link(f, k, b);
    if Covers(f, c, t) {
      var i :| 0 <= i < |f| && f[i].Has(c, t);
      assert g[if i < k then i else i + 1].Has(c, t);
    }
    if b.Has(c, t) {
      assert g[k].Has(c, t);
    }
    if Covers(g, c, t) {
      var i :| 0 <= i < |g| && g[i].Has(c, t);
      if i != k {
        assert f[if i < k then i else i - 1].Has(c, t);
      }
    }
  }

  lemma CoalesceOrdered(f: seq<Block>, i: nat)
    requires Ordered(f)
    ensures Ordered(Coalesce(f, i))
  {
  }

  lemma CoalesceCovers(f: seq<Block>, i: nat, c: nat, t: nat)
    ensures Covers(Coalesce(f, i), c, t) <==> Covers(f, c, t)
  {
    if i + 1 < |f| && Touches(f[i], f[i + 1]) {
      var g := Coalesce(f, i);
      if Covers(f, c, t) {
        var j :| 0 <= j < |f| && f[j].Has(c, t);
        assert g[if j <= i then j else j - 1].Has(c, t);
      }
      if Covers(g, c, t) {
        var j :| 0 <= j < |g| && g[j].Has(c, t);
        if j == i {
          assert f[i].Has(c, t) || f[i + 1].Has(c, t);
        } else {
          assert f[if j < i then j else j + 1].Has(c, t);
        }
      }
    }
  }

  // Coalescing at `i` clears that position and disturbs no other.
  lemma CoalesceNoTouch(f: seq<Block>, i: nat, e: int)
    requires e < i
    requires forall j :: 0 <= j < |f| - 1 && j != i && j != e ==> NoTouchAt(f, j)
    ensures var g := Coalesce(f, i); forall j :: 0 <= j < |g| - 1 && j != e ==> NoTouchAt(g, j)
  {
    var g := Coalesce(f, i);
    forall j | 0 <= j < |g| - 1 && j != e
      ensures NoTouchAt(g, j)
    {
      if i + 1 < |f| && Touches(f[i], f[i + 1]) {
        assert NoTouchAt(f, if j < i then j else j + 1);
      } else if j != i {
        assert NoTouchAt(f, j);
      }
    }
  }

  lemma LinkNoTouch(f: seq<Block>, k: nat, b: Block)
    requires k <= |f| && forall i :: 0 <= i < |f| - 1 ==> NoTouchAt(f, i)
    ensures var l := Link(f, k, b); forall i :: 0 <= i < |l| - 1 && i + 1 != k && i != k ==> NoTouchAt(l, i)
  {
    var l := Link(f, k, b);
    forall i | 0 <= i < |l| - 1 && i + 1 != k && i != k
      ensures NoTouchAt(l, i)
    {
      assert NoTouchAt(f, if i < k then i else i - 1);
    }
  }

  lemma AddFreeCovers(f: seq<Block>, b: Block, c: nat, t: nat)
    ensures Covers(AddFree(f, b), c, t) <==> Covers(f, c, t) || b.Has(c, t)
  {
    var k := InsertPos(f, b.addr);
    var l := Link(f, k, b);
    LinkCovers(f, k, b, c, t);
    CoalesceCovers(l, k, c, t);
    if k > 0 {
      CoalesceCovers(Coalesce(l, k), k - 1, c, t);
    }
  }

  // Linking one block into a canonical list leaves at most two touching pairs, and the two
  // coalescing steps remove exactly those.
  lemma AddFreeKeepsForm(f: seq<Block>, b: Block)
    requires Canonical(f) && b.csize > 0 && Apart(f, b)
    ensures Canonical(AddFree(f, b))
  {
    hide Coalesce, Link;
    var k: int := InsertPos(f, b.addr);
    var l := Link(f, k, b);
    LinkOrdered(f, b);
    LinkNoTouch(f, k, b);
    CoalesceOrdered(l, k);
    CoalesceNoTouch(l, k, k - 1);
    var g := Coalesce(l, k);
    if k == 0 {
      assert AddFree(f, b) == g;
    } else {
      CoalesceOrdered(g, k - 1);
      CoalesceNoTouch(g, k - 1, -1);
      assert AddFree(f, b) == Coalesce(g, k - 1);
    }
  }

  // Insertion keeps the canonical form and adds exactly the chunks of the new block.
  lemma AddFreeCanonical(f: seq<Block>, b: Block)
    requires Canonical(f) && b.csize > 0 && Apart(f, b)
    ensures Canonical(AddFree(f, b))
    ensures forall c: nat, t: nat :: Covers(AddFree(f, b), c, t) <==> Covers(f, c, t) || b.Has(c, t)
  {
    AddFreeKeepsForm(f, b);
    forall c: nat, t: nat
      ensures Covers(AddFree(f, b), c, t) <==> Covers(f, c, t) || b.Has(c, t)
    {
      AddFreeCovers(f, b, c, t);
    }
  }

  ghost predicate SameCover(f: seq<Block>, g: seq<Block>) {
    forall c: nat, t: nat :: Covers(f, c, t) <==> Covers(g, c, t)
  }

  // The block covering the first chunk of a canonical list is its head.
  lemma HeadCovered(f: seq<Block>, g: seq<Block>)
    requires Ordered(f) && Ordered(g) && SameCover(f, g) && f != []
    ensures g != [] && g[0].addr <= f[0].addr
  {
    assert f[0].Has(f[0].addr, f[0].span);
    assert Covers(g, f[0].addr, f[0].span);
  }

  lemma HeadSameTag(f: seq<Block>, g: seq<Block>)
    requires Ordered(f) && Ordered(g) && SameCover(f, g) && f != [] && g != []
    requires f[0].addr == g[0].addr
    ensures f[0].span == g[0].span
  {
    assert f[0].Has(f[0].addr, f[0].span);
    assert Covers(g, f[0].addr, f[0].span);
  }

  // The head of a canonical list extends as far as its chunks do.
  lemma HeadEnd(f: seq<Block>, g: seq<Block>)
    requires Canonical(f) && Canonical(g) && SameCover(f, g) && f != [] && g != []
    requires f[0].addr == g[0].addr && f[0].span == g[0].span
    ensures g[0].End() <= f[0].End()
  {
    var c, t := f[0].End(), f[0].span;
    assert |f| > 1 ==> NoTouchAt(f, 0);
    if c < g[0].End() {
      assert g[0].Has(c, t);
      assert Covers(g, c, t);
    }
  }

  lemma TailCovers(f: seq<Block>, c: nat, t: nat)
    requires Ordered(f) && f != []
    ensures Covers(f[1..], c, t) <==> Covers(f, c, t) && !f[0].Has(c, t)
  {
    if Covers(f[1..], c, t) {
      var i :| 0 <= i < |f[1..]| && f[1..][i].Has(c, t);
      assert f[i + 1].Has(c, t);
    }
    if Covers(f, c, t) && !f[0].Has(c, t) {
      var i :| 0 <= i < |f| && f[i].Has(c, t);
      assert f[1..][i - 1].Has(c, t);
    }
  }

  lemma TailCanonical(f: seq<Block>)
    requires Canonical(f) && f != []
    ensures Canonical(f[1..])
  {
    forall i | 0 <= i < |f[1..]| - 1
      ensures NoTouchAt(f[1..], i)
    {
      assert NoTouchAt(f, i + 1);
    }
  }

  // A canonical list is determined by the tagged chunks it covers.
  lemma {:induction false} CanonicalUnique(f: seq<Block>, g: seq<Block>)
    requires Canonical(f) && Canonical(g) && SameCover(f, g)
    ensures f == g
  {
    if f == [] || g == [] {
      if f != [] {
        HeadCovered(f, g);
      }
      if g != [] {
        HeadCovered(g, f);
      }
    } else {
      HeadCovered(f, g);
      HeadCovered(g, f);
      HeadSameTag(f, g);
      HeadEnd(f, g);
      HeadEnd(g, f);
      assert f[0] == g[0];
      forall c: nat, t: nat
        ensures Covers(f[1..], c, t) <==> Covers(g[1..], c, t)
      {
        TailCovers(f, c, t);
        TailCovers(g, c, t);
      }
      TailCanonical(f);
      TailCanonical(g);
      CanonicalUnique(f[1..], g[1..]);
      assert f == [f[0]] + f[1..] && g == [g[0]] + g[1..];
    }
  }

  // All chunks [c, c+n) of span `t` are covered.
  ghost predicate CoversRun(f: seq<Block>, c: nat, n: nat, t: nat) {
    forall x: nat :: c <= x < c + n ==> Covers(f, x, t)
  }

  // In canonical form a contiguous run of one span's chunks never straddles two blocks.
  lemma {:induction false} RunInOneBlock(f: seq<Block>, c: nat, n: nat, t: nat) returns (i: nat)
    requires Canonical(f) && n > 0 && CoversRun(f, c, n, t)
    ensures i < |f| && f[i].span == t && f[i].addr <= c && c + n <= f[i].End()
  {
    if n == 1 {
      assert Covers(f, c, t);
      i :| 0 <= i < |f| && f[i].Has(c, t);
    } else {
      i := RunInOneBlock(f, c, n - 1, t);
      var x := c + n - 1;
      assert Covers(f, x, t);
      var j :| 0 <= j < |f| && f[j].Has(x, t);
      assert NoTouchAt(f, i);
      assert i + 1 < |f| ==> f[i].End() <= f[i + 1].addr;
    }
  }

  /* ------------------------------------------------------------------ */
  /*  When insertion merges                                              */
  /* ------------------------------------------------------------------ */

  ghost predicate Meets(f: seq<Block>, b: Block) {
    exists i :: 0 <= i < |f| && (Touches(f[i], b) || Touches(b, f[i]))
  }

  // One block of g holds all of both a and b.
  ghost predicate Holds(g: seq<Block>, a: Block, b: Block) {
    exists i :: 0 <= i < |g| && g[i].span == a.span == b.span && g[i].addr <= a.addr && a.End() <= g[i].End()
                && g[i].addr <= b.addr && b.End() <= g[i].End()
  }

  // Two touching blocks of f and b come to lie in one block.
  lemma TouchingMerge(f: seq<Block>, b: Block, i: nat)
    requires Canonical(f) && b.csize > 0 && Apart(f, b) && i < |f|
    requires Touches(f[i], b) || Touches(b, f[i])
    ensures Holds(AddFree(f, b), f[i], b)
  {
    hide AddFree;
    var g := AddFree(f, b);
    AddFreeCanonical(f, b);
    var c := if f[i].addr < b.addr then f[i].addr else b.addr;
    var n := f[i].csize + b.csize;
    forall x: nat | c <= x < c + n
      ensures Covers(g, x, b.span)
    {
      assert b.Has(x, b.span) || f[i].Has(x, b.span);
    }
    var j := RunInOneBlock(g, c, n, b.span);
  }

  lemma LonelyStays(f: seq<Block>, b: Block)
    requires !Meets(f, b)
    ensures AddFree(f, b) == Link(f, InsertPos(f, b.addr), b)
  {
    hide InsertPos;
    var k := InsertPos(f, b.addr);
    var l := Link(f, k, b);
    assert l[k] == b && (k < |f| ==> l[k + 1] == f[k]) && (k > 0 ==> l[k - 1] == f[k - 1]);
  }

  lemma SameBlock(g: seq<Block>, j: int, k: int, c: nat)
    requires Ordered(g) && 0 <= j < |g| && 0 <= k < |g|
    requires g[j].addr <= c < g[j].End() && g[k].addr <= c < g[k].End()
    ensures j == k
  {
  }

  // The block stands in the new list as it is exactly when it meets none of the old.
  lemma StandsAloneIff(f: seq<Block>, b: Block)
    requires Canonical(f) && b.csize > 0 && Apart(f, b)
    ensures b in AddFree(f, b) <==> !Meets(f, b)
  {
    hide AddFree, InsertPos;
    if Meets(f, b) {
      var i: int :| 0 <= i < |f| && (Touches(f[i], b) || Touches(b, f[i]));
      var g := AddFree(f, b);
      AddFreeCanonical(f, b);
      TouchingMerge(f, b, i);
      var j :| 0 <= j < |g| && g[j].addr <= f[i].addr && f[i].End() <= g[j].End()
               && g[j].addr <= b.addr && b.End() <= g[j].End();
      if k: int :| 0 <= k < |g| && g[k] == b {
        SameBlock(g, j, k, b.addr);
      }
    } else {
      LonelyStays(f, b);
      assert Link(f, InsertPos(f, b.addr), b)[InsertPos(f, b.addr)] == b;
    }
  }
}
