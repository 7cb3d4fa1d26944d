/** The free-list allocator as it runs: one memory of 16-byte chunks in which headers and
    payloads share the space, two singly linked lists threaded through the headers, and walks
    that relink them in place (modules/allocator/free_list.c). Every method is proved against
    the function of the same name in `FreeListSpec`.
  */
module FreeListAllocator {
  import opened Align
  import opened Blocks
  import opened S = FreeListSpec
  import opened FreeListInvariant
  import opened Spans
  import T = FreeListTheorems

  // The bytes of one chunk.
  type Cell = s: seq<bv8> | |s| == CHUNK witness seq(CHUNK, _ => 0)

  // A header as stored in its own chunk; `csize` and `span` are the two fields of the key word.
  datatype Meta = Meta(next: nat, csize: nat, span: nat)

  function HeadOf(f: seq<Block>): nat {
    if f == [] then 0 else f[0].addr
  }

  function NextOf(f: seq<Block>, i: nat): nat {
    if i + 1 < |f| then f[i + 1].addr else 0
  }

  // The header of block i of the list f is in place.
  ghost predicate Node(mem: seq<Meta>, f: seq<Block>, i: nat)
    requires i < |f|
  {
    0 < f[i].addr < |mem| && mem[f[i].addr] == Meta(NextOf(f, i), f[i].csize, f[i].span)
  }

  ghost predicate Chained(mem: seq<Meta>, f: seq<Block>) {
    forall i :: 0 <= i < |f| ==> Node(mem, f, i)
  }

  // The list starting at `head` holds exactly the blocks `f`, in order.
  ghost predicate Chain(mem: seq<Meta>, head: nat, f: seq<Block>) {
    head == HeadOf(f) && Chained(mem, f)
  }

  ghost predicate Outside(f: seq<Block>, c: nat) {
    forall i :: 0 <= i < |f| ==> f[i].addr != c
  }

  // Chunk c carries payload of a live block.
  ghost predicate Live(u: seq<Block>, c: nat) {
    exists j :: 0 <= j < |u| && u[j].addr < c < u[j].End()
  }

  // Every payload byte of the live blocks `u` is the same in both memories.
  ghost predicate Keeps(d: seq<Cell>, d': seq<Cell>, u: seq<Block>) {
    |d| == |d'| && forall c: nat :: c < |d| && Live(u, c) ==> d'[c] == d[c]
  }

  lemma KeepsBut(d: seq<Cell>, e: seq<Cell>, u: seq<Block>, a: nat, b: nat)
    requires |d| == |e| && !Live(u, a) && !Live(u, b)
    requires forall x :: 0 <= x < |d| && x != a && x != b ==> e[x] == d[x]
    ensures Keeps(d, e, u)
  {
  }

  // A copy into [lo, hi) and then a change that keeps w keep what lies in w outside [lo, hi).
  lemma KeepsPast(d: seq<Cell>, e: seq<Cell>, f: seq<Cell>, u: seq<Block>, w: seq<Block>, lo: nat, hi: nat)
    requires |d| == |e| && (forall x :: 0 <= x < |d| && !(lo <= x < hi) ==> e[x] == d[x]) && Keeps(e, f, w)
    requires forall c: nat :: Live(u, c) ==> Live(w, c) && !(lo <= c < hi)
    ensures Keeps(d, f, u)
  {
  }

  lemma ReallocIs(h: Heap, p: nat, size: nat)
    requires 0 < p && 0 < size
    ensures var (g, q) := S.FirstFit(h, size);
            if q == 0 then g == h && T.Realloc(h, p, size) == (h, 0)
            else T.Realloc(h, p, size) == (S.Free(g, p), q)
  {
  }

  lemma KeepsOn(d: seq<Cell>, e: seq<Cell>, f: seq<Cell>, u: seq<Block>, w: seq<Block>)
    requires Keeps(d, e, u) && (e == f || Keeps(e, f, w)) && forall c: nat :: Live(w, c) ==> Live(u, c)
    ensures Keeps(d, f, w)
  {
  }

  lemma InsertPosUnique(f: seq<Block>, a: nat, k: nat)
    requires Ordered(f) && k <= |f|
    requires forall i :: 0 <= i < k ==> f[i].addr < a
    requires k < |f| ==> a <= f[k].addr
    ensures k == InsertPos(f, a)
  {
    var p := InsertPos(f, a);
    assert k < |f| ==> a <= f[k].addr;
    assert p < |f| ==> a <= f[p].addr;
  }

  lemma OrderedDistinct(f: seq<Block>, i: nat)
    requires Ordered(f) && i < |f|
    ensures forall j :: 0 <= j < |f| && j != i ==> f[j].addr != f[i].addr
  {
    forall j | 0 <= j < |f| && j != i
      ensures f[j].addr != f[i].addr
    {
      assert if i < j then f[i].End() <= f[j].addr else f[j].End() <= f[i].addr;
    }
  }

  lemma NotListed(f: seq<Block>, b: Block)
    requires Ordered(f) && b.csize > 0 && Apart(f, b)
    ensures forall i :: 0 <= i < |f| ==> f[i].addr != b.addr
  {
    PosSplits(f, b);
    forall i | 0 <= i < |f|
      ensures f[i].addr != b.addr
    {
      assert f[i].csize > 0;
    }
  }

  lemma ChainedInside(mem: seq<Meta>, f: seq<Block>)
    requires Chained(mem, f)
    ensures forall i :: 0 <= i < |f| ==> 0 < f[i].addr < |mem|
  {
    forall i | 0 <= i < |f|
      ensures 0 < f[i].addr < |mem|
    {
      assert Node(mem, f, i);
    }
  }

  // Threading block b in at position k takes two header writes, or one and the list head.
  lemma LinkChain(mem: seq<Meta>, f: seq<Block>, k: nat, b: Block, mem': seq<Meta>)
    requires Chained(mem, f) && k <= |f| && 0 < b.addr < |mem| == |mem'|
    requires forall i :: 0 <= i < |f| ==> f[i].addr < |mem|
    requires mem'[b.addr] == Meta(if k < |f| then f[k].addr else 0, b.csize, b.span)
    requires forall i :: 0 <= i < |f| ==> f[i].addr != b.addr
    requires forall i :: 0 <= i < |f| && i != k - 1 ==> mem'[f[i].addr] == mem[f[i].addr]
    requires k > 0 ==> mem'[f[k - 1].addr] == mem[f[k - 1].addr].(next := b.addr)
    ensures Chained(mem', Link(f, k, b))
  {
    var g := Link(f, k, b);
    forall j | 0 <= j < |g|
      ensures Node(mem', g, j)
    {
      if j < k {
        assert Node(mem, f, j) && g[j] == f[j];
      } else if j > k {
        assert Node(mem, f, j - 1) && g[j] == f[j - 1];
      }
    }
  }

  lemma CoalesceChain(mem: seq<Meta>, f: seq<Block>, i: nat, mem': seq<Meta>)
    requires Chained(mem, f) && i + 1 < |f| && Touches(f[i], f[i + 1]) && |mem| == |mem'|
    requires forall j :: 0 <= j < |f| ==> f[j].addr < |mem|
    requires mem'[f[i].addr] == Meta(mem[f[i + 1].addr].next, f[i].csize + f[i + 1].csize, f[i].span)
    requires forall j :: 0 <= j < |f| && j != i ==> mem'[f[j].addr] == mem[f[j].addr]
    ensures Chained(mem', Coalesce(f, i))
  {
    var g := Coalesce(f, i);
    assert Node(mem, f, i) && Node(mem, f, i + 1);
    forall j | 0 <= j < |g|
      ensures Node(mem', g, j)
    {
      if j < i {
        assert Node(mem, f, j) && g[j] == f[j];
      } else if j > i {
        assert Node(mem, f, j + 1) && g[j] == f[j + 1];
      }
    }
  }

  lemma DisjointDistinct(u: seq<Block>)
    requires PairwiseDisjoint(u) && forall j :: 0 <= j < |u| ==> u[j].csize > 0
    ensures forall i, j :: 0 <= i < |u| && 0 <= j < |u| && i != j ==> u[i].addr != u[j].addr
  {
    forall i, j | 0 <= i < |u| && 0 <= j < |u| && i != j
      ensures u[i].addr != u[j].addr
    {
      assert if i < j then Disjoint(u[i], u[j]) else Disjoint(u[j], u[i]);
    }
  }

  // Unlinking block i takes one write: its predecessor, or the list head, skips it.
  lemma UnlinkChain(mem: seq<Meta>, f: seq<Block>, i: nat, mem': seq<Meta>)
    requires Chained(mem, f) && i < |f| && |mem| == |mem'|
    requires forall j :: 0 <= j < |f| ==> f[j].addr < |mem|
    requires forall j :: 0 <= j < |f| && j != i && j != i - 1 ==> mem'[f[j].addr] == mem[f[j].addr]
    requires i > 0 ==> mem'[f[i - 1].addr] == mem[f[i - 1].addr].(next := NextOf(f, i))
    ensures Chained(mem', Without(f, i))
  {
    var g := Without(f, i);
    forall j | 0 <= j < |g|
      ensures Node(mem', g, j)
    {
      if j < i {
        assert Node(mem, f, j) && g[j] == f[j];
      } else {
        assert Node(mem, f, j + 1) && g[j] == f[j + 1];
      }
    }
  }

  // Replacing block i by its upper part takes two writes: the new header and the link to it.
  lemma SplitChain(mem: seq<Meta>, f: seq<Block>, i: nat, need: nat, mem': seq<Meta>)
    requires Chained(mem, f) && i < |f| && |mem| == |mem'| && Splits(f[i], need)
    requires forall j :: 0 <= j < |f| ==> f[j].addr < |mem|
    requires f[i].addr + need < |mem|
    requires mem'[f[i].addr + need] == Meta(NextOf(f, i), f[i].csize - need, f[i].span)
    requires forall j :: 0 <= j < |f| && j != i && j != i - 1 ==> mem'[f[j].addr] == mem[f[j].addr]
    requires i > 0 ==> mem'[f[i - 1].addr] == mem[f[i - 1].addr].(next := f[i].addr + need)
    ensures Chained(mem', TakeAt(f, i, need))
  {
    var g := TakeAt(f, i, need);
    forall j | 0 <= j < |g|
      ensures Node(mem', g, j)
    {
      assert Node(mem, f, j);
    }
  }

  lemma PushChain(mem: seq<Meta>, u: seq<Block>, b: Block, mem': seq<Meta>)
    requires Chained(mem, u) && |mem| == |mem'| && 0 < b.addr < |mem|
    requires forall j :: 0 <= j < |u| && u[j].addr < |mem| ==> mem'[u[j].addr] == mem[u[j].addr]
    requires mem'[b.addr] == Meta(HeadOf(u), b.csize, b.span)
    ensures Chained(mem', [b] + u)
  {
    var g := [b] + u;
    forall j | 0 <= j < |g|
      ensures Node(mem', g, j)
    {
      if j > 0 {
        assert Node(mem, u, j - 1) && g[j] == u[j - 1];
      }
    }
  }

  // Writes that miss every header of a list leave the list in place.
  lemma ChainKept(mem: seq<Meta>, f: seq<Block>, mem': seq<Meta>)
    requires Chained(mem, f) && |mem| == |mem'|
    requires forall i :: 0 <= i < |f| && f[i].addr < |mem| ==> mem'[f[i].addr] == mem[f[i].addr]
    ensures Chained(mem', f)
  {
    forall i | 0 <= i < |f|
      ensures Node(mem', f, i)
    {
      assert Node(mem, f, i);
    }
  }

  lemma ChainApart(mem: seq<Meta>, f: seq<Block>, m: nat, mem': seq<Meta>)
    requires Chained(mem, f) && m < |mem| && Outside(f, m) && |mem| == |mem'|
    requires forall x :: 0 <= x < |mem| && x != m ==> mem'[x] == mem[x]
    ensures Chained(mem', f)
  {
    ChainKept(mem, f, mem');
  }

  // Neither the headers nor the payloads of live blocks are headers of free blocks.
  lemma ListsApart(f: seq<Block>, u: seq<Block>)
    requires AllApart(f, u)
    requires forall i :: 0 <= i < |f| ==> f[i].csize > 0
    requires forall j :: 0 <= j < |u| ==> u[j].csize > 0
    ensures forall j :: 0 <= j < |u| ==> Outside(f, u[j].addr)
    ensures forall c: nat :: Live(u, c) ==> Outside(f, c)
  {
    forall j | 0 <= j < |u|
      ensures forall i :: 0 <= i < |f| ==> !(u[j].addr <= f[i].addr < u[j].End())
    {
      assert Apart(f, u[j]);
      forall i | 0 <= i < |f|
        ensures !(u[j].addr <= f[i].addr < u[j].End())
      {
        assert Disjoint(f[i], u[j]);
      }
    }
  }

  // No live payload chunk is the header of a live block.
  lemma PayloadsMissHeaders(u: seq<Block>)
    requires PairwiseDisjoint(u) && forall j :: 0 <= j < |u| ==> u[j].csize > 0
    ensures forall c: nat :: Live(u, c) ==> Outside(u, c)
  {
    forall c: nat | Live(u, c)
      ensures Outside(u, c)
    {
      var j :| 0 <= j < |u| && u[j].addr < c < u[j].End();
      forall i | 0 <= i < |u|
        ensures u[i].addr != c
      {
        assert i < j ==> Disjoint(u[i], u[j]);
        assert j < i ==> Disjoint(u[j], u[i]);
      }
    }
  }

  lemma WithoutLive(u: seq<Block>, i: nat)
    requires i < |u|
    ensures forall c: nat :: Live(Without(u, i), c) ==> Live(u, c)
  {
    var w := Without(u, i);
    forall c: nat | Live(w, c)
      ensures Live(u, c)
    {
      var j :| 0 <= j < |w| && w[j].addr < c < w[j].End();
      assert u[if j < i then j else j + 1] == w[j];
    }
  }

  // The same for a block b that is apart from both lists.
  lemma UsedOutside(f: seq<Block>, u: seq<Block>, b: Block)
    requires AllApart(f, u) && Apart(u, b) && Apart(f, b) && b.csize > 0
    requires forall i :: 0 <= i < |f| ==> f[i].csize > 0
    requires forall j :: 0 <= j < |u| ==> u[j].csize > 0
    ensures Outside(f, b.addr)
    ensures forall j :: 0 <= j < |u| ==> Outside(f, u[j].addr) && u[j].addr != b.addr
    ensures forall c: nat :: Live(u, c) ==> Outside(f, c) && c != b.addr
  {
    ListsApart(f, u);
    forall i | 0 <= i < |f|
      ensures f[i].addr != b.addr
    {
      assert Disjoint(f[i], b);
    }
    forall j | 0 <= j < |u|
      ensures !(u[j].addr <= b.addr < u[j].End())
    {
      assert Disjoint(u[j], b);
    }
  }

  lemma CarvedReady(spans: seq<Span>, n: nat)
    requires SpansOk(spans) && n < |spans|
    ensures Canonical(Carved(spans, n)) && Apart(Carved(spans, n), Carve(spans[n], n))
  {
    CarvedInv(spans, n);
    HomedApartNew(Carved(spans, n), spans[..n], spans[n]);
  }

  // A chunk inside free block i, past its header, is the header of no block.
  lemma InsideApart(f: seq<Block>, u: seq<Block>, i: nat, c: nat)
    requires Ordered(f) && AllApart(f, u) && i < |f| && f[i].addr < c < f[i].End()
    requires forall j :: 0 <= j < |u| ==> u[j].csize > 0
    ensures Outside(f, c) && Outside(u, c) && !Live(u, c)
  {
    forall j | 0 <= j < |f|
      ensures f[j].addr != c
    {
      assert j < i ==> f[j].End() <= f[i].addr;
      assert i < j ==> f[i].End() <= f[j].addr;
    }
    forall j | 0 <= j < |u|
      ensures !(u[j].addr <= c < u[j].End())
    {
      assert Apart(f, u[j]);
      assert Disjoint(f[i], u[j]);
    }
  }

  // The taken block is apart from what stays on either list.
  ghost predicate StaysApart(f: seq<Block>, u: seq<Block>, i: nat, need: nat)
    requires i < |f|
  {
    var b, r := Taken(f[i], need), TakeAt(f, i, need);
    && b.csize > 0 && Apart(r, b) && Apart(u, b) && AllApart(r, u)
    && (forall j :: 0 <= j < |r| ==> r[j].csize > 0)
  }

  lemma TakenApart(h: Heap, i: nat, need: nat)
    requires Inv(h) && i < |h.free| && 0 < need <= h.free[i].csize
    ensures StaysApart(h.free, h.used, i, need)
  {
    var b := Taken(h.free[i], need);
    InvTake(h, i, need);
    var v := [b] + h.used;
    assert v[0] == b;
    forall j | 0 <= j < |h.used|
      ensures Disjoint(h.used[j], b) && Apart(TakeAt(h.free, i, need), h.used[j])
    {
      assert v[j + 1] == h.used[j];
      assert Disjoint(v[0], v[j + 1]);
    }
  }

  // The list after the strip has dealt with the first n blocks of f.
  ghost function Partly(f: seq<Block>, n: nat, s: Span): seq<Block>
    requires n <= |f|
  {
    Strip(f[..n], s) + f[n..]
  }

  lemma {:induction false} StripNext(f: seq<Block>, n: nat, s: Span)
    requires n < |f|
    ensures Strip(f[..n + 1], s) == Strip(f[..n], s) + if InSpan(f[n], s) then [] else [f[n]]
  {
    if n == 0 {
      assert f[..1][1..] == [];
    } else {
      StripNext(f[1..], n - 1, s);
      assert f[..n + 1][1..] == f[1..][..n] && f[..n][1..] == f[1..][..n - 1];
    }
  }

  lemma PartlyNext(f: seq<Block>, n: nat, s: Span)
    requires n < |f|
    ensures var g, k := Partly(f, n, s), |Strip(f[..n], s)|;
            && k < |g| && g[k] == f[n] && (k > 0 ==> g[k - 1] == Strip(f[..n], s)[k - 1])
            && NextOf(g, k) == (if n + 1 < |f| then f[n + 1].addr else 0)
            && Partly(f, n + 1, s) == (if InSpan(f[n], s) then Without(g, k) else g)
            && Strip(f[..n + 1], s) == Strip(f[..n], s) + if InSpan(f[n], s) then [] else [f[n]]
  {
    PartlyHere(f, n, s);
    PartlyAfter(f, n, s);
    StripNext(f, n, s);
  }

  // The next block to look at, what came before it and what comes after.
  lemma PartlyHere(f: seq<Block>, n: nat, s: Span)
    requires n < |f|
    ensures var g, k := Partly(f, n, s), |Strip(f[..n], s)|;
            && k < |g| && g[k] == f[n] && (k > 0 ==> g[k - 1] == Strip(f[..n], s)[k - 1])
            && NextOf(g, k) == if n + 1 < |f| then f[n + 1].addr else 0
  {
    hide Strip;
    var a := Strip(f[..n], s);
    var g := a + f[n..];
    assert g[|a|] == f[n..][0] == f[n];
    assert n + 1 < |f| ==> g[|a| + 1] == f[n..][1] == f[n + 1];
  }

  // Looking at it keeps it or takes it out.
  lemma PartlyAfter(f: seq<Block>, n: nat, s: Span)
    requires n < |f|
    ensures var g, k := Partly(f, n, s), |Strip(f[..n], s)|;
            k < |g| && Partly(f, n + 1, s) == if InSpan(f[n], s) then Without(g, k) else g
  {
    StripNext(f, n, s);
    hide Strip, Without;
    var a, rest := Strip(f[..n], s), f[n + 1..];
    assert f[n..] == [f[n]] + rest;
    MiddleOut(a, f[n], rest);
  }

  lemma MiddleOut(a: seq<Block>, b: Block, rest: seq<Block>)
    ensures Without(a + ([b] + rest), |a|) == a + rest
    ensures (a + [b]) + rest == a + ([b] + rest) && (a + []) + rest == a + rest
  {
    var g := a + ([b] + rest);
    assert g[..|a|] == a && g[|a| + 1..] == rest;
  }

  lemma PartlyEnds(f: seq<Block>, s: Span)
    ensures Strip(f[..0], s) == [] && Partly(f, 0, s) == f && Partly(f, |f|, s) == Strip(f, s)
  {
    assert f[..0] == [] && f[0..] == f && f[..|f|] == f;
  }

  lemma PartlyOutside(f: seq<Block>, n: nat, s: Span)
    requires n <= |f|
    ensures forall x: nat :: Outside(f, x) ==> Outside(Partly(f, n, s), x)
  {
    var g := Partly(f, n, s);
    forall i | 0 <= i < |g|
      ensures g[i] in f
    {
      if i < |Strip(f[..n], s)| {
        StripMember(f[..n], s, g[i]);
      }
    }
  }

  lemma WithoutOrdered(f: seq<Block>, k: nat)
    requires Ordered(f) && k < |f|
    ensures Ordered(Without(f, k))
  {
  }

  // Chunks that n bytes from a chunk boundary touch.
  function ChunksFor(n: nat): nat {
    (n + CHUNK - 1) / CHUNK
  }

  // Byte j of the memory that starts at chunk c.
  function ByteAt(d: seq<Cell>, c: nat, j: nat): bv8
    requires c + j / CHUNK < |d|
  {
    d[c + j / CHUNK][j % CHUNK]
  }

  // The first n bytes at chunk `dst` of d are those at chunk `src` of e.
  ghost predicate Copied(d: seq<Cell>, dst: nat, e: seq<Cell>, src: nat, n: nat) {
    && dst + ChunksFor(n) <= |d| && src + ChunksFor(n) <= |e|
    && forall j: nat :: j < n ==> ByteAt(d, dst, j) == ByteAt(e, src, j)
  }

  lemma CopiedByChunks(d: seq<Cell>, dst: nat, e: seq<Cell>, src: nat, n: nat)
    requires dst + ChunksFor(n) <= |d| && src + ChunksFor(n) <= |e|
    requires d[dst..dst + n / CHUNK] == e[src..src + n / CHUNK]
    requires n % CHUNK > 0 ==> d[dst + n / CHUNK][..n % CHUNK] == e[src + n / CHUNK][..n % CHUNK]
    ensures Copied(d, dst, e, src, n)
  {
    forall j: nat | j < n
      ensures ByteAt(d, dst, j) == ByteAt(e, src, j)
    {
      var k := j / CHUNK;
      if k == n / CHUNK {
        var r := n % CHUNK;
        assert d[dst + k][..r][j % CHUNK] == e[src + k][..r][j % CHUNK];
      } else {
        assert d[dst..dst + n / CHUNK][k] == e[src..src + n / CHUNK][k];
      }
    }
  }

  lemma RangeMisses(u: seq<Block>, lo: nat, hi: nat, f: seq<Block>)
    requires forall x: nat :: lo <= x < hi ==> Live(u, x)
    requires forall c: nat :: Live(u, c) ==> Outside(f, c)
    ensures forall i :: 0 <= i < |f| ==> !(lo <= f[i].addr < hi)
  {
    forall i | 0 <= i < |f|
      ensures !(lo <= f[i].addr < hi)
    {
      assert !Outside(f, f[i].addr);
    }
  }

  lemma KeptRange(d: seq<Cell>, e: seq<Cell>, u: seq<Block>, lo: nat, hi: nat)
    requires Keeps(d, e, u) && forall x: nat :: lo <= x < hi ==> Live(u, x)
    ensures forall x :: lo <= x < hi && x < |d| ==> e[x] == d[x]
  {
  }

  lemma CopiedVia(d: seq<Cell>, dst: nat, e: seq<Cell>, src: nat, n: nat, d': seq<Cell>)
    requires Copied(d, dst, e, src, n) && |d'| == |d|
    requires forall x :: dst <= x < dst + ChunksFor(n) && x < |d| ==> d'[x] == d[x]
    ensures Copied(d', dst, e, src, n)
  {
    forall j: nat | j < n
      ensures ByteAt(d', dst, j) == ByteAt(e, src, j)
    {
      assert ByteAt(d, dst, j) == ByteAt(e, src, j);
      assert d'[dst + j / CHUNK] == d[dst + j / CHUNK];
    }
  }

  lemma LiveParts(b: Block, w: seq<Block>)
    ensures forall c: nat :: Live(w, c) ==> Live([b] + w, c)
    ensures forall c: nat :: b.addr < c < b.End() ==> Live([b] + w, c)
  {
    var u := [b] + w;
    assert u[0] == b;
    forall c: nat | Live(w, c)
      ensures Live(u, c)
    {
      var j :| 0 <= j < |w| && w[j].addr < c < w[j].End();
      assert u[j + 1] == w[j];
    }
  }

  lemma LiveTail(u: seq<Block>, k: nat)
    requires 0 < k < |u|
    ensures forall c: nat :: Live(Without(u[1..], k - 1), c) ==> Live(Without(u, 0), c)
  {
    WithoutLive(u[1..], k - 1);
    assert Without(u, 0) == u[1..];
  }

  // Two live payloads of n bytes each lie inside their blocks and miss one another.
  lemma PayloadRanges(u: seq<Block>, i: nat, k: nat, n: nat)
    requires PairwiseDisjoint(u) && i < |u| && k < |u| && i != k
    requires n <= (u[i].csize - 1) * CHUNK && n <= (u[k].csize - 1) * CHUNK
    ensures var t, a, b := ChunksFor(n), u[i].addr + 1, u[k].addr + 1;
            && a + t <= u[i].End() && b + t <= u[k].End()
            && (a + t <= b || b + t <= a)
            && (forall x: nat :: a <= x < a + t ==> Live(u, x))
            && (forall x: nat :: b <= x < b + t ==> Live(u, x))
            && (forall c: nat :: Live(Without(u, i), c) ==> !(a <= c < a + t))
  {
    var t, a, w := ChunksFor(n), u[i].addr + 1, Without(u, i);
    assert if i < k then Disjoint(u[i], u[k]) else Disjoint(u[k], u[i]);
    forall c: nat | Live(w, c)
      ensures !(a <= c < a + t)
    {
      var j :| 0 <= j < |w| && w[j].addr < c < w[j].End();
      var m := if j < i then j else j + 1;
      assert u[m] == w[j];
      assert if i < m then Disjoint(u[i], u[m]) else Disjoint(u[m], u[i]);
    }
  }

  // What moving n bytes from live block k to live block 0 and freeing block k relies on.
  lemma MoveReady(u: seq<Block>, k: nat, n: nat, p: nat)
    requires PairwiseDisjoint(u) && T.DistinctPayloads(u) && 0 < k < |u| && p == Payload(u[k])
    requires n <= (u[0].csize - 1) * CHUNK && n <= (u[k].csize - 1) * CHUNK
    ensures UsedIndex(u, p) == k
    ensures var t, dst, src := ChunksFor(n), u[0].addr + 1, u[k].addr + 1;
            && dst + t <= u[0].End() && src + t <= u[k].End()
            && (dst + t <= src || src + t <= dst)
            && (forall x: nat :: dst <= x < dst + t ==> Live(u, x) && Live(Without(u, k), x))
            && (forall c: nat :: Live(Without(u[1..], k - 1), c) ==> Live(Without(u, k), c) && !(dst <= c < dst + t))
  {
    PayloadRanges(u, 0, k, n);
    assert Without(u, k) == [u[0]] + Without(u[1..], k - 1);
    LiveParts(u[0], Without(u[1..], k - 1));
    LiveTail(u, k);
    forall c: nat | Live(Without(u[1..], k - 1), c)
      ensures Live(Without(u, k), c) && !(u[0].addr + 1 <= c < u[0].addr + 1 + ChunksFor(n))
    {
      assert Live(Without(u, 0), c);
    }
  }

  // The bytes copied are those the block held before the new block was taken.
  lemma SourceKept(u: seq<Block>, i: nat, n: nat, before: seq<Cell>, fitted: seq<Cell>, after: seq<Cell>, dst: nat)
    requires PairwiseDisjoint(u) && i < |u| && n <= (u[i].csize - 1) * CHUNK
    requires Keeps(before, fitted, u)
    requires Copied(after, dst, fitted, u[i].addr + 1, n)
    ensures Copied(after, dst, before, u[i].addr + 1, n)
  {
    var src := u[i].addr + 1;
    forall j: nat | j < n
      ensures ByteAt(after, dst, j) == ByteAt(before, src, j)
    {
      assert ByteAt(after, dst, j) == ByteAt(fitted, src, j);
      assert Live(u, src + j / CHUNK);
    }
  }

  class FreeList {
    const meta: array<Meta>
    const data: array<Cell>
    var pFree: nat
    var pUsed: nat
    var spans: seq<Span>
    var spanCapacity: nat
    ghost var free: seq<Block>
    ghost var used: seq<Block>

    ghost function View(): Heap
      reads this
    {
      Heap(free, used, spans)
    }

    ghost predicate Backed(s: Span)
      reads this
    {
      s.base + s.size <= meta.Length * CHUNK
    }

    ghost predicate Valid()
      reads this, meta
    {
      && meta.Length == data.Length
      && Inv(View())
      && Chain(meta[..], pFree, free) && Chain(meta[..], pUsed, used)
      && |spans| <= spanCapacity && 0 < spanCapacity
      && (forall i :: 0 <= i < |spans| ==> Backed(spans[i]))
    }

    // A header write replaces the sixteen bytes of its chunk.
    method WriteHeader(c: nat, m: Meta)
      requires meta.Length == data.Length && c < meta.Length
      modifies meta, data
      ensures meta[..] == old(meta[..])[c := m]
      ensures forall i :: 0 <= i < data.Length && i != c ==> data[i] == old(data[i])
    {
      meta[c] := m;
      data[c] := *;
    }

    // Point `*lastPtr` at x, where 0 stands for the list head and a chunk for its `next` field.
    method LinkFree(lastPtr: nat, x: nat)
      requires meta.Length == data.Length && lastPtr < meta.Length
      modifies this`pFree, meta, data
      ensures if lastPtr == 0 then pFree == x && meta[..] == old(meta[..])
              else pFree == old(pFree) && meta[..] == old(meta[..])[lastPtr := old(meta[lastPtr]).(next := x)]
      ensures forall i :: 0 <= i < data.Length && i != lastPtr ==> data[i] == old(data[i])
      ensures lastPtr == 0 ==> data[..] == old(data[..])
    {
      if lastPtr == 0 {
        pFree := x;
      } else {
        WriteHeader(lastPtr, meta[lastPtr].(next := x));
      }
    }

    method LinkUsed(lastPtr: nat, x: nat)
      requires meta.Length == data.Length && lastPtr < meta.Length
      modifies this`pUsed, meta, data
      ensures if lastPtr == 0 then pUsed == x && meta[..] == old(meta[..])
              else pUsed == old(pUsed) && meta[..] == old(meta[..])[lastPtr := old(meta[lastPtr]).(next := x)]
      ensures forall i :: 0 <= i < data.Length && i != lastPtr ==> data[i] == old(data[i])
      ensures lastPtr == 0 ==> data[..] == old(data[..])
    {
      if lastPtr == 0 {
        pUsed := x;
      } else {
        WriteHeader(lastPtr, meta[lastPtr].(next := x));
      }
    }

    // Blocks i and i+1 of the free list, at chunks a and c, become one when they touch.
    method CoalesceAt(a: nat, c: nat, ghost i: nat)
      requires meta.Length == data.Length && Chain(meta[..], pFree, free) && Ordered(free)
      requires i + 1 < |free| && free[i].addr == a && free[i + 1].addr == c
      modifies this`free, meta, data
      ensures free == Coalesce(old(free), i)
      ensures Chain(meta[..], pFree, free)
      ensures forall x :: 0 <= x < data.Length && x != a ==> meta[x] == old(meta[x]) && data[x] == old(data[x])
    {
      assert Node(meta[..], free, i) && Node(meta[..], free, i + 1);
      ChainedInside(meta[..], free);
      OrderedDistinct(free, i);
      if meta[a].span == meta[c].span && a + meta[a].csize == c {
        WriteHeader(a, meta[a].(csize := meta[a].csize + meta[c].csize));
        WriteHeader(a, meta[a].(next := meta[c].next));
        CoalesceChain(old(meta[..]), free, i, meta[..]);
        free := Coalesce(free, i);
      }
    }

    // The walk of nth_free_list_add_free: the last block below m, and the one after it.
    method FindGap(m: nat) returns (prev: nat, cur: nat, ghost k: nat)
      requires Chain(meta[..], pFree, free) && Ordered(free)
      ensures k == InsertPos(free, m) <= |free|
      ensures cur == (if k < |free| then free[k].addr else 0)
      ensures prev == if k == 0 then 0 else free[k - 1].addr
    {
      prev, cur, k := 0, pFree, 0;
      while cur != 0 && cur < m
        invariant k <= |free|
        invariant cur == (if k < |free| then free[k].addr else 0)
        invariant prev == if k == 0 then 0 else free[k - 1].addr
        invariant forall i :: 0 <= i < k ==> free[i].addr < m
        decreases |free| - k
      {
        assert Node(meta[..], free, k);
        prev, cur := cur, meta[cur].next;
        k := k + 1;
      }
      assert k < |free| ==> Node(meta[..], free, k);
      InsertPosUnique(free, m, k);
    }

    // The two writes that thread chunk m in between `prev` and `cur`.
    method LinkHeaders(m: nat, prev: nat, cur: nat)
      requires meta.Length == data.Length && m < meta.Length && prev < meta.Length && m != prev
      modifies this`pFree, meta, data
      ensures pFree == if prev == 0 then m else old(pFree)
      ensures meta[m] == old(meta[m]).(next := cur)
      ensures prev != 0 ==> meta[prev] == old(meta[prev]).(next := m)
      ensures forall x :: 0 <= x < data.Length && x != m && (x != prev || prev == 0) ==>
                            meta[x] == old(meta[x]) && data[x] == old(data[x])
    {
      WriteHeader(m, meta[m].(next := cur));
      LinkFree(prev, m);
    }

    method LinkBlock(m: nat, prev: nat, cur: nat, ghost b: Block, ghost k: nat)
      requires meta.Length == data.Length && Chain(meta[..], pFree, free) && Ordered(free)
      requires 0 < m < meta.Length && b == Block(m, meta[m].csize, meta[m].span) && b.csize > 0 && Apart(free, b)
      requires k == InsertPos(free, m) && cur == if k < |free| then free[k].addr else 0
      requires prev == if k == 0 then 0 else free[k - 1].addr
      modifies this`pFree, this`free, meta, data
      ensures free == Link(old(free), k, b) && Ordered(free)
      ensures Chain(meta[..], pFree, free)
      ensures forall x :: 0 <= x < data.Length && x != m && (x != prev || k == 0) ==>
                            meta[x] == old(meta[x]) && data[x] == old(data[x])
    {
      assert k > 0 ==> Node(meta[..], free, k - 1);
      hide Ordered, Apart, InsertPos, Chained;
      ChainedInside(meta[..], free);
      NotListed(free, b);
      if k > 0 {
        OrderedDistinct(free, k - 1);
      }
      LinkHeaders(m, prev, cur);
      LinkChain(old(meta[..]), free, k, b, meta[..]);
      LinkOrdered(free, b);
      free := Link(free, k, b);
    }

    // nth_free_list_add_free
    method AddFreeBlock(m: nat, ghost b: Block)
      requires meta.Length == data.Length && Chain(meta[..], pFree, free) && Ordered(free)
      requires 0 < m < meta.Length && b == Block(m, meta[m].csize, meta[m].span) && b.csize > 0 && Apart(free, b)
      modifies this`pFree, this`free, meta, data
      ensures free == AddFree(old(free), b)
      ensures Chain(meta[..], pFree, free)
      ensures forall x :: 0 <= x < data.Length && x != m && Outside(old(free), x) ==>
                            meta[x] == old(meta[x]) && data[x] == old(data[x])
    {
      hide Chained, Ordered, Apart;
      var prev, cur, k := FindGap(m);
      ChainedInside(meta[..], free);
      LinkBlock(m, prev, cur, b, k);
      CoalesceOrdered(free, k);
      if cur != 0 {
        CoalesceAt(m, cur, k);
      }
      if prev != 0 {
        CoalesceAt(prev, m, k - 1);
      }
    }

    // free_list_carve_span
    method CarveSpan(s: Span, idx: nat) returns (m: nat)
      requires Carvable(s) && Backed(s) && meta.Length == data.Length
      modifies meta, data
      ensures m == Carve(s, idx).addr && 0 < m < meta.Length
      ensures meta[..] == old(meta[..])[m := Meta(0, Carve(s, idx).csize, idx)]
      ensures forall i :: 0 <= i < data.Length && i != m ==> data[i] == old(data[i])
    {
      CarveInside(s, idx);
      PadOf(s.base);
      var pad := AlignPad(s.base, CHUNK);
      m := (s.base + pad) / CHUNK;
      WriteHeader(m, Meta(0, (s.size - pad) / CHUNK, idx));
    }

    // Both lists are in place and disjoint in memory, as far as adding a block needs it.
    ghost predicate Threaded()
      reads this, meta
    {
      && meta.Length == data.Length && Canonical(free)
      && Chain(meta[..], pFree, free) && Chain(meta[..], pUsed, used)
      && AllApart(free, used) && (forall j :: 0 <= j < |used| ==> used[j].csize > 0)
    }

    // Carve a span that is apart from both lists and put its block on the free list.
    method AddSpan(s: Span, idx: nat)
      requires Threaded() && Carvable(s) && Backed(s)
      requires Apart(free, Carve(s, idx)) && Apart(used, Carve(s, idx))
      modifies this`pFree, this`free, meta, data
      ensures free == AddFree(old(free), Carve(s, idx))
      ensures Chain(meta[..], pFree, free) && Chain(meta[..], pUsed, used)
      ensures Keeps(old(data[..]), data[..], used)
    {
      hide AddFree;
      ghost var b := Carve(s, idx);
      CarveInside(s, idx);
      UsedOutside(free, used, b);
      ChainedInside(meta[..], used);
      var m := CarveSpan(s, idx);
      ChainApart(old(meta[..]), free, m, meta[..]);
      AddFreeBlock(m, b);
      ChainKept(old(meta[..]), used, meta[..]);
    }

    // nth_setup_free_list, over the memory the span lies in
    constructor (meta: array<Meta>, data: array<Cell>, s: Span)
      requires meta.Length == data.Length && Carvable(s) && s.base + s.size <= meta.Length * CHUNK
      modifies meta, data
      ensures Valid() && View() == Setup(s) && this.meta == meta && this.data == data && spanCapacity == 4
    {
      this.meta, this.data := meta, data;
      pFree, pUsed, spans, spanCapacity := 0, 0, [s], 4;
      free, used := [], [];
      new;
      AddSpan(s, 0);
      InvSetup(s);
    }

    lemma ValidThreaded()
      requires Valid()
      ensures Threaded()
    {
      forall j | 0 <= j < |used|
        ensures used[j].csize > 0
      {
        assert HomeOf(used[j], spans);
      }
    }

    // nth_free_list_grow; `more` says whether enlarging the span table succeeds
    method Grow(s: Span, more: bool) returns (ok: bool)
      requires Valid() && CanGrow(View(), s) && Backed(s)
      modifies this, meta, data
      ensures Valid()
      ensures ok <==> old(|spans|) < old(spanCapacity) || more
      ensures spanCapacity == (if ok && old(|spans|) >= old(spanCapacity) then 2 else 1) * old(spanCapacity)
      ensures View() == if ok then S.Grow(old(View()), s) else old(View())
      ensures Keeps(old(data[..]), data[..], old(used))
    {
      hide AddFree;
      if |spans| >= spanCapacity {
        if !more {
          return false;
        }
        spanCapacity := spanCapacity * 2;
      }
      var idx := |spans|;
      ValidThreaded();
      HomedApartNew(free, spans, s);
      HomedApartNew(used, spans, s);
      InvGrow(View(), s);
      spans := spans + [s];
      AddSpan(s, idx);
      assert View() == S.Grow(old(View()), s);
      ok := true;
    }

    method AddNext(i: nat)
      requires meta.Length == data.Length && SpansOk(spans) && i < |spans| && Backed(spans[i])
      requires pUsed == 0 && used == [] && free == Carved(spans, i) && Chain(meta[..], pFree, free)
      modifies this`pFree, this`free, meta, data
      ensures free == Carved(spans, i + 1) && Chain(meta[..], pFree, free)
    {
      hide AddFree;
      CarvedReady(spans, i);
      AddSpan(spans[i], i);
    }

    // Carve every span, in index order, into an empty free list.
    method Rebuild()
      requires meta.Length == data.Length && SpansOk(spans)
      requires forall i :: 0 <= i < |spans| ==> Backed(spans[i])
      requires pUsed == 0 && pFree == 0 && free == [] && used == []
      modifies this`pFree, this`free, meta, data
      ensures free == Carved(spans, |spans|) && Chain(meta[..], pFree, free)
    {
      hide AddFree;
      for i := 0 to |spans|
        invariant free == Carved(spans, i) && Chain(meta[..], pFree, free)
      {
        AddNext(i);
      }
    }

    // nth_free_list_clear
    method Clear()
      requires Valid()
      modifies this, meta, data
      ensures Valid() && View() == S.Clear(old(View()))
    {
      hide AddFree;
      InvClear(View());
      pUsed, pFree := 0, 0;
      free, used := [], [];
      Rebuild();
    }

    /* Releasing */

    // The walk of nth_free_list_free: the used block whose payload is p, and its predecessor.
    method FindUsed(p: nat) returns (lastPtr: nat, last: nat, ghost i: nat)
      requires Chain(meta[..], pUsed, used)
      ensures i == UsedIndex(used, p) <= |used|
      ensures last == (if i < |used| then used[i].addr else 0) && (last == 0 <==> i == |used|)
      ensures last != 0 ==> last < meta.Length
      ensures lastPtr == if i == 0 then 0 else used[i - 1].addr
    {
      lastPtr, last, i := 0, pUsed, 0;
      ChainedInside(meta[..], used);
      while last != 0
        invariant i <= |used| && last == (if i < |used| then used[i].addr else 0)
        invariant lastPtr == if i == 0 then 0 else used[i - 1].addr
        invariant i + UsedIndex(used[i..], p) == UsedIndex(used, p)
        decreases |used| - i
      {
        assert Node(meta[..], used, i);
        if (last + 1) * CHUNK == p {
          break;
        }
        lastPtr, last := last, meta[last].next;
        assert used[i..][1..] == used[i + 1..];
        i := i + 1;
      }
    }

    method UnlinkUsed(lastPtr: nat, last: nat, ghost i: nat)
      requires Threaded() && PairwiseDisjoint(used) && i < |used| && last == used[i].addr < meta.Length
      requires lastPtr == if i == 0 then 0 else used[i - 1].addr
      modifies this`pUsed, this`used, meta, data
      ensures used == Without(old(used), i)
      ensures Chain(meta[..], pUsed, used) && Chain(meta[..], pFree, free)
      ensures meta[last] == old(meta[last])
      ensures forall c :: 0 <= c < data.Length && (c != lastPtr || i == 0) ==> data[c] == old(data[c])
    {
      ChainedInside(meta[..], used);
      DisjointDistinct(used);
      ListsApart(free, used);
      assert Node(meta[..], used, i);
      assert i > 0 ==> Node(meta[..], used, i - 1);
      LinkUsed(lastPtr, meta[last].next);
      UnlinkChain(old(meta[..]), used, i, meta[..]);
      ChainKept(old(meta[..]), free, meta[..]);
      used := Without(used, i);
    }

    // Move used block i, whose header is `head`, to the free list.
    method Release(lastPtr: nat, head: nat, ghost i: nat)
      requires Threaded() && PairwiseDisjoint(used) && i < |used| && head == used[i].addr < meta.Length
      requires lastPtr == if i == 0 then 0 else used[i - 1].addr
      requires Apart(free, used[i]) && Apart(Without(used, i), used[i])
      modifies this`pFree, this`free, this`pUsed, this`used, meta, data
      ensures used == Without(old(used), i) && free == AddFree(old(free), old(used[i]))
      ensures Chain(meta[..], pUsed, used) && Chain(meta[..], pFree, free)
      ensures Keeps(old(data[..]), data[..], used)
    {
      hide AddFree;
      ghost var b := used[i];
      assert Node(meta[..], used, i);
      PayloadsMissHeaders(used);
      WithoutLive(used, i);
      UnlinkUsed(lastPtr, head, i);
      label unlinked:
      UsedOutside(free, used, b);
      ChainedInside(meta[..], used);
      AddFreeBlock(head, b);
      ChainKept(old@unlinked(meta[..]), used, meta[..]);
    }

    // nth_free_list_free
    method Free(p: nat)
      requires Valid()
      modifies this, meta, data
      ensures Valid() && View() == S.Free(old(View()), p)
      ensures Keeps(old(data[..]), data[..], used)
      ensures UsedIndex(old(used), p) == |old(used)| ==> meta[..] == old(meta[..]) && data[..] == old(data[..])
    {
      hide AddFree;
      var lastPtr, head, i := FindUsed(p);
      if head == 0 {
        return;
      }
      ValidThreaded();
      WithoutKeeps(View(), i);
      InvFree(View(), p);
      Release(lastPtr, head, i);
    }

    /* Allocating */

    // The walk of nth_free_list_first_fit: the first free block large enough, and its predecessor.
    method FindFit(need: nat) returns (lastPtr: nat, last: nat, ghost i: nat)
      requires Chain(meta[..], pFree, free)
      ensures i == FitIndex(free, need) <= |free|
      ensures last == (if i < |free| then free[i].addr else 0) && (last == 0 <==> i == |free|)
      ensures lastPtr == if i == 0 then 0 else free[i - 1].addr
    {
      lastPtr, last, i := 0, pFree, 0;
      ChainedInside(meta[..], free);
      while last != 0
        invariant i <= |free| && last == (if i < |free| then free[i].addr else 0)
        invariant lastPtr == if i == 0 then 0 else free[i - 1].addr
        invariant i + FitIndex(free[i..], need) == FitIndex(free, need)
        decreases |free| - i
      {
        assert Node(meta[..], free, i);
        if meta[last].csize >= need {
          break;
        }
        lastPtr, last := last, meta[last].next;
        assert free[i..][1..] == free[i + 1..];
        i := i + 1;
      }
    }

    // The two writes that put the upper part of the block at m, which starts at `next`, in its place.
    method SplitHeaders(m: nat, lastPtr: nat, next: nat)
      requires meta.Length == data.Length && m < next < meta.Length && lastPtr < m && m + meta[m].csize >= next
      modifies this`pFree, meta, data
      ensures pFree == if lastPtr == 0 then next else old(pFree)
      ensures meta[next] == Meta(old(meta[m]).next, m + old(meta[m]).csize - next, old(meta[m]).span)
      ensures lastPtr != 0 ==> meta[lastPtr] == old(meta[lastPtr]).(next := next)
      ensures forall x :: 0 <= x < data.Length && x != next && (x != lastPtr || lastPtr == 0) ==>
                            meta[x] == old(meta[x]) && data[x] == old(data[x])
    {
      LinkFree(lastPtr, next);
      WriteHeader(next, Meta(meta[m].next, meta[m].csize - (next - m), meta[m].span));
    }

    // Free block i gives up its lower part; the header of that part is left as it was.
    method DetachLower(m: nat, lastPtr: nat, need: nat, ghost i: nat)
      requires Threaded() && i < |free| && m == free[i].addr && 0 < need && Splits(free[i], need)
      requires lastPtr == (if i == 0 then 0 else free[i - 1].addr) && free[i].End() <= meta.Length
      modifies this`pFree, this`free, meta, data
      ensures free == TakeAt(old(free), i, need)
      ensures Chain(meta[..], pFree, free) && Chain(meta[..], pUsed, used)
      ensures meta[m] == old(meta[m])
      ensures Keeps(old(data[..]), data[..], used)
    {
      ChainedInside(meta[..], free);
      OrderedDistinct(free, i);
      if i > 0 {
        OrderedDistinct(free, i - 1);
        assert Node(meta[..], free, i - 1);
      }
      assert Node(meta[..], free, i);
      ListsApart(free, used);
      var next := m + need;
      InsideApart(free, used, i, next);
      assert i > 0 ==> !Live(used, lastPtr) by {
        assert i > 0 ==> !Outside(free, free[i - 1].addr);
      }
      hide Ordered, NoTouchAt, TakeAt, AllApart, Apart, Outside, Live, Keeps;
      SplitHeaders(m, lastPtr, next);
      SplitChain(old(meta[..]), free, i, need, meta[..]);
      ChainKept(old(meta[..]), used, meta[..]);
      KeepsBut(old(data[..]), data[..], used, if i > 0 then lastPtr else next, next);
      free := TakeAt(free, i, need);
    }

    // Free block i leaves the free list; its header is left as it was.
    method DetachWhole(m: nat, lastPtr: nat, ghost i: nat)
      requires Threaded() && i < |free| && m == free[i].addr < meta.Length
      requires lastPtr == if i == 0 then 0 else free[i - 1].addr
      modifies this`pFree, this`free, meta, data
      ensures free == Without(old(free), i)
      ensures Chain(meta[..], pFree, free) && Chain(meta[..], pUsed, used)
      ensures meta[m] == old(meta[m])
      ensures Keeps(old(data[..]), data[..], used)
    {
      ChainedInside(meta[..], free);
      OrderedDistinct(free, i);
      if i > 0 {
        OrderedDistinct(free, i - 1);
        assert Node(meta[..], free, i - 1);
      }
      assert Node(meta[..], free, i);
      ListsApart(free, used);
      LinkFree(lastPtr, meta[m].next);
      UnlinkChain(old(meta[..]), free, i, meta[..]);
      ChainKept(old(meta[..]), used, meta[..]);
      free := Without(free, i);
    }

    // Resize the header at m to the block taken and push it on the used list.
    method Claim(m: nat, allocCsize: nat, ghost b: Block)
      requires meta.Length == data.Length && 0 < m < meta.Length
      requires Chain(meta[..], pFree, free) && Chain(meta[..], pUsed, used)
      requires b == Block(m, allocCsize, meta[m].span) && b.csize > 0
      requires Apart(free, b) && Apart(used, b) && AllApart(free, used)
      requires forall j :: 0 <= j < |free| ==> free[j].csize > 0
      requires forall j :: 0 <= j < |used| ==> used[j].csize > 0
      modifies this`pUsed, this`used, meta, data
      ensures used == [b] + old(used)
      ensures Chain(meta[..], pFree, free) && Chain(meta[..], pUsed, used)
      ensures Keeps(old(data[..]), data[..], old(used))
    {
      UsedOutside(free, used, b);
      WriteHeader(m, meta[m].(csize := allocCsize));
      WriteHeader(m, meta[m].(next := pUsed));
      ChainApart(old(meta[..]), free, m, meta[..]);
      PushChain(old(meta[..]), used, b, meta[..]);
      pUsed := m;
      used := [b] + used;
    }

    // nth_free_list_alloc
    method Alloc(m: nat, lastPtr: nat, need: nat, ghost i: nat)
      requires Threaded() && i < |free| && m == free[i].addr && 0 < need <= free[i].csize
      requires lastPtr == if i == 0 then 0 else free[i - 1].addr
      requires 0 < m && free[i].End() <= meta.Length && StaysApart(free, used, i, need)
      modifies this`pFree, this`free, this`pUsed, this`used, meta, data
      ensures free == TakeAt(old(free), i, need) && used == [Taken(old(free[i]), need)] + old(used)
      ensures Chain(meta[..], pFree, free) && Chain(meta[..], pUsed, used)
      ensures Keeps(old(data[..]), data[..], old(used))
    {
      ghost var b := Taken(free[i], need);
      var allocCsize := meta[m].csize;
      assert Node(meta[..], free, i);
      if allocCsize > need + 1 {
        DetachLower(m, lastPtr, need, i);
        allocCsize := need;
      } else {
        assert TakeAt(free, i, need) == Without(free, i);
        DetachWhole(m, lastPtr, i);
      }
      Claim(m, allocCsize, b);
    }

    lemma BlockInMemory(b: Block)
      requires Valid() && HomeOf(b, spans)
      ensures 0 < b.addr && b.End() <= meta.Length
    {
      CarveInside(spans[b.span], b.span);
      assert Backed(spans[b.span]);
    }

    // What the allocation step needs of the block selected, and what it will leave.
    lemma FitReady(i: nat, need: nat)
      requires Valid() && i < |free| && 0 < need <= free[i].csize
      ensures Threaded() && StaysApart(free, used, i, need)
      ensures 0 < free[i].addr && free[i].End() <= meta.Length
      ensures Inv(Heap(TakeAt(free, i, need), [Taken(free[i], need)] + used, spans))
    {
      ValidThreaded();
      assert HomeOf(free[i], spans);
      BlockInMemory(free[i]);
      TakenApart(View(), i, need);
      InvTake(View(), i, need);
    }

    method Take(m: nat, lastPtr: nat, need: nat, ghost i: nat)
      requires Valid() && i < |free| && m == free[i].addr && 0 < need <= free[i].csize
      requires lastPtr == if i == 0 then 0 else free[i - 1].addr
      modifies this, meta, data
      ensures Valid()
      ensures View() == Heap(TakeAt(old(free), i, need), [Taken(old(free[i]), need)] + old(used), old(spans))
      ensures Keeps(old(data[..]), data[..], old(used))
    {
      FitReady(i, need);
      Alloc(m, lastPtr, need, i);
    }

    method TakeFirst(need: nat) returns (p: nat, ghost i: nat)
      requires Valid() && 0 < need
      modifies this, meta, data
      ensures Valid() && i == FitIndex(old(free), need)
      ensures i == |old(free)| ==>
                p == 0 && View() == old(View()) && meta[..] == old(meta[..]) && data[..] == old(data[..])
      ensures i < |old(free)| ==>
                && p == (old(free)[i].addr + 1) * CHUNK
                && View() == Heap(TakeAt(old(free), i, need), [Taken(old(free)[i], need)] + old(used), old(spans))
      ensures Keeps(old(data[..]), data[..], old(used))
    {
      var lastPtr, last;
      lastPtr, last, i := FindFit(need);
      if last == 0 {
        return 0, i;
      }
      Take(last, lastPtr, need, i);
      p := (last + 1) * CHUNK;
    }

    // nth_free_list_first_fit; 0 is the null pointer
    method FirstFit(size: nat) returns (p: nat)
      requires Valid() && 0 < size < WORD
      modifies this, meta, data
      ensures Valid() && (View(), p) == S.FirstFit(old(View()), size)
      ensures Keeps(old(data[..]), data[..], old(used))
      ensures p == 0 ==> meta[..] == old(meta[..]) && data[..] == old(data[..])
    {
      ghost var i;
      p, i := TakeFirst(SizeUp(size) + 1);
    }

    /* Shrinking */

    // The first walk of nth_free_list_shrink: does any live block lie in, or carry the tag of,
    // the last span?
    method AnyLive(s: Span, last: nat) returns (found: bool)
      requires Chain(meta[..], pUsed, used)
      ensures found <==> exists j :: 0 <= j < |used| && (InSpan(used[j], s) || used[j].span == last)
    {
      var curr := pUsed;
      ghost var j := 0;
      ChainedInside(meta[..], used);
      while curr != 0
        invariant j <= |used| && curr == if j < |used| then used[j].addr else 0
        invariant forall k :: 0 <= k < j ==> !InSpan(used[k], s) && used[k].span != last
        decreases |used| - j
      {
        assert Node(meta[..], used, j);
        if s.base <= curr * CHUNK < s.base + s.size || meta[curr].span == last {
          assert InSpan(used[j], s) || used[j].span == last;
          return true;
        }
        curr := meta[curr].next;
        j := j + 1;
      }
      return false;
    }

    // Unlink free block k, whose header is `node`.
    method UnlinkFree(prevPtr: nat, node: nat, ghost k: nat)
      requires meta.Length == data.Length && Ordered(free) && Chain(meta[..], pFree, free)
      requires k < |free| && node == free[k].addr < meta.Length
      requires prevPtr == if k == 0 then 0 else free[k - 1].addr
      modifies this`pFree, this`free, meta, data
      ensures free == Without(old(free), k) && Chain(meta[..], pFree, free)
      ensures forall x :: 0 <= x < data.Length && Outside(old(free), x) ==>
                            meta[x] == old(meta[x]) && data[x] == old(data[x])
      ensures meta[node] == old(meta[node])
    {
      ChainedInside(meta[..], free);
      if k > 0 {
        OrderedDistinct(free, k - 1);
        assert Node(meta[..], free, k - 1);
      }
      assert Node(meta[..], free, k);
      LinkFree(prevPtr, meta[node].next);
      UnlinkChain(old(meta[..]), free, k, meta[..]);
      free := Without(free, k);
    }

    // One step of the second walk: free block k is unlinked or passed.
    method StripStep(s: Span, prevPtr: nat, node: nat, ghost k: nat) returns (prevPtr': nat, node': nat)
      requires meta.Length == data.Length && Ordered(free) && Chain(meta[..], pFree, free)
      requires k < |free| && node == free[k].addr && prevPtr == if k == 0 then 0 else free[k - 1].addr
      modifies this`pFree, this`free, meta, data
      ensures Chain(meta[..], pFree, free)
      ensures free == if InSpan(old(free)[k], s) then Without(old(free), k) else old(free)
      ensures prevPtr' == if InSpan(old(free)[k], s) then prevPtr else node
      ensures node' == NextOf(old(free), k)
      ensures forall x :: 0 <= x < data.Length && Outside(old(free), x) ==>
                            meta[x] == old(meta[x]) && data[x] == old(data[x])
    {
      assert Node(meta[..], free, k);
      prevPtr', node' := prevPtr, meta[node].next;
      if s.base <= node * CHUNK < s.base + s.size {
        UnlinkFree(prevPtr, node, k);
      } else {
        prevPtr' := node;
      }
    }

    // The second walk of nth_free_list_shrink.
    method StripSpan(s: Span)
      requires meta.Length == data.Length && Ordered(free) && Chain(meta[..], pFree, free)
      modifies this`pFree, this`free, meta, data
      ensures free == Strip(old(free), s) && Chain(meta[..], pFree, free)
      ensures forall x :: 0 <= x < data.Length && Outside(old(free), x) ==>
                            meta[x] == old(meta[x]) && data[x] == old(data[x])
    {
      hide Partly, Ordered, InSpan, Chained, Outside, Strip, Without, NextOf;
      ghost var f, n, k := free, 0, 0;
      var prevPtr, node := 0, pFree;
      ChainedInside(meta[..], free);
      PartlyEnds(f, s);
      while node != 0
        invariant n <= |f| && free == Partly(f, n, s) && k == |Strip(f[..n], s)|
        invariant Ordered(free) && Chain(meta[..], pFree, free)
        invariant node == if n < |f| then f[n].addr else 0
        invariant prevPtr == if k == 0 then 0 else Strip(f[..n], s)[k - 1].addr
        invariant forall x :: 0 <= x < data.Length && Outside(f, x) ==>
                                meta[x] == old(meta[x]) && data[x] == old(data[x])
        decreases |f| - n
      {
        PartlyNext(f, n, s);
        PartlyOutside(f, n, s);
        WithoutOrdered(free, k);
        prevPtr, node := StripStep(s, prevPtr, node, k);
        k := if InSpan(f[n], s) then k else k + 1;
        n := n + 1;
      }
    }

    // The used list stays in place meanwhile, and so do the payloads.
    method StripFree(s: Span)
      requires Threaded()
      modifies this`pFree, this`free, meta, data
      ensures free == Strip(old(free), s) && Chain(meta[..], pFree, free) && Chain(meta[..], pUsed, used)
      ensures Keeps(old(data[..]), data[..], used)
    {
      ListsApart(free, used);
      ChainedInside(meta[..], used);
      hide Chained, NoTouchAt, AllApart, Strip;
      StripSpan(s);
      ChainKept(old(meta[..]), used, meta[..]);
    }

    method DropLast(s: Span, last: nat)
      requires Valid() && spans != [] && last == |spans| - 1 && s == spans[last] && !Pinned(View())
      modifies this, meta, data
      ensures Valid() && View() == S.Shrink(old(View())).0
      ensures Keeps(old(data[..]), data[..], used)
    {
      InvShrink(View());
      ValidThreaded();
      hide Inv, Threaded, Chain, Pinned, Strip, Keeps;
      StripFree(s);
      spans := spans[..last];
    }

    // nth_free_list_shrink
    method Shrink() returns (ret: Span)
      requires Valid()
      modifies this, meta, data
      ensures Valid() && (View(), ret) == S.Shrink(old(View()))
      ensures Keeps(old(data[..]), data[..], used)
    {
      if |spans| == 0 {
        return NULL_SPAN;
      }
      var last := |spans| - 1;
      ret := spans[last];
      var live := AnyLive(ret, last);
      if live {
        return NULL_SPAN;
      }
      DropLast(ret, last);
    }

    /* Payloads */

    // A store by the owner of a live block. It overwrites whatever header bits the chunk held.
    method Store(c: nat, v: Cell)
      requires Valid() && c < data.Length && Live(used, c)
      modifies meta, data
      ensures Valid() && View() == old(View())
      ensures data[..] == old(data[..])[c := v]
    {
      ValidThreaded();
      ListsApart(free, used);
      PayloadsMissHeaders(used);
      data[c] := v;
      meta[c] := *;
      ChainKept(old(meta[..]), free, meta[..]);
      ChainKept(old(meta[..]), used, meta[..]);
    }

    method CopyChunks(dst: nat, src: nat, full: nat)
      requires meta.Length == data.Length && dst + full <= data.Length && src + full <= data.Length
      requires dst + full <= src || src + full <= dst
      modifies meta, data
      ensures forall x :: 0 <= x < data.Length && !(dst <= x < dst + full) ==>
                            meta[x] == old(meta[x]) && data[x] == old(data[x])
      ensures data[dst..dst + full] == old(data[src..src + full])
    {
      for i := 0 to full
        invariant forall x :: 0 <= x < data.Length && !(dst <= x < dst + i) ==>
                                meta[x] == old(meta[x]) && data[x] == old(data[x])
        invariant data[dst..dst + i] == old(data[src..src + i])
      {
        data[dst + i] := data[src + i];
        meta[dst + i] := *;
      }
    }

    // memcpy between whole-chunk addresses: n bytes, the last chunk possibly in part.
    method Memcpy(dst: nat, src: nat, n: nat)
      requires meta.Length == data.Length
      requires dst + ChunksFor(n) <= data.Length && src + ChunksFor(n) <= data.Length
      requires dst + ChunksFor(n) <= src || src + ChunksFor(n) <= dst
      modifies meta, data
      ensures forall x :: 0 <= x < data.Length && !(dst <= x < dst + ChunksFor(n)) ==>
                            meta[x] == old(meta[x]) && data[x] == old(data[x])
      ensures Copied(data[..], dst, old(data[..]), src, n)
    {
      var full, part := n / CHUNK, n % CHUNK;
      CopyChunks(dst, src, full);
      if part > 0 {
        data[dst + full] := data[src + full][..part] + data[dst + full][part..];
        meta[dst + full] := *;
      }
      CopiedByChunks(data[..], dst, old(data[..]), src, n);
    }

    // memcpy into live payload leaves both lists in place.
    method CopyPayload(dst: nat, src: nat, n: nat)
      requires Valid()
      requires dst + ChunksFor(n) <= data.Length && src + ChunksFor(n) <= data.Length
      requires dst + ChunksFor(n) <= src || src + ChunksFor(n) <= dst
      requires forall x: nat :: dst <= x < dst + ChunksFor(n) ==> Live(used, x)
      modifies meta, data
      ensures Valid()
      ensures forall x :: 0 <= x < data.Length && !(dst <= x < dst + ChunksFor(n)) ==> data[x] == old(data[x])
      ensures Copied(data[..], dst, old(data[..]), src, n)
    {
      ValidThreaded();
      ListsApart(free, used);
      PayloadsMissHeaders(used);
      RangeMisses(used, dst, dst + ChunksFor(n), free);
      RangeMisses(used, dst, dst + ChunksFor(n), used);
      Memcpy(dst, src, n);
      ChainKept(old(meta[..]), free, meta[..]);
      ChainKept(old(meta[..]), used, meta[..]);
    }

    lemma MoveSafe(k: nat, n: nat, p: nat)
      requires Valid() && 0 < k < |used| && p == Payload(used[k])
      requires n <= (used[0].csize - 1) * CHUNK && n <= (used[k].csize - 1) * CHUNK
      ensures var t, dst, src, w := ChunksFor(n), used[0].addr + 1, used[k].addr + 1, Without(used, k);
              && dst + t <= data.Length && src + t <= data.Length
              && (dst + t <= src || src + t <= dst)
              && (forall x: nat :: dst <= x < dst + t ==> Live(used, x) && Live(w, x))
              && (forall c: nat :: Live(Without(used[1..], k - 1), c) ==> Live(w, c) && !(dst <= c < dst + t))
              && S.Free(View(), p).used == w
    {
      assert HomeOf(used[0], spans) && HomeOf(used[k], spans);
      BlockInMemory(used[0]);
      BlockInMemory(used[k]);
      T.UsedDistinct(View());
      MoveReady(used, k, n, p);
    }

    // Copy n bytes from live block k to live block 0, then free block k.
    method MoveTo(q: nat, p: nat, n: nat, ghost k: nat)
      requires Valid() && 0 < k < |used| && q == Payload(used[0]) && p == Payload(used[k])
      requires n <= (used[0].csize - 1) * CHUNK && n <= (used[k].csize - 1) * CHUNK
      modifies this, meta, data
      ensures Valid() && View() == S.Free(old(View()), p)
      ensures Copied(data[..], q / CHUNK, old(data[..]), p / CHUNK, n)
      ensures Keeps(old(data[..]), data[..], Without(old(used)[1..], k - 1))
    {
      ghost var u := used;
      var dst, src := q / CHUNK, p / CHUNK;
      MoveSafe(k, n, p);
      CopyPayload(dst, src, n);
      ghost var copied := data[..];
      Free(p);
      hide Copied, Chain, S.Free, Inv, Keeps;
      KeepsPast(old(data[..]), copied, data[..], Without(u[1..], k - 1), Without(u, k), dst, dst + ChunksFor(n));
      KeptRange(copied, data[..], Without(u, k), dst, dst + ChunksFor(n));
      CopiedVia(copied, dst, old(data[..]), src, n, data[..]);
    }

    // The two live blocks a reallocation copies between, once the new one is taken.
    lemma ReallocReady(h: Heap, i: nat, p: nat, size: nat, n: nat)
      requires Inv(h) && i == UsedIndex(h.used, p) && T.CopyFits(h, p, size)
      requires n == (if (h.used[i].csize - 1) * CHUNK < size then (h.used[i].csize - 1) * CHUNK else size)
      requires S.FirstFit(h, size).1 != 0
      ensures var u := S.FirstFit(h, size).0.used;
              && i + 1 < |u| && u[1..] == h.used && Payload(u[0]) == S.FirstFit(h, size).1
              && n <= (u[0].csize - 1) * CHUNK && n <= (u[i + 1].csize - 1) * CHUNK
    {
      T.FirstFitPushes(h, size);
    }

    method PayloadRoom(p: nat) returns (n: nat)
      requires Valid() && UsedIndex(used, p) < |used|
      ensures n == (used[UsedIndex(used, p)].csize - 1) * CHUNK
      ensures p / CHUNK == used[UsedIndex(used, p)].addr + 1
    {
      ghost var i := UsedIndex(used, p);
      assert Node(meta[..], used, i) && HomeOf(used[i], spans);
      var head := p / CHUNK - 1;
      n := (meta[head].csize - 1) * CHUNK;
    }

    // The copy and the release: `before` is the memory, and u the used list, from before the
    // block at q was taken.
    method MoveOver(q: nat, p: nat, n: nat, ghost i: nat, ghost u: seq<Block>, ghost before: seq<Cell>)
      requires Valid() && i + 1 < |used| && u == used[1..] && q == Payload(used[0]) && p == Payload(u[i])
      requires n <= (used[0].csize - 1) * CHUNK && n <= (u[i].csize - 1) * CHUNK
      requires PairwiseDisjoint(u) && Keeps(before, data[..], u)
      modifies this, meta, data
      ensures Valid() && View() == S.Free(old(View()), p)
      ensures Copied(data[..], q / CHUNK, before, p / CHUNK, n)
      ensures Keeps(before, data[..], Without(u, i))
    {
      hide Inv, Chain, Live, Copied, Keeps, PairwiseDisjoint, S.Free, Without;
      ghost var fitted := data[..];
      WithoutLive(u, i);
      MoveTo(q, p, n, i + 1);
      KeepsOn(before, fitted, data[..], u, Without(u, i));
      SourceKept(u, i, n, before, fitted, data[..], q / CHUNK);
    }

    // free_list_alloc_realloc_ff, for a live block
    method ReallocLive(p: nat, size: nat) returns (q: nat)
      requires Valid() && 0 < size < WORD && 0 < p && T.CopyFits(View(), p, size)
      modifies this, meta, data
      ensures Valid() && View() == T.Realloc(old(View()), p, size).0 && q == T.Realloc(old(View()), p, size).1
      ensures Keeps(old(data[..]), data[..], Without(old(used), UsedIndex(old(used), p)))
      ensures q != 0 ==>
                var room := (old(used)[UsedIndex(old(used), p)].csize - 1) * CHUNK;
                Copied(data[..], q / CHUNK, old(data[..]), p / CHUNK, if room < size then room else size)
      ensures q == 0 ==> meta[..] == old(meta[..]) && data[..] == old(data[..])
    {
      ghost var h, i := View(), UsedIndex(used, p);
      assert i < |used| && PairwiseDisjoint(used);
      hide T.CopyFits, T.Realloc, S.FirstFit, S.Free, Without, Payload;
      hide Chain, Live, Copied, Keeps, Inv, PairwiseDisjoint;
      ReallocIs(h, p, size);
      var oldSize := PayloadRoom(p);
      WithoutLive(used, i);
      q := FirstFit(size);
      ghost var fitted := data[..];
      KeepsOn(old(data[..]), fitted, fitted, h.used, Without(h.used, i));
      if q == 0 {
        return;
      }
      var n := if oldSize < size then oldSize else size;
      ReallocReady(h, i, p, size, n);
      MoveOver(q, p, n, i, h.used, old(data[..]));
    }

    method Realloc(p: nat, size: nat) returns (q: nat)
      requires Valid() && T.Legal(View(), T.OpRealloc(p, size))
      modifies this, meta, data
      ensures Valid() && View() == T.Realloc(old(View()), p, size).0 && q == T.Realloc(old(View()), p, size).1
      ensures var kept := if p == 0 then old(used) else Without(old(used), UsedIndex(old(used), p));
              Keeps(old(data[..]), data[..], kept)
      ensures p != 0 && q != 0 ==>
                var room := (old(used)[UsedIndex(old(used), p)].csize - 1) * CHUNK;
                Copied(data[..], q / CHUNK, old(data[..]), p / CHUNK, if room < size then room else size)
      ensures q == 0 && size != 0 ==> meta[..] == old(meta[..]) && data[..] == old(data[..])
    {
      if p == 0 {
        q := FirstFit(size);
      } else if size == 0 {
        Free(p);
        q := 0;
      } else {
        q := ReallocLive(p, size);
      }
    }
  }

  // nth_setup_free_list; without `memory` for the span table nothing is written
  method SetUp(meta: array<Meta>, data: array<Cell>, s: Span, memory: bool) returns (list: FreeList?)
    requires meta.Length == data.Length && Carvable(s) && s.base + s.size <= meta.Length * CHUNK
    modifies meta, data
    ensures list == null <==> !memory
    ensures list != null ==> fresh(list) && list.Valid() && list.View() == Setup(s)
                             && list.meta == meta && list.data == data && list.spanCapacity == 4
    ensures list == null ==> meta[..] == old(meta[..]) && data[..] == old(data[..])
  {
    if memory {
      list := new FreeList(meta, data, s);
    } else {
      list := null;
    }
  }
}
