/** The multi-span arena as the source keeps it: an array of spans, grown by realloc, and a
    position that moves through them (modules/allocator/dyn_arena.c).
  */
module DynArenaAllocator {
  import opened Align
  import opened DynArenaSpec
  import opened DynArenaTheorems
  import opened Spans

  lemma SwapAt(spans: seq<Span>, i: nat, j: nat)
    requires i <= j < |spans|
    ensures |Swap(spans, i, j)| == |spans| && Swap(spans, i, j)[i] == spans[j]
  {
  }

  class DynArena {
    var spans: array<Span>
    var spanCount: nat
    var spanIdx: nat
    var offset: nat

    ghost predicate Valid()
      reads this, spans
    {
      0 < spans.Length && spanCount <= spans.Length && WellFormed(View())
    }

    ghost function View(): Arena
      requires spanCount <= spans.Length
      reads this, spans
    {
      Arena(spans[..spanCount], spanIdx, offset)
    }

    constructor (span: Span)
      requires SpanOk(span)
      ensures Valid() && fresh(spans) && spans.Length == 4 && View() == Arena([span], 0, 0)
    {
      var tmp := new Span[4](_ => NULL_SPAN);
      tmp[0] := span;
      spans := tmp;
      spanCount := 1;
      spanIdx := 0;
      offset := 0;
    }

    // `memory` is what realloc answers; it is asked only when the array is full.
    method Grow(span: Span, memory: bool) returns (ok: bool)
      requires Valid() && SpanOk(span) && forall i :: 0 <= i < spanCount ==> SpansDisjoint(spans[i], span)
      modifies this, spans
      ensures Valid() && (spans == old(spans) || fresh(spans))
      ensures ok == (memory || old(spanCount) < old(spans.Length))
      ensures View() == if ok then DynArenaSpec.Grow(old(View()), span) else old(View())
      ensures spans.Length == (if ok && old(spanCount) == old(spans.Length) then 2 else 1) * old(spans.Length)
    {
      GrowOk(View(), span);
      if spanCount >= spans.Length {
        if !memory {
          return false;
        }
        var tmp := Copied(2 * spans.Length);
        spans := tmp;
      }
      spans[spanCount] := span;
      spanCount := spanCount + 1;
      return true;
    }

    // realloc: a longer array that begins with the old one's elements.
    method Copied(capacity: nat) returns (tmp: array<Span>)
      requires spans.Length <= capacity
      ensures fresh(tmp) && tmp.Length == capacity && tmp[..spans.Length] == spans[..]
    {
      tmp := new Span[capacity](_ => NULL_SPAN);
      for i := 0 to spans.Length
        invariant tmp[..i] == spans[..i]
      {
        tmp[i] := spans[i];
      }
    }

    // Gives back the last span, or the empty span when that one is in use.
    method Shrink() returns (r: Span)
      requires Valid()
      modifies this`spanCount, spans
      ensures Valid() && View() == DynArenaSpec.Shrink(old(View()))
      ensures r == if Refuses(old(View())) then NULL_SPAN else old(View()).spans[old(spanCount) - 1]
    {
      ShrinkOk(View());
      if spanCount == 0 {
        return NULL_SPAN;
      }
      var last := spanCount - 1;
      if spanIdx == last && !(spanIdx == 0 && offset == 0) {
        return NULL_SPAN;
      }
      r := spans[last];
      spans[last] := NULL_SPAN;
      spanCount := last;
    }

    // The first later span with room, as the search loop finds it.
    method FindSpan(size: nat, align: nat) returns (k: nat)
      requires Valid() && spanCount > 0 && size > 0 && align < WORD && IsPow2(align)
      ensures k == FirstFit(spans[..spanCount], spanIdx + 1, size, align)
    {
      hide AlignPad;
      k := spanIdx + 1;
      SpansAreOk(spans[..spanCount]);
      while k < spanCount
        invariant spanIdx + 1 <= k <= spanCount
        invariant FirstFit(spans[..spanCount], k, size, align) == FirstFit(spans[..spanCount], spanIdx + 1, size, align)
      {
        var s := spans[k];
        assert s == spans[..spanCount][k];
        var p := AlignPad(s.base, align);
        if p <= s.size && size <= s.size - p {
          return;
        }
        k := k + 1;
      }
    }

    method Alloc(size: nat, align: nat) returns (r: Reply)
      requires Valid() && 0 < size < WORD && align < WORD && IsPow2(align)
      modifies this`spanIdx, this`offset, spans
      ensures Valid()
      ensures View() == DynArenaSpec.Alloc(old(View()), size, align).arena
      ensures r == DynArenaSpec.Alloc(old(View()), size, align).reply
    {
      AllocKeeps(View(), size, align);
      SpansAreOk(spans[..spanCount]);
      hide AlignPad, FirstFit, SpansHeld, Swap;
      if spanCount == 0 {
        return Null;
      }
      var cur := spans[spanIdx];
      assert cur == spans[..spanCount][spanIdx];
      var pad := AlignPad(cur.base + offset, align);
      var left := cur.size - offset;
      if pad <= left && size <= left - pad {
        var at := offset + pad;
        offset := at + size;
        return Block(cur.base + at);
      }
      r := AllocLater(size, align);
    }

    // The search among the later spans, and the swap that puts the one found next in line.
    method AllocLater(size: nat, align: nat) returns (r: Reply)
      requires Valid() && spanCount > 0 && 0 < size < WORD && align < WORD && IsPow2(align)
      requires !Fits(spans[spanIdx], offset, size, align)
      modifies this`spanIdx, this`offset, spans
      ensures Valid()
      ensures View() == DynArenaSpec.Alloc(old(View()), size, align).arena
      ensures r == DynArenaSpec.Alloc(old(View()), size, align).reply
    {
      AllocKeeps(View(), size, align);
      SpansAreOk(spans[..spanCount]);
      hide AlignPad, FirstFit, SpansHeld, Swap, Fits, IsPow2;
      assert spans[spanIdx] == View().spans[spanIdx];
      var i := FindSpan(size, align);
      if i == spanCount {
        return Null;
      }
      assert spans[i] == View().spans[i];
      SwapAt(View().spans, spanIdx + 1, i);
      var p := AlignPad(spans[i].base, align);
      var next := spanIdx + 1;
      MoveUp(next, i);
      spanIdx := next;
      offset := p + size;
      return Block(spans[next].base + p);
    }

    method MoveUp(next: nat, i: nat)
      requires next <= i < spanCount <= spans.Length
      modifies spans
      ensures spans[..spanCount] == Swap(old(spans[..spanCount]), next, i)
    {
      if i != next {
        var tmp := spans[next];
        spans[next] := spans[i];
        spans[i] := tmp;
      }
    }

    method Mark() returns (v: nat)
      requires Valid()
      ensures v == MarkWord(spanIdx, offset)
    {
      v := Or((spanIdx * MARK_OFF) % WORD, offset);
    }

    // Reads a span's size only when the mark names an earlier one.
    method Restore(v: nat) returns (ok: bool)
      requires Valid() && v < WORD
      modifies this`spanIdx, this`offset
      ensures Valid() && ok == Restores(old(View()), v)
      ensures View() == DynArenaSpec.Restore(old(View()), v)
    {
      RestoreAny(View(), v);
      var idx := v / MARK_OFF;
      var off := And(v, MARK_OFF - 1);
      if idx > spanIdx {
        return false;
      }
      var limit := if idx == spanIdx then offset else spans[idx].size;
      if off > limit {
        return false;
      }
      spanIdx := idx;
      offset := off;
      return true;
    }

    method Clean()
      requires Valid()
      modifies this`spanIdx, this`offset
      ensures Valid() && View() == DynArenaSpec.Clean(old(View()))
    {
      offset := 0;
      spanIdx := 0;
    }
  }

  // nth_setup_dyn_arena; `memory` says whether the span table can be allocated
  method SetUp(span: Span, memory: bool) returns (arena: DynArena?)
    requires SpanOk(span)
    ensures arena == null <==> !memory
    ensures arena != null ==> fresh(arena) && fresh(arena.spans) && arena.Valid()
                              && arena.spans.Length == 4 && arena.View() == Arena([span], 0, 0)
  {
    if memory {
      arena := new DynArena(span);
    } else {
      arena := null;
    }
  }
}
