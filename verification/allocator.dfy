/** The allocator's entry points: `malloc` (src/malloc.c:233-312) and `free`
    (src/malloc.c:324-353), over the heap as a value.

    A call takes the heap and returns the new one. The pointer a client holds is
    the index of its block; its address is PayloadOffset of that index. The
    placement strategy, fixed when the library is built, and the outcome of the
    sbrk call are parameters.
 */
module Allocator {

  import opened Wrappers
  import opened Blocks
  import opened Align
  import opened Fit
  import opened Growth
  import opened Splitting
  import opened Coalescing

  /** The heap after a call to `malloc` and the block handed out (None for NULL). */
  datatype Outcome = Outcome(heap: Heap, block: Option<nat>)

  /** `malloc`: align the request, search, then split the block found or hand it over
      whole, or grow the heap when nothing fits; the block returned is in use. */
  function Malloc(strategy: Strategy, h: Heap, request: nat, sbrkOk: bool): (r: Outcome)
    requires request < WORD
    ensures Align4(request) == 0 ==> r == Outcome(h, None)
    ensures r.block.None? ==> r.heap == h
    ensures r.block.None? ==>
      Align4(request) == 0 || (FindFreeBlock(strategy, h, Align4(request)).found.None? && !sbrkOk)
    ensures r.block.Some? ==> var i := r.block.value;
      && i < |r.heap| && !r.heap[i].free && request <= r.heap[i].size
      && Live(r.heap) == Live(h) + {AllocationOf(r.heap, i)}
      && AllocationOf(r.heap, i) !in Live(h)
    ensures FindFreeBlock(strategy, h, Align4(request)).found.Some? ==> Span(r.heap) == Span(h)
    ensures r.block.Some? && Span(r.heap) != Span(h) ==> Span(r.heap) == Span(h) + H + Align4(request)
    ensures Valid(h) ==> Valid(r.heap)
    ensures var size := Align4(request);
      var found := FindFreeBlock(strategy, h, size).found;
      size != 0 && found.Some? ==> var i := found.value;
        && r.block == Some(i)
        && (ShouldSplit(h[i].size, size) ==>
              && |r.heap| == |h| + 1
              && r.heap[i] == Block(size, false)
              && r.heap[i + 1] == Block(h[i].size - size - H, true))
        && (!ShouldSplit(h[i].size, size) ==>
              |r.heap| == |h| && r.heap[i] == Block(h[i].size, false))
    ensures var size := Align4(request);
      size != 0 && FindFreeBlock(strategy, h, size).found.None? ==>
        && (sbrkOk ==>
              && r.block == Some(|h|)
              && |r.heap| == |h| + 1 && r.heap[..|h|] == h && r.heap[|h|] == Block(size, false))
        && (!sbrkOk ==> r.block.None?)
  {
    var size := Align4(request);
    if size == 0 then Outcome(h, None)
    else
      var search := FindFreeBlock(strategy, h, size);
      match search.found
      case Some(i) =>
        if ShouldSplit(h[i].size, size) then Outcome(Split(h, i, size), Some(i))
        else Outcome(MarkUsed(h, i), Some(i))
      case None =>
        match Grow(h, search.last, size, sbrkOk)
        case None => Outcome(h, None)
        case Some(g) => Outcome(g, Some(|h|))
  }

  /** Hands a free block over whole (src/malloc.c:307): only its flag changes. */
  function MarkUsed(h: Heap, i: nat): (r: Heap)
    requires i < |h| && h[i].free
    ensures |r| == |h| && !r[i].free && r[i].size == h[i].size
    ensures forall j :: 0 <= j < |h| && j != i ==> r[j] == h[j]
    ensures Span(r) == Span(h)
    ensures Live(r) == Live(h) + {AllocationOf(r, i)} && AllocationOf(r, i) !in Live(h)
    ensures Aligned(h) ==> Aligned(r)
    ensures NoAdjacentFree(h) ==> NoAdjacentFree(r)
  {
    FlagLayout(h, i);
    assert h == h[i := h[i].(free := true)];
    h[i := h[i].(free := false)]
  }

  /** `free`: NULL is ignored; otherwise the block, which must be in use (the assert at
      src/malloc.c:333), is marked free and the coalescing pass runs over the heap. */
  function Free(h: Heap, p: Option<nat>): (r: Heap)
    requires p.Some? ==> p.value < |h| && !h[p.value].free
    ensures p.None? ==> r == h
    ensures p.Some? ==>
      && Live(h) == Live(r) + {AllocationOf(h, p.value)}
      && AllocationOf(h, p.value) !in Live(r)
      && NoAdjacentFree(r)
  {
    match p
    case None => h
    case Some(i) =>
      FlagLayout(h, i);
      assert h == h[i := h[i].(free := false)];
      Coalesce(h[i := h[i].(free := true)])
  }

  /** A release gives no memory back to the operating system and keeps every
      capacity a multiple of 4. */
  lemma {:induction false} FreeKeepsArena(h: Heap, p: Option<nat>)
    requires p.Some? ==> p.value < |h| && !h[p.value].free
    ensures Span(Free(h, p)) == Span(h)
    ensures Aligned(h) ==> Aligned(Free(h, p))
  {
    if p.Some? {
      FlagLayout(h, p.value);
    }
  }

  /** Flipping block i's flag moves nothing: in use it adds exactly its own allocation. */
  lemma {:induction false} FlagLayout(h: Heap, i: nat)
    requires i < |h|
    ensures var used := h[i := h[i].(free := false)];
      var freed := h[i := h[i].(free := true)];
      && Span(used) == Span(h) && Span(freed) == Span(h)
      && AllocationOf(used, i) == AllocationOf(h, i)
      && Live(used) == Live(freed) + {AllocationOf(h, i)}
      && AllocationOf(h, i) !in Live(freed)
  {
    var p, s := h[..i], h[i + 1..];
    var u, f := h[i].(free := false), h[i].(free := true);
    assert h == p + [h[i]] + s;
    assert h[i := u] == p + [u] + s;
    assert h[i := f] == p + [f] + s;
    var a := Allocation(Span(p) + H, h[i].size);
    FlagOffsets(p, h[i], u, s);
    assert Span([u]) == Span([f]) by {
      assert [u][..0] == [] && [f][..0] == [];
    }
    LiveSingle(u, Span(p));
    LiveSingle(f, Span(p));
    SpliceLiveAdd(p, [f], [u], s, a);
    SpliceFresh(p, [f], s, a);
    FlagSpan(p, h[i], u, f, s);
  }

  lemma {:induction false} FlagOffsets(p: Heap, b: Block, u: Block, s: Heap)
    ensures Offset(p + [b] + s, |p|) == Span(p)
    ensures Offset(p + [u] + s, |p|) == Span(p)
  {
    PrefixOffset(p, [b], s);
    PrefixOffset(p, [u], s);
  }

  lemma {:induction false} FlagSpan(p: Heap, b: Block, u: Block, f: Block, s: Heap)
    requires u.size == b.size && f.size == b.size
    ensures Span(p + [u] + s) == Span(p + [b] + s) == Span(p + [f] + s)
  {
    assert [u][..0] == [] && [f][..0] == [] && [b][..0] == [];
    SpanSplice(p, [u], s);
    SpanSplice(p, [b], s);
    SpanSplice(p, [f], s);
  }

  // ---------------------------------------------------------------------------
  // Release is local
  // ---------------------------------------------------------------------------

  /** The release the comment at src/malloc.c:336-337 describes: mark block i free and
      combine it with its previous and next neighbours when those are free. */
  function LocalRelease(h: Heap, i: nat): (r: Heap)
    requires i < |h|
    ensures Span(r) == Span(h)
    ensures |h| - 2 <= |r| <= |h|
  {
    FlagLayout(h, i);
    var freed := h[i := h[i].(free := true)];
    if i > 0 && h[i - 1].free then
      var left := Merge(freed, i - 1);
      if i + 1 < |h| && h[i + 1].free then Merge(left, i - 1) else left
    else if i + 1 < |h| && h[i + 1].free then Merge(freed, i)
    else freed
  }

  /** On a heap with no two adjacent free blocks, the pass over the whole list does
      exactly the local release: it merges the released block with its free
      neighbours and touches nothing else. */
  lemma {:induction false} FreeIsLocal(h: Heap, i: nat)
    requires i < |h| && !h[i].free
    requires NoAdjacentFree(h)
    ensures Free(h, Some(i)) == LocalRelease(h, i)
  {
    var freed := h[i := h[i].(free := true)];
    assert Free(h, Some(i)) == CoalesceFrom(freed, 0);
    if i > 0 && h[i - 1].free {
      if i + 1 < |h| && h[i + 1].free {
        ReleaseBetweenFree(h, i);
      } else {
        ReleaseAfterFree(h, i);
      }
    } else if i + 1 < |h| && h[i + 1].free {
      ReleaseBeforeFree(h, i);
    } else {
      ReleaseAlone(h, i);
    }
  }

  /** Both neighbours free: two merges at the previous block. */
  lemma {:induction false} ReleaseBetweenFree(h: Heap, i: nat)
    requires 0 < i && i + 1 < |h| && !h[i].free && h[i - 1].free && h[i + 1].free
    requires NoAdjacentFree(h)
    ensures var freed := h[i := h[i].(free := true)];
      CoalesceFrom(freed, 0) == Merge(Merge(freed, i - 1), i - 1)
  {
    var freed := h[i := h[i].(free := true)];
    CoalesceSkip(freed, 0, i - 1);
    var left := Merge(freed, i - 1);
    CoalesceMergeStep(freed, i - 1);
    var both := Merge(left, i - 1);
    CoalesceMergeStep(left, i - 1);
    BetweenFreeAdjacency(h, i);
    CoalesceIdle(both, i - 1);
  }

  /** Only the previous neighbour free: one merge at the previous block. */
  lemma {:induction false} ReleaseAfterFree(h: Heap, i: nat)
    requires 0 < i < |h| && !h[i].free && h[i - 1].free
    requires !(i + 1 < |h| && h[i + 1].free)
    requires NoAdjacentFree(h)
    ensures var freed := h[i := h[i].(free := true)];
      CoalesceFrom(freed, 0) == Merge(freed, i - 1)
  {
    var freed := h[i := h[i].(free := true)];
    CoalesceSkip(freed, 0, i - 1);
    var left := Merge(freed, i - 1);
    CoalesceMergeStep(freed, i - 1);
    forall j | 0 <= j && j + 1 < |left|
      ensures !(left[j].free && left[j + 1].free)
    {
      if j + 1 <= i - 1 {
        assert !(h[j].free && h[j + 1].free);
      } else if j > i - 1 {
        assert !(h[j + 1].free && h[j + 2].free);
      }
    }
    CoalesceIdle(left, i - 1);
  }

  /** Only the next neighbour free: one merge at the released block. */
  lemma {:induction false} ReleaseBeforeFree(h: Heap, i: nat)
    requires i + 1 < |h| && !h[i].free && h[i + 1].free
    requires !(i > 0 && h[i - 1].free)
    requires NoAdjacentFree(h)
    ensures var freed := h[i := h[i].(free := true)];
      CoalesceFrom(freed, 0) == Merge(freed, i)
  {
    var freed := h[i := h[i].(free := true)];
    CoalesceSkip(freed, 0, i);
    var right := Merge(freed, i);
    CoalesceMergeStep(freed, i);
    forall j | 0 <= j && j + 1 < |right|
      ensures !(right[j].free && right[j + 1].free)
    {
      if j + 1 < i {
        assert !(h[j].free && h[j + 1].free);
      } else if j == i {
        assert !(h[i + 1].free && h[i + 2].free);
      } else if j > i {
        assert !(h[j + 1].free && h[j + 2].free);
      }
    }
    CoalesceIdle(right, i);
  }

  /** No free neighbour: the pass only flips the flag. */
  lemma {:induction false} ReleaseAlone(h: Heap, i: nat)
    requires i < |h| && !h[i].free
    requires !(i > 0 && h[i - 1].free) && !(i + 1 < |h| && h[i + 1].free)
    requires NoAdjacentFree(h)
    ensures var freed := h[i := h[i].(free := true)];
      CoalesceFrom(freed, 0) == freed
  {
    var freed := h[i := h[i].(free := true)];
    forall j | 0 <= j && j + 1 < |freed|
      ensures !(freed[j].free && freed[j + 1].free)
    {
      if j + 1 < i || j > i {
        assert !(h[j].free && h[j + 1].free);
      }
    }
    CoalesceIdle(freed, 0);
  }

  /** Merging a released block into both free neighbours leaves no adjacent free pair. */
  lemma {:induction false} BetweenFreeAdjacency(h: Heap, i: nat)
    requires 0 < i && i + 1 < |h| && !h[i].free && h[i - 1].free && h[i + 1].free
    requires NoAdjacentFree(h)
    ensures NoAdjacentFree(Merge(Merge(h[i := h[i].(free := true)], i - 1), i - 1))
  {
    var freed := h[i := h[i].(free := true)];
    var both := Merge(Merge(freed, i - 1), i - 1);
    forall j | 0 <= j && j + 1 < |both|
      ensures !(both[j].free && both[j + 1].free)
    {
      if j + 1 <= i - 1 {
        assert !(h[j].free && h[j + 1].free);
      } else if j == i - 1 {
        assert !(h[i + 1].free && h[i + 2].free);
      } else {
        assert !(h[j + 2].free && h[j + 3].free);
      }
    }
  }

  // ---------------------------------------------------------------------------
  // Round trips and scenarios
  // ---------------------------------------------------------------------------

  /** Releasing a block that came from a free block of the list gives the list back
      exactly: the split-off remainder is merged in again, and the neighbours, which
      the invariant keeps in use, are untouched. Growing the heap has no such inverse:
      the new block stays in the list once released. */
  lemma {:induction false} MallocFreeRoundTrip(strategy: Strategy, h: Heap, request: nat, sbrkOk: bool)
    requires request < WORD && NoAdjacentFree(h)
    requires Align4(request) != 0 && FindFreeBlock(strategy, h, Align4(request)).found.Some?
    ensures var o := Malloc(strategy, h, request, sbrkOk);
      o.block.Some? && Free(o.heap, o.block) == h
  {
    var size := Align4(request);
    var i := FindFreeBlock(strategy, h, size).found.value;
    if ShouldSplit(h[i].size, size) {
      var r := Split(h, i, size);
      FreeIsLocal(r, i);
      SplitThenRelease(h, i, size);
    } else {
      var m := MarkUsed(h, i);
      FreeIsLocal(m, i);
      MarkThenRelease(h, i);
    }
  }

  /** Splitting a free block and releasing the front restores the block. */
  lemma {:induction false} SplitThenRelease(h: Heap, i: nat, size: nat)
    requires i < |h| && h[i].free && ShouldSplit(h[i].size, size)
    requires NoAdjacentFree(h)
    ensures LocalRelease(Split(h, i, size), i) == h
  {
    var r := Split(h, i, size);
    var freed := r[i := r[i].(free := true)];
    if i > 0 {
      assert r[i - 1] == r[..i][i - 1] == h[..i][i - 1];
      assert h[i].free ==> !h[i - 1].free;
    }
    var back := Merge(freed, i);
    assert LocalRelease(r, i) == back;
    forall j | 0 <= j < |h|
      ensures back[j] == h[j]
    {
      if j < i {
        assert r[j] == r[..i][j];
      } else if j > i {
        assert r[j + 1] == r[i + 2..][j - i - 1];
      }
    }
  }

  /** Handing a free block over whole and releasing it restores the list. */
  lemma {:induction false} MarkThenRelease(h: Heap, i: nat)
    requires i < |h| && h[i].free
    requires NoAdjacentFree(h)
    ensures LocalRelease(MarkUsed(h, i), i) == h
  {
    var m := MarkUsed(h, i);
    if i > 0 {
      assert h[i].free ==> !h[i - 1].free;
    }
    if i + 1 < |h| {
      assert !(h[i].free && h[i + 1].free);
    }
    assert m[i := m[i].(free := true)] == h;
  }

  /** A released block is found again by first fit and handed out in place, without
      growing the heap: allocate 10 and 20 bytes, release the first, allocate 8. */
  lemma {:induction false} ReuseAfterFree()
    ensures var o1 := Malloc(First, [], 10, true);
      && o1 == Outcome([Block(12, false)], Some(0))
      && var o2 := Malloc(First, o1.heap, 20, true);
      && o2 == Outcome([Block(12, false), Block(20, false)], Some(1))
      && var h3 := Free(o2.heap, Some(0));
      && h3 == [Block(12, true), Block(20, false)]
      && Malloc(First, h3, 8, false) == Outcome(o2.heap, Some(0))
  {
    var o1 := Malloc(First, [], 10, true);
    assert Align4(10) == 12;
    assert o1 == Outcome([Block(12, false)], Some(0));
    var o2 := Malloc(First, o1.heap, 20, true);
    assert Align4(20) == 20;
    assert FindFreeBlock(First, o1.heap, 20).found == None;
    assert o2 == Outcome([Block(12, false), Block(20, false)], Some(1));
    FreeIsLocal(o2.heap, 0);
    var h3 := Free(o2.heap, Some(0));
    assert h3 == [Block(12, true), Block(20, false)];
    assert Align4(8) == 8;
    assert FindFreeBlock(First, h3, 8).found == Some(0);
  }

  /** Two neighbours released in either order end as the same single free block. */
  lemma {:induction false} ReleaseOrder()
    ensures var h := [Block(8, false), Block(12, false), Block(16, false)];
      var first := [Block(8, true), Block(12, false), Block(16, false)];
      var second := [Block(8, false), Block(12, true), Block(16, false)];
      && Free(h, Some(0)) == first && Free(first, Some(1)) == [Block(44, true), Block(16, false)]
      && Free(h, Some(1)) == second && Free(second, Some(0)) == [Block(44, true), Block(16, false)]
  {
    ReleaseLowerFirst();
    ReleaseUpperFirst();
  }

  lemma {:induction false} ReleaseLowerFirst()
    ensures var h := [Block(8, false), Block(12, false), Block(16, false)];
      var first := [Block(8, true), Block(12, false), Block(16, false)];
      Free(h, Some(0)) == first && Free(first, Some(1)) == [Block(44, true), Block(16, false)]
  {
    var h := [Block(8, false), Block(12, false), Block(16, false)];
    FreeIsLocal(h, 0);
    FreeIsLocal([Block(8, true), Block(12, false), Block(16, false)], 1);
  }

  lemma {:induction false} ReleaseUpperFirst()
    ensures var h := [Block(8, false), Block(12, false), Block(16, false)];
      var second := [Block(8, false), Block(12, true), Block(16, false)];
      Free(h, Some(1)) == second && Free(second, Some(0)) == [Block(44, true), Block(16, false)]
  {
    var h := [Block(8, false), Block(12, false), Block(16, false)];
    FreeIsLocal(h, 1);
    FreeIsLocal([Block(8, false), Block(12, true), Block(16, false)], 0);
  }

  /** Releasing two adjacent in-use blocks whose outer neighbours are in use, in either
      order: the first release only flips a flag, the second leaves one free block
      holding both payloads and the header between them; nothing else changes. */
  lemma {:induction false} ReleasePairEitherOrder(h: Heap, i: nat)
    requires NoAdjacentFree(h)
    requires i + 1 < |h| && !h[i].free && !h[i + 1].free
    requires i > 0 ==> !h[i - 1].free
    requires i + 2 < |h| ==> !h[i + 2].free
    ensures var pair := h[..i] + [Block(h[i].size + H + h[i + 1].size, true)] + h[i + 2..];
      var lower := h[i := h[i].(free := true)];
      var upper := h[i + 1 := h[i + 1].(free := true)];
      && Free(h, Some(i)) == lower && Free(lower, Some(i + 1)) == pair
      && Free(h, Some(i + 1)) == upper && Free(upper, Some(i)) == pair
  {
    ReleaseLowerThenUpper(h, i);
    ReleaseUpperThenLower(h, i);
  }

  lemma {:induction false} ReleaseLowerThenUpper(h: Heap, i: nat)
    requires NoAdjacentFree(h)
    requires i + 1 < |h| && !h[i].free && !h[i + 1].free
    requires i > 0 ==> !h[i - 1].free
    requires i + 2 < |h| ==> !h[i + 2].free
    ensures var lower := h[i := h[i].(free := true)];
      && Free(h, Some(i)) == lower
      && Free(lower, Some(i + 1)) == h[..i] + [Block(h[i].size + H + h[i + 1].size, true)] + h[i + 2..]
  {
    var lower := h[i := h[i].(free := true)];
    FreeIsLocal(h, i);
    assert Free(h, Some(i)) == lower;
    FreeIsLocal(lower, i + 1);
    PairMerged(h, i, lower[i + 1 := lower[i + 1].(free := true)]);
  }

  lemma {:induction false} ReleaseUpperThenLower(h: Heap, i: nat)
    requires NoAdjacentFree(h)
    requires i + 1 < |h| && !h[i].free && !h[i + 1].free
    requires i > 0 ==> !h[i - 1].free
    requires i + 2 < |h| ==> !h[i + 2].free
    ensures var upper := h[i + 1 := h[i + 1].(free := true)];
      && Free(h, Some(i + 1)) == upper
      && Free(upper, Some(i)) == h[..i] + [Block(h[i].size + H + h[i + 1].size, true)] + h[i + 2..]
  {
    var upper := h[i + 1 := h[i + 1].(free := true)];
    FreeIsLocal(h, i + 1);
    assert Free(h, Some(i + 1)) == upper;
    FreeIsLocal(upper, i);
    PairMerged(h, i, upper[i := upper[i].(free := true)]);
  }

  /** Merging the two released blocks gives the single free block of both. */
  lemma {:induction false} PairMerged(h: Heap, i: nat, both: Heap)
    requires i + 1 < |h| && |both| == |h|
    requires forall j :: 0 <= j < |h| && j != i && j != i + 1 ==> both[j] == h[j]
    requires both[i] == h[i].(free := true) && both[i + 1] == h[i + 1].(free := true)
    ensures Merge(both, i) == h[..i] + [Block(h[i].size + H + h[i + 1].size, true)] + h[i + 2..]
  {
    var m := Merge(both, i);
    var pair := h[..i] + [Block(h[i].size + H + h[i + 1].size, true)] + h[i + 2..];
    forall j | 0 <= j < |m|
      ensures m[j] == pair[j]
    {
      if j > i {
        assert pair[j] == h[i + 2..][j - i - 1];
      }
    }
  }
}
