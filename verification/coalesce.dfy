/** Coalescing: the merge loop of `free` (src/malloc.c:339-350).

    The pass walks the list from the head and merges every free block into a free
    predecessor (src/malloc.c:346-347). The model follows the intent stated at
    src/malloc.c:336-337, that a released block ends up combined with a free
    neighbour on either side. The loop as written differs twice, and both
    versions are here:
    - the test at src/malloc.c:343 reads `temp->next->free` even when `temp` is the
      tail, a NULL dereference; the model stops at the tail (CoalesceFrom);
    - after a merge src/malloc.c:349 moves past the merged block instead of checking
      it against its new successor, so a run of three free blocks keeps two of them
      apart; the model checks the same position again (CoalesceFrom).
    CoalesceAsWritten is the loop as written, with None for the NULL dereference.
 */
module Coalescing {

  import opened Wrappers
  import opened Blocks

  /** Merges block k+1 into block k: k's size becomes both payloads plus the header
      that separated them (src/malloc.c:346) and k+1 leaves the list (src/malloc.c:347). */
  function Merge(h: Heap, k: nat): (r: Heap)
    requires k + 1 < |h|
    ensures |r| == |h| - 1
    ensures forall j :: 0 <= j < k ==> r[j] == h[j]
    ensures forall j :: k < j < |r| ==> r[j] == h[j + 1]
    ensures r[k].free == h[k].free
    ensures r[k].size == h[k].size + H + h[k + 1].size
    ensures Span(r) == Span(h)
    ensures h[k].free && h[k + 1].free ==> Live(r) == Live(h)
    ensures Aligned(h) ==> Aligned(r)
  {
    var merged := h[k].(size := h[k].size + H + h[k + 1].size);
    MergeElements(h, k, merged);
    MergeBytes(h, k, merged);
    h[..k] + [merged] + h[k + 2..]
  }

  /** Which block sits where after a merge. */
  lemma {:induction false} MergeElements(h: Heap, k: nat, merged: Block)
    requires k + 1 < |h| && merged.size == h[k].size + H + h[k + 1].size
    ensures var r := h[..k] + [merged] + h[k + 2..];
      && |r| == |h| - 1 && r[k] == merged
      && (forall j :: 0 <= j < k ==> r[j] == h[j])
      && (forall j :: k < j < |r| ==> r[j] == h[j + 1])
      && (Aligned(h) ==> Aligned(r))
  {
    var r := h[..k] + [merged] + h[k + 2..];
    assert forall j :: k < j < |r| ==> r[j] == h[k + 2..][j - k - 1];
    if Aligned(h) {
      assert merged.size % 4 == (h[k].size % 4 + H + h[k + 1].size % 4) % 4;
      forall j | 0 <= j < |r|
        ensures r[j].size % 4 == 0
      {
        if j > k {
          assert r[j] == h[j + 1];
        }
      }
    }
  }

  /** A merge keeps the bytes, and the live allocations when both blocks are free. */
  lemma {:induction false} MergeBytes(h: Heap, k: nat, merged: Block)
    requires k + 1 < |h| && merged.size == h[k].size + H + h[k + 1].size && merged.free == h[k].free
    ensures Span(h[..k] + [merged] + h[k + 2..]) == Span(h)
    ensures h[k].free && h[k + 1].free ==> Live(h[..k] + [merged] + h[k + 2..]) == Live(h)
  {
    var p, s := h[..k], h[k + 2..];
    assert h == p + [h[k], h[k + 1]] + s;
    MergeLayout(p, h[k], h[k + 1], merged, s);
  }

  /** Layout facts of replacing two blocks by one holding both payloads and a header. */
  lemma {:induction false} MergeLayout(p: Heap, a: Block, b: Block, merged: Block, s: Heap)
    requires merged.size == a.size + H + b.size && merged.free == a.free
    ensures Span(p + [merged] + s) == Span(p + [a, b] + s)
    ensures a.free && b.free ==> Live(p + [merged] + s) == Live(p + [a, b] + s)
  {
    MergeSpan(a, b, merged);
    if a.free && b.free {
      LivePairFree(a, b, Span(p));
      LiveSingle(merged, Span(p));
      SpliceLiveSame(p, [a, b], [merged], s);
    } else {
      SpanSplice(p, [a, b], s);
      SpanSplice(p, [merged], s);
    }
  }

  lemma {:induction false} MergeSpan(a: Block, b: Block, merged: Block)
    requires merged.size == a.size + H + b.size
    ensures Span([merged]) == Span([a, b])
  {
    assert [a, b][..1] == [a];
    assert [a][..0] == [];
    assert [merged][..0] == [];
  }

  lemma {:induction false} LivePairFree(a: Block, b: Block, base: nat)
    requires a.free && b.free
    ensures LiveFrom([a, b], base) == {}
  {
    assert [a, b][..1] == [a];
    LiveSingle(a, base);
  }

  // ---------------------------------------------------------------------------
  // The intended pass
  // ---------------------------------------------------------------------------

  /** The pass from position k on. It stops at the tail, which has no successor to
      merge with, and after a merge it checks the same block again, since the merged
      block may now precede another free block. */
  function CoalesceFrom(h: Heap, k: nat): (r: Heap)
    requires k <= |h|
    requires NoFreePairBelow(h, k)
    ensures NoAdjacentFree(r)
    ensures |r| <= |h|
    decreases |h|, |h| - k
  {
    if k + 1 >= |h| then h
    else if h[k].free && h[k + 1].free then CoalesceFrom(Merge(h, k), k)
    else CoalesceFrom(h, k + 1)
  }

  /** Merging moves no live allocation and loses no byte. */
  lemma {:induction false} CoalesceFromPreserves(h: Heap, k: nat)
    requires k <= |h|
    requires NoFreePairBelow(h, k)
    ensures Span(CoalesceFrom(h, k)) == Span(h)
    ensures Live(CoalesceFrom(h, k)) == Live(h)
    ensures Aligned(h) ==> Aligned(CoalesceFrom(h, k))
    decreases |h|, |h| - k
  {
    if k + 1 >= |h| {
    } else if h[k].free && h[k + 1].free {
      CoalesceFromPreserves(Merge(h, k), k);
    } else {
      CoalesceFromPreserves(h, k + 1);
    }
  }

  /** The whole pass, from the head. */
  function Coalesce(h: Heap): (r: Heap)
    ensures NoAdjacentFree(r)
    ensures |r| <= |h|
    ensures Span(r) == Span(h)
    ensures Live(r) == Live(h)
    ensures Aligned(h) ==> Aligned(r)
  {
    CoalesceFromPreserves(h, 0);
    CoalesceFrom(h, 0)
  }

  /** Positions k up to m without a free pair are passed over unchanged. */
  lemma {:induction false} CoalesceSkip(h: Heap, k: nat, m: nat)
    requires k <= m <= |h|
    requires NoFreePairBelow(h, k)
    requires forall j :: k <= j < m && j + 1 < |h| ==> !(h[j].free && h[j + 1].free)
    ensures NoFreePairBelow(h, m)
    ensures CoalesceFrom(h, k) == CoalesceFrom(h, m)
    decreases m - k
  {
    if k < m && k + 1 < |h| {
      CoalesceSkip(h, k + 1, m);
    }
  }

  /** One step of the pass at a free pair: merge, then look at the same position again. */
  lemma {:induction false} CoalesceMergeStep(h: Heap, k: nat)
    requires k + 1 < |h| && h[k].free && h[k + 1].free
    requires NoFreePairBelow(h, k)
    ensures NoFreePairBelow(Merge(h, k), k)
    ensures CoalesceFrom(h, k) == CoalesceFrom(Merge(h, k), k)
  {
  }

  /** A list without adjacent free blocks is left as it is. */
  lemma {:induction false} CoalesceIdle(h: Heap, k: nat)
    requires k <= |h|
    requires NoAdjacentFree(h)
    ensures CoalesceFrom(h, k) == h
    ensures Coalesce(h) == h
  {
    CoalesceSkip(h, k, |h|);
    CoalesceSkip(h, 0, |h|);
  }

  // ---------------------------------------------------------------------------
  // The pass as written
  // ---------------------------------------------------------------------------

  /** The loop of src/malloc.c:341-350 from position k: None when it dereferences the
      NULL successor of a free tail. */
  function CoalesceAsWritten(h: Heap, k: nat): (r: Option<Heap>)
    requires k <= |h|
    ensures r.Some? ==> Span(r.value) == Span(h) && Live(r.value) == Live(h) && |r.value| <= |h|
    decreases |h| - k
  {
    if k == |h| then Some(h)
    else if h[k].free && k + 1 == |h| then None
    else if h[k].free && h[k + 1].free then CoalesceAsWritten(Merge(h, k), k + 1)
    else CoalesceAsWritten(h, k + 1)
  }

  /** Releasing the only block of the heap: as written the pass reads the successor
      of the free tail, which is NULL; the intended pass leaves the single free block. */
  lemma {:induction false} TailDereferenceAsWritten()
    ensures CoalesceAsWritten([Block(8, true)], 0) == None
    ensures Coalesce([Block(8, true)]) == [Block(8, true)]
  {
  }

  /** Free, in use, free, in use; the in-use block at 1 is released. As written the pass
      merges blocks 0 and 1 and moves on to block 2, so the merged block and block 2
      stay adjacent and both free; the intended pass merges all three. */
  lemma {:induction false} AdvanceAfterMergeAsWritten()
    ensures var released := [Block(8, true), Block(8, true), Block(8, true), Block(8, false)];
      && NoAdjacentFree([Block(8, true), Block(8, false), Block(8, true), Block(8, false)])
      && CoalesceAsWritten(released, 0) == Some([Block(40, true), Block(8, true), Block(8, false)])
      && !NoAdjacentFree(CoalesceAsWritten(released, 0).value)
      && Coalesce(released) == [Block(72, true), Block(8, false)]
  {
    var released := [Block(8, true), Block(8, true), Block(8, true), Block(8, false)];
    var once := Merge(released, 0);
    assert once == [Block(40, true), Block(8, true), Block(8, false)];
    var twice := Merge(once, 0);
    assert twice == [Block(72, true), Block(8, false)];
    CoalesceIdle(twice, 0);
  }
}
