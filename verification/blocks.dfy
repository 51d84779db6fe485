/** The block list of the allocator and its memory layout.

    The heap is the intrusive list of block headers threaded through the arena
    in address order (src/malloc.c:51-60). It is modelled as a sequence of
    blocks: sequence order is address order, and the `next` link of a header is
    the following element. A block's address is not stored; it is the number of
    bytes taken by every block before it (header plus payload), so blocks are
    contiguous and cannot overlap by construction.
 */
module Blocks {

  import opened Wrappers

  /** Bytes in a header: an 8-byte size, an 8-byte link, the free flag and padding. */
  const H: nat := 24

  /** Number of values of a 64-bit `size_t`. */
  const WORD: nat := 0x1_0000_0000_0000_0000

  /** Largest value of a 32-bit signed `int`. */
  const INT_MAX: nat := 0x7fff_ffff

  /** One header: payload capacity in bytes (not counting the header) and the free flag. */
  datatype Block = Block(size: nat, free: bool)

  type Heap = seq<Block>

  /** Bytes taken by a run of contiguous blocks, headers included. */
  function Span(h: Heap): nat
  {
    if |h| == 0 then 0 else Span(h[..|h| - 1]) + H + h[|h| - 1].size
  }

  /** Address of block i's header, relative to the start of the arena. */
  function Offset(h: Heap, i: nat): nat
    requires i <= |h|
  {
    Span(h[..i])
  }

  /** Address of block i's payload: the pointer `malloc` hands out (BLOCK_DATA). */
  function PayloadOffset(h: Heap, i: nat): nat
    requires i < |h|
  {
    Offset(h, i) + H
  }

  /** Index of the tail block, or None for an empty list. */
  function Tail(h: Heap): (r: Option<nat>)
    ensures r.Some? <==> |h| > 0
    ensures r.Some? ==> r.value < |h| && r.value + 1 == |h|
  {
    if |h| == 0 then None else Some(|h| - 1)
  }

  /** Every payload capacity is a multiple of 4. */
  predicate Aligned(h: Heap)
  {
    forall i :: 0 <= i < |h| ==> h[i].size % 4 == 0
  }

  /** No two list neighbours at positions j, j+1 with j < k are both free. */
  predicate NoFreePairBelow(h: Heap, k: nat)
  {
    forall j :: 0 <= j < k && j + 1 < |h| ==> !(h[j].free && h[j + 1].free)
  }

  /** The coalescing invariant: no two adjacent blocks are both free. */
  predicate NoAdjacentFree(h: Heap)
  {
    NoFreePairBelow(h, |h|)
  }

  /** The invariant the allocator keeps between calls. */
  predicate Valid(h: Heap)
  {
    Aligned(h) && NoAdjacentFree(h)
  }

  /** What a client holds: a payload address and the capacity behind it. */
  datatype Allocation = Allocation(addr: nat, size: nat)

  function AllocationOf(h: Heap, i: nat): Allocation
    requires i < |h|
  {
    Allocation(PayloadOffset(h, i), h[i].size)
  }

  /** The live allocations of a run of blocks whose first header sits at address base:
      every block in use, seen as (payload address, capacity). */
  function LiveFrom(h: Heap, base: nat): set<Allocation>
  {
    if |h| == 0 then {}
    else
      var init := h[..|h| - 1];
      var b := h[|h| - 1];
      LiveFrom(init, base) + (if b.free then {} else {Allocation(base + Span(init) + H, b.size)})
  }

  /** The live allocations of the whole heap. */
  function Live(h: Heap): set<Allocation>
  {
    LiveFrom(h, 0)
  }

  // ---------------------------------------------------------------------------
  // Layout lemmas
  // ---------------------------------------------------------------------------

  /** The bytes of two runs laid end to end add up. */
  lemma {:induction false} SpanConcat(p: Heap, q: Heap)
    ensures Span(p + q) == Span(p) + Span(q)
    decreases |q|
  {
    if |q| == 0 {
      assert p + q == p;
    } else {
      var q' := q[..|q| - 1];
      assert (p + q)[..|p + q| - 1] == p + q';
      SpanConcat(p, q');
    }
  }

  /** Block i+1 starts right after block i's payload. */
  lemma {:induction false} OffsetNext(h: Heap, i: nat)
    requires i < |h|
    ensures Offset(h, i + 1) == PayloadOffset(h, i) + h[i].size
  {
    assert h[..i + 1][..i] == h[..i];
  }

  /** Offsets never decrease along the list, and no block reaches past the arena end. */
  lemma {:induction false} OffsetMonotone(h: Heap, i: nat, j: nat)
    requires i <= j <= |h|
    ensures Offset(h, i) <= Offset(h, j) <= Span(h)
  {
    assert h[..j] == h[..i] + h[i..j];
    SpanConcat(h[..i], h[i..j]);
    assert h == h[..j] + h[j..];
    SpanConcat(h[..j], h[j..]);
  }

  /** Block i's payload ends before block j's header starts whenever i comes first. */
  lemma {:induction false} PayloadBeforeLater(h: Heap, i: nat, j: nat)
    requires i < j < |h|
    ensures PayloadOffset(h, i) + h[i].size + H <= PayloadOffset(h, j)
  {
    OffsetNext(h, i);
    OffsetMonotone(h, i + 1, j);
  }

  /** Offsets inside the second half of a concatenation are shifted by the first half's bytes. */
  lemma {:induction false} OffsetConcat(p: Heap, q: Heap, i: nat)
    requires i <= |q|
    ensures Offset(p + q, |p| + i) == Span(p) + Offset(q, i)
  {
    assert (p + q)[..|p| + i] == p + q[..i];
    SpanConcat(p, q[..i]);
  }

  /** The first block's header is at address 0 and the second one follows its payload. */
  lemma {:induction false} OffsetFirst(h: Heap)
    requires |h| > 0
    ensures Offset(h, 0) == 0
    ensures Offset(h, 1) == H + h[0].size
  {
    assert h[..1][..0] == [];
  }

  /** A block's header address depends only on the blocks before it. */
  lemma {:induction false} PrefixOffset(p: Heap, x: Heap, s: Heap)
    ensures Offset(p + x + s, |p|) == Span(p)
  {
    assert (p + x + s)[..|p|] == p;
  }

  /** A block of the first half keeps its place in a concatenation. */
  lemma {:induction false} AllocationConcatLeft(p: Heap, q: Heap, i: nat)
    requires i < |p|
    ensures (p + q)[i] == p[i]
    ensures AllocationOf(p + q, i) == AllocationOf(p, i)
  {
    assert (p + q)[..i] == p[..i];
  }

  /** A block of the second half moves up by the first half's bytes. */
  lemma {:induction false} AllocationConcatRight(p: Heap, q: Heap, k: nat)
    requires k < |q|
    ensures (p + q)[|p| + k] == q[k]
    ensures AllocationOf(p + q, |p| + k) == Allocation(AllocationOf(q, k).addr + Span(p), q[k].size)
  {
    OffsetConcat(p, q, k);
  }

  /** Every live allocation of a run lies inside it, after its first header. */
  lemma {:induction false} LiveBounds(h: Heap, base: nat, a: Allocation)
    ensures a in LiveFrom(h, base) ==> base + H <= a.addr && a.addr + a.size <= base + Span(h)
    decreases |h|
  {
    if |h| > 0 {
      LiveBounds(h[..|h| - 1], base, a);
    }
  }

  /** The live allocations of two runs laid end to end. */
  lemma {:induction false} LiveConcat(p: Heap, q: Heap, base: nat)
    ensures LiveFrom(p + q, base) == LiveFrom(p, base) + LiveFrom(q, base + Span(p))
    decreases |q|
  {
    if |q| == 0 {
      assert p + q == p;
    } else {
      var q' := q[..|q| - 1];
      assert (p + q)[..|p + q| - 1] == p + q';
      LiveConcat(p, q', base);
      SpanConcat(p, q');
    }
  }

  /** Bytes of a heap cut into a prefix p, a middle run x and a suffix s. */
  lemma {:induction false} SpanSplice(p: Heap, x: Heap, s: Heap)
    ensures Span(p + x + s) == Span(p) + Span(x) + Span(s)
  {
    SpanConcat(p, x);
    SpanConcat(p + x, s);
  }

  /** Live allocations of a heap cut into a prefix p, a middle run x and a suffix s. */
  lemma {:induction false} LiveSplice(p: Heap, x: Heap, s: Heap)
    ensures Live(p + x + s) == Live(p) + LiveFrom(x, Span(p)) + LiveFrom(s, Span(p) + Span(x))
    ensures Span(p + x + s) == Span(p) + Span(x) + Span(s)
  {
    LiveConcat(p + x, s, 0);
    LiveConcat(p, x, 0);
    SpanConcat(p, x);
    SpanConcat(p + x, s);
  }

  /** Replacing a middle run by one of the same bytes and the same live allocations
      changes nothing a client can see. */
  lemma {:induction false} SpliceLiveSame(p: Heap, x: Heap, y: Heap, s: Heap)
    requires Span(x) == Span(y)
    requires LiveFrom(x, Span(p)) == LiveFrom(y, Span(p))
    ensures Live(p + y + s) == Live(p + x + s)
    ensures Span(p + y + s) == Span(p + x + s)
  {
    LiveSplice(p, x, s);
    LiveSplice(p, y, s);
  }

  /** Replacing a middle run without live allocations by one of the same bytes holding
      exactly one allocation adds that allocation and nothing else. */
  lemma {:induction false} SpliceLiveAdd(p: Heap, x: Heap, y: Heap, s: Heap, a: Allocation)
    requires Span(x) == Span(y)
    requires LiveFrom(x, Span(p)) == {} && LiveFrom(y, Span(p)) == {a}
    ensures Live(p + y + s) == Live(p + x + s) + {a}
    ensures Span(p + y + s) == Span(p + x + s)
  {
    LiveSplice(p, x, s);
    LiveSplice(p, y, s);
  }

  /** An address between the prefix and the suffix, inside a run without live
      allocations, is not live. */
  lemma {:induction false} SpliceFresh(p: Heap, x: Heap, s: Heap, a: Allocation)
    requires LiveFrom(x, Span(p)) == {}
    requires Span(p) + H <= a.addr < Span(p) + Span(x) + H
    ensures a !in Live(p + x + s)
  {
    LiveSplice(p, x, s);
    LiveBounds(p, 0, a);
    LiveBounds(s, Span(p) + Span(x), a);
  }

  /** Block i, when in use, is exactly the live allocation at its payload address. */
  lemma {:induction false} LiveAt(h: Heap, i: nat)
    requires i < |h|
    ensures AllocationOf(h, i) in Live(h) <==> !h[i].free
  {
    var p, s := h[..i], h[i + 1..];
    assert h == p + [h[i]] + s;
    LiveSplice(p, [h[i]], s);
    LiveBounds(p, 0, AllocationOf(h, i));
    LiveBounds(s, Span(p) + Span([h[i]]), AllocationOf(h, i));
    assert [h[i]][..0] == [];
  }

  /** Header recovery (BLOCK_HEADER): every live allocation is the payload of an
      in-use block, and of only one. */
  lemma {:induction false} LiveIsBlock(h: Heap, a: Allocation)
    requires a in Live(h)
    ensures exists i :: 0 <= i < |h| && !h[i].free && AllocationOf(h, i) == a
    ensures forall i, j :: 0 <= i < |h| && 0 <= j < |h| && AllocationOf(h, i) == a && AllocationOf(h, j) == a ==> i == j
  {
    LiveFromIsBlock(h, 0, a);
    forall i, j | 0 <= i < |h| && 0 <= j < |h| && AllocationOf(h, i) == a && AllocationOf(h, j) == a
      ensures i == j
    {
      if i < j {
        PayloadBeforeLater(h, i, j);
      } else if j < i {
        PayloadBeforeLater(h, j, i);
      }
    }
  }

  lemma {:induction false} LiveFromIsBlock(h: Heap, base: nat, a: Allocation)
    requires a in LiveFrom(h, base)
    ensures exists i :: 0 <= i < |h| && !h[i].free && Allocation(base + PayloadOffset(h, i), h[i].size) == a
    decreases |h|
  {
    var init := h[..|h| - 1];
    if a in LiveFrom(init, base) {
      LiveFromIsBlock(init, base, a);
      var i :| 0 <= i < |init| && !init[i].free && Allocation(base + PayloadOffset(init, i), init[i].size) == a;
      assert h[..i] == init[..i];
      assert h[i] == init[i];
    } else {
      assert h[..|h| - 1] == init;
      assert Allocation(base + PayloadOffset(h, |h| - 1), h[|h| - 1].size) == a;
    }
  }

  /** Non-overlap: two distinct live allocations occupy disjoint byte ranges, with
      at least a header between them. */
  lemma {:induction false} LiveDisjoint(h: Heap, base: nat, a: Allocation, b: Allocation)
    requires a in LiveFrom(h, base) && b in LiveFrom(h, base) && a != b
    ensures a.addr + a.size + H <= b.addr || b.addr + b.size + H <= a.addr
    decreases |h|
  {
    var init := h[..|h| - 1];
    LiveBounds(init, base, a);
    LiveBounds(init, base, b);
    if a in LiveFrom(init, base) && b in LiveFrom(init, base) {
      LiveDisjoint(init, base, a, b);
    }
  }

  /** A single block: free gives nothing, in use gives one allocation after its header. */
  lemma {:induction false} LiveSingle(b: Block, base: nat)
    ensures LiveFrom([b], base) == if b.free then {} else {Allocation(base + H, b.size)}
  {
    assert [b][..0] == [];
  }
}
