/** Block splitting: the split branch of `malloc` (src/malloc.c:256-291).

    The model follows the intent the source states in its comments at
    src/malloc.c:256-265 and src/malloc.c:283-284: split only when the leftover
    `capacity - size` exceeds a header plus 4 bytes, keep exactly `size` bytes in
    the front block and put the rest, less one header, in a new free block right
    after it. The code as written differs twice, and both versions are here:
    - the test at src/malloc.c:267 compares the whole capacity, not the leftover,
      with H + 4 (SplitTestAsWritten);
    - src/malloc.c:274 gives the front block `capacity - size` bytes instead of
      `size` (SplitAsWritten).
 */
module Splitting {

  import opened Blocks

  /** The intended split test: the leftover can hold a header and a payload of more than 4 bytes. */
  predicate ShouldSplit(capacity: nat, size: nat): (r: bool)
    ensures r ==> capacity >= size + H + 5
    ensures !r && capacity >= size ==> capacity - size <= H + 4
  {
    capacity >= size && capacity - size > H + 4
  }

  /** Splits block i: the front keeps `size` bytes and is put in use, and a free block
      with the remaining bytes is inserted right after it, linked to the old successor. */
  function Split(h: Heap, i: nat, size: nat): (r: Heap)
    requires i < |h| && ShouldSplit(h[i].size, size)
    ensures |r| == |h| + 1
    ensures r[..i] == h[..i] && r[i + 2..] == h[i + 1..]
    ensures r[i] == Block(size, false) && r[i + 1].free
    ensures r[i].size + H + r[i + 1].size == h[i].size
    ensures r[i + 1].size > 4
    ensures Offset(r, i) == Offset(h, i)
    ensures Offset(r, i + 1) == PayloadOffset(h, i) + size
    ensures Span(r) == Span(h)
    ensures h[i].free ==> Live(r) == Live(h) + {AllocationOf(r, i)} && AllocationOf(r, i) !in Live(h)
    ensures Aligned(h) && size % 4 == 0 ==> Aligned(r)
    ensures NoAdjacentFree(h) && h[i].free ==> NoAdjacentFree(r)
  {
    var p, s := h[..i], h[i + 1..];
    var front := Block(size, false);
    var rest := Block(h[i].size - size - H, true);
    assert h == p + [h[i]] + s;
    SplitLayout(p, h[i], front, rest, s);
    var r := p + [front, rest] + s;
    assert r[..i] == p && r[i + 2..] == s;
    SplitAdjacency(h, i, r);
    r
  }

  /** Layout facts of replacing one block by a front block and a remainder of the same total. */
  lemma {:induction false} SplitLayout(p: Heap, orig: Block, front: Block, rest: Block, s: Heap)
    requires front.size + H + rest.size == orig.size
    requires !front.free && rest.free
    ensures Span(p + [front, rest] + s) == Span(p + [orig] + s)
    ensures Offset(p + [front, rest] + s, |p|) == Offset(p + [orig] + s, |p|) == Span(p)
    ensures Offset(p + [front, rest] + s, |p| + 1) == Span(p) + H + front.size
    ensures orig.free ==>
      Live(p + [front, rest] + s) == Live(p + [orig] + s) + {Allocation(Span(p) + H, front.size)}
    ensures orig.free ==> Allocation(Span(p) + H, front.size) !in Live(p + [orig] + s)
  {
    SplitOffsets(p, orig, front, rest, s);
    if orig.free {
      SplitLive(p, orig, front, rest, s);
    } else {
      SplitSpan(p, orig, front, rest, s);
    }
  }

  lemma {:induction false} SplitSpan(p: Heap, orig: Block, front: Block, rest: Block, s: Heap)
    requires front.size + H + rest.size == orig.size
    ensures Span([front, rest]) == Span([orig])
    ensures Span(p + [front, rest] + s) == Span(p + [orig] + s)
  {
    SpanPair(front, rest);
    assert [orig][..0] == [];
    SpanSplice(p, [front, rest], s);
    SpanSplice(p, [orig], s);
  }

  lemma {:induction false} SplitOffsets(p: Heap, orig: Block, front: Block, rest: Block, s: Heap)
    ensures Offset(p + [front, rest] + s, |p|) == Span(p)
    ensures Offset(p + [orig] + s, |p|) == Span(p)
    ensures Offset(p + [front, rest] + s, |p| + 1) == Span(p) + H + front.size
  {
    PrefixOffset(p, [front, rest], s);
    PrefixOffset(p, [orig], s);
    FrontOffset(p, front, rest, s);
  }

  lemma {:induction false} FrontOffset(p: Heap, front: Block, rest: Block, s: Heap)
    ensures Offset(p + [front, rest] + s, |p| + 1) == Span(p) + H + front.size
  {
    assert (p + [front, rest] + s)[..|p| + 1] == p + [front];
    SpanConcat(p, [front]);
    assert [front][..0] == [];
  }

  lemma {:induction false} SplitLive(p: Heap, orig: Block, front: Block, rest: Block, s: Heap)
    requires front.size + H + rest.size == orig.size
    requires !front.free && rest.free && orig.free
    ensures Span(p + [front, rest] + s) == Span(p + [orig] + s)
    ensures Live(p + [front, rest] + s) == Live(p + [orig] + s) + {Allocation(Span(p) + H, front.size)}
    ensures Allocation(Span(p) + H, front.size) !in Live(p + [orig] + s)
  {
    var a := Allocation(Span(p) + H, front.size);
    SplitSpan(p, orig, front, rest, s);
    LiveSingle(orig, Span(p));
    LivePair(front, rest, Span(p));
    SpliceLiveAdd(p, [orig], [front, rest], s, a);
    SpliceFresh(p, [orig], s, a);
  }

  lemma {:induction false} SpanPair(a: Block, b: Block)
    ensures Span([a, b]) == a.size + H + b.size + H
  {
    assert [a, b][..1] == [a];
    assert [a][..0] == [];
    assert Span([a]) == H + a.size;
  }

  lemma {:induction false} LivePair(front: Block, rest: Block, base: nat)
    requires !front.free && rest.free
    ensures LiveFrom([front, rest], base) == {Allocation(base + H, front.size)}
  {
    assert [front, rest][..1] == [front];
    LiveSingle(front, base);
  }

  /** The remainder follows the front block, which is in use, and precedes the orig
      successor, which cannot be free when the split block was free and no two free
      blocks were adjacent. */
  lemma {:induction false} SplitAdjacency(h: Heap, i: nat, r: Heap)
    requires i < |h| && |r| == |h| + 1
    requires r[..i] == h[..i] && r[i + 2..] == h[i + 1..]
    requires !r[i].free && r[i + 1].free
    ensures Aligned(h) && r[i].size % 4 == 0 && r[i].size + H + r[i + 1].size == h[i].size ==> Aligned(r)
    ensures NoAdjacentFree(h) && h[i].free ==> NoAdjacentFree(r)
  {
    forall j | 0 <= j < |r| && j != i && j != i + 1
      ensures r[j] == (if j < i then h[j] else h[j - 1])
    {
      if j < i {
        assert r[..i][j] == h[..i][j];
      } else {
        assert r[i + 2..][j - i - 2] == h[i + 1..][j - i - 2];
      }
    }
    if Aligned(h) && r[i].size % 4 == 0 && r[i].size + H + r[i + 1].size == h[i].size {
      assert h[i].size % 4 == 0;
    }
    if NoAdjacentFree(h) && h[i].free {
      forall j | 0 <= j < |r| && j + 1 < |r|
        ensures !(r[j].free && r[j + 1].free)
      {
        if j + 1 < i {
          assert !(h[j].free && h[j + 1].free);
        } else if j == i + 1 {
          assert !(h[i].free && h[i + 1].free);
        } else if j > i + 1 {
          assert !(h[j - 1].free && h[j].free);
        }
      }
    }
  }

  // ---------------------------------------------------------------------------
  // The split as written
  // ---------------------------------------------------------------------------

  /** The test at src/malloc.c:267: the whole capacity, not the leftover, against H + 4. */
  predicate SplitTestAsWritten(capacity: nat): (r: bool)
    ensures r <==> ShouldSplit(capacity, 0)
  {
    capacity > H + 4
  }

  /** The split at src/malloc.c:274-288: the front block keeps `capacity - size` bytes,
      and the remainder `capacity - (size + H)` is computed in size_t, wrapping below zero. */
  function SplitAsWritten(h: Heap, i: nat, size: nat): (r: Heap)
    requires i < |h| && h[i].size >= size
    ensures |r| == |h| + 1
  {
    var front := Block(h[i].size - size, false);
    var rest := Block((h[i].size - (size + H)) % WORD, true);
    h[..i] + [front, rest] + h[i + 1..]
  }

  /** A free 40-byte block and a 36-byte request: the written test splits although only
      4 bytes are left over, and the remainder's size wraps to 2^64 - 20. */
  lemma {:induction false} SplitTestAsWrittenWraps()
    ensures SplitTestAsWritten(40) && !ShouldSplit(40, 36)
    ensures SplitAsWritten([Block(40, true)], 0, 36)[1].size == WORD - 20
  {
  }

  /** A free 100-byte block split for a 20-byte request: as written, the front block
      records 80 bytes, so the arena's recorded sizes add up to 60 bytes more than
      it holds, and the block after the front one is not where the source writes the
      new header (20 bytes into the payload). The intended split keeps both right. */
  lemma {:induction false} FrontSizeAsWrittenBreaksLayout()
    ensures var h := [Block(100, true)];
      var w := SplitAsWritten(h, 0, 20);
      && SplitTestAsWritten(100)
      && Span(w) == Span(h) + 60
      && Offset(w, 1) != PayloadOffset(h, 0) + 20
    ensures var h := [Block(100, true)];
      var r := Split(h, 0, 20);
      && Span(r) == Span(h)
      && Offset(r, 1) == PayloadOffset(h, 0) + 20
  {
    var h := [Block(100, true)];
    var w := SplitAsWritten(h, 0, 20);
    assert w == [Block(80, false), Block(56, true)];
    SpanPair(Block(80, false), Block(56, true));
    assert Span(h) == 124 by {
      assert h[..0] == [];
    }
    assert w[..1] == [Block(80, false)];
    assert [Block(80, false)][..0] == [];
    assert h[..0] == [];
  }
}
