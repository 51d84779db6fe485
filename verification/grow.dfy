/** Heap growth: `growHeap` (src/malloc.c:185-219).

    The call to sbrk is replaced by its outcome, `sbrkOk`: whether the operating
    system extended the data segment. On success the new block's header sits at
    the old program break, which is the end of the arena.

    Grow follows the documented behaviour (src/malloc.c:183 and 193): NULL when the
    operating system refuses. The code as written never returns NULL there: the
    assert at src/malloc.c:191 fails on a refusal, and the test at line 194 looks at
    the old break instead of the result of the extending call (GrowAsWritten).
 */
module Growth {

  import opened Wrappers
  import opened Blocks

  /** Appends one in-use block of `size` bytes after `last`, the tail the search ended on;
      None when the operating system refuses to extend the arena. */
  function Grow(h: Heap, last: Option<nat>, size: nat, sbrkOk: bool): (r: Option<Heap>)
    requires last == Tail(h)
    ensures r.Some? <==> sbrkOk
    ensures r.Some? ==> var g := r.value;
      && |g| == |h| + 1
      && g[..|h|] == h
      && g[|h|] == Block(size, false)
      && Offset(g, |h|) == Span(h)
      && Span(g) == Span(h) + H + size
      && Live(g) == Live(h) + {AllocationOf(g, |h|)}
      && AllocationOf(g, |h|) !in Live(h)
      && (Aligned(h) && size % 4 == 0 ==> Aligned(g))
      && (NoAdjacentFree(h) ==> NoAdjacentFree(g))
  {
    if !sbrkOk then None
    else
      var b := Block(size, false);
      match last
      case None => GrowFacts([], b); Some([b])
      case Some(t) => GrowFacts(h, b); Some(h[..t + 1] + [b])
  }

  /** Layout facts about appending one in-use block at the end of the arena. */
  lemma {:induction false} GrowFacts(h: Heap, b: Block)
    requires !b.free
    ensures Offset(h + [b], |h|) == Span(h)
    ensures Span(h + [b]) == Span(h) + H + b.size
    ensures Live(h + [b]) == Live(h) + {AllocationOf(h + [b], |h|)}
    ensures AllocationOf(h + [b], |h|) !in Live(h)
  {
    var a := Allocation(Span(h) + H, b.size);
    AppendLayout(h, b);
    assert AllocationOf(h + [b], |h|) == a;
    AppendLive(h, b);
    LiveBounds(h, 0, a);
  }

  lemma {:induction false} AppendLayout(h: Heap, b: Block)
    ensures Offset(h + [b], |h|) == Span(h)
    ensures Span(h + [b]) == Span(h) + H + b.size
  {
    assert (h + [b])[..|h|] == h;
  }

  lemma {:induction false} AppendLive(h: Heap, b: Block)
    requires !b.free
    ensures Live(h + [b]) == Live(h) + {Allocation(Span(h) + H, b.size)}
  {
    LiveConcat(h, [b], 0);
    LiveSingle(b, Span(h));
  }

  // ---------------------------------------------------------------------------
  // Growth as written
  // ---------------------------------------------------------------------------

  /** What `growHeap` as written does: abort the process, return NULL, or return a new
      block; `backed` is false when the arena was not extended for it. */
  datatype GrowStep = Aborted | Null | Grown(heap: Heap, backed: bool)

  /** `growHeap` as written (src/malloc.c:188-197). `curr` is the old break from
      `sbrk(0)` and `prev` the result of the extending call, -1 on refusal. The
      assert at line 191 compares the two, so a refusal aborts when assertions are
      compiled in (`checked`). Without them, line 194 tests `curr`, which is never
      -1, so the block is written at the unextended break and returned. */
  function GrowAsWritten(h: Heap, last: Option<nat>, size: nat, sbrkOk: bool, checked: bool): (r: GrowStep)
    requires last == Tail(h)
    ensures r != Null
    ensures r.Aborted? <==> !sbrkOk && checked
    ensures r.Grown? ==> r.backed == sbrkOk && r.heap == h + [Block(size, false)]
  {
    var b := Block(size, false);
    var g := match last
      case None => [b]
      case Some(t) => h[..t + 1] + [b];
    assert g == h + [b];
    if !sbrkOk && checked then Aborted else Grown(g, sbrkOk)
  }

  /** A refused `sbrk` on an empty heap: the intended growth reports NULL, while the
      code as written aborts, or, without assertions, hands out a block the arena
      does not hold. */
  lemma {:induction false} RefusedGrowthAsWritten()
    ensures Grow([], None, 8, false) == None
    ensures GrowAsWritten([], None, 8, false, true) == Aborted
    ensures GrowAsWritten([], None, 8, false, false) == Grown([Block(8, false)], false)
  {
  }
}
