/** Free-block selection: `findFreeBlock` (src/malloc.c:74-171).

    Each strategy is the source's loop written as a tail-recursive function whose
    parameters are the loop variables (`curr`, `winner`, `winning_remainder` and the
    `last` out-parameter). The caller sets `last` to the list head before the search
    (src/malloc.c:253), so a search over an empty list leaves it None.
 */
module Fit {

  import opened Wrappers
  import opened Blocks

  /** A block can serve a request: it is free and at least as large. */
  predicate Fits(b: Block, size: nat)
  {
    b.free && b.size >= size
  }

  /** The search outcome: the chosen block (NULL when None) and the last block visited. */
  datatype Search = Search(found: Option<nat>, last: Option<nat>)

  /** The value `last` holds before the loop: the list head. */
  function Head(h: Heap): Option<nat>
  {
    if |h| == 0 then None else Some(0)
  }

  /** Every fitting block leaves a remainder small enough for a 32-bit signed int. */
  predicate RemaindersFitInt(h: Heap, size: nat)
  {
    forall j :: 0 <= j < |h| && Fits(h[j], size) ==> h[j].size - size <= INT_MAX
  }

  /** Conversion of a size_t value to a 32-bit signed int (modulo 2^32, as GCC defines it). */
  function ToInt(x: nat): (r: int)
    ensures -0x8000_0000 <= r <= INT_MAX
    ensures x <= INT_MAX ==> r == x
  {
    var m := x % 0x1_0000_0000;
    if m > INT_MAX then m - 0x1_0000_0000 else m
  }

  /** Conversion of a signed int to size_t, as C does before comparing the two (modulo 2^64). */
  function ToSize(w: int): (r: nat)
    ensures r < WORD
    ensures 0 <= w < WORD ==> r == w
  {
    w % WORD
  }

  // ---------------------------------------------------------------------------
  // First fit (src/malloc.c:88-92)
  // ---------------------------------------------------------------------------

  function FirstFitFrom(h: Heap, size: nat, curr: nat, last: Option<nat>): (r: Search)
    requires curr <= |h|
    requires curr == 0 ==> last == Head(h)
    requires curr > 0 ==> last == Some(curr - 1)
    requires forall j :: 0 <= j < curr ==> !Fits(h[j], size)
    ensures r.found.Some? ==> var w := r.found.value;
      && curr <= w < |h| && Fits(h[w], size)
      && (forall j :: 0 <= j < w ==> !Fits(h[j], size))
      && r.last == (if w == 0 then Some(0) else Some(w - 1))
    ensures r.found.None? ==> (forall j :: 0 <= j < |h| ==> !Fits(h[j], size)) && r.last == Tail(h)
    decreases |h| - curr
  {
    if curr == |h| then Search(None, last)
    else if Fits(h[curr], size) then Search(Some(curr), last)
    else FirstFitFrom(h, size, curr + 1, Some(curr))
  }

  /** First fit: the lowest-addressed free block that is large enough. */
  function FirstFit(h: Heap, size: nat): (r: Search)
    ensures r.found.Some? ==> var w := r.found.value;
      && w < |h| && Fits(h[w], size)
      && (forall j :: 0 <= j < w ==> !Fits(h[j], size))
      && r.last == (if w == 0 then Some(0) else Some(w - 1))
    ensures r.found.None? <==> forall j :: 0 <= j < |h| ==> !Fits(h[j], size)
    ensures r.found.None? ==> r.last == Tail(h)
  {
    FirstFitFrom(h, size, 0, Head(h))
  }

  // ---------------------------------------------------------------------------
  // Best fit (src/malloc.c:97-117)
  // ---------------------------------------------------------------------------

  /** The running winner is the earliest fitting block of least remainder among
      blocks before curr, and only remainders below INT_MAX ever win. */
  predicate BestSoFar(h: Heap, size: nat, curr: nat, winner: Option<nat>, winning: nat)
    requires curr <= |h|
  {
    match winner
    case None =>
      && winning == INT_MAX
      && forall j :: 0 <= j < curr && Fits(h[j], size) ==> h[j].size - size >= INT_MAX
    case Some(w) =>
      && w < curr && Fits(h[w], size)
      && winning == h[w].size - size < INT_MAX
      && (forall j :: 0 <= j < curr && Fits(h[j], size) ==> h[j].size - size >= winning)
      && (forall j :: 0 <= j < w && Fits(h[j], size) ==> h[j].size - size > winning)
  }

  function BestFitFrom(h: Heap, size: nat, curr: nat, winner: Option<nat>, winning: nat, last: Option<nat>): (r: Search)
    requires curr <= |h|
    requires curr == 0 ==> last == Head(h)
    requires curr > 0 ==> last == Some(curr - 1)
    requires BestSoFar(h, size, curr, winner, winning)
    ensures r.found.Some? ==> var w := r.found.value;
      w < |h| && Fits(h[w], size) && BestSoFar(h, size, |h|, r.found, h[w].size - size)
    ensures r.found.None? ==> BestSoFar(h, size, |h|, None, INT_MAX)
    ensures r.last == Tail(h)
    decreases |h| - curr
  {
    if curr == |h| then Search(winner, last)
    else if !Fits(h[curr], size) then BestFitFrom(h, size, curr + 1, winner, winning, Some(curr))
    else if h[curr].size - size < winning then
      BestTake(h, size, curr, winner, winning);
      BestFitFrom(h, size, curr + 1, Some(curr), h[curr].size - size, Some(curr))
    else
      BestKeep(h, size, curr, winner, winning);
      BestFitFrom(h, size, curr + 1, winner, winning, Some(curr))
  }

  /** A fitting block with a strictly smaller remainder becomes the winner. */
  lemma {:induction false} BestTake(h: Heap, size: nat, curr: nat, winner: Option<nat>, winning: nat)
    requires curr < |h| && Fits(h[curr], size)
    requires BestSoFar(h, size, curr, winner, winning)
    requires h[curr].size - size < winning
    ensures BestSoFar(h, size, curr + 1, Some(curr), h[curr].size - size)
  {
  }

  /** A fitting block whose remainder is not smaller leaves the winner in place. */
  lemma {:induction false} BestKeep(h: Heap, size: nat, curr: nat, winner: Option<nat>, winning: nat)
    requires curr < |h| && Fits(h[curr], size)
    requires BestSoFar(h, size, curr, winner, winning)
    requires h[curr].size - size >= winning
    ensures BestSoFar(h, size, curr + 1, winner, winning)
  {
  }

  /** Best fit: the fitting block with the least remainder, the earliest one on a tie.
      The running remainder starts at INT_MAX, so a block whose remainder is INT_MAX
      or more is never chosen. */
  function BestFit(h: Heap, size: nat): (r: Search)
    ensures r.found.Some? ==> var w := r.found.value;
      && w < |h| && Fits(h[w], size) && h[w].size - size < INT_MAX
      && (forall j :: 0 <= j < |h| && Fits(h[j], size) ==> h[j].size - size >= h[w].size - size)
      && (forall j :: 0 <= j < w && Fits(h[j], size) ==> h[j].size - size > h[w].size - size)
    ensures r.found.None? <==> forall j :: 0 <= j < |h| && Fits(h[j], size) ==> h[j].size - size >= INT_MAX
    ensures (forall j :: 0 <= j < |h| ==> h[j].size < INT_MAX) ==>
      (r.found.None? <==> forall j :: 0 <= j < |h| ==> !Fits(h[j], size))
    ensures r.last == Tail(h)
  {
    BestFitFrom(h, size, 0, None, INT_MAX, Head(h))
  }

  // ---------------------------------------------------------------------------
  // Worst fit (src/malloc.c:123-143)
  // ---------------------------------------------------------------------------

  /** The running winner of worst fit. The remainder is kept in a signed int that
      starts at 0 and is compared as a size_t; a block wins only with a remainder
      strictly above it. Maximality is claimed only while remainders fit an int. */
  predicate WorstSoFar(h: Heap, size: nat, curr: nat, winner: Option<nat>, winning: int)
    requires curr <= |h|
  {
    match winner
    case None =>
      && winning == 0
      && forall j :: 0 <= j < curr && Fits(h[j], size) ==> h[j].size == size
    case Some(w) =>
      && w < curr && Fits(h[w], size) && h[w].size > size
      && winning == ToInt(h[w].size - size)
      && (RemaindersFitInt(h, size) ==>
            && (forall j :: 0 <= j < curr && Fits(h[j], size) ==> h[j].size - size <= h[w].size - size)
            && (forall j :: 0 <= j < w && Fits(h[j], size) ==> h[j].size - size < h[w].size - size))
  }

  function WorstFitFrom(h: Heap, size: nat, curr: nat, winner: Option<nat>, winning: int, last: Option<nat>): (r: Search)
    requires curr <= |h|
    requires curr == 0 ==> last == Head(h)
    requires curr > 0 ==> last == Some(curr - 1)
    requires WorstSoFar(h, size, curr, winner, winning)
    ensures r.found.Some? ==> var w := r.found.value;
      w < |h| && Fits(h[w], size) && WorstSoFar(h, size, |h|, r.found, ToInt(h[w].size - size))
    ensures r.found.None? ==> WorstSoFar(h, size, |h|, None, 0)
    ensures r.last == Tail(h)
    decreases |h| - curr
  {
    if curr == |h| then Search(winner, last)
    else if !Fits(h[curr], size) then WorstFitFrom(h, size, curr + 1, winner, winning, Some(curr))
    else if h[curr].size - size > ToSize(winning) then
      WorstTake(h, size, curr, winner, winning);
      WorstFitFrom(h, size, curr + 1, Some(curr), ToInt(h[curr].size - size), Some(curr))
    else
      WorstKeep(h, size, curr, winner, winning);
      WorstFitFrom(h, size, curr + 1, winner, winning, Some(curr))
  }

  /** A fitting block whose remainder beats the running one becomes the winner. */
  lemma {:induction false} WorstTake(h: Heap, size: nat, curr: nat, winner: Option<nat>, winning: int)
    requires curr < |h| && Fits(h[curr], size)
    requires WorstSoFar(h, size, curr, winner, winning)
    requires h[curr].size - size > ToSize(winning)
    ensures WorstSoFar(h, size, curr + 1, Some(curr), ToInt(h[curr].size - size))
  {
    if winner.Some? && RemaindersFitInt(h, size) {
      assert ToSize(winning) == h[winner.value].size - size;
    }
  }

  /** A fitting block whose remainder does not beat the running one leaves it in place. */
  lemma {:induction false} WorstKeep(h: Heap, size: nat, curr: nat, winner: Option<nat>, winning: int)
    requires curr < |h| && Fits(h[curr], size)
    requires WorstSoFar(h, size, curr, winner, winning)
    requires h[curr].size - size <= ToSize(winning)
    ensures WorstSoFar(h, size, curr + 1, winner, winning)
  {
    if winner.Some? && RemaindersFitInt(h, size) {
      assert ToSize(winning) == h[winner.value].size - size;
    }
  }

  /** Worst fit: the fitting block with the greatest remainder, the earliest one on a
      tie. An exact fit (remainder 0) is never chosen, so a list whose only fits are
      exact gives NULL. */
  function WorstFit(h: Heap, size: nat): (r: Search)
    ensures r.found.Some? ==> var w := r.found.value;
      w < |h| && Fits(h[w], size) && h[w].size > size
    ensures r.found.None? <==> forall j :: 0 <= j < |h| && Fits(h[j], size) ==> h[j].size == size
    ensures r.found.Some? && RemaindersFitInt(h, size) ==> var w := r.found.value;
      && (forall j :: 0 <= j < |h| && Fits(h[j], size) ==> h[j].size - size <= h[w].size - size)
      && (forall j :: 0 <= j < w && Fits(h[j], size) ==> h[j].size - size < h[w].size - size)
    ensures r.last == Tail(h)
  {
    WorstFitFrom(h, size, 0, None, 0, Head(h))
  }

  // ---------------------------------------------------------------------------
  // Strategy selection
  // ---------------------------------------------------------------------------

  /** The placement policy fixed at build time (the FIT, BEST and WORST macros). */
  datatype Strategy = First | Best | Worst

  /** `findFreeBlock` under the configured strategy: whatever it returns is free and
      large enough, and when it returns NULL `last` is the tail, where growth appends. */
  function FindFreeBlock(strategy: Strategy, h: Heap, size: nat): (r: Search)
    ensures r.found.Some? ==> r.found.value < |h| && Fits(h[r.found.value], size)
    ensures r.found.None? ==> r.last == Tail(h)
    ensures strategy == First ==> (r.found.None? <==> forall j :: 0 <= j < |h| ==> !Fits(h[j], size))
  {
    match strategy
    case First => FirstFit(h, size)
    case Best => BestFit(h, size)
    case Worst => WorstFit(h, size)
  }

  // ---------------------------------------------------------------------------
  // Strategies compared
  // ---------------------------------------------------------------------------

  /** Free blocks of 100, 20 and 50 bytes in address order and a 20-byte request:
      first fit and worst fit take the 100-byte block, best fit the exact 20-byte one. */
  lemma {:induction false} StrategiesDiverge()
    ensures var h := [Block(100, true), Block(20, true), Block(50, true)];
      && FirstFit(h, 20).found == Some(0)
      && BestFit(h, 20).found == Some(1)
      && WorstFit(h, 20).found == Some(0)
  {
    var h := [Block(100, true), Block(20, true), Block(50, true)];
    assert RemaindersFitInt(h, 20);
    assert Fits(h[0], 20) && Fits(h[1], 20);
  }

  /** Worst fit passes over an exact fit: a single free 8-byte block and an 8-byte
      request give NULL, and the caller grows the heap instead. */
  lemma {:induction false} WorstFitSkipsExactFit()
    ensures WorstFit([Block(8, true)], 8).found == None
    ensures FirstFit([Block(8, true)], 8).found == Some(0)
  {
    assert Fits([Block(8, true)][0], 8);
  }
}
