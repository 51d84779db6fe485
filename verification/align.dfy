/** Request alignment: the ALIGN4 macro (src/malloc.c:10). */
module Align {

  import opened Blocks

  /** ALIGN4(s) = (((s - 1) >> 2) << 2) + 4, evaluated in 64-bit unsigned arithmetic.
      The shift pair clears the two low bits of s - 1; the subtraction and the final
      addition wrap modulo 2^64, so s == 0 and the last three sizes below 2^64 come
      out as 0, which `malloc` then answers with NULL. */
  function Align4(s: nat): (r: nat)
    requires s < WORD
    ensures r < WORD
    ensures r % 4 == 0
    ensures 1 <= s <= WORD - 4 ==> s <= r < s + 4
    ensures r == 0 <==> s == 0 || s > WORD - 4
  {
    var pred := (s - 1) % WORD;
    ((pred / 4) * 4 + 4) % WORD
  }
}
