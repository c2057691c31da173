/** The selection rule shared by every search in the scripts: walk the
    candidates in order, keep the current best, and replace it only on a
    strictly greater value, so the first maximum wins. */
module Argmax {

  /** `k` is the first index in `[0, n)` where `h` reaches its maximum. */
  ghost predicate IsFirstMax(h: nat -> real, n: nat, k: int) {
    && 0 <= k < n
    && (forall i :: 0 <= i < n ==> h(i) <= h(k))
    && (forall i :: 0 <= i < k ==> h(i) < h(k))
  }

  /** The loop `if h > best_h: best = ...` over indices `0 .. n-1`, seeded
      with `-inf`; `-1` when there is nothing to scan. */
  function FirstArgmax(h: nat -> real, n: nat): (k: int)
    ensures n == 0 <==> k == -1
    ensures n > 0 ==> IsFirstMax(h, n, k)
  {
    if n == 0 then -1
    else
      var k := FirstArgmax(h, n - 1);
      if k == -1 || h(n - 1) > h(k) then n - 1 else k
  }

  /** The first maximum is unique, so any index with that property is the
      one the scan returns. */
  lemma FirstMaxUnique(h: nat -> real, n: nat, k: int)
    requires IsFirstMax(h, n, k)
    ensures FirstArgmax(h, n) == k
  {
  }

  /** The scan looks at `h` only on `[0, n)`. */
  lemma {:induction false} FirstArgmaxLocal(h1: nat -> real, h2: nat -> real, n: nat)
    requires forall i :: 0 <= i < n ==> h1(i) == h2(i)
    ensures FirstArgmax(h1, n) == FirstArgmax(h2, n)
  {
    if n > 0 {
      FirstArgmaxLocal(h1, h2, n - 1);
    }
  }
}
