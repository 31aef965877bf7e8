/** Unsigned counters and finite sets of indices, shared by the completion protocols. */
module Counting {

  /** Largest value of a `size_t`. */
  const SIZE_MAX: nat := 0xFFFF_FFFF_FFFF_FFFF

  /** `n--` on a `size_t`. */
  function Decremented(n: nat): nat { if n == 0 then SIZE_MAX else n - 1 }

  /** A set of numbers below `n` has at most `n` elements, and `n` only if it has all of them. */
  lemma {:induction false} AtMost(s: set<nat>, n: nat)
    requires forall i <- s :: i < n
    ensures |s| <= n && (|s| == n ==> forall i: nat :: i < n ==> i in s)
  {
    if n == 0 {
      assert s == {};
    } else {
      AtMost(s - {n - 1}, n - 1);
      if n - 1 in s { assert |s| == |s - {n - 1}| + 1; } else { assert s - {n - 1} == s; }
    }
  }

  lemma {:induction false} AtLeast(s: set<nat>, n: nat)
    requires forall i :: 0 <= i < n ==> i in s
    ensures |s| >= n
  {
    if n > 0 { AtLeast(s - {n - 1}, n - 1); }
  }
}
