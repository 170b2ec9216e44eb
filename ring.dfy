/** Index arithmetic of a circular buffer. */
module Ring {

  /** Reduces an index that has run at most one lap past the end. */
  function Wrap(i: nat, cap: nat): (r: nat)
    requires 0 < cap && i < 2 * cap
    ensures r < cap
  {
    if i < cap then i else i - cap
  }

  /** The slot `j` places after `start`, for `j` within one lap. */
  function Slot(cap: nat, start: nat, j: nat): (r: nat)
    requires 0 < cap && start < cap && j <= cap
    ensures r < cap
  {
    Wrap(start + j, cap)
  }

  /** Within one lap, different steps from the same start reach different slots. */
  lemma SlotInjective(cap: nat, start: nat, j: nat, k: nat)
    requires 0 < cap && start < cap && j < cap && k < cap
    ensures Slot(cap, start, j) == Slot(cap, start, k) ==> j == k
  {
  }

  /** One slot after the slot before `f` is `f` itself, so stepping `j + 1`
      from there lands where stepping `j` from `f` does. */
  lemma SlotAfterPred(cap: nat, f: nat, j: nat)
    requires 0 < cap && f < cap && j < cap
    ensures Slot(cap, Wrap(f + cap - 1, cap), j + 1) == Wrap(f + j, cap)
  {
  }

  /** Entry `k` of `c` sits `k` slots after slot `f` of the array `a`. */
  ghost predicate Laid<T>(c: seq<T>, a: seq<T>, f: nat, cap: nat)
    requires 0 < cap && |a| == cap && f < cap && |c| <= cap
  {
    forall k :: 0 <= k < |c| ==> c[k] == a[Wrap(f + k, cap)]
  }
}
