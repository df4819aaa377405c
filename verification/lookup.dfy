/** The first-match searches the bot performs on arrays:
    `Array.prototype.findIndex` and `Array.prototype.find`. */
module Lookup {
  import opened Wrappers

  /** The index of the first element of `xs`, from index `j` on, that
      satisfies `p`; `None` when there is none. */
  function FirstIndex<T>(xs: seq<T>, p: T -> bool, j: nat): (r: Option<nat>)
    requires j <= |xs|
    ensures r.Some? ==> j <= r.value < |xs| && p(xs[r.value])
    ensures r.Some? ==> forall k | j <= k < r.value :: !p(xs[k])
    ensures r.None? <==> forall k | j <= k < |xs| :: !p(xs[k])
    decreases |xs| - j
  {
    if j == |xs| then None
    else if p(xs[j]) then Some(j)
    else FirstIndex(xs, p, j + 1)
  }

  /** `xs.find(p)`: the first element satisfying `p`. */
  function Find<T>(xs: seq<T>, p: T -> bool): (r: Option<T>)
    ensures r.None? <==> forall k | 0 <= k < |xs| :: !p(xs[k])
    ensures r.Some? ==> exists i | 0 <= i < |xs| :: xs[i] == r.value && p(xs[i]) && forall k | 0 <= k < i :: !p(xs[k])
  {
    match FirstIndex(xs, p, 0)
    case None => None
    case Some(i) => Some(xs[i])
  }

  /** Whatever the first match is, it is the element at the first index
      satisfying `p`: a later match is never returned. */
  lemma FindIsFirst<T>(xs: seq<T>, p: T -> bool, i: nat)
    requires i < |xs| && p(xs[i])
    requires forall k | 0 <= k < i :: !p(xs[k])
    ensures Find(xs, p) == Some(xs[i])
    ensures FirstIndex(xs, p, 0) == Some(i)
  {
    assert FirstIndex(xs, p, 0).Some?;
  }
}
