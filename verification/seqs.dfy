/** Sequence helpers shared by both upload dialogs: an optional value, pairwise
    distinctness, and the counting argument that bounds how many distinct values
    can all be members of one finite list (the reason both renaming loops stop). */
module Seqs {

  datatype Option<T> = None | Some(value: T)

  /** `Array.prototype.pop` read as a value: the last element, or nothing
      (`undefined`) for an empty array. */
  function Pop<T>(xs: seq<T>): (r: Option<T>)
    ensures r.Some? <==> |xs| > 0
    ensures r.Some? ==> r.value == xs[|xs| - 1] && xs == xs[..|xs| - 1] + [r.value]
  {
    if |xs| == 0 then None else Some(xs[|xs| - 1])
  }

  /** No two positions of `xs` hold the same value. */
  predicate Distinct<T(==)>(xs: seq<T>)
  {
    forall i, j :: 0 <= i < j < |xs| ==> xs[i] != xs[j]
  }

  /** `ys` with every occurrence of `x` dropped. */
  function Without<T(==,!new)>(ys: seq<T>, x: T): (r: seq<T>)
    ensures |r| <= |ys|
    ensures x in ys ==> |r| < |ys|
    ensures forall y :: y in r <==> y in ys && y != x
  {
    if |ys| == 0 then []
    else if ys[0] == x then Without(ys[1..], x)
    else [ys[0]] + Without(ys[1..], x)
  }

  /** Pigeonhole: a list of pairwise distinct values that all occur in `ys`
      is no longer than `ys`. */
  lemma {:induction false} DistinctMembersBound<T(!new)>(xs: seq<T>, ys: seq<T>)
    requires Distinct(xs)
    requires forall x :: x in xs ==> x in ys
    ensures |xs| <= |ys|
    decreases |xs|
  {
    if |xs| > 0 {
      var last := xs[|xs| - 1];
      var rest := xs[..|xs| - 1];
      var ys' := Without(ys, last);
      forall x | x in rest
        ensures x in ys'
      {
        var i :| 0 <= i < |rest| && rest[i] == x;
        assert xs[i] == x && xs[i] != last;
      }
      DistinctMembersBound(rest, ys');
    }
  }
}
