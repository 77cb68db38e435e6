/** Sequence helpers: the "append the non-None results in order" pattern of every handler loop. */
module Seqs {
  import opened Wrappers

  /** The present results of `f` over `xs`, in the order of `xs`. */
  function FilterMap<T, U>(xs: seq<T>, f: T -> Option<U>): (r: seq<U>)
    ensures |r| <= |xs|
  {
    if xs == [] then []
    else (if f(xs[0]).Some? then [f(xs[0]).value] else []) + FilterMap(xs[1..], f)
  }

  /** Processing one more element at the end appends at most its own result. */
  lemma {:induction false} FilterMapSnoc<T, U>(xs: seq<T>, x: T, f: T -> Option<U>)
    ensures FilterMap(xs + [x], f) == FilterMap(xs, f) + (if f(x).Some? then [f(x).value] else [])
  {
    if xs == [] {
      assert [x][1..] == [];
    } else {
      assert (xs + [x])[1..] == xs[1..] + [x];
      FilterMapSnoc(xs[1..], x, f);
    }
  }

  /** Every result comes from some element of the input, and every present result is kept. */
  lemma {:induction false} FilterMapMember<T, U>(xs: seq<T>, f: T -> Option<U>, u: U)
    ensures u in FilterMap(xs, f) <==> exists i :: 0 <= i < |xs| && f(xs[i]) == Some(u)
  {
    if xs != [] {
      FilterMapMember(xs[1..], f, u);
      if exists i :: 0 <= i < |xs| && f(xs[i]) == Some(u) {
        var i :| 0 <= i < |xs| && f(xs[i]) == Some(u);
        if i > 0 {
          assert xs[1..][i - 1] == xs[i];
        }
      }
      if exists i :: 0 <= i < |xs| - 1 && f(xs[1..][i]) == Some(u) {
        var i :| 0 <= i < |xs| - 1 && f(xs[1..][i]) == Some(u);
        assert xs[i + 1] == xs[1..][i];
      }
    }
  }
}
