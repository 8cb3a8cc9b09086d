/** Failure-carrying values used by every pipeline: a missing match is `None`, a raised
    exception is `Failure`. */
module Wrappers {

  datatype Option<+T> = None | Some(value: T) {
    function GetOr(fallback: T): T {
      match this
      case Some(v) => v
      case None => fallback
    }
  }

  datatype Result<+R, +E> = Success(value: R) | Failure(error: E)

  /** The values present, in order. */
  function Somes<T>(xs: seq<Option<T>>): (r: seq<T>)
    ensures |r| <= |xs|
  {
    if xs == [] then []
    else (if xs[0].Some? then [xs[0].value] else []) + Somes(xs[1..])
  }

  /** A property every present value has, every kept value has. */
  lemma {:induction false} SomesKeep<T>(xs: seq<Option<T>>, p: T -> bool)
    requires forall k :: 0 <= k < |xs| && xs[k].Some? ==> p(xs[k].value)
    ensures forall k :: 0 <= k < |Somes(xs)| ==> p(Somes(xs)[k])
  {
    if xs != [] {
      SomesKeep(xs[1..], p);
    }
  }

  /** Dropping the absent values commutes with concatenation: what is kept keeps its order. */
  lemma {:induction false} SomesAppend<T>(xs: seq<Option<T>>, ys: seq<Option<T>>)
    ensures Somes(xs + ys) == Somes(xs) + Somes(ys)
  {
    if xs == [] {
      assert xs + ys == ys;
    } else {
      assert (xs + ys)[0] == xs[0];
      assert (xs + ys)[1..] == xs[1..] + ys;
      SomesAppend(xs[1..], ys);
      var h := if xs[0].Some? then [xs[0].value] else [];
      assert Somes(xs + ys) == h + Somes(xs[1..] + ys);
      assert Somes(xs) == h + Somes(xs[1..]);
    }
  }

  /** `f` applied to each element, in order. */
  function Map<A, B>(xs: seq<A>, f: A -> B): (r: seq<B>)
    ensures |r| == |xs|
    ensures forall k :: 0 <= k < |xs| ==> r[k] == f(xs[k])
  {
    seq(|xs|, k requires 0 <= k < |xs| => f(xs[k]))
  }

  lemma MapAppend<A, B>(xs: seq<A>, ys: seq<A>, f: A -> B)
    ensures Map(xs + ys, f) == Map(xs, f) + Map(ys, f)
  {
  }

  /** The sequences `f` gives for each element, concatenated in order. */
  function Flatten<A, B>(xs: seq<A>, f: A -> seq<B>): seq<B> {
    if xs == [] then [] else f(xs[0]) + Flatten(xs[1..], f)
  }

  lemma {:induction false} FlattenAppend<A, B>(xs: seq<A>, ys: seq<A>, f: A -> seq<B>)
    ensures Flatten(xs + ys, f) == Flatten(xs, f) + Flatten(ys, f)
  {
    if xs != [] {
      assert (xs + ys)[0] == xs[0];
      assert (xs + ys)[1..] == xs[1..] + ys;
      FlattenAppend(xs[1..], ys, f);
    } else {
      assert xs + ys == ys;
    }
  }

  lemma {:induction false} FlattenEmpty<A, B>(xs: seq<A>, f: A -> seq<B>)
    ensures Flatten(xs, f) == [] <==> forall k :: 0 <= k < |xs| ==> f(xs[k]) == []
  {
    if xs != [] {
      FlattenEmpty(xs[1..], f);
      assert forall k :: 1 <= k < |xs| ==> xs[1..][k - 1] == xs[k];
    }
  }
}
