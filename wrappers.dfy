/** Optional values and results with an error message, used across the generator model. */
module Wrappers {

  /** A value that may be absent (PHP `null`). */
  datatype Option<+T> = None | Some(value: T)

  /** The outcome of an operation that the source may abort by throwing. */
  datatype Result<+T> = Ok(value: T) | Err(message: string)

  /**
    A `foreach` that appends `f` of each element in order and stops at the
    first error, as both schema parsers build their descriptor lists.
   */
  function Collect<S, T>(xs: seq<S>, f: S -> Result<T>): Result<seq<T>>
    decreases |xs|
  {
    if |xs| == 0 then Ok([])
    else match Collect(xs[..|xs| - 1], f)
      case Err(e) => Err(e)
      case Ok(ys) =>
        match f(xs[|xs| - 1])
          case Err(e) => Err(e)
          case Ok(y) => Ok(ys + [y])
  }

  /** One more element adds its result, or its error. */
  lemma CollectStep<S, T>(xs: seq<S>, f: S -> Result<T>, i: nat)
    requires i < |xs| && Collect(xs[..i], f).Ok?
    ensures f(xs[i]).Err? ==> Collect(xs[..i + 1], f) == Err(f(xs[i]).message)
    ensures f(xs[i]).Ok? ==> Collect(xs[..i + 1], f) == Ok(Collect(xs[..i], f).value + [f(xs[i]).value])
  {
    assert xs[..i + 1][..i] == xs[..i];
  }

  /** Once a prefix fails, the whole walk fails with the same error. */
  lemma {:induction false} CollectErrorPersists<S, T>(xs: seq<S>, f: S -> Result<T>, i: nat)
    requires i <= |xs| && Collect(xs[..i], f).Err?
    ensures Collect(xs, f) == Collect(xs[..i], f)
    decreases |xs| - i
  {
    if i < |xs| {
      assert xs[..i + 1][..i] == xs[..i];
      CollectErrorPersists(xs, f, i + 1);
    } else {
      assert xs[..i] == xs;
    }
  }

  /** A successful walk is the walk of all but the last element with the last result appended. */
  lemma CollectSnoc<S, T>(xs: seq<S>, f: S -> Result<T>)
    requires |xs| > 0 && Collect(xs, f).Ok?
    ensures Collect(xs[..|xs| - 1], f).Ok? && f(xs[|xs| - 1]).Ok?
    ensures Collect(xs, f).value == Collect(xs[..|xs| - 1], f).value + [f(xs[|xs| - 1]).value]
  {
  }

  /** A successful walk has one result per element. */
  lemma {:induction false} CollectLength<S, T>(xs: seq<S>, f: S -> Result<T>)
    requires Collect(xs, f).Ok?
    ensures |Collect(xs, f).value| == |xs|
    decreases |xs|
  {
    if |xs| > 0 {
      CollectSnoc(xs, f);
      CollectLength(xs[..|xs| - 1], f);
    }
  }

  /** The `i`-th result of a successful walk is `f` of the `i`-th element. */
  lemma {:induction false} CollectAt<S, T>(xs: seq<S>, f: S -> Result<T>, i: nat)
    requires Collect(xs, f).Ok? && i < |xs|
    ensures f(xs[i]).Ok?
    ensures |Collect(xs, f).value| == |xs|
    ensures Collect(xs, f).value[i] == f(xs[i]).value
    decreases |xs|
  {
    var init := xs[..|xs| - 1];
    CollectSnoc(xs, f);
    CollectLength(xs, f);
    CollectLength(init, f);
    if i < |init| {
      CollectAt(init, f, i);
      assert init[i] == xs[i];
    }
  }
}
