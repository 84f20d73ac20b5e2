/** Result types shared by the job codec and the job table. */
module Wrappers {

  /** An optional value, used for PHP `null` and for `strpos` returning `false`. */
  datatype Option<+T> = None | Some(value: T)

  /** The value of a call that either returns normally or throws. */
  datatype Result<+T, +E> = Ok(value: T) | Err(error: E)

  /** The value of a call that returns nothing but may throw. */
  datatype Outcome<+E> = Pass | Fail(error: E)

  /** Applies `f` to the items in order, stopping at the first failure:
      a `foreach` whose body may throw. */
  function MapResult<A, B, E>(xs: seq<A>, f: A -> Result<B, E>): (r: Result<seq<B>, E>)
    ensures r.Ok? <==> forall m | 0 <= m < |xs| :: f(xs[m]).Ok?
    ensures r.Ok? ==> |r.value| == |xs|
    ensures r.Ok? ==> forall m | 0 <= m < |xs| :: f(xs[m]) == Ok(r.value[m])
    ensures r.Err? ==> exists m | 0 <= m < |xs| :: f(xs[m]) == Err(r.error) && forall n | 0 <= n < m :: f(xs[n]).Ok?
    decreases |xs|
  {
    if |xs| == 0 then Ok([])
    else
      match f(xs[0])
      case Err(e) => Err(e)
      case Ok(y) =>
        var rest := MapResult(xs[1..], f);
        assert forall m | 1 <= m < |xs| :: xs[1..][m - 1] == xs[m];
        match rest
        case Err(e) => Err(e)
        case Ok(ys) => Ok([y] + ys)
  }
}
