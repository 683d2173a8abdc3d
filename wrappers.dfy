/** Option and Result, the two failure-carrying types the source returns. */
module Wrappers {

  datatype Option<+T> = None | Some(value: T)

  datatype Result<+R, +E> = Ok(value: R) | Err(error: E)

  /**
   * Collecting an iterator of results into a `Result` of a vector: the
   * first error stops the collection, otherwise every value, in order.
   */
  function CollectResults<T, U, E>(xs: seq<T>, f: T -> Result<U, E>): (r: Result<seq<U>, E>)
    decreases |xs|
  {
    if |xs| == 0 then Ok([])
    else match f(xs[0])
      case Err(e) => Err(e)
      case Ok(v) =>
        match CollectResults(xs[1..], f)
        case Err(e) => Err(e)
        case Ok(vs) => Ok([v] + vs)
  }

  /** When every element succeeds, the collection holds their values in order. */
  lemma {:induction false} CollectResultsOk<T, U, E>(xs: seq<T>, f: T -> Result<U, E>, vs: seq<U>)
    requires |vs| == |xs|
    requires forall j :: 0 <= j < |xs| ==> f(xs[j]) == Ok(vs[j])
    ensures CollectResults(xs, f) == Ok(vs)
    decreases |xs|
  {
    if |xs| > 0 {
      assert f(xs[0]) == Ok(vs[0]);
      assert forall j :: 0 <= j < |xs| - 1 ==> xs[1..][j] == xs[j + 1] && vs[1..][j] == vs[j + 1];
      CollectResultsOk(xs[1..], f, vs[1..]);
      assert vs == [vs[0]] + vs[1..];
    }
  }

  /** The first element that fails decides the error. */
  lemma {:induction false} CollectResultsErr<T, U, E>(xs: seq<T>, f: T -> Result<U, E>, k: nat)
    requires k < |xs| && f(xs[k]).Err?
    requires forall j :: 0 <= j < k ==> f(xs[j]).Ok?
    ensures CollectResults(xs, f) == Err(f(xs[k]).error)
    decreases |xs|
  {
    if k > 0 {
      assert f(xs[0]).Ok?;
      assert forall j :: 0 <= j < k - 1 ==> xs[1..][j] == xs[j + 1];
      CollectResultsErr(xs[1..], f, k - 1);
    }
  }

  /** A collection that succeeds holds every element's value; one that fails carries the first element's error. */
  lemma {:induction false} CollectResultsShape<T, U, E>(xs: seq<T>, f: T -> Result<U, E>)
    ensures CollectResults(xs, f).Ok? ==> (|CollectResults(xs, f).value| == |xs| &&
      forall j :: 0 <= j < |xs| ==> f(xs[j]) == Ok(CollectResults(xs, f).value[j]))
    ensures CollectResults(xs, f).Err? ==> exists k :: (0 <= k < |xs| && f(xs[k]) == Err(CollectResults(xs, f).error) &&
      forall j :: 0 <= j < k ==> f(xs[j]).Ok?)
    decreases |xs|
  {
    if |xs| > 0 && f(xs[0]).Ok? {
      CollectResultsShape(xs[1..], f);
      assert forall j :: 0 <= j < |xs| - 1 ==> xs[1..][j] == xs[j + 1];
      if CollectResults(xs, f).Err? {
        var k :| 0 <= k < |xs| - 1 && f(xs[1..][k]) == Err(CollectResults(xs[1..], f).error) &&
          forall j :: 0 <= j < k ==> f(xs[1..][j]).Ok?;
        assert f(xs[k + 1]) == Err(CollectResults(xs, f).error);
        forall j | 1 <= j < k + 1
          ensures f(xs[j]).Ok?
        {
          assert f(xs[1..][j - 1]).Ok?;
        }
      }
    }
  }
}
