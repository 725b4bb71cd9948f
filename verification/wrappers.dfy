/** Option and Result, the two failure-carrying shapes the model needs. */
module Wrappers {

  /** An optional value, as Rust's `Option`. */
  datatype Option<+T> = None | Some(value: T)

  /** A value or the reason the computation aborted. */
  datatype Result<+T, +E> = Success(value: T) | Failure(error: E)

  /**
   Every value of `rs` in order, or the error of the first failure: what a
   run that stops at its first failure leaves behind, with no partial output.
   */
  function Collect<T, E>(rs: seq<Result<T, E>>): (r: Result<seq<T>, E>)
    ensures r.Success? <==> forall n :: 0 <= n < |rs| ==> rs[n].Success?
    ensures r.Success? ==> |r.value| == |rs| && forall n :: 0 <= n < |rs| ==> rs[n] == Success(r.value[n])
    ensures r.Failure? ==>
      exists n :: 0 <= n < |rs| && rs[n] == Failure(r.error) &&
        forall m :: 0 <= m < n ==> rs[m].Success?
  {
    if |rs| == 0 then Success([])
    else
      match rs[0]
      case Failure(e) => Failure(e)
      case Success(v) =>
        var tail := rs[1..];
        match Collect(tail)
        case Failure(e) =>
          assert exists n :: 0 <= n < |rs| && rs[n] == Failure(e) && forall m :: 0 <= m < n ==> rs[m].Success? by {
            var n :| 0 <= n < |tail| && tail[n] == Failure(e) && forall m :: 0 <= m < n ==> tail[m].Success?;
            assert rs[n + 1] == tail[n];
            assert forall m :: 0 < m < n + 1 ==> rs[m] == tail[m - 1];
          }
          Failure(e)
        case Success(vs) =>
          var out := [v] + vs;
          assert forall n :: 0 < n < |rs| ==> rs[n] == tail[n - 1] && out[n] == vs[n - 1];
          Success(out)
  }
}
