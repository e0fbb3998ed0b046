/** Failure-carrying values shared by the other modules. */
module Results {

  /** A value that may be absent (a lookup miss, a rejected parse). */
  datatype Option<+T> = None | Some(value: T)

  /** A computation that either succeeds with a value or fails with an error;
      models an exception that propagates out of the source's call. */
  datatype Result<+T, +E> = Ok(value: T) | Err(error: E)

  /** Every value of `results` when all of them succeed; otherwise the error of
      the first failure, as a loop that stops at the first exception does. */
  function AllOk<T(==), E(==)>(results: seq<Result<T, E>>): (r: Result<seq<T>, E>)
    ensures r.Ok? ==> |r.value| == |results| && forall i :: 0 <= i < |results| ==> results[i] == Ok(r.value[i])
    ensures r.Ok? <==> forall i :: 0 <= i < |results| ==> results[i].Ok?
    ensures r.Err? ==> exists i :: && 0 <= i < |results| && results[i] == Err(r.error)
                                   && forall k :: 0 <= k < i ==> results[k].Ok?
  {
    if |results| == 0 then Ok([])
    else
      match results[0]
      case Err(e) => Err(e)
      case Ok(first) =>
        match AllOk(results[1..])
        case Err(e) =>
          var i :| && 0 <= i < |results[1..]| && results[1..][i] == Err(e)
                   && forall k :: 0 <= k < i ==> results[1..][k].Ok?;
          assert results[i + 1] == Err(e);
          assert forall k :: 0 <= k < i + 1 ==> results[k].Ok? by {
            forall k | 0 <= k < i + 1 ensures results[k].Ok? {
              if k > 0 { assert results[k] == results[1..][k - 1]; }
            }
          }
          Err(e)
        case Ok(rest) =>
          assert forall i :: 1 <= i < |results| ==> results[i] == results[1..][i - 1];
          Ok([first] + rest)
  }
}
