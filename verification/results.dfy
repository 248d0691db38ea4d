/** Partial results: `Option` for the URL parser, which may reject its input, and
    `Result` for the playlist rewriter, whose attribute branch can throw. */
module Results {

  datatype Option<+T> = None | Some(value: T) {

    /** The carried value, or `default` when there is none. */
    function GetOr(default: T): T {
      match this
      case Some(v) => v
      case None => default
    }
  }

  datatype Result<+T, +E> = Success(value: T) | Failure(error: E)

  /** Applies `f` to each element in order and stops at the first failure, as a
      loop does whose body may throw. */
  function MapUntilFailure<A, B, E>(f: A -> Result<B, E>, xs: seq<A>): (r: Result<seq<B>, E>)
    ensures r.Success? <==> forall i :: 0 <= i < |xs| ==> f(xs[i]).Success?
    ensures r.Success? ==> |r.value| == |xs| && forall i :: 0 <= i < |xs| ==> f(xs[i]) == Success(r.value[i])
    ensures r.Failure? ==> exists i :: 0 <= i < |xs| && f(xs[i]) == Failure(r.error)
                                       && forall j :: 0 <= j < i ==> f(xs[j]).Success?
    decreases |xs|
  {
    if |xs| == 0 then Success([])
    else
      match f(xs[0])
      case Failure(e) => Failure(e)
      case Success(first) =>
        var rest := MapUntilFailure(f, xs[1..]);
        assert forall i :: 1 <= i < |xs| ==> xs[i] == xs[1..][i - 1];
        match rest
        case Failure(e) =>
          assert exists i :: 1 <= i < |xs| && f(xs[i]) == Failure(e)
                             && forall j :: 0 <= j < i ==> f(xs[j]).Success? by {
            var i :| 0 <= i < |xs[1..]| && f(xs[1..][i]) == Failure(e)
                     && forall j :: 0 <= j < i ==> f(xs[1..][j]).Success?;
            assert forall j :: 0 <= j < i + 1 ==> f(xs[j]).Success? by {
              forall j | 0 <= j < i + 1
                ensures f(xs[j]).Success?
              {
                if j > 0 {
                  assert xs[j] == xs[1..][j - 1];
                }
              }
            }
            assert f(xs[i + 1]) == Failure(e);
          }
          Failure(e)
        case Success(others) => Success([first] + others)
  }
}
