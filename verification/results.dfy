/** Mapping a fallible operation over a list, as Python's
    `list(map(f, xs))` does when `f` may raise: the results in order, or the
    first failure. */
module Results {
  import opened Wrappers

  function MapResult<A, B, E>(xs: seq<A>, f: A -> Result<B, E>): (r: Result<seq<B>, E>)
    ensures r.Ok? <==> forall i :: 0 <= i < |xs| ==> f(xs[i]).Ok?
    ensures r.Ok? ==> |r.value| == |xs|
    ensures r.Ok? ==> forall i :: 0 <= i < |xs| ==> f(xs[i]) == Ok(r.value[i])
    ensures r.Err? ==> exists i :: 0 <= i < |xs| && f(xs[i]) == Err(r.error)
    decreases |xs|
  {
    if xs == [] then Ok([])
    else
      assert forall i :: 1 <= i < |xs| ==> xs[i] == xs[1..][i - 1];
      match f(xs[0])
      case Err(e) => Err(e)
      case Ok(b) =>
        match MapResult(xs[1..], f)
        case Err(e) =>
          ghost var i :| 0 <= i < |xs| - 1 && f(xs[1..][i]) == Err(e);
          assert f(xs[i + 1]) == Err(e);
          Err(e)
        case Ok(rest) =>
          var r := [b] + rest;
          assert forall i :: 1 <= i < |xs| ==> r[i] == rest[i - 1];
          Ok(r)
  }

  /** The first element that fails decides the error. */
  lemma {:induction false} MapResultFirstError<A, B, E>(xs: seq<A>, f: A -> Result<B, E>, k: nat)
    requires k < |xs| && f(xs[k]).Err?
    requires forall j :: 0 <= j < k ==> f(xs[j]).Ok?
    ensures MapResult(xs, f) == Err(f(xs[k]).error)
    decreases k
  {
    if k > 0 {
      assert forall j :: 0 <= j < k - 1 ==> xs[1..][j] == xs[j + 1];
      MapResultFirstError(xs[1..], f, k - 1);
    }
  }

  /** Mapping over a list with one more element at the front. */
  lemma {:induction false} MapResultCons<A, B, E>(x: A, xs: seq<A>, f: A -> Result<B, E>)
    ensures MapResult([x] + xs, f)
            == match f(x)
               case Err(e) => Err(e)
               case Ok(b) =>
                 match MapResult(xs, f)
                 case Err(e) => Err(e)
                 case Ok(rest) => Ok([b] + rest)
  {
    assert ([x] + xs)[0] == x && ([x] + xs)[1..] == xs;
  }
}
