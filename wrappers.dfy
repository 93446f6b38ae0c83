/** Failure-carrying wrappers shared by every module of the model. */
module Wrappers {

  /** An optional value (Rust's `Option`). */
  datatype Option<+T> = None | Some(value: T)

  /** A value or an error (Rust's `Result`). */
  datatype Result<+T, +E> = Success(value: T) | Failure(error: E)

  /** `f` applied to every element, in order. */
  function Map<A, B>(f: A -> B, s: seq<A>): (r: seq<B>)
    ensures |r| == |s| && forall i :: 0 <= i < |s| ==> r[i] == f(s[i])
  {
    seq(|s|, i requires 0 <= i < |s| => f(s[i]))
  }

  /** Collecting results into a result of a sequence: every value when all
      succeed, otherwise the first error. */
  function Collect<T, E>(rs: seq<Result<T, E>>): (r: Result<seq<T>, E>)
    ensures r.Success? <==> forall i :: 0 <= i < |rs| ==> rs[i].Success?
    ensures r.Success? ==> |r.value| == |rs| && forall i :: 0 <= i < |rs| ==> rs[i] == Success(r.value[i])
    ensures r.Failure? ==> Failure(r.error) in rs
  {
    if rs == [] then Success([])
    else match rs[0]
      case Failure(e) => Failure(e)
      case Success(v) =>
        match Collect(rs[1..])
        case Failure(e) => Failure(e)
        case Success(vs) => Success([v] + vs)
  }

  /** The error of a failed collection is that of the first failure. */
  lemma {:induction false} CollectFirstFailure<T, E>(rs: seq<Result<T, E>>, j: nat)
    requires j < |rs| && rs[j].Failure?
    requires forall i :: 0 <= i < j ==> rs[i].Success?
    ensures Collect(rs) == Failure(rs[j].error)
  {
    if j > 0 {
      assert rs[1..][j - 1] == rs[j];
      CollectFirstFailure(rs[1..], j - 1);
    }
  }

  /** Collecting successes gives back their values. */
  lemma CollectSuccesses<T, E>(rs: seq<Result<T, E>>, vs: seq<T>)
    requires |rs| == |vs| && forall i :: 0 <= i < |rs| ==> rs[i] == Success(vs[i])
    ensures Collect(rs) == Success(vs)
  {
    var r := Collect(rs);
    assert r.Success?;
    assert r.value == vs by {
      forall i | 0 <= i < |vs|
        ensures r.value[i] == vs[i]
      {
        assert rs[i] == Success(r.value[i]);
      }
    }
  }
}
