/** Option and Result: the model's rendering of Kotlin's nullable values and exceptions. */
module Wrappers {

  /** A value that may be absent (Kotlin's `T?`). */
  datatype Option<+T> = None | Some(value: T)

  /** The outcome of an operation that may throw: a value, or the error it threw. */
  datatype Result<+T, +E> = Ok(value: T) | Err(error: E) {

    predicate IsFailure() {
      Err?
    }

    function PropagateFailure<U>(): Result<U, E>
      requires Err?
    {
      Err(error)
    }

    function Extract(): T
      requires Ok?
    {
      value
    }
  }

  /** `e` is what the first element `f` fails on fails with. */
  ghost predicate FirstFailure<A, B, E>(f: A -> Result<B, E>, xs: seq<A>, e: E) {
    exists i :: 0 <= i < |xs| && f(xs[i]) == Err(e) && forall j :: 0 <= j < i ==> f(xs[j]).Ok?
  }

  /**
   * `xs.map(f)` for an `f` that may throw: every element mapped in order, or the
   * failure of the first element `f` throws on.
   */
  function MapResult<A, B, E>(f: A -> Result<B, E>, xs: seq<A>): (r: Result<seq<B>, E>)
    ensures r.Ok? ==> |r.value| == |xs| && forall i :: 0 <= i < |xs| ==> f(xs[i]) == Ok(r.value[i])
    ensures r.Err? ==> FirstFailure(f, xs, r.error)
  {
    if xs == [] then Ok([])
    else
      var head := f(xs[0]);
      if head.Err? then
        assert f(xs[0]) == Err(head.error);
        Err(head.error)
      else
        var rest := MapResult(f, xs[1..]);
        if rest.Err? then
          FirstFailureLater(f, xs, rest.error);
          Err(rest.error)
        else
          var r := [head.value] + rest.value;
          assert forall i :: 0 < i < |xs| ==> xs[i] == xs[1..][i - 1] && r[i] == rest.value[i - 1];
          Ok(r)
  }

  lemma FirstFailureLater<A, B, E>(f: A -> Result<B, E>, xs: seq<A>, e: E)
    requires |xs| > 0 && f(xs[0]).Ok? && FirstFailure(f, xs[1..], e)
    ensures FirstFailure(f, xs, e)
  {
    var k :| 0 <= k < |xs| - 1 && f(xs[1..][k]) == Err(e) && forall j :: 0 <= j < k ==> f(xs[1..][j]).Ok?;
    assert f(xs[k + 1]) == Err(e);
    forall j | 0 <= j < k + 1 ensures f(xs[j]).Ok? {
      if j > 0 {
        assert xs[j] == xs[1..][j - 1];
      }
    }
  }
}
