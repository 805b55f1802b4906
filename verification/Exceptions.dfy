/** The one exception the schema interpreter lets escape.

    `KeyValue`'s indexer uses LINQ's `SingleOrDefault`, which throws an
    `InvalidOperationException` when more than one child matches the key.
    Nothing between the indexer and the callers of the schema loaders catches
    it, so a lookup's outcome is a `Result` and every loader step propagates a
    thrown exception with `:-`.
 */
module Exceptions {

  datatype Exception = MoreThanOneMatch

  datatype Result<+T> = Ok(value: T) | Thrown(error: Exception) {

    predicate IsFailure() {
      Thrown?
    }

    function PropagateFailure<U>(): Result<U>
      requires Thrown?
    {
      Thrown(error)
    }

    function Extract(): T
      requires Ok?
    {
      value
    }
  }

  /** A `foreach` whose body may throw: `f` applied to each element in order,
      the first exception ending the walk. */
  function MapAll<A, B>(f: A -> Result<B>, xs: seq<A>): (r: Result<seq<B>>)
    ensures r.Ok? ==> |r.value| == |xs| && forall i :: 0 <= i < |xs| ==> f(xs[i]) == Ok(r.value[i])
  {
    if xs == [] then Ok([])
    else
      var first :- f(xs[0]);
      var rest :- MapAll(f, xs[1..]);
      Ok([first] + rest)
  }

  /** The walk throws exactly when `f` throws on some element. */
  lemma {:induction false} MapAllThrows<A, B>(f: A -> Result<B>, xs: seq<A>)
    ensures MapAll(f, xs).Thrown? <==> exists i :: 0 <= i < |xs| && f(xs[i]).Thrown?
  {
    if xs != [] {
      MapAllThrows(f, xs[1..]);
      if f(xs[0]).Ok? && exists i :: 0 <= i < |xs| && f(xs[i]).Thrown? {
        var i :| 0 <= i < |xs| && f(xs[i]).Thrown?;
        assert xs[1..][i - 1] == xs[i];
      }
    }
  }

  /** Walking a concatenation is walking each part and concatenating. */
  lemma {:induction false} MapAllAppend<A, B>(f: A -> Result<B>, a: seq<A>, b: seq<A>)
    ensures MapAll(f, a + b)
         == if MapAll(f, a).Ok? && MapAll(f, b).Ok? then Ok(MapAll(f, a).value + MapAll(f, b).value)
            else Thrown(MoreThanOneMatch)
  {
    if a == [] {
      assert a + b == b;
      assert MapAll(f, a) == Ok([]);
      if MapAll(f, b).Ok? {
        assert [] + MapAll(f, b).value == MapAll(f, b).value;
      }
    } else {
      assert (a + b)[0] == a[0];
      assert (a + b)[1..] == a[1..] + b;
      MapAllAppend(f, a[1..], b);
      var first := f(a[0]);
      var ra := MapAll(f, a[1..]);
      var rb := MapAll(f, b);
      if first.Ok? && ra.Ok? && rb.Ok? {
        assert [first.value] + (ra.value + rb.value) == ([first.value] + ra.value) + rb.value;
      }
    }
  }
}
