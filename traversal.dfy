/**
  The traversal both services use: a for-each loop that applies a throwing step to every element
  in order, appends each result and lets the first exception escape.
*/
module Traversal {
  import opened Wrappers

  /**
    The result of applying `f` to every element in order, as the `for` loops of `parseAIResponse`
    and the stream of `analyzeMultipleFiles` do: all elements mapped, same count and order; or the
    error of the first element that fails, which aborts the traversal.
  */
  function MapAll<X, T, E>(items: seq<X>, f: X -> Result<T, E>): (r: Result<seq<T>, E>)
    ensures r.Ok? <==> forall k :: 0 <= k < |items| ==> f(items[k]).Ok?
    ensures r.Ok? ==> |r.value| == |items| && forall k :: 0 <= k < |items| ==> r.value[k] == f(items[k]).value
    ensures r.Err? ==> exists k :: 0 <= k < |items| && f(items[k]) == Err(r.error)
                                 && forall m :: 0 <= m < k ==> f(items[m]).Ok?
    decreases |items|
  {
    if |items| == 0 then Ok([])
    else
      match f(items[0])
      case Err(e) => Err(e)
      case Ok(first) =>
        assert forall k :: 1 <= k < |items| ==> items[1..][k - 1] == items[k];
        match MapAll(items[1..], f)
        case Err(e) => Err(e)
        case Ok(rest) => Ok([first] + rest)
  }

  /** The traversal stops at the first failing element and reports exactly its error. */
  lemma {:induction false} MapAllFirstFailure<X, T, E>(items: seq<X>, f: X -> Result<T, E>, i: nat)
    requires i < |items| && f(items[i]).Err?
    requires forall k :: 0 <= k < i ==> f(items[k]).Ok?
    ensures MapAll(items, f) == Err(f(items[i]).error)
    decreases i
  {
    if i > 0 {
      assert forall k :: 0 <= k < i - 1 ==> items[1..][k] == items[k + 1];
      MapAllFirstFailure(items[1..], f, i - 1);
    }
  }

  /**
    The loop `for (m : list) target.add(f(m))`: appends in order and stops at the first element
    that throws; its outcome is MapAll's.
  */
  method CollectAll<X, T, E>(items: seq<X>, f: X -> Result<T, E>) returns (r: Result<seq<T>, E>)
    ensures r == MapAll(items, f)
  {
    var collected: seq<T> := [];
    var i := 0;
    while i < |items|
      invariant 0 <= i <= |items|
      invariant |collected| == i
      invariant forall k :: 0 <= k < i ==> f(items[k]).Ok? && collected[k] == f(items[k]).value
    {
      var next := f(items[i]);
      if next.Err? {
        MapAllFirstFailure(items, f, i);
        return Err(next.error);
      }
      collected := collected + [next.value];
      i := i + 1;
    }
    assert MapAll(items, f).value == collected;
    r := Ok(collected);
  }

}
