/** Option and Result: Python's `None` and the exceptions the core can raise. */
module Wrappers {

  datatype Option<+T> = None | Some(value: T)

  datatype Result<+T, +E> = Ok(value: T) | Err(error: E)

  /** The values held by the `Some` entries of `os`, in their order: the
      filter `[x for x in xs if x]`. */
  function Present<T(==,!new)>(os: seq<Option<T>>): (r: seq<T>)
    ensures |r| <= |os|
    ensures forall x :: x in r <==> Some(x) in os
  {
    if os == [] then []
    else
      assert os == [os[0]] + os[1..];
      (if os[0].Some? then [os[0].value] else []) + Present(os[1..])
  }

  /** Filtering distributes over concatenation, so it keeps the order of the input. */
  lemma {:induction false} PresentAppend<T(!new)>(a: seq<Option<T>>, b: seq<Option<T>>)
    ensures Present(a + b) == Present(a) + Present(b)
  {
    if a == [] {
      assert a + b == b;
    } else {
      assert (a + b)[0] == a[0];
      assert (a + b)[1..] == a[1..] + b;
      PresentAppend(a[1..], b);
    }
  }
}
