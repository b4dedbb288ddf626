/** Failure-compatible result types and the element-wise `collect` the codec uses. */
module Wrappers {

  datatype Option<+T> = None | Some(value: T)

  datatype Result<+T, +E> = Ok(value: T) | Err(error: E) {
    predicate IsFailure() { Err? }

    function PropagateFailure<U>(): Result<U, E>
      requires Err?
    {
      Err(error)
    }

    function Extract(): T
      requires Ok?
    {
      value
    }
  }

  /** A scanned text with one more character in front, and what follows it. */
  function Prepend(c: char, r: Option<(string, string)>): Option<(string, string)> {
    match r
    case None => None
    case Some((text, rest)) => Some(([c] + text, rest))
  }

  /** Rust's `collect::<Result<Vec<_>, _>>()`: the values in order, or the first error. */
  function Collect<T, E>(rs: seq<Result<T, E>>): Result<seq<T>, E> {
    if rs == [] then Ok([])
    else
      var head :- rs[0];
      var tail :- Collect(rs[1..]);
      Ok([head] + tail)
  }

  lemma {:induction false} CollectSpec<T, E>(rs: seq<Result<T, E>>)
    ensures Collect(rs).Ok? <==> forall i | 0 <= i < |rs| :: rs[i].Ok?
    ensures Collect(rs).Ok? ==>
              && |Collect(rs).value| == |rs|
              && forall i | 0 <= i < |rs| :: rs[i] == Ok(Collect(rs).value[i])
    ensures Collect(rs).Err? ==>
              exists i | 0 <= i < |rs| :: rs[i] == Err(Collect(rs).error) && forall j | 0 <= j < i :: rs[j].Ok?
  {
    if rs != [] {
      CollectSpec(rs[1..]);
      assert forall i | 0 < i < |rs| :: rs[i] == rs[1..][i - 1];
      if rs[0].Err? {
        assert Collect(rs) == Err(rs[0].error);
      } else if Collect(rs[1..]).Err? {
        var i :| 0 <= i < |rs| - 1 && rs[1..][i] == Err(Collect(rs[1..]).error)
                 && forall j | 0 <= j < i :: rs[1..][j].Ok?;
        assert rs[i + 1] == Err(Collect(rs).error);
        forall j | 0 <= j < i + 1 ensures rs[j].Ok? {
          if j > 0 { assert rs[j] == rs[1..][j - 1]; }
        }
      } else {
        assert Collect(rs).value == [rs[0].value] + Collect(rs[1..]).value;
      }
    }
  }

  /** `Collect` of a sequence known element by element to succeed. */
  lemma {:induction false} CollectOk<T, E>(rs: seq<Result<T, E>>, xs: seq<T>)
    requires |rs| == |xs|
    requires forall i | 0 <= i < |rs| :: rs[i] == Ok(xs[i])
    ensures Collect(rs) == Ok(xs)
  {
    CollectSpec(rs);
    assert Collect(rs).value == xs;
  }

  /** `Collect` stops at the first error. */
  lemma {:induction false} CollectErr<T, E>(rs: seq<Result<T, E>>, i: nat)
    requires i < |rs| && rs[i].Err? && forall j | 0 <= j < i :: rs[j].Ok?
    ensures Collect(rs) == Err(rs[i].error)
  {
    if i > 0 { CollectErr(rs[1..], i - 1); }
  }

  /** `Collect` with the length of its result in its contract. */
  function CollectAll<T, E>(rs: seq<Result<T, E>>): (r: Result<seq<T>, E>)
    ensures r.Ok? ==> |r.value| == |rs|
  {
    CollectSpec(rs);
    Collect(rs)
  }
}
