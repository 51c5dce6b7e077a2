/** Failure-compatible wrappers used across the vault model: an optional value
    (JavaScript `null`/`undefined` versus a value) and a result that carries
    either a value or the error a service would have thrown. */
module Wrappers {

  datatype Option<+T> = None | Some(value: T) {
    predicate IsFailure() { None? }

    function PropagateFailure<U>(): Option<U>
      requires None?
    {
      None
    }

    function Extract(): T
      requires Some?
    {
      value
    }

    function GetOr(default: T): T {
      match this
      case Some(v) => v
      case None => default
    }
  }

  datatype Result<+R, +E> = Ok(value: R) | Err(error: E) {
    predicate IsFailure() { Err? }

    function PropagateFailure<U>(): Result<U, E>
      requires Err?
    {
      Err(error)
    }

    function Extract(): R
      requires Ok?
    {
      value
    }
  }

  /** Keeps, in order, the values `f` produces (a `forEach` that pushes a
      result for some of the elements). */
  function Collect<T, U(!new)>(xs: seq<T>, f: T -> Option<U>): (r: seq<U>)
    ensures |r| <= |xs|
    ensures forall y :: y in r <==> exists i :: 0 <= i < |xs| && f(xs[i]) == Some(y)
    ensures (forall i :: 0 <= i < |xs| ==> f(xs[i]).Some?) ==> |r| == |xs|
    ensures forall y :: y in r <==> exists x :: x in xs && f(x) == Some(y)
  {
    if xs == [] then []
    else
      var head := match f(xs[0]) case Some(y) => [y] case None => [];
      var rest := Collect(xs[1..], f);
      assert forall y :: (exists i :: 0 <= i < |xs| && f(xs[i]) == Some(y)) <==>
        f(xs[0]) == Some(y) || exists i :: 0 <= i < |xs[1..]| && f(xs[1..][i]) == Some(y) by {
        forall y, i | 0 < i < |xs| && f(xs[i]) == Some(y)
          ensures f(xs[1..][i - 1]) == Some(y)
        {
        }
      }
      assert forall y :: (exists i :: 0 <= i < |xs| && f(xs[i]) == Some(y)) <==>
        exists x :: x in xs && f(x) == Some(y) by {
        forall y, x | x in xs && f(x) == Some(y)
          ensures exists i :: 0 <= i < |xs| && f(xs[i]) == Some(y)
        {
          var i :| 0 <= i < |xs| && xs[i] == x;
        }
      }
      head + rest
  }

  /** No two elements share a key. */
  predicate DistinctBy<T, K(==)>(xs: seq<T>, key: T -> K)
  {
    forall i, j :: 0 <= i < j < |xs| ==> key(xs[i]) != key(xs[j])
  }

  /** Collecting is done element by element, in order: collecting a
      concatenation is concatenating the collections, and one element gives
      its value or nothing. Together these fix `Collect` completely. */
  lemma {:induction false} CollectAppend<T, U(!new)>(a: seq<T>, b: seq<T>, f: T -> Option<U>)
    ensures Collect(a + b, f) == Collect(a, f) + Collect(b, f)
    ensures |a| == 1 ==> Collect(a, f) == (match f(a[0]) case Some(y) => [y] case None => [])
    decreases |a|
  {
    if a != [] {
      assert (a + b)[0] == a[0];
      assert (a + b)[1..] == a[1..] + b;
      CollectAppend(a[1..], b, f);
      if |a| == 1 {
        assert a[1..] == [];
      }
    } else {
      assert a + b == b;
    }
  }

  /** Entries with distinct keys whose values carry their entry's key give
      values with distinct keys: one value per producing entry. */
  lemma {:induction false} CollectDistinct<T, U(!new), K>(xs: seq<T>, f: T -> Option<U>, kx: T -> K, ky: U -> K)
    requires DistinctBy(xs, kx)
    requires forall i :: 0 <= i < |xs| && f(xs[i]).Some? ==> ky(f(xs[i]).value) == kx(xs[i])
    ensures DistinctBy(Collect(xs, f), ky)
    decreases |xs|
  {
    if xs != [] {
      var tail := xs[1..];
      assert forall i :: 0 <= i < |tail| ==> tail[i] == xs[i + 1];
      CollectDistinct(tail, f, kx, ky);
      var rest := Collect(tail, f);
      var r := Collect(xs, f);
      if f(xs[0]).Some? {
        assert r == [f(xs[0]).value] + rest;
        forall j | 0 < j < |r|
          ensures ky(r[0]) != ky(r[j])
        {
          assert r[j] == rest[j - 1] && rest[j - 1] in rest;
          var i :| 0 <= i < |tail| && f(tail[i]) == Some(r[j]);
          assert f(xs[i + 1]) == Some(r[j]);
        }
        forall i, j | 0 < i < j < |r|
          ensures ky(r[i]) != ky(r[j])
        {
          assert r[i] == rest[i - 1] && r[j] == rest[j - 1];
        }
      } else {
        assert r == rest;
      }
    }
  }
}
