/** Option and Result datatypes used to model absent values and the
    failures the identity store and the login flow report. */
module Wrappers {

  datatype Option<+T> = None | Some(value: T)

  /** `Ok` carries the value of a successful call, `Err` the reason it failed. */
  datatype Result<+T, +E> = Ok(value: T) | Err(error: E)

  /** The distinct elements of a sequence. */
  function Elements<T>(xs: seq<T>): set<T>
  {
    set i | 0 <= i < |xs| :: xs[i]
  }

  /** No element occurs twice in `xs`. */
  predicate NoDuplicates<T(==)>(xs: seq<T>)
  {
    forall i, j :: 0 <= i < j < |xs| ==> xs[i] != xs[j]
  }

  lemma ElementsAppend<T>(xs: seq<T>, x: T)
    ensures Elements(xs + [x]) == Elements(xs) + {x}
  {
    var ys := xs + [x];
    forall y | y in Elements(ys)
      ensures y in Elements(xs) + {x}
    {
      var i :| 0 <= i < |ys| && ys[i] == y;
      if i < |xs| {
        assert xs[i] == y;
      }
    }
    forall y | y in Elements(xs) + {x}
      ensures y in Elements(ys)
    {
      if y == x {
        assert ys[|xs|] == y;
      } else {
        var i :| 0 <= i < |xs| && xs[i] == y;
        assert ys[i] == y;
      }
    }
  }

  /** Moving one element from `remaining` to the end of `ys` keeps the
      enumeration's invariants. */
  lemma EnumerateStep<T>(xs: set<T>, remaining: set<T>, ys: seq<T>, x: T)
    requires remaining !! Elements(ys) && remaining + Elements(ys) == xs
    requires NoDuplicates(ys) && x in remaining
    ensures remaining - {x} !! Elements(ys + [x])
    ensures (remaining - {x}) + Elements(ys + [x]) == xs
    ensures NoDuplicates(ys + [x])
    ensures |remaining - {x}| == |remaining| - 1
  {
    ElementsAppend(ys, x);
    forall i, j | 0 <= i < j < |ys| + 1
      ensures (ys + [x])[i] != (ys + [x])[j]
    {
      if j == |ys| {
        assert ys[i] in Elements(ys);
      }
    }
  }

  /** The elements of `xs`, each once, in an order of the caller's choosing. */
  method Enumerate<T>(xs: set<T>) returns (ys: seq<T>)
    ensures Elements(ys) == xs
    ensures NoDuplicates(ys)
    ensures |ys| == |xs|
  {
    var remaining := xs;
    ys := [];
    while remaining != {}
      invariant remaining !! Elements(ys)
      invariant remaining + Elements(ys) == xs
      invariant NoDuplicates(ys)
      invariant |ys| + |remaining| == |xs|
      decreases remaining
    {
      var x :| x in remaining;
      EnumerateStep(xs, remaining, ys, x);
      ys := ys + [x];
      remaining := remaining - {x};
    }
  }
}
