/** Sums of weights over sequences; with weights 0 and 1, counting. */
module Counting {
  function Total<T>(xs: seq<T>, weight: T -> int): (n: int) {
    if xs == [] then 0 else weight(xs[0]) + Total(xs[1..], weight)
  }

  lemma {:induction false} TotalOfUpdate<T>(xs: seq<T>, i: nat, x: T, weight: T -> int)
    requires i < |xs|
    ensures Total(xs[i := x], weight) == Total(xs, weight) - weight(xs[i]) + weight(x)
  {
    if i == 0 {
      assert xs[i := x][1..] == xs[1..];
    } else {
      TotalOfUpdate(xs[1..], i - 1, x, weight);
      assert xs[i := x][1..] == xs[1..][i - 1 := x];
    }
  }

  lemma {:induction false} TotalOfAppend<T>(xs: seq<T>, x: T, weight: T -> int)
    ensures Total(xs + [x], weight) == Total(xs, weight) + weight(x)
  {
    if xs == [] {
      assert Total([x], weight) == weight(x) + Total([x][1..], weight);
    } else {
      TotalOfAppend(xs[1..], x, weight);
      assert (xs + [x])[1..] == xs[1..] + [x];
    }
  }

  lemma {:induction false} TotalOfConstant<T>(n: nat, x: T, weight: T -> int)
    requires weight(x) == 0
    ensures Total(seq(n, _ => x), weight) == 0
  {
    if n == 0 {
    } else {
      assert seq(n, _ => x)[1..] == seq(n - 1, _ => x);
      TotalOfConstant(n - 1, x, weight);
    }
  }

  lemma {:induction false} TotalOfConcat<T>(xs: seq<T>, ys: seq<T>, weight: T -> int)
    ensures Total(xs + ys, weight) == Total(xs, weight) + Total(ys, weight)
  {
    if xs == [] {
      assert xs + ys == ys;
    } else {
      TotalOfConcat(xs[1..], ys, weight);
      assert (xs + ys)[1..] == xs[1..] + ys;
    }
  }

  lemma TotalOfRemoval<T>(xs: seq<T>, i: nat, weight: T -> int)
    requires i < |xs|
    ensures Total(xs[..i] + xs[i + 1..], weight) == Total(xs, weight) - weight(xs[i])
  {
    TotalOfConcat(xs[..i], xs[i + 1..], weight);
    TotalOfConcat(xs[..i], xs[i..], weight);
    assert xs == xs[..i] + xs[i..] && xs[i..][1..] == xs[i + 1..];
  }

  lemma {:induction false} TotalBounds<T(!new)>(xs: seq<T>, i: nat, weight: T -> int)
    requires i < |xs| && forall x :: weight(x) >= 0
    ensures Total(xs, weight) >= weight(xs[i]) >= 0
    ensures forall j :: i < j < |xs| ==> Total(xs, weight) >= weight(xs[i]) + weight(xs[j])
  {
    TotalNonNegative(xs[1..], weight);
    if i > 0 {
      TotalBounds(xs[1..], i - 1, weight);
      assert forall j :: i < j < |xs| ==> xs[1..][j - 1] == xs[j];
    } else {
      forall j | 0 < j < |xs|
        ensures Total(xs, weight) >= weight(xs[0]) + weight(xs[j])
      {
        TotalBounds(xs[1..], j - 1, weight);
      }
    }
  }

  lemma {:induction false} TotalNonNegative<T(!new)>(xs: seq<T>, weight: T -> int)
    requires forall x :: weight(x) >= 0
    ensures Total(xs, weight) >= 0
  {
    if xs == [] {
    } else {
      TotalNonNegative(xs[1..], weight);
    }
  }

  lemma {:induction false} TotalAllZero<T>(xs: seq<T>, weight: T -> int)
    requires forall i :: 0 <= i < |xs| ==> weight(xs[i]) == 0
    ensures Total(xs, weight) == 0
  {
    if xs == [] {
    } else {
      TotalAllZero(xs[1..], weight);
    }
  }

  lemma {:induction false} TotalMonotone<T>(xs: seq<T>, f: T -> int, g: T -> int)
    requires forall k :: 0 <= k < |xs| ==> f(xs[k]) <= g(xs[k])
    ensures Total(xs, f) <= Total(xs, g)
  {
    if xs == [] {
    } else {
      TotalMonotone(xs[1..], f, g);
    }
  }
}
