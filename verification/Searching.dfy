/** The first number, or the first element of a sequence, with a property. */
module Searching {
  /** The lowest index below n with the property; n when there is none. */
  function Lowest(p: nat -> bool, n: nat): (r: nat)
    ensures r <= n && (r < n ==> p(r)) && forall j :: 0 <= j < r ==> !p(j)
  {
    if n == 0 then 0
    else
      var r := Lowest(p, n - 1);
      if r < n - 1 || p(n - 1) then r else n
  }

  lemma LowestIs(p: nat -> bool, n: nat, r: nat)
    requires r <= n && (r < n ==> p(r)) && forall j :: 0 <= j < r ==> !p(j)
    ensures Lowest(p, n) == r
  {
  }

  /** The first element of a sequence with the property; the length when there is none. */
  function First<T>(xs: seq<T>, p: T -> bool): (k: nat)
    ensures k <= |xs| && (k < |xs| ==> p(xs[k]))
    ensures forall j :: 0 <= j < k ==> !p(xs[j])
  {
    if xs == [] || p(xs[0]) then 0 else 1 + First(xs[1..], p)
  }

  lemma FirstIs<T>(xs: seq<T>, p: T -> bool, k: nat)
    requires k <= |xs| && (k < |xs| ==> p(xs[k])) && forall j :: 0 <= j < k ==> !p(xs[j])
    ensures First(xs, p) == k
  {
  }

  lemma FirstOfConcat<T>(xs: seq<T>, ys: seq<T>, p: T -> bool)
    requires First(xs, p) < |xs|
    ensures First(xs + ys, p) == First(xs, p)
  {
    FirstIs(xs + ys, p, First(xs, p));
  }
}
