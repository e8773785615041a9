/** Sequence searches and counts shared by the lookups and the reconciler. */
module Seqs {
  import opened Wrappers

  /** Position of the first element satisfying `p`, or None: the shape of every
      `for x in xs: if p(x): return ...` search in the scripts. */
  function FirstIndex<T>(xs: seq<T>, p: T -> bool): (r: Option<nat>)
    ensures r.Some? ==> r.value < |xs| && p(xs[r.value])
    ensures r.Some? ==> forall j :: 0 <= j < r.value ==> !p(xs[j])
    ensures r.None? ==> forall j :: 0 <= j < |xs| ==> !p(xs[j])
    decreases |xs|
  {
    if |xs| == 0 then None
    else if p(xs[0]) then Some(0)
    else
      match FirstIndex(xs[1..], p)
      case None => None
      case Some(k) => Some(k + 1)
  }

  predicate NoDuplicates<T(==)>(xs: seq<T>) {
    forall i, j :: 0 <= i < j < |xs| ==> xs[i] != xs[j]
  }

  /** The elements of consecutive pages, in page order (a paginator's items). */
  function Flatten<T(==,!new)>(pages: seq<seq<T>>): (r: seq<T>)
    ensures forall x :: x in r <==> exists i :: 0 <= i < |pages| && x in pages[i]
    decreases |pages|
  {
    if |pages| == 0 then []
    else
      var r := pages[0] + Flatten(pages[1..]);
      assert forall x :: (exists i :: 1 <= i < |pages| && x in pages[i]) ==> x in Flatten(pages[1..]) by {
        forall x, i | 1 <= i < |pages| && x in pages[i] ensures x in Flatten(pages[1..]) {
          assert pages[1..][i - 1] == pages[i];
        }
      }
      r
  }

  /** Number of elements satisfying `p`. */
  function CountIf<T>(xs: seq<T>, p: T -> bool): (n: nat)
    ensures n <= |xs|
    decreases |xs|
  {
    if |xs| == 0 then 0 else (if p(xs[0]) then 1 else 0) + CountIf(xs[1..], p)
  }

  lemma {:induction false} CountIfAppend<T>(a: seq<T>, b: seq<T>, p: T -> bool)
    ensures CountIf(a + b, p) == CountIf(a, p) + CountIf(b, p)
    decreases |a|
  {
    if |a| == 0 {
      assert a + b == b;
    } else {
      assert (a + b)[1..] == a[1..] + b;
      CountIfAppend(a[1..], b, p);
    }
  }

  lemma {:induction false} CountIfAll<T>(xs: seq<T>, p: T -> bool)
    requires forall i :: 0 <= i < |xs| ==> p(xs[i])
    ensures CountIf(xs, p) == |xs|
    decreases |xs|
  {
    if |xs| > 0 {
      CountIfAll(xs[1..], p);
    }
  }

  lemma {:induction false} CountIfNone<T>(xs: seq<T>, p: T -> bool)
    requires forall i :: 0 <= i < |xs| ==> !p(xs[i])
    ensures CountIf(xs, p) == 0
    decreases |xs|
  {
    if |xs| > 0 {
      CountIfNone(xs[1..], p);
    }
  }
}
