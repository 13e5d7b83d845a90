/**
 The symmetric difference that app.js adds to every array
 (`Array.prototype.diff`): the elements of `a` missing from `b`, in `a`'s
 order, followed by the elements of `b` missing from `a`, in `b`'s order.
 */
module SymDiff {

  predicate NoDuplicates<T(==,!new)>(s: seq<T>)
  {
    forall j, k :: 0 <= j < k < |s| ==> s[j] != s[k]
  }

  /** The forward filter: the elements of `a`, in order, that `b` does not contain. */
  function Without<T(==,!new)>(a: seq<T>, b: seq<T>): (r: seq<T>)
    ensures forall x :: x in r <==> x in a && x !in b
    ensures |r| <= |a|
    ensures NoDuplicates(a) ==> NoDuplicates(r)
  {
    if a == [] then []
    else if a[0] in b then Without(a[1..], b)
    else [a[0]] + Without(a[1..], b)
  }

  /** `a.diff(b)`. */
  function Diff<T(==,!new)>(a: seq<T>, b: seq<T>): (r: seq<T>)
    ensures forall x :: x in r <==> (x in a) != (x in b)
  {
    Without(a, b) + Without(b, a)
  }

  /** The symmetric difference of two duplicate-free arrays is duplicate-free:
      its two halves are, and no element lies in both. */
  lemma DiffNoDuplicates<T(!new)>(a: seq<T>, b: seq<T>)
    requires NoDuplicates(a) && NoDuplicates(b)
    ensures NoDuplicates(Diff(a, b))
  {
    var f, g := Without(a, b), Without(b, a);
    forall j, k | 0 <= j < k < |f + g|
      ensures (f + g)[j] != (f + g)[k]
    {
      if j < |f| && |f| <= k {
        assert (f + g)[j] in f && (f + g)[k] in g;
      }
    }
  }

  /** Filtering out a superset leaves nothing. */
  lemma {:induction false} WithoutCovered<T(!new)>(a: seq<T>, b: seq<T>)
    requires forall x :: x in a ==> x in b
    ensures Without(a, b) == []
  {
    if a != [] {
      WithoutCovered(a[1..], b);
    }
  }

  /** An array differs from itself nowhere. */
  lemma DiffSelf<T(!new)>(a: seq<T>)
    ensures Diff(a, a) == []
  {
    WithoutCovered(a, a);
  }

  /** As sets, the difference does not depend on the order of the operands. */
  lemma DiffCommutes<T(!new)>(a: seq<T>, b: seq<T>)
    ensures (set x | x in Diff(a, b)) == (set x | x in Diff(b, a))
  {
  }
}
