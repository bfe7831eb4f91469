/** Shared vocabulary: optional values, strictly increasing sequences and integer ranges. */
module Common {

  type byte = b: int | 0 <= b < 256

  datatype Option<+T> = None | Some(value: T)

  function Max(a: int, b: int): int { if a < b then b else a }

  function Min(a: int, b: int): int { if a < b then a else b }

  /** lo, lo+1, .., hi-1. */
  function Range(lo: nat, hi: nat): (r: seq<nat>)
    ensures |r| == (if lo < hi then hi - lo else 0)
    ensures forall i :: 0 <= i < |r| ==> r[i] == lo + i
    ensures forall f :: f in r <==> lo <= f < hi
  {
    var r := seq(if lo < hi then hi - lo else 0, i requires 0 <= i => lo + i);
    assert forall f :: lo <= f < hi ==> f in r by {
      forall f | lo <= f < hi ensures f in r { assert r[f - lo] == f; }
    }
    r
  }

  ghost predicate Increasing(s: seq<nat>) {
    forall i, j :: 0 <= i < j < |s| ==> s[i] < s[j]
  }

  ghost predicate Distinct<T(!new)>(s: seq<T>) {
    forall i, j :: 0 <= i < j < |s| ==> s[i] != s[j]
  }

  lemma IncreasingConcat(s: seq<nat>, t: seq<nat>, bound: nat)
    requires Increasing(s) && Increasing(t)
    requires forall x :: x in s ==> x < bound
    requires forall x :: x in t ==> bound <= x
    ensures Increasing(s + t)
  {
    forall i, j | 0 <= i < j < |s + t|
      ensures (s + t)[i] < (s + t)[j]
    {
      if i < |s| <= j {
        assert s[i] in s && t[j - |s|] in t;
      }
    }
  }

  lemma NoneOf(s: set<int>)
    requires forall x :: x !in s
    ensures |s| == 0
  {
    var none: set<int> := {};
    assert forall x: int :: x in s <==> x in none;
    assert s == none;
  }
}
