/** Small shared vocabulary: an optional value, the minimum of two integers
    and duplicate-free sequences. */
module Basics {

  /** A value that may be missing; stands for Python's `None`. */
  datatype Option<+T> = None | Some(value: T)

  function Min(a: int, b: int): int
  {
    if a <= b then a else b
  }

  /** No element occurs twice. */
  predicate Distinct<T(==)>(s: seq<T>)
  {
    forall i, j :: 0 <= i < j < |s| ==> s[i] != s[j]
  }

  /** Strictly increasing, hence duplicate-free. */
  predicate Increasing(s: seq<nat>)
  {
    forall i, j :: 0 <= i < j < |s| ==> s[i] < s[j]
  }

  lemma IncreasingDistinct(s: seq<nat>)
    requires Increasing(s)
    ensures Distinct(s)
  {
  }

  /** Removing one position from a duplicate-free sequence leaves a
      duplicate-free sequence that no longer holds the removed element. */
  lemma {:induction false} DistinctRemove<T>(s: seq<T>, k: nat)
    requires k < |s|
    ensures Distinct(s) ==> Distinct(s[..k] + s[k + 1..]) && s[k] !in s[..k] + s[k + 1..]
    ensures forall x :: x in s && x != s[k] ==> x in s[..k] + s[k + 1..]
  {
    var rest := s[..k] + s[k + 1..];
    assert forall i :: 0 <= i < |rest| ==> rest[i] == (if i < k then s[i] else s[i + 1]);
    forall x | x in s && x != s[k]
      ensures x in rest
    {
      var i :| 0 <= i < |s| && s[i] == x;
      if i < k {
        assert rest[i] == x;
      } else {
        assert rest[i - 1] == x;
      }
    }
  }

  /** A duplicate-free sequence has as many distinct elements as positions. */
  lemma {:induction false} DistinctCard<T>(s: seq<T>)
    requires Distinct(s)
    ensures |set x | x in s| == |s|
  {
    if |s| > 0 {
      var tail := s[1..];
      assert Distinct(tail);
      DistinctCard(tail);
      assert (set x | x in s) == (set x | x in tail) + {s[0]};
      assert s[0] !in (set x | x in tail);
    }
  }

  /** A duplicate-free sequence whose elements all come from a duplicate-free
      sequence of the same length holds every element of it. */
  lemma SameSizeCovers<T>(small: seq<T>, big: seq<T>)
    requires Distinct(small) && Distinct(big) && |small| == |big|
    requires forall x :: x in small ==> x in big
    ensures forall x :: x in big ==> x in small
  {
    var a := set x | x in small;
    var b := set x | x in big;
    DistinctCard(small);
    DistinctCard(big);
    forall y | y in big
      ensures y in small
    {
      if y !in small {
        assert a <= b - {y};
        SubsetCard(a, b - {y});
      }
    }
  }

  lemma {:induction false} SubsetCard<T>(a: set<T>, b: set<T>)
    requires a <= b
    ensures |a| <= |b|
  {
    if a != {} {
      var x :| x in a;
      SubsetCard(a - {x}, b - {x});
    }
  }
}
