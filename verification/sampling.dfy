/** Random sampling without replacement (`DataFrame.sample(n)`). The random
    source is a parameter: `rnd` lists the draws, and each draw names the
    position of the next pick among the candidates still left (a draw past
    the end, or a missing one, picks the first). */
module Sampling {
  import opened Basics

  /** Draw `Min(count, |pool|)` elements from `pool` without replacement. */
  function Sample<T(==)>(pool: seq<T>, count: nat, rnd: seq<nat>): (r: seq<T>)
    ensures |r| == Min(count, |pool|)
    ensures forall x :: x in r ==> x in pool
    ensures Distinct(pool) ==> Distinct(r)
    decreases count
  {
    if count == 0 || |pool| == 0 then []
    else
      var k := if |rnd| == 0 || rnd[0] >= |pool| then 0 else rnd[0];
      var rest := pool[..k] + pool[k + 1..];
      var tail := Sample(rest, count - 1, if |rnd| == 0 then [] else rnd[1..]);
      assert forall x :: x in rest ==> x in pool;
      DistinctRemove(pool, k);
      [pool[k]] + tail
  }

  /** Every duplicate-free selection of the right size, in any order, is a
      possible outcome of `Sample`: the model does not narrow the source's
      random choice. */
  lemma {:induction false} SampleCovers<T>(pool: seq<T>, count: nat, choice: seq<T>)
    requires Distinct(pool) && Distinct(choice)
    requires |choice| == Min(count, |pool|)
    requires forall x :: x in choice ==> x in pool
    ensures exists rnd :: Sample(pool, count, rnd) == choice
    decreases count
  {
    if count == 0 || |pool| == 0 {
      assert Sample(pool, count, []) == choice;
    } else {
      assert choice[0] in pool;
      var k :| 0 <= k < |pool| && pool[k] == choice[0];
      var rest := pool[..k] + pool[k + 1..];
      var tail := choice[1..];
      RemoveChosen(pool, count, choice, k);
      SampleCovers(rest, count - 1, tail);
      var rnd' :| Sample(rest, count - 1, rnd') == tail;
      SampleStep(pool, count, k, rnd');
      assert choice == [choice[0]] + tail;
      assert Sample(pool, count, [k] + rnd') == choice;
    }
  }

  /** Taking the first chosen element out of the pool leaves a smaller
      instance of the same problem. */
  lemma RemoveChosen<T>(pool: seq<T>, count: nat, choice: seq<T>, k: nat)
    requires Distinct(pool) && Distinct(choice)
    requires |choice| == Min(count, |pool|) && count > 0 && |pool| > 0
    requires forall x :: x in choice ==> x in pool
    requires k < |pool| && pool[k] == choice[0]
    ensures Distinct(pool[..k] + pool[k + 1..]) && Distinct(choice[1..])
    ensures |choice[1..]| == Min(count - 1, |pool[..k] + pool[k + 1..]|)
    ensures forall x :: x in choice[1..] ==> x in pool[..k] + pool[k + 1..]
  {
    var rest := pool[..k] + pool[k + 1..];
    DistinctRemove(pool, k);
    var tail := choice[1..];
    assert Distinct(tail);
    forall x | x in tail
      ensures x in rest
    {
      assert x in choice && x != choice[0];
    }
  }

  /** Drawing position `k` first leaves a sample of the remaining pool. */
  lemma SampleStep<T>(pool: seq<T>, count: nat, k: nat, rnd: seq<nat>)
    requires count > 0 && k < |pool|
    ensures Sample(pool, count, [k] + rnd) == [pool[k]] + Sample(pool[..k] + pool[k + 1..], count - 1, rnd)
  {
    var r := [k] + rnd;
    assert r[0] == k;
    assert r[1..] == rnd;
  }
}
