/**
 The usage lists of executor/memcache.h: the slots of a cache set, or the buffers, linked from
 the newest to the oldest through their `_older` fields, with -1 at the end.
 */
module UsageList {

  /** The links form one list through all slots, in the given order. */
  ghost predicate Linked(older: seq<int>, newest: int, order: seq<nat>) {
    && |order| == |older| && 0 < |order|
    && (forall i :: 0 <= i < |order| ==> order[i] < |older|)
    && (forall i, j :: 0 <= i < j < |order| ==> order[i] != order[j])
    && newest == order[0]
    && (forall i :: 0 <= i < |order| ==> older[order[i]] == At(order, i + 1))
  }

  /** The slot at place i, -1 behind the end. */
  function At(order: seq<nat>, i: nat): int {
    if i < |order| then order[i] else -1
  }

  /** The recency order after using the slot at place k. */
  function Front(order: seq<nat>, k: nat): seq<nat>
    requires k < |order|
  {
    [order[k]] + order[..k] + order[k + 1..]
  }

  lemma FrontIsPermutation(order: seq<nat>, k: nat)
    requires k < |order|
    ensures multiset(Front(order, k)) == multiset(order)
  {
    assert order == order[..k] + [order[k]] + order[k + 1..];
  }

  lemma FrontAt(order: seq<nat>, k: nat, i: nat)
    requires k < |order|
    ensures At(Front(order, k), i) == if i == 0 then order[k] else if i <= k then order[i - 1] else At(order, i)
  {
  }

  lemma FrontKeepsSlots(n: nat, order: seq<nat>, k: nat)
    requires k < |order| && (forall i :: 0 <= i < |order| ==> order[i] < n)
    requires forall i, j :: 0 <= i < j < |order| ==> order[i] != order[j]
    ensures forall i :: 0 <= i < |order| ==> Front(order, k)[i] < n
    ensures forall i, j :: 0 <= i < j < |order| ==> Front(order, k)[i] != Front(order, k)[j]
  {
    var r := Front(order, k);
    forall i, j | 0 <= i < j < |order|
      ensures r[i] != r[j]
    {
      FrontAt(order, k, i);
      FrontAt(order, k, j);
    }
  }

  /** `return_move_to_front` relinks two slots and the head. */
  lemma MoveToFront(older: seq<int>, newest: int, order: seq<nat>, k: nat)
    requires Linked(older, newest, order) && 0 < k < |order|
    ensures Linked(older[order[k - 1] := older[order[k]]][order[k] := newest], order[k], Front(order, k))
  {
    var older' := older[order[k - 1] := older[order[k]]][order[k] := newest];
    var r := Front(order, k);
    FrontKeepsSlots(|older|, order, k);
    forall i | 0 <= i < |r|
      ensures older'[r[i]] == At(r, i + 1)
    {
      FrontAt(order, k, i);
      FrontAt(order, k, i + 1);
      assert older[order[k]] == At(order, k + 1);
      if 0 < i < k {
        assert older[order[i - 1]] == At(order, i);
      } else if i > k {
        assert older[order[i]] == At(order, i + 1);
      }
    }
  }

  lemma FrontOfFirst(order: seq<nat>)
    requires order != []
    ensures Front(order, 0) == order
  {
  }

  /** Only the slot at the last place has no older one. */
  lemma LastHasNoOlder(older: seq<int>, newest: int, order: seq<nat>, i: nat)
    requires Linked(older, newest, order) && i < |order|
    ensures older[order[i]] == -1 <==> i == |order| - 1
    ensures i < |order| - 1 ==> older[order[i]] == order[i + 1]
  {
    assert older[order[i]] == At(order, i + 1);
  }

  /** Every slot has a place. */
  lemma {:induction false} SlotHasPlace(older: seq<int>, newest: int, order: seq<nat>, slot: nat)
    requires Linked(older, newest, order) && slot < |older|
    ensures slot in order
  {
    var all := set i | 0 <= i < |order| :: order[i];
    DistinctCount(order, |order|);
    var full := Below(|older|);
    if slot !in order {
      assert all <= full - {slot};
      SubsetCount(all, full - {slot});
    }
  }

  lemma {:induction false} DistinctCount(order: seq<nat>, n: nat)
    requires n <= |order| && forall i, j :: 0 <= i < j < |order| ==> order[i] != order[j]
    ensures |set i | 0 <= i < n :: order[i]| == n
  {
    var s := set i | 0 <= i < n :: order[i];
    if n > 0 {
      DistinctCount(order, n - 1);
      var t := set i | 0 <= i < n - 1 :: order[i];
      assert s == t + {order[n - 1]};
    } else {
      assert s == {};
    }
  }

  /** The numbers below n. */
  ghost function Below(n: nat): (s: set<nat>)
    ensures |s| == n
    ensures forall i: nat :: i in s <==> i < n
  {
    if n == 0 then {} else Below(n - 1) + {n - 1}
  }

  lemma SubsetCount(a: set<nat>, b: set<nat>)
    requires a <= b
    ensures |a| <= |b|
  {
    assert |b - a| + |a| == |b| by { assert b == a + (b - a); }
  }
}
