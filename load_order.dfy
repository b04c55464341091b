/**
 * The teacher order the engine walks for every classroom: teachers sorted
 * by current load with a stable sort, so that teachers with equal load keep
 * their input order. Teachers are named here by their index in the input
 * sequence and `loads[i]` is the subject count of teacher `i`.
 */
module LoadOrder {
  import opened Wrappers
  import opened Entities

  /** Every index in `order` names a teacher. */
  predicate InRange(loads: seq<nat>, order: seq<nat>)
  {
    forall j :: 0 <= j < |order| ==> order[j] < |loads|
  }

  /**
   * Teacher `a` comes before teacher `b` in a stable sort by load: it has
   * the smaller load, or the same load and an earlier input position.
   */
  predicate Precedes(loads: seq<nat>, a: nat, b: nat)
    requires a < |loads| && b < |loads|
  {
    loads[a] < loads[b] || (loads[a] == loads[b] && a < b)
  }

  predicate SortedByLoad(loads: seq<nat>, order: seq<nat>)
    requires InRange(loads, order)
  {
    forall i, j :: 0 <= i < j < |order| ==> Precedes(loads, order[i], order[j])
  }

  /**
   * Inserts `x` in front of the first teacher whose load is at least that
   * of `x`; when `x` is earlier in the input than all of `order`, this keeps
   * ties in input order.
   */
  function Insert(loads: seq<nat>, x: nat, order: seq<nat>): (r: seq<nat>)
    requires x < |loads| && InRange(loads, order)
    ensures |r| == |order| + 1
    ensures forall y :: y in r <==> y == x || y in order
    ensures InRange(loads, r)
  {
    if order == [] then [x]
    else if loads[x] <= loads[order[0]] then [x] + order
    else [order[0]] + Insert(loads, x, order[1..])
  }

  /** Stable insertion sort of the teachers `k`, `k + 1`, ..., by load. */
  function SortFrom(loads: seq<nat>, k: nat): (r: seq<nat>)
    requires k <= |loads|
    ensures |r| == |loads| - k
    ensures forall y :: y in r <==> k <= y < |loads|
    ensures InRange(loads, r)
    decreases |loads| - k
  {
    if k == |loads| then [] else Insert(loads, k, SortFrom(loads, k + 1))
  }

  /** The teachers stably sorted by subject count, as indices. */
  function SortByLoad(loads: seq<nat>): (r: seq<nat>)
    ensures |r| == |loads|
    ensures forall y :: y in r <==> 0 <= y < |loads|
    ensures InRange(loads, r)
  {
    SortFrom(loads, 0)
  }

  /** The first teacher in `order` that can still teach. */
  function FirstEligible(loads: seq<nat>, order: seq<nat>): (r: Option<nat>)
    requires InRange(loads, order)
    ensures r.Some? ==> r.value in order && loads[r.value] < Capacity
    ensures r.Some? ==> exists j :: 0 <= j < |order| && order[j] == r.value &&
                          forall k :: 0 <= k < j ==> loads[order[k]] >= Capacity
    ensures r.None? <==> forall j :: 0 <= j < |order| ==> loads[order[j]] >= Capacity
  {
    if order == [] then None
    else if loads[order[0]] < Capacity then Some(order[0])
    else
      var r := FirstEligible(loads, order[1..]);
      assert forall j :: 1 <= j < |order| ==> order[j] == order[1..][j - 1];
      assert r.Some? ==> exists j :: 1 <= j < |order| && order[j] == r.value &&
                           forall k :: 0 <= k < j ==> loads[order[k]] >= Capacity by {
        if r.Some? {
          var j' :| 0 <= j' < |order[1..]| && order[1..][j'] == r.value &&
                    forall k :: 0 <= k < j' ==> loads[order[1..][k]] >= Capacity;
          assert order[j' + 1] == r.value;
          assert forall k :: 0 <= k < j' + 1 ==> loads[order[k]] >= Capacity by {
            forall k | 0 <= k < j' + 1 ensures loads[order[k]] >= Capacity {
              if k > 0 {
                assert order[k] == order[1..][k - 1];
              }
            }
          }
        }
      }
      r
  }

  /** The teacher the engine picks at a free classroom, if any. */
  function PickTeacher(loads: seq<nat>): (r: Option<nat>)
    ensures r.Some? ==> r.value < |loads| && loads[r.value] < Capacity
  {
    FirstEligible(loads, SortByLoad(loads))
  }

  /**
   * Teacher `t` has the least load, and every teacher before it in the
   * input has a strictly greater load.
   */
  predicate EarliestLeastLoaded(loads: seq<nat>, t: nat)
  {
    && t < |loads|
    && (forall i :: 0 <= i < |loads| ==> loads[t] <= loads[i])
    && (forall i :: 0 <= i < t ==> loads[t] < loads[i])
  }

  predicate AllAtCapacity(loads: seq<nat>)
  {
    forall i :: 0 <= i < |loads| ==> loads[i] >= Capacity
  }

  /** Every teacher that `b` precedes stays preceded by `b` after Insert. */
  lemma {:induction false} InsertBounded(loads: seq<nat>, b: nat, x: nat, order: seq<nat>)
    requires b < |loads| && x < |loads| && InRange(loads, order)
    requires Precedes(loads, b, x)
    requires forall j :: 0 <= j < |order| ==> Precedes(loads, b, order[j])
    ensures forall k :: 0 <= k < |order| + 1 ==> Precedes(loads, b, Insert(loads, x, order)[k])
  {
    var r := Insert(loads, x, order);
    if order == [] {
      assert r == [x];
    } else if loads[x] <= loads[order[0]] {
      assert r == [x] + order;
      assert forall k :: 0 < k < |r| ==> r[k] == order[k - 1];
    } else {
      var tail := order[1..];
      assert forall j :: 0 <= j < |tail| ==> tail[j] == order[j + 1];
      InsertBounded(loads, b, x, tail);
      var rest := Insert(loads, x, tail);
      assert r == [order[0]] + rest;
      assert r[0] == order[0];
      assert forall k :: 0 < k < |r| ==> r[k] == rest[k - 1];
    }
  }

  lemma TailSorted(loads: seq<nat>, order: seq<nat>)
    requires order != [] && InRange(loads, order) && SortedByLoad(loads, order)
    ensures InRange(loads, order[1..]) && SortedByLoad(loads, order[1..])
  {
  }

  /** Insert puts `x` first when no teacher of `order` precedes it. */
  lemma InsertFrontSorted(loads: seq<nat>, x: nat, order: seq<nat>)
    requires x < |loads| && InRange(loads, order) && SortedByLoad(loads, order)
    requires forall j :: 0 <= j < |order| ==> Precedes(loads, x, order[j])
    ensures SortedByLoad(loads, [x] + order)
  {
  }

  lemma {:induction false} InsertSorted(loads: seq<nat>, x: nat, order: seq<nat>)
    requires x < |loads| && InRange(loads, order) && SortedByLoad(loads, order)
    requires forall j :: 0 <= j < |order| ==> x < order[j]
    ensures SortedByLoad(loads, Insert(loads, x, order))
  {
    if order == [] {
    } else if loads[x] <= loads[order[0]] {
      forall j | 0 <= j < |order| ensures Precedes(loads, x, order[j]) {
        if j > 0 {
          assert Precedes(loads, order[0], order[j]);
        }
      }
      InsertFrontSorted(loads, x, order);
    } else {
      var tail := order[1..];
      TailSorted(loads, order);
      InsertSorted(loads, x, tail);
      assert forall j :: 0 <= j < |tail| ==> tail[j] == order[j + 1];
      InsertBounded(loads, order[0], x, tail);
      var rest := Insert(loads, x, tail);
      assert forall k :: 0 <= k < |rest| ==> Precedes(loads, order[0], rest[k]);
      InsertFrontSorted(loads, order[0], rest);
    }
  }

  lemma {:induction false} SortFromSorted(loads: seq<nat>, k: nat)
    requires k <= |loads|
    ensures SortedByLoad(loads, SortFrom(loads, k))
    decreases |loads| - k
  {
    if k < |loads| {
      SortFromSorted(loads, k + 1);
      var rest := SortFrom(loads, k + 1);
      forall j | 0 <= j < |rest| ensures k < rest[j] {
        assert rest[j] in rest;
      }
      InsertSorted(loads, k, rest);
    }
  }

  /**
   * SortByLoad is a stable sort: it lists every teacher exactly once, in
   * ascending load, with equal loads in input order.
   */
  lemma SortByLoadIsStableSort(loads: seq<nat>)
    ensures var r := SortByLoad(loads);
      && |r| == |loads|
      && (forall y :: y in r <==> 0 <= y < |loads|)
      && (forall i, j :: 0 <= i < j < |r| ==> r[i] != r[j])
      && (forall i, j :: 0 <= i < j < |r| ==> loads[r[i]] <= loads[r[j]])
      && (forall i, j :: 0 <= i < j < |r| && loads[r[i]] == loads[r[j]] ==> r[i] < r[j])
  {
    SortFromSorted(loads, 0);
    var r := SortByLoad(loads);
    assert SortedByLoad(loads, r);
    forall i, j | 0 <= i < j < |r| ensures r[i] != r[j] && loads[r[i]] <= loads[r[j]] {
      assert Precedes(loads, r[i], r[j]);
    }
  }

  /**
   * Walking the sorted order and taking the first teacher under capacity
   * picks the earliest teacher of least load, provided that load is under
   * capacity; no teacher is picked exactly when all are at capacity.
   */
  lemma PickTeacherIsLeastLoaded(loads: seq<nat>, t: nat)
    ensures PickTeacher(loads) == Some(t) <==> EarliestLeastLoaded(loads, t) && loads[t] < Capacity
    ensures PickTeacher(loads) == None <==> AllAtCapacity(loads)
  {
    var order := SortByLoad(loads);
    SortFromSorted(loads, 0);
    if |loads| > 0 {
      var first := order[0];
      assert EarliestLeastLoaded(loads, first) by {
        forall i | 0 <= i < |loads|
          ensures loads[first] <= loads[i] && (i < first ==> loads[first] < loads[i])
        {
          assert i in order;
          var p :| 0 <= p < |order| && order[p] == i;
          if p > 0 {
            assert Precedes(loads, order[0], order[p]);
          }
        }
      }
      if EarliestLeastLoaded(loads, t) {
        assert t == first;
      }
      if loads[first] < Capacity {
        assert PickTeacher(loads) == Some(first);
      } else {
        assert AllAtCapacity(loads);
        assert forall j :: 0 <= j < |order| ==> loads[order[j]] >= Capacity;
      }
    }
  }
}
