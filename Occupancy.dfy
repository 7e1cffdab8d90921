/** The abstract state of one pool: for each lot, in id order, the vehicle
    parked in it or None when the lot is free.  LotTracker keeps its occupied
    counter equal to OccupiedCount(...) of this sequence and allocates at
    FirstFree(...) of it. */
module Occupancy {
  import opened Wrappers
  import opened Vehicles

  /** Number of occupied lots. */
  function OccupiedCount(s: seq<Option<Vehicle>>): (n: nat)
    ensures n <= |s|
    ensures n == 0 <== forall i :: 0 <= i < |s| ==> s[i].None?
  {
    if s == [] then 0
    else (if s[0].Some? then 1 else 0) + OccupiedCount(s[1..])
  }

  /** Index of the first free lot (first fit in ascending id order). */
  function FirstFree(s: seq<Option<Vehicle>>): (r: Option<nat>)
    ensures r.None? <==> forall i :: 0 <= i < |s| ==> s[i].Some?
    ensures r.Some? ==> r.value < |s| && s[r.value].None?
    ensures r.Some? ==> forall i :: 0 <= i < r.value ==> s[i].Some?
  {
    if s == [] then None
    else if s[0].None? then Some(0)
    else match FirstFree(s[1..])
      case None => None
      case Some(j) => Some(j + 1)
  }

  /** The pool is full (the counter reaches the number of lots) exactly when
      no lot is free. */
  lemma {:induction false} FullIffNoFreeLot(s: seq<Option<Vehicle>>)
    ensures OccupiedCount(s) == |s| <==> FirstFree(s).None?
  {
    if s != [] {
      FullIffNoFreeLot(s[1..]);
      if s[0].Some? {
        assert forall i :: 1 <= i < |s| ==> s[i] == s[1..][i - 1];
      }
    }
  }

  /** Parking in a free lot adds exactly one to the count. */
  lemma {:induction false} OccupyAddsOne(s: seq<Option<Vehicle>>, k: nat, v: Vehicle)
    requires k < |s| && s[k].None?
    ensures OccupiedCount(s[k := Some(v)]) == OccupiedCount(s) + 1
  {
    if k > 0 {
      OccupyAddsOne(s[1..], k - 1, v);
      assert s[k := Some(v)][1..] == s[1..][k - 1 := Some(v)];
    }
  }

  /** Freeing an occupied lot takes exactly one off the count. */
  lemma {:induction false} FreeSubtractsOne(s: seq<Option<Vehicle>>, k: nat)
    requires k < |s| && s[k].Some?
    ensures OccupiedCount(s[k := None]) == OccupiedCount(s) - 1
  {
    if k > 0 {
      FreeSubtractsOne(s[1..], k - 1);
      assert s[k := None][1..] == s[1..][k - 1 := None];
    }
  }

  /** A pool with an occupied lot has a positive count. */
  lemma {:induction false} OccupiedLotCounts(s: seq<Option<Vehicle>>, k: nat)
    requires k < |s| && s[k].Some?
    ensures OccupiedCount(s) > 0
  {
    FreeSubtractsOne(s, k);
  }

  /** A count of zero means every lot is free. */
  lemma {:induction false} OccupiedCountZero(s: seq<Option<Vehicle>>)
    requires OccupiedCount(s) == 0
    ensures forall i :: 0 <= i < |s| ==> s[i].None?
  {
    if s != [] {
      OccupiedCountZero(s[1..]);
      assert forall i :: 1 <= i < |s| ==> s[i] == s[1..][i - 1];
    }
  }

  /** The first-fit index is the free lot that every lower lot precedes
      occupied. */
  lemma FirstFreeIs(s: seq<Option<Vehicle>>, k: nat)
    requires k < |s| && s[k].None?
    requires forall i :: 0 <= i < k ==> s[i].Some?
    ensures FirstFree(s) == Some(k)
  {
  }

  /** All lots free. */
  function AllFree(n: nat): (s: seq<Option<Vehicle>>)
    ensures |s| == n && OccupiedCount(s) == 0
    ensures forall i :: 0 <= i < n ==> s[i].None?
  {
    seq(n, i => None)
  }
}
