/** The transaction ids that have been handed out and those still active, as plain values. */
module TransactionIds {

  datatype Ids = Ids(current: nat, active: set<nat>)

  /** A new id becomes current and active in one locked step. */
  function Allocate(ids: Ids): Ids {
    Ids(ids.current + 1, ids.active + {ids.current + 1})
  }

  function Release(ids: Ids, id: nat): Ids {
    ids.(active := ids.active - {id})
  }

  predicate IsMin(s: set<nat>, m: nat) {
    m in s && forall x :: x in s ==> m <= x
  }

  lemma {:induction false} MinExists(s: set<nat>) returns (m: nat)
    requires s != {}
    ensures IsMin(s, m)
    decreases |s|
  {
    var x :| x in s;
    m := x;
    if s - {x} != {} {
      var rest := MinExists(s - {x});
      if rest < x { m := rest; }
      assert forall y :: y in s ==> y == x || y in s - {x};
    } else {
      assert forall y :: y in s ==> y == x || y in s - {x};
    }
  }

  /** The least active id, or 0 when none is active. */
  ghost function MinActive(ids: Ids): (m: nat)
    ensures ids.active == {} ==> m == 0
    ensures ids.active != {} ==> IsMin(ids.active, m)
  {
    if ids.active == {} then 0
    else
      assert exists m: nat :: IsMin(ids.active, m) by { var m := MinExists(ids.active); }
      var m: nat :| IsMin(ids.active, m); m
  }

  /** What a beginning transaction computes as its viewpoint. */
  ghost function ViewpointFor(ids: Ids, id: nat): nat {
    if id > 1 then
      var m := MinActive(ids);
      if m == 0 || m > id then id - 1 else m - 1
    else 0
  }

  /** Active ids have been handed out, and 0 never is. */
  predicate WellNumbered(ids: Ids) {
    forall id :: id in ids.active ==> 1 <= id <= ids.current
  }

  /** No active id is at or below v. */
  predicate Below(v: nat, active: set<nat>) {
    forall a :: a in active ==> v < a
  }

  /**
   For a beginner whose id is already active the fallback branch is unreachable, and the viewpoint is the largest
   number below every active id.
   */
  lemma ViewpointExact(ids: Ids, id: nat)
    requires WellNumbered(ids) && id in ids.active
    ensures id > 1 ==> MinActive(ids) != 0 && MinActive(ids) <= id
    ensures ViewpointFor(ids, id) < id
    ensures ViewpointFor(ids, id) + 1 in ids.active && forall a :: a in ids.active ==> ViewpointFor(ids, id) < a
    ensures forall w: nat :: Below(w, ids.active) <==> w <= ViewpointFor(ids, id)
  {
    var m := MinActive(ids);
    assert m in ids.active;
    assert ViewpointFor(ids, id) == m - 1;
  }
}
