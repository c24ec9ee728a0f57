/**
 Transactions beginning and ending on any number of threads.

 Beginning takes two locked steps, with other threads in between: an id is handed out, then the least active id
 is read and the thread's context opened. Ending takes two as well: the context is cleared, then the id released.
 */
module Viewpoints {
  import opened TransactionIds

  type Thread = nat

  datatype Phase =
    | Idle
    | Beginning(id: nat)
    | Open(id: nat, viewpoint: nat)
    | Ending(id: nat)

  /** viewpoints lists every viewpoint in the order it was computed. */
  datatype State = State(ids: Ids, threads: map<Thread, Phase>, viewpoints: seq<nat>)

  datatype Event = TakeId(t: Thread) | OpenContext(t: Thread) | ClearContext(t: Thread) | ReleaseId(t: Thread)

  function PhaseOf(s: State, t: Thread): Phase {
    if t in s.threads then s.threads[t] else Idle
  }

  predicate Initial(s: State) {
    s.ids == Ids(0, {}) && s.viewpoints == [] && s.threads == map[]
  }

  ghost predicate Step(s: State, e: Event, s': State) {
    match e
    case TakeId(t) =>
      && PhaseOf(s, t) == Idle
      && s'.ids == Allocate(s.ids)
      && s'.threads == s.threads[t := Beginning(s'.ids.current)]
      && s'.viewpoints == s.viewpoints
    case OpenContext(t) =>
      && PhaseOf(s, t).Beginning?
      && s'.ids == s.ids
      && var id := PhaseOf(s, t).id;
         var viewpoint := ViewpointFor(s.ids, id);
         && s'.threads == s.threads[t := Open(id, viewpoint)]
         && s'.viewpoints == s.viewpoints + [viewpoint]
    case ClearContext(t) =>
      && PhaseOf(s, t).Open?
      && s'.ids == s.ids
      && s'.threads == s.threads[t := Ending(PhaseOf(s, t).id)]
      && s'.viewpoints == s.viewpoints
    case ReleaseId(t) =>
      && PhaseOf(s, t).Ending?
      && s'.ids == Release(s.ids, PhaseOf(s, t).id)
      && s'.threads == s.threads[t := Idle]
      && s'.viewpoints == s.viewpoints
  }

  // ---------- the invariant ----------

  /** Distinct threads hold distinct active ids, and every active id is held. */
  ghost predicate Held(s: State) {
    && (forall t :: !PhaseOf(s, t).Idle? ==> PhaseOf(s, t).id in s.ids.active)
    && (forall t, u :: !PhaseOf(s, t).Idle? && !PhaseOf(s, u).Idle? && t != u ==> PhaseOf(s, t).id != PhaseOf(s, u).id)
    && (forall id :: id in s.ids.active ==> exists t :: !PhaseOf(s, t).Idle? && PhaseOf(s, t).id == id)
  }

  /** Open viewpoints, and all viewpoints ever computed, lie below every active id. */
  ghost predicate Safe(s: State) {
    && (forall t :: PhaseOf(s, t).Open? ==>
          PhaseOf(s, t).viewpoint < PhaseOf(s, t).id && Below(PhaseOf(s, t).viewpoint, s.ids.active))
    && (forall i :: 0 <= i < |s.viewpoints| ==> s.viewpoints[i] <= s.ids.current && Below(s.viewpoints[i], s.ids.active))
    && (forall i, j :: 0 <= i <= j < |s.viewpoints| ==> s.viewpoints[i] <= s.viewpoints[j])
  }

  ghost predicate Inv(s: State) {
    WellNumbered(s.ids) && Held(s) && Safe(s)
  }

  lemma InitialInv(s: State)
    requires Initial(s)
    ensures Inv(s)
  {
  }

  lemma StepHeld(s: State, e: Event, s': State)
    requires WellNumbered(s.ids) && Held(s) && Step(s, e, s')
    ensures WellNumbered(s'.ids) && Held(s')
  {
    forall t ensures t != e.t ==> PhaseOf(s', t) == PhaseOf(s, t) {}
    forall t | !PhaseOf(s', t).Idle? ensures PhaseOf(s', t).id in s'.ids.active {
      assert t != e.t && !PhaseOf(s, e.t).Idle? ==> PhaseOf(s, t).id != PhaseOf(s, e.t).id;
    }
    forall t, u | !PhaseOf(s', t).Idle? && !PhaseOf(s', u).Idle? && t != u
      ensures PhaseOf(s', t).id != PhaseOf(s', u).id
    {
      assert e.TakeId? && t != e.t ==> PhaseOf(s, t).id <= s.ids.current;
      assert e.TakeId? && u != e.t ==> PhaseOf(s, u).id <= s.ids.current;
    }
    forall id | id in s'.ids.active ensures exists t :: !PhaseOf(s', t).Idle? && PhaseOf(s', t).id == id {
      if e.TakeId? && id == s'.ids.current {
        assert PhaseOf(s', e.t) == Beginning(id);
      } else {
        var t :| !PhaseOf(s, t).Idle? && PhaseOf(s, t).id == id;
        assert !PhaseOf(s', t).Idle? && PhaseOf(s', t).id == id;
      }
    }
  }

  lemma StepSafe(s: State, e: Event, s': State)
    requires Inv(s) && Step(s, e, s')
    ensures Safe(s')
  {
    if e.OpenContext? {
      ViewpointExact(s.ids, PhaseOf(s, e.t).id);
      assert Below(ViewpointFor(s.ids, PhaseOf(s, e.t).id), s.ids.active);
      forall i | 0 <= i < |s.viewpoints| ensures s.viewpoints[i] <= ViewpointFor(s.ids, PhaseOf(s, e.t).id) {
        assert Below(s.viewpoints[i], s.ids.active);
      }
    }
    forall t | PhaseOf(s', t).Open?
      ensures PhaseOf(s', t).viewpoint < PhaseOf(s', t).id && Below(PhaseOf(s', t).viewpoint, s'.ids.active)
    {
      if !e.OpenContext? || t != e.t {
        assert PhaseOf(s, t) == PhaseOf(s', t);
        assert Below(PhaseOf(s, t).viewpoint, s.ids.active);
      }
    }
  }

  lemma StepInv(s: State, e: Event, s': State)
    requires Inv(s) && Step(s, e, s')
    ensures Inv(s')
  {
    StepHeld(s, e, s');
    StepSafe(s, e, s');
  }

  // ---------- whole runs ----------

  ghost predicate Run(states: seq<State>, events: seq<Event>) {
    && |states| == |events| + 1
    && Initial(states[0])
    && forall i :: 0 <= i < |events| ==> Step(states[i], events[i], states[i + 1])
  }

  lemma {:induction false} RunInv(states: seq<State>, events: seq<Event>, i: nat)
    requires Run(states, events) && i < |states|
    ensures Inv(states[i])
  {
    if i == 0 {
      InitialInv(states[0]);
    } else {
      RunInv(states, events, i - 1);
      StepInv(states[i - 1], events[i - 1], states[i]);
    }
  }

  /** An id that has been handed out and is not active never becomes active again. */
  lemma {:induction false} EndedStaysEnded(states: seq<State>, events: seq<Event>, i: nat, j: nat, id: nat)
    requires Run(states, events) && i <= j < |states|
    requires id <= states[i].ids.current && id !in states[i].ids.active
    ensures id <= states[j].ids.current && id !in states[j].ids.active
    decreases j - i
  {
    if i < j {
      EndedStaysEnded(states, events, i, j - 1, id);
      assert Step(states[j - 1], events[j - 1], states[j]);
    }
  }

  /**
   Viewpoint safety in every interleaving: an open transaction's viewpoint is below its own id, and every id up to
   the viewpoint has been handed out, is inactive, and stays inactive in every later state.
   */
  lemma ViewpointSafety(states: seq<State>, events: seq<Event>, i: nat, j: nat, t: Thread, id: nat)
    requires Run(states, events) && i <= j < |states|
    requires PhaseOf(states[i], t).Open? && id <= PhaseOf(states[i], t).viewpoint
    ensures PhaseOf(states[i], t).viewpoint < PhaseOf(states[i], t).id <= states[i].ids.current
    ensures id <= states[i].ids.current && id !in states[j].ids.active
  {
    RunInv(states, events, i);
    var p := PhaseOf(states[i], t);
    assert Below(p.viewpoint, states[i].ids.active);
    EndedStaysEnded(states, events, i, j, id);
  }

  /**
   When a context opens, the viewpoint that is recorded, in the thread's context and in the order of computation, is
   the largest number below every active id; the fallback is never taken.
   */
  lemma ViewpointIsLargest(states: seq<State>, events: seq<Event>, i: nat)
    requires Run(states, events) && i < |events| && events[i].OpenContext?
    ensures var t := events[i].t; var before, after := PhaseOf(states[i], t), PhaseOf(states[i + 1], t);
            && before.Beginning? && after.Open? && after.id == before.id && before.id in states[i].ids.active
            && (before.id > 1 ==> 0 < MinActive(states[i].ids) <= before.id)
            && states[i + 1].viewpoints == states[i].viewpoints + [after.viewpoint]
            && after.viewpoint + 1 in states[i].ids.active
            && (forall a :: a in states[i].ids.active ==> after.viewpoint < a)
            && (forall w: nat :: Below(w, states[i].ids.active) <==> w <= after.viewpoint)
  {
    RunInv(states, events, i);
    assert Step(states[i], events[i], states[i + 1]);
    ViewpointExact(states[i].ids, PhaseOf(states[i], events[i].t).id);
  }

  /** The number of ids handed out in the first n steps. */
  function Taken(events: seq<Event>, n: nat): nat
    requires n <= |events|
  {
    if n == 0 then 0 else Taken(events, n - 1) + (if events[n - 1].TakeId? then 1 else 0)
  }

  /** Ids are handed out from 1 on without a gap, and viewpoints computed one for each context opened. */
  lemma {:induction false} IdsAreCounted(states: seq<State>, events: seq<Event>, n: nat)
    requires Run(states, events) && n < |states|
    ensures states[n].ids.current == Taken(events, n)
    ensures n < |events| && events[n].TakeId? ==> PhaseOf(states[n + 1], events[n].t) == Beginning(Taken(events, n) + 1)
    ensures n < |events| && !events[n].OpenContext? ==> states[n + 1].viewpoints == states[n].viewpoints
  {
    if n > 0 {
      IdsAreCounted(states, events, n - 1);
      assert Step(states[n - 1], events[n - 1], states[n]);
    }
    assert n < |events| ==> Step(states[n], events[n], states[n + 1]);
  }

  /** In every state each thread has a step to take, and it disturbs no other thread. */
  lemma EveryThreadCanStep(s: State, t: Thread) returns (e: Event, s': State)
    ensures e.t == t && Step(s, e, s')
    ensures forall u :: u != t ==> PhaseOf(s', u) == PhaseOf(s, u)
    ensures PhaseOf(s, t).Idle? ==> PhaseOf(s', t).Beginning?
    ensures PhaseOf(s, t).Beginning? ==> PhaseOf(s', t).Open? && PhaseOf(s', t).id == PhaseOf(s, t).id
    ensures PhaseOf(s, t).Open? ==> PhaseOf(s', t) == Ending(PhaseOf(s, t).id)
    ensures PhaseOf(s, t).Ending? ==> PhaseOf(s', t).Idle?
  {
    match PhaseOf(s, t)
    case Idle =>
      var ids := Allocate(s.ids);
      e, s' := TakeId(t), State(ids, s.threads[t := Beginning(ids.current)], s.viewpoints);
    case Beginning(id) =>
      var viewpoint := ViewpointFor(s.ids, id);
      e, s' := OpenContext(t), State(s.ids, s.threads[t := Open(id, viewpoint)], s.viewpoints + [viewpoint]);
    case Open(id, _) =>
      e, s' := ClearContext(t), s.(threads := s.threads[t := Ending(id)]);
    case Ending(id) =>
      e, s' := ReleaseId(t), State(Release(s.ids, id), s.threads[t := Idle], s.viewpoints);
  }

  /** The id a thread releases is inactive from then on. */
  lemma ReleasedForGood(states: seq<State>, events: seq<Event>, i: nat, j: nat)
    requires Run(states, events) && i < j < |states| && events[i].ReleaseId?
    ensures PhaseOf(states[i], events[i].t).Ending? && PhaseOf(states[i + 1], events[i].t).Idle?
    ensures PhaseOf(states[i], events[i].t).id in states[i].ids.active
    ensures PhaseOf(states[i], events[i].t).id !in states[j].ids.active
  {
    RunInv(states, events, i);
    assert Step(states[i], events[i], states[i + 1]);
    EndedStaysEnded(states, events, i + 1, j, PhaseOf(states[i], events[i].t).id);
  }

  /** Viewpoints never go back, in the order they are computed, over any run. */
  lemma ViewpointsNeverDecrease(states: seq<State>, events: seq<Event>, n: nat)
    requires Run(states, events) && n < |states|
    ensures forall i, j :: 0 <= i <= j < |states[n].viewpoints| ==> states[n].viewpoints[i] <= states[n].viewpoints[j]
  {
    RunInv(states, events, n);
  }

  /** Open transactions are active, active ids have been handed out, and no two threads share one. */
  lemma IdsAreHeld(states: seq<State>, events: seq<Event>, n: nat)
    requires Run(states, events) && n < |states|
    ensures forall t :: !PhaseOf(states[n], t).Idle? ==> PhaseOf(states[n], t).id in states[n].ids.active
    ensures forall id :: id in states[n].ids.active ==> 1 <= id <= states[n].ids.current
    ensures forall t, u :: !PhaseOf(states[n], t).Idle? && !PhaseOf(states[n], u).Idle? && t != u ==>
              PhaseOf(states[n], t).id != PhaseOf(states[n], u).id
    ensures (forall t :: PhaseOf(states[n], t).Idle?) ==> states[n].ids.active == {}
  {
    RunInv(states, events, n);
  }
}
