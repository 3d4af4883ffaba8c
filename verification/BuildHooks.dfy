/** packages/compiler/src/shell.ts: build hooks of watch mode, one run at a time, changes coalesced. */
module BuildHooks {

  /** `Changed` is the project's `done` event; a run of the hooks starts and later ends, well or not. */
  datatype Event = Changed | Started | Ended(failed: bool)

  /** The two captured flags, the number of runs under way, and what has happened so far. */
  datatype State = State(building: bool, pending: bool, active: int, log: seq<Event>)

  /** Asking for a run: one under way absorbs the request. */
  function AfterRequest(s: State): (r: State) {
    if s.building then s.(pending := true)
    else s.(building := true, active := s.active + 1, log := s.log + [Started])
  }

  function AfterDone(s: State): (r: State) { AfterRequest(s.(log := s.log + [Changed])) }

  function AfterEnd(s: State, failed: bool): (r: State) {
    var t := s.(building := false, active := s.active - 1, log := s.log + [Ended(failed)]);
    if t.pending then AfterRequest(t.(pending := false)) else t
  }

  class Runner {
    var building: bool
    var pending: bool
    ghost var active: int
    ghost var log: seq<Event>

    ghost function Now(): (r: State)
      reads this
    {
      State(building, pending, active, log)
    }

    constructor ()
      ensures Now() == State(false, false, 0, [])
    {
      building, pending, active, log := false, false, 0, [];
    }

    /** The part of `runHooks` before its first suspension. */
    method RunHooks()
      modifies this
      ensures Now() == AfterRequest(old(Now()))
    {
      if building {
        pending := true;
        return;
      }
      building := true;
      active, log := active + 1, log + [Started];
    }

    method OnDone()
      modifies this
      ensures Now() == AfterDone(old(Now()))
      ensures building && (if old(building) then pending && active == old(active) else active == old(active) + 1)
    {
      log := log + [Changed];
      RunHooks();
    }

    /** The `finally` part, after a run that may have thrown. */
    method OnEnd(failed: bool)
      modifies this
      ensures Now() == AfterEnd(old(Now()), failed)
    {
      active, log := active - 1, log + [Ended(failed)];
      building := false;
      if pending {
        pending := false;
        RunHooks();
      }
    }
  }

  // ---- every interleaving ----

  datatype Step = DoDone | DoEnd(failed: bool)

  predicate Enabled(s: State, step: Step) { step.DoEnd? ==> s.active > 0 }

  function Apply(s: State, step: Step): (r: State) {
    match step
    case DoDone => AfterDone(s)
    case DoEnd(failed) => AfterEnd(s, failed)
  }

  ghost predicate Leads(steps: seq<Step>, s: State) {
    if steps == [] then s == State(false, false, 0, []) else
      var last := |steps| - 1;
      exists before: State ::
        Leads(steps[..last], before) && Enabled(before, steps[last]) && s == Apply(before, steps[last])
  }

  function Count(log: seq<Event>, e: Event): (r: nat) {
    if log == [] then 0
    else if log[|log| - 1] == e then Count(log[..|log| - 1], e) + 1
    else Count(log[..|log| - 1], e)
  }

  /** Every change up to now was followed by the start of a run. */
  ghost predicate Covered(log: seq<Event>) {
    forall i :: 0 <= i < |log| && log[i].Changed? ==> exists j :: i < j < |log| && log[j].Started?
  }

  ghost predicate Inv(s: State) {
    && s.active == (if s.building then 1 else 0)
    && (s.pending ==> s.building)
    && Count(s.log, Started) + (if s.pending then 1 else 0) <= Count(s.log, Changed)
    && (!s.pending ==> Covered(s.log))
  }

  lemma CountSnoc(log: seq<Event>, e: Event, x: Event)
    ensures Count(log + [e], x) == if e == x then Count(log, x) + 1 else Count(log, x)
  {
    assert (log + [e])[..|log + [e]| - 1] == log;
  }

  lemma StartCovers(log: seq<Event>)
    ensures Covered(log + [Started])
  {
    var n := log + [Started];
    assert n[|log|].Started?;
  }

  lemma EndCovers(log: seq<Event>, failed: bool)
    requires Covered(log)
    ensures Covered(log + [Ended(failed)])
  {
    var n := log + [Ended(failed)];
    forall i | 0 <= i < |n| && n[i].Changed? ensures exists j :: i < j < |n| && n[j].Started? {
      assert log[i].Changed?;
      var j :| i < j < |log| && log[j].Started?;
      assert n[j].Started?;
    }
  }

  lemma StepKeeps(s: State, step: Step)
    requires Inv(s) && Enabled(s, step)
    ensures Inv(Apply(s, step))
  {
    var e := match step case DoDone => Changed case DoEnd(failed) => Ended(failed);
    var log := s.log + [e];
    CountSnoc(s.log, e, Started);
    CountSnoc(s.log, e, Changed);
    CountSnoc(log, Started, Started);
    CountSnoc(log, Started, Changed);
    StartCovers(log);
    if step.DoEnd? && !s.pending {
      EndCovers(s.log, step.failed);
    }
  }

  lemma {:induction false} RunKeeps(steps: seq<Step>, s: State)
    requires Leads(steps, s)
    ensures Inv(s)
  {
    if steps != [] {
      var last := |steps| - 1;
      var before: State :| Leads(steps[..last], before) && Enabled(before, steps[last])
                           && s == Apply(before, steps[last]);
      RunKeeps(steps[..last], before);
      StepKeeps(before, steps[last]);
    }
  }

  function Changes(steps: seq<Step>): (n: nat)
  {
    if steps == [] then 0 else Changes(steps[..|steps| - 1]) + (if steps[|steps| - 1].DoDone? then 1 else 0)
  }

  function Ends(steps: seq<Step>): (n: nat)
  {
    if steps == [] then 0 else Ends(steps[..|steps| - 1]) + (if steps[|steps| - 1].DoEnd? then 1 else 0)
  }

  lemma StepCounts(s: State, step: Step)
    ensures var n := Apply(s, step);
            && Count(n.log, Changed) == Count(s.log, Changed) + (if step.DoDone? then 1 else 0)
            && Count(n.log, Started) - n.active ==
                 Count(s.log, Started) - s.active + (if step.DoEnd? then 1 else 0)
  {
    var e := match step case DoDone => Changed case DoEnd(failed) => Ended(failed);
    CountSnoc(s.log, e, Started);
    CountSnoc(s.log, e, Changed);
    CountSnoc(s.log + [e], Started, Started);
    CountSnoc(s.log + [e], Started, Changed);
  }

  /** Every change is seen, and every run that was started is over or under way. */
  lemma {:induction false} RunsFollowTheSteps(steps: seq<Step>, s: State)
    requires Leads(steps, s)
    ensures Count(s.log, Changed) == Changes(steps) && Count(s.log, Started) == Ends(steps) + s.active
  {
    if steps != [] {
      var last := |steps| - 1;
      var before: State :| Leads(steps[..last], before) && Enabled(before, steps[last])
                           && s == Apply(before, steps[last]);
      RunsFollowTheSteps(steps[..last], before);
      StepCounts(before, steps[last]);
    }
  }

  /** However changes and run ends interleave: one run at a time, no more runs than changes, a waiting request
      only behind a running one, and once the runner is idle a run has started after every change. */
  lemma NoChangeIsLost(steps: seq<Step>, s: State)
    requires Leads(steps, s)
    ensures 0 <= s.active <= 1 && (s.pending ==> s.active == 1)
    ensures Count(s.log, Started) <= Count(s.log, Changed)
    ensures s.active == 0 ==> !s.building && Covered(s.log)
  {
    RunKeeps(steps, s);
  }

  /** When changes stop, at most two more run ends make the runner idle, with every change covered. */
  lemma RunnerComesToRest(steps: seq<Step>, s: State, a: bool, b: bool)
    requires Leads(steps, s) && s.active > 0
    ensures var one := AfterEnd(s, a);
            if s.pending then one.active == 1 && AfterEnd(one, b).active == 0 && Covered(AfterEnd(one, b).log)
            else one.active == 0 && Covered(one.log)
  {
    RunKeeps(steps, s);
    StepKeeps(s, DoEnd(a));
    var one := AfterEnd(s, a);
    if s.pending {
      StepKeeps(one, DoEnd(b));
    }
  }

  /** Any number of changes during one run is answered by a single further run. */
  lemma {:induction false} BurstsAreCoalesced(s: State, n: nat)
    requires Inv(s) && s.building && n > 0
    ensures var t := AfterChanges(s, n);
            && t.building && t.pending && t.active == s.active
            && Count(t.log, Started) == Count(s.log, Started)
            && Count(AfterEnd(t, false).log, Started) == Count(s.log, Started) + 1
    decreases n
  {
    var before := AfterChanges(s, n - 1);
    if n > 1 {
      BurstsAreCoalesced(s, n - 1);
    }
    CountSnoc(before.log, Changed, Started);
    var t := AfterChanges(s, n);
    CountSnoc(t.log, Ended(false), Started);
    CountSnoc(t.log + [Ended(false)], Started, Started);
  }

  function AfterChanges(s: State, n: nat): (r: State) {
    if n == 0 then s else AfterDone(AfterChanges(s, n - 1))
  }
}
