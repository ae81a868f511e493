/** The monitor's reaction to checks: state rows, the incident ledger and the audit events. */
module Incidents {
  import opened Wrappers
  import opened HealthStates

  type TargetId = string

  /** Identifiers are positions in the ledger; rows are never deleted here. */
  datatype Incident = Incident(
    target: TargetId, isOpen: bool, openedAt: int, resolvedAt: Option<int>,
    durationSec: Option<int>, openedBy: string, resolvedBy: Option<string>,
    cause: string, note: Option<string>)

  /** What a probe reports. */
  datatype Outcome = Outcome(isSuccess: bool, error: Option<string>)

  function Cause(outcome: Outcome): string {
    if outcome.error.Some? then outcome.error.value else "Unknown failure"
  }

  datatype StateRow = StateRow(
    health: Health, lastCheckedAt: Option<int>, lastStatusChangeAt: Option<int>, lastNotificationAt: Option<int>)

  /** The audited transitions. */
  datatype Event = WentDown(target: TargetId) | Recovered(target: TargetId)

  datatype World = World(states: map<TargetId, StateRow>, incidents: seq<Incident>, events: seq<Event>)

  datatype Action =
    | Check(target: TargetId, successThreshold: int, failureThreshold: int, outcome: Outcome, now: int, quiet: bool)
    | Resolve(id: nat, now: int, who: string, note: Option<string>)

  // ---- The ledger operations ----

  ghost predicate HasOpen(incidents: seq<Incident>, t: TargetId) {
    exists i :: 0 <= i < |incidents| && incidents[i].target == t && incidents[i].isOpen
  }

  function NewIncident(t: TargetId, now: int, cause: string): Incident {
    Incident(t, true, now, None, None, "system", None, cause, None)
  }

  function Closed(inc: Incident, now: int, who: string): Incident {
    inc.(isOpen := false, resolvedAt := Some(now), durationSec := Some(now - inc.openedAt), resolvedBy := Some(who))
  }

  /** `open`: the unique index on open incidents rejects a second one for the same target. */
  ghost function Opened(incidents: seq<Incident>, t: TargetId, now: int, cause: string): seq<Incident> {
    if HasOpen(incidents, t) then incidents else incidents + [NewIncident(t, now, cause)]
  }

  /** `auto_resolve`: every open incident of the target. */
  function AutoResolved(incidents: seq<Incident>, t: TargetId, now: int): seq<Incident> {
    if incidents == [] then []
    else
      var inc := incidents[|incidents| - 1];
      AutoResolved(incidents[..|incidents| - 1], t, now)
      + [if inc.target == t && inc.isOpen then Closed(inc, now, "system") else inc]
  }

  lemma {:induction false} AutoResolvedAt(incidents: seq<Incident>, t: TargetId, now: int)
    ensures var r := AutoResolved(incidents, t, now);
            && |r| == |incidents|
            && forall i :: 0 <= i < |r| ==>
                 r[i] == if incidents[i].target == t && incidents[i].isOpen then Closed(incidents[i], now, "system")
                         else incidents[i]
  {
    if incidents == [] {
    } else {
      AutoResolvedAt(incidents[..|incidents| - 1], t, now);
    }
  }

  // ---- One step of the monitor ----

  function CheckedRow(row: StateRow, d: Decision, now: int): StateRow {
    row.(health := d.health, lastCheckedAt := Some(now),
         lastStatusChangeAt := if d.changed || row.lastStatusChangeAt.None? then Some(now) else row.lastStatusChangeAt)
  }

  function Notified(row: StateRow, quiet: bool, now: int): StateRow {
    if quiet then row else row.(lastNotificationAt := Some(now))
  }

  /** A check result: update the state row, then react if the status changed. A target without a
      state row is skipped, as the failed lookup is only logged. */
  ghost function Checked(w: World, t: TargetId, st: int, ft: int, outcome: Outcome, now: int, quiet: bool): World {
    if t !in w.states then w
    else
      var was := w.states[t].health.status;
      var d := Decide(w.states[t].health, st, ft, outcome.isSuccess);
      var row := CheckedRow(w.states[t], d, now);
      if d.changed && d.health.status == Down then
        World(w.states[t := Notified(row, quiet, now)], Opened(w.incidents, t, now, Cause(outcome)),
              w.events + [WentDown(t)])
      else if d.changed && d.health.status == Up && was == Down then
        World(w.states[t := Notified(row, quiet, now)], AutoResolved(w.incidents, t, now), w.events + [Recovered(t)])
      else w.(states := w.states[t := row])
  }

  /** Manual resolution does not look at whether the incident is open. */
  ghost function Resolved(w: World, id: nat, now: int, who: string, note: Option<string>): World {
    if id >= |w.incidents| then w
    else w.(incidents := w.incidents[id := Closed(w.incidents[id], now, who).(note := note)])
  }

  ghost function Next(w: World, a: Action): World {
    match a
    case Check(t, st, ft, outcome, now, quiet) => Checked(w, t, st, ft, outcome, now, quiet)
    case Resolve(id, now, who, note) => Resolved(w, id, now, who, note)
  }

  ghost function Run(w: World, actions: seq<Action>): World {
    if actions == [] then w else Next(Run(w, actions[..|actions| - 1]), actions[|actions| - 1])
  }

  lemma RunSnoc(w: World, actions: seq<Action>, a: Action)
    ensures Run(w, actions + [a]) == Next(Run(w, actions), a)
  {
    assert (actions + [a])[..|actions|] == actions;
  }

  lemma {:induction false} RunConcat(w: World, first: seq<Action>, rest: seq<Action>)
    ensures Run(w, first + rest) == Run(Run(w, first), rest)
  {
    hide Next;
    if rest == [] {
      assert first + rest == first;
    } else {
      var init, a := rest[..|rest| - 1], rest[|rest| - 1];
      RunConcat(w, first, init);
      RunSnoc(w, first + init, a);
      assert first + init + [a] == first + rest;
    }
  }

  /** Targets exist, none is down, and nothing has been recorded yet. */
  ghost predicate Initial(w: World) {
    w.incidents == [] && w.events == [] && forall t :: t in w.states ==> w.states[t].health.status != Down
  }

  // ---- The invariant ----

  ghost predicate IsDown(w: World, t: TargetId) {
    t in w.states && w.states[t].health.status == Down
  }

  ghost predicate OpenMeansDown(w: World) {
    forall i :: 0 <= i < |w.incidents| && w.incidents[i].isOpen ==> IsDown(w, w.incidents[i].target)
  }

  ghost predicate OneOpen(incidents: seq<Incident>) {
    forall i, j :: 0 <= i < j < |incidents| && incidents[i].isOpen && incidents[j].isOpen
      ==> incidents[i].target != incidents[j].target
  }

  /** The transitions of one target in order: `true` for down, `false` for recovery. */
  ghost function Transitions(events: seq<Event>, t: TargetId): seq<bool> {
    if events == [] then []
    else
      var e := events[|events| - 1];
      Transitions(events[..|events| - 1], t) + if e.target == t then [e.WentDown?] else []
  }

  /** Down, recovered, down, recovered, ... */
  ghost predicate Alternates(bs: seq<bool>) {
    forall i :: 0 <= i < |bs| ==> (bs[i] <==> i % 2 == 0)
  }

  /** How many incidents the target ever had. */
  ghost function Ever(incidents: seq<Incident>, t: TargetId): nat {
    if incidents == [] then 0
    else Ever(incidents[..|incidents| - 1], t) + if incidents[|incidents| - 1].target == t then 1 else 0
  }

  /** The target's record is consistent: events alternate starting with down and end with down exactly
      while it is down; every down event opened one incident. */
  ghost predicate RecordOf(w: World, t: TargetId) {
    var bs := Transitions(w.events, t);
    && Alternates(bs)
    && (|bs| % 2 == 1 <==> IsDown(w, t))
    && Ever(w.incidents, t) == (|bs| + 1) / 2
  }

  ghost predicate Inv(w: World) {
    OpenMeansDown(w) && OneOpen(w.incidents) && forall t :: RecordOf(w, t)
  }

  lemma TransitionsSnoc(events: seq<Event>, e: Event, t: TargetId)
    ensures Transitions(events + [e], t) == Transitions(events, t) + if e.target == t then [e.WentDown?] else []
  {
    assert (events + [e])[..|events|] == events;
  }

  lemma {:induction false} EverSame(a: seq<Incident>, b: seq<Incident>, t: TargetId)
    requires |a| == |b| && forall i :: 0 <= i < |a| ==> a[i].target == b[i].target
    ensures Ever(a, t) == Ever(b, t)
  {
    if a == [] {
    } else {
      EverSame(a[..|a| - 1], b[..|b| - 1], t);
    }
  }

  lemma EverSnoc(incidents: seq<Incident>, inc: Incident, t: TargetId)
    ensures Ever(incidents + [inc], t) == Ever(incidents, t) + if inc.target == t then 1 else 0
  {
    assert (incidents + [inc])[..|incidents|] == incidents;
  }

  /** Going down: the invariant says no incident is open, so the unique index never rejects the insert. */
  lemma GoingDownKeepsInv(w: World, t: TargetId, row: StateRow, now: int, cause: string)
    requires Inv(w) && t in w.states && !IsDown(w, t) && row.health.status == Down
    ensures !HasOpen(w.incidents, t)
    ensures Inv(World(w.states[t := row], Opened(w.incidents, t, now, cause), w.events + [WentDown(t)]))
  {
    var w' := World(w.states[t := row], Opened(w.incidents, t, now, cause), w.events + [WentDown(t)]);
    forall u ensures RecordOf(w', u) {
      assert RecordOf(w, u);
      TransitionsSnoc(w.events, WentDown(t), u);
      EverSnoc(w.incidents, NewIncident(t, now, cause), u);
    }
  }

  lemma RecoveringKeepsInv(w: World, t: TargetId, row: StateRow, now: int)
    requires Inv(w) && IsDown(w, t) && row.health.status != Down
    ensures Inv(World(w.states[t := row], AutoResolved(w.incidents, t, now), w.events + [Recovered(t)]))
  {
    hide RecordOf, AutoResolved;
    var w' := World(w.states[t := row], AutoResolved(w.incidents, t, now), w.events + [Recovered(t)]);
    AutoResolvedAt(w.incidents, t, now);
    forall u ensures RecordOf(w', u) {
      RecoveringKeepsRecord(w, t, row, now, u);
    }
  }

  lemma RecoveringKeepsRecord(w: World, t: TargetId, row: StateRow, now: int, u: TargetId)
    requires RecordOf(w, u) && IsDown(w, t) && row.health.status != Down
    ensures RecordOf(World(w.states[t := row], AutoResolved(w.incidents, t, now), w.events + [Recovered(t)]), u)
  {
    hide AutoResolved;
    AutoResolvedAt(w.incidents, t, now);
    TransitionsSnoc(w.events, Recovered(t), u);
    EverSame(w.incidents, AutoResolved(w.incidents, t, now), u);
  }

  lemma SteadyKeepsInv(w: World, t: TargetId, row: StateRow)
    requires Inv(w) && t in w.states && (row.health.status == Down <==> IsDown(w, t))
    ensures Inv(w.(states := w.states[t := row]))
  {
    var w' := w.(states := w.states[t := row]);
    forall u ensures RecordOf(w', u) { assert RecordOf(w, u); }
  }

  lemma ResolvingKeepsInv(w: World, id: nat, now: int, who: string, note: Option<string>)
    requires Inv(w)
    ensures Inv(Resolved(w, id, now, who, note))
  {
    if id < |w.incidents| {
      var w' := Resolved(w, id, now, who, note);
      forall u ensures RecordOf(w', u) {
        assert RecordOf(w, u);
        EverSame(w.incidents, w'.incidents, u);
      }
    }
  }

  lemma StepKeepsInv(w: World, a: Action)
    requires Inv(w)
    ensures Inv(Next(w, a))
  {
    match a
    case Check(t, st, ft, outcome, now, quiet) =>
      if t in w.states {
        var d := Decide(w.states[t].health, st, ft, outcome.isSuccess);
        var row := CheckedRow(w.states[t], d, now);
        hide Inv;
        if d.changed && d.health.status == Down {
          GoingDownKeepsInv(w, t, Notified(row, quiet, now), now, Cause(outcome));
        } else if d.changed && d.health.status == Up && IsDown(w, t) {
          RecoveringKeepsInv(w, t, Notified(row, quiet, now), now);
        } else {
          SteadyKeepsInv(w, t, row);
        }
      }
    case Resolve(id, now, who, note) =>
      ResolvingKeepsInv(w, id, now, who, note);
  }

  /** Over every run of checks and manual resolutions, with any outcomes, thresholds and targets: a target
      has at most one open incident, an open incident means it is down, its events alternate starting
      with down, and it has had exactly one incident per down event. */
  lemma {:induction false} RunKeepsRecords(w: World, actions: seq<Action>)
    requires Initial(w)
    ensures Inv(Run(w, actions))
  {
    if actions == [] {
      forall t ensures RecordOf(w, t) {}
    } else {
      RunKeepsRecords(w, actions[..|actions| - 1]);
      StepKeepsInv(Run(w, actions[..|actions| - 1]), actions[|actions| - 1]);
    }
  }

  // ---- Counting transitions independently of the ledger ----

  /** How many steps of the run took the target from not down to down. */
  ghost function Falls(w: World, actions: seq<Action>, t: TargetId): nat {
    if actions == [] then 0
    else
      var before := Run(w, actions[..|actions| - 1]);
      Falls(w, actions[..|actions| - 1], t)
      + if !IsDown(before, t) && IsDown(Run(w, actions), t) then 1 else 0
  }

  lemma StepRecordsFalls(w: World, a: Action, t: TargetId)
    requires Inv(w)
    ensures Ever(Next(w, a).incidents, t)
         == Ever(w.incidents, t) + if !IsDown(w, t) && IsDown(Next(w, a), t) then 1 else 0
  {
    StepKeepsInv(w, a);
    assert RecordOf(w, t) && RecordOf(Next(w, a), t);
    if a.Check? && a.target in w.states {
      TransitionsSnoc(w.events, WentDown(a.target), t);
      TransitionsSnoc(w.events, Recovered(a.target), t);
    }
  }

  /** Incidents ever opened for a target are exactly its transitions into down. */
  lemma {:induction false} OneIncidentPerFall(w: World, actions: seq<Action>, t: TargetId)
    requires Initial(w)
    ensures Ever(Run(w, actions).incidents, t) == Falls(w, actions, t)
  {
    if actions == [] {
    } else {
      var init := actions[..|actions| - 1];
      OneIncidentPerFall(w, init, t);
      RunKeepsRecords(w, init);
      StepRecordsFalls(Run(w, init), actions[|actions| - 1], t);
    }
  }
}
