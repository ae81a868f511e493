/** The monitor as it runs: retried checks, then the state row and the incident ledger in place. */
module Engine {
  import opened Wrappers
  import opened HealthStates
  import opened Incidents

  const EXHAUSTED: Outcome := Outcome(false, Some("All retries exhausted"))

  /** The outcome of the attempts from `k` on, the ones before having failed. */
  function Retried(retryCount: int, probe: nat -> Outcome, k: nat): Outcome
    decreases retryCount + 1 - k
  {
    if k > retryCount then if k == 0 then EXHAUSTED else probe(k - 1)
    else if probe(k).isSuccess then probe(k)
    else Retried(retryCount, probe, k + 1)
  }

  /** `execute_check`: the first successful attempt wins; otherwise the last attempt is reported. */
  method ExecuteCheck(retryCount: int, probe: nat -> Outcome) returns (outcome: Outcome, attempts: nat)
    ensures outcome == Retried(retryCount, probe, 0)
    ensures retryCount < 0 ==> attempts == 0 && outcome == EXHAUSTED
    ensures retryCount >= 0 ==> 1 <= attempts <= retryCount + 1 && outcome == probe(attempts - 1)
    ensures forall k: nat :: k < attempts - 1 ==> !probe(k).isSuccess
    ensures retryCount >= 0 && !outcome.isSuccess ==> attempts == retryCount + 1
    ensures outcome.isSuccess <==> exists k: nat :: k <= retryCount && probe(k).isSuccess
  {
    var last: Option<Outcome> := None;
    attempts := 0;
    while attempts <= retryCount
      invariant retryCount < 0 ==> attempts == 0
      invariant retryCount >= 0 ==> attempts <= retryCount + 1
      invariant last == if attempts == 0 then None else Some(probe(attempts - 1))
      invariant forall k: nat :: k < attempts ==> !probe(k).isSuccess
      invariant Retried(retryCount, probe, 0) == Retried(retryCount, probe, attempts)
      decreases retryCount + 1 - attempts
    {
      outcome := probe(attempts);
      attempts := attempts + 1;
      if outcome.isSuccess {
        return;
      }
      last := Some(outcome);
    }
    outcome := if last.Some? then last.value else EXHAUSTED;
  }

  // ---- One target's turn, column by column ----

  predicate Fell(was: StateRow, row: StateRow) { was.health.status != Down && row.health.status == Down }

  predicate Rose(was: StateRow, row: StateRow) { was.health.status == Down && row.health.status == Up }

  /** The row after a check: health by thresholds, the time of the check, the time of the last change or of the first
      check, and the time of the last notification. */
  ghost predicate RowTakes(was: StateRow, row: StateRow, st: int, ft: int, ok: bool, now: int, quiet: bool) {
    && row.health == Decide(was.health, st, ft, ok).health
    && row.lastCheckedAt == Some(now)
    && row.lastStatusChangeAt == (if row.health.status != was.health.status || was.lastStatusChangeAt.None?
                                  then Some(now) else was.lastStatusChangeAt)
    && row.lastNotificationAt == (if (Fell(was, row) || Rose(was, row)) && !quiet
                                  then Some(now) else was.lastNotificationAt)
  }

  /** The target's incident, if it is open, ends with its recovery. */
  function EndedBy(inc: Incident, t: TargetId, rose: bool, now: int): Incident {
    if rose && inc.target == t && inc.isOpen
    then Incident(t, false, inc.openedAt, Some(now), Some(now - inc.openedAt), inc.openedBy, Some("system"),
                  inc.cause, inc.note)
    else inc
  }

  /** A recovery ends the target's open incidents; a fall adds one, unless one is open; nothing else changes. */
  ghost predicate LedgerTakes(before: seq<Incident>, after: seq<Incident>, t: TargetId, fell: bool, rose: bool,
                              now: int, error: Option<string>) {
    && |before| <= |after|
    && (forall i :: 0 <= i < |before| ==> after[i] == EndedBy(before[i], t, rose, now))
    && after[|before|..] ==
         if fell && forall i :: 0 <= i < |before| ==> !(before[i].target == t && before[i].isOpen)
         then [Incident(t, true, now, None, None, "system", None,
                        if error.Some? then error.value else "Unknown failure", None)]
         else []
  }

  lemma LedgerOpens(before: seq<Incident>, t: TargetId, now: int, outcome: Outcome)
    ensures LedgerTakes(before, Opened(before, t, now, Cause(outcome)), t, true, false, now, outcome.error)
  {
  }

  lemma LedgerResolves(before: seq<Incident>, t: TargetId, now: int, error: Option<string>)
    ensures LedgerTakes(before, AutoResolved(before, t, now), t, false, true, now, error)
  {
    AutoResolvedAt(before, t, now);
  }

  lemma LedgerStays(before: seq<Incident>, t: TargetId, now: int, error: Option<string>)
    ensures LedgerTakes(before, before, t, false, false, now, error)
  {
  }

  /** The whole turn of a target that has a state row. */
  ghost predicate TurnTaken(w: Incidents.World, after: Incidents.World, t: TargetId, st: int, ft: int,
                            outcome: Outcome, now: int, quiet: bool)
    requires t in w.states
  {
    && after.states.Keys == w.states.Keys
    && RowTakes(w.states[t], after.states[t], st, ft, outcome.isSuccess, now, quiet)
    && (forall u :: u in w.states && u != t ==> after.states[u] == w.states[u])
    && var (fell, rose) := (Fell(w.states[t], after.states[t]), Rose(w.states[t], after.states[t]));
       && LedgerTakes(w.incidents, after.incidents, t, fell, rose, now, outcome.error)
       && after.events == w.events + if fell then [WentDown(t)] else if rose then [Recovered(t)] else []
  }

  lemma CheckedTakesTurn(w: Incidents.World, t: TargetId, st: int, ft: int, outcome: Outcome, now: int, quiet: bool)
    requires t in w.states
    ensures TurnTaken(w, Checked(w, t, st, ft, outcome, now, quiet), t, st, ft, outcome, now, quiet)
  {
    LedgerOpens(w.incidents, t, now, outcome);
    LedgerResolves(w.incidents, t, now, outcome.error);
    LedgerStays(w.incidents, t, now, outcome.error);
    hide LedgerTakes, Opened, AutoResolved;
  }

  class Monitor {
    var states: map<TargetId, StateRow>
    var incidents: seq<Incident>
    var events: seq<Event>

    ghost function World(): World
      reads this
    {
      Incidents.World(states, incidents, events)
    }

    constructor (states: map<TargetId, StateRow>)
      ensures World() == Incidents.World(states, [], [])
    {
      this.states, incidents, events := states, [], [];
    }

    /** `update_after_check`; `None` when the target has no state row. */
    method UpdateAfterCheck(t: TargetId, st: int, ft: int, ok: bool, now: int) returns (d: Option<Decision>)
      modifies this`states
      ensures t !in old(states) ==> d == None && states == old(states)
      ensures t in old(states) ==>
                && d == Some(Decide(old(states)[t].health, st, ft, ok))
                && states == old(states)[t := CheckedRow(old(states)[t], d.value, now)]
    {
      if t !in states {
        return None;
      }
      var row := states[t];
      var decision := Decide(row.health, st, ft, ok);
      var changeAt := if decision.changed then Some(now)
                      else if row.lastStatusChangeAt.Some? then row.lastStatusChangeAt else Some(now);
      states := states[t := StateRow(decision.health, Some(now), changeAt, row.lastNotificationAt)];
      d := Some(decision);
    }

    method MarkNotified(t: TargetId, now: int)
      requires t in states
      modifies this`states
      ensures states == old(states)[t := old(states)[t].(lastNotificationAt := Some(now))]
    {
      states := states[t := states[t].(lastNotificationAt := Some(now))];
    }

    /** Insert an open incident; the unique index refuses a second one. */
    method Open(t: TargetId, now: int, cause: string) returns (inserted: bool)
      modifies this`incidents
      ensures inserted <==> !HasOpen(old(incidents), t)
      ensures incidents == Opened(old(incidents), t, now, cause)
    {
      inserted := true;
      for i := 0 to |incidents|
        invariant incidents == old(incidents)
        invariant inserted <==> forall k :: 0 <= k < i ==> !(incidents[k].target == t && incidents[k].isOpen)
      {
        if incidents[i].target == t && incidents[i].isOpen {
          inserted := false;
        }
      }
      if inserted {
        incidents := incidents + [NewIncident(t, now, cause)];
      }
    }

    method AutoResolve(t: TargetId, now: int)
      modifies this`incidents
      ensures incidents == AutoResolved(old(incidents), t, now)
    {
      ghost var before := incidents;
      AutoResolvedAt(before, t, now);
      for i := 0 to |incidents|
        invariant |incidents| == |before|
        invariant forall k :: 0 <= k < i ==> incidents[k] == AutoResolved(before, t, now)[k]
        invariant forall k :: i <= k < |before| ==> incidents[k] == before[k]
      {
        if incidents[i].target == t && incidents[i].isOpen {
          incidents := incidents[i := Closed(incidents[i], now, "system")];
        }
      }
    }

    /** Manual resolution; `false` when there is no such incident. */
    method Resolve(id: nat, now: int, who: string, note: Option<string>) returns (found: bool)
      modifies this`incidents
      ensures found <==> id < |old(incidents)|
      ensures World() == Resolved(old(World()), id, now, who, note)
    {
      found := id < |incidents|;
      if found {
        incidents := incidents[id := Closed(incidents[id], now, who).(note := note)];
      }
    }

    /** `handle_state_transition`: open or resolve the incident, notify outside maintenance, write the event. */
    method HandleTransition(t: TargetId, was: Status, status: Status, outcome: Outcome, now: int, quiet: bool)
      requires t in states
      modifies this
      ensures states == if status == Down || (status == Up && was == Down)
                        then old(states)[t := Notified(old(states)[t], quiet, now)] else old(states)
      ensures incidents == if status == Down then Opened(old(incidents), t, now, Cause(outcome))
                           else if status == Up && was == Down then AutoResolved(old(incidents), t, now)
                           else old(incidents)
      ensures events == old(events) + if status == Down then [WentDown(t)]
                                      else if status == Up && was == Down then [Recovered(t)] else []
    {
      hide Opened, AutoResolved;
      assert states[t := states[t]] == states;
      if status == Down {
        var inserted := Open(t, now, Cause(outcome));
        if !quiet {
          MarkNotified(t, now);
        }
        events := events + [WentDown(t)];
      } else if status == Up && was == Down {
        AutoResolve(t, now);
        if !quiet {
          MarkNotified(t, now);
        }
        events := events + [Recovered(t)];
      }
    }

    /** One target's turn: update the state row, then react if its status changed. */
    method RunCheck(t: TargetId, st: int, ft: int, outcome: Outcome, now: int, quiet: bool)
      modifies this
      ensures World() == Checked(old(World()), t, st, ft, outcome, now, quiet)
      ensures t !in old(states) ==> World() == old(World())
      ensures t in old(states) ==> TurnTaken(old(World()), World(), t, st, ft, outcome, now, quiet)
    {
      hide TurnTaken, Opened, AutoResolved;
      if t in states {
        CheckedTakesTurn(World(), t, st, ft, outcome, now, quiet);
      }
      var was := if t in states then states[t].health.status else Unknown;
      var d := UpdateAfterCheck(t, st, ft, outcome.isSuccess, now);
      if d.Some? && d.value.changed {
        HandleTransition(t, was, d.value.health.status, outcome, now, quiet);
      }
    }
  }
}
