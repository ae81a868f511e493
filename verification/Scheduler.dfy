/** The cron scheduler: at most fifty due targets per run, oldest due time first, each checked in its turn. */
module Scheduler {
  import opened Wrappers
  import opened Ordering
  import opened Engine
  import Incidents

  const BATCH_LIMIT: nat := 50
  const SECONDS_PER_MINUTE: int := 60

  datatype Target = Target(
    intervalMinutes: int, isDisabled: bool, nextCheckAt: int,
    retryCount: int, successThreshold: int, failureThreshold: int)

  /** What each attempt at each target would report. */
  type Probes = (string, nat) -> Incidents.Outcome

  type Table = map<string, Target>

  predicate Due(t: Target, now: int) { !t.isDisabled && t.nextCheckAt <= now }

  predicate DueIn(table: Table, id: string, now: int) { id in table && Due(table[id], now) }

  function NextAt(table: Table, id: string): int { if id in table then table[id].nextCheckAt else 0 }

  function OlderIn(table: Table): (string, string) -> bool {
    (a: string, b: string) => NextAt(table, a) < NextAt(table, b)
  }

  /** What the query may return; among equal due times the store chooses freely. */
  ghost predicate IsBatch(table: Table, now: int, batch: seq<string>) {
    && NoRepeats(batch) && |batch| <= BATCH_LIMIT
    && (forall id :: id in batch ==> DueIn(table, id, now))
    && (forall i, j :: 0 <= i < j < |batch| ==> NextAt(table, batch[i]) <= NextAt(table, batch[j]))
    && (forall id :: DueIn(table, id, now) && id !in batch ==>
          |batch| == BATCH_LIMIT && forall u :: u in batch ==> NextAt(table, u) <= NextAt(table, id))
  }

  /** Every target of the batch is due again one interval after `now`. */
  ghost function Rescheduled(table: Table, now: int, batch: seq<string>): Table {
    map id | id in table ::
      if id in batch then table[id].(nextCheckAt := now + table[id].intervalMinutes * SECONDS_PER_MINUTE)
      else table[id]
  }

  datatype Round = Round(now: int, batch: seq<string>)

  /** A run of the scheduler: a clock that never goes back, and every batch a legal query result. */
  ghost predicate Runs(table: Table, rounds: seq<Round>) {
    rounds == [] ||
      (&& IsBatch(table, rounds[0].now, rounds[0].batch)
       && (|rounds| > 1 ==> rounds[0].now <= rounds[1].now)
       && Runs(Rescheduled(table, rounds[0].now, rounds[0].batch), rounds[1..]))
  }

  function Attempts(probes: Probes, id: string): nat -> Incidents.Outcome {
    (k: nat) => probes(id, k)
  }

  /** One target's check in a run, as a step of the ledger. */
  function CheckOf(t: Target, id: string, now: int, probes: Probes, quiet: string -> bool): Incidents.Action {
    Incidents.Check(id, t.successThreshold, t.failureThreshold, Retried(t.retryCount, Attempts(probes, id), 0), now,
                    quiet(id))
  }

  /** The checks of a batch, in its order. */
  function Checks(table: Table, now: int, batch: seq<string>, probes: Probes,
      quiet: string -> bool): seq<Incidents.Action> {
    if batch == [] then []
    else
      var id := batch[|batch| - 1];
      Checks(table, now, batch[..|batch| - 1], probes, quiet)
      + if id in table then [CheckOf(table[id], id, now, probes, quiet)] else []
  }

  // ---- What one run does, column by column ----

  /** The enabled targets whose due time has come, the longest overdue first, at most fifty of them. */
  ghost predicate OldestFifty(table: Table, now: int, checked: seq<string>) {
    && NoRepeats(checked) && |checked| <= 50
    && (forall id :: id in checked ==> id in table && !table[id].isDisabled && table[id].nextCheckAt <= now)
    && (forall i, j :: 0 <= i < j < |checked| && checked[i] in table && checked[j] in table ==>
          table[checked[i]].nextCheckAt <= table[checked[j]].nextCheckAt)
    && (forall id :: id in table && !table[id].isDisabled && table[id].nextCheckAt <= now && id !in checked ==>
          |checked| == 50
          && forall u :: u in checked && u in table ==> table[u].nextCheckAt <= table[id].nextCheckAt)
  }

  lemma BatchIsOldestFifty(table: Table, now: int, batch: seq<string>)
    ensures IsBatch(table, now, batch) <==> OldestFifty(table, now, batch)
  {
    hide NoRepeats;
  }

  ghost predicate Succeeds(t: Target, probe: nat -> Incidents.Outcome) {
    exists k: nat :: k <= t.retryCount && probe(k).isSuccess
  }

  /** The first successful attempt is reported, otherwise the last one. */
  ghost predicate Reports(t: Target, probe: nat -> Incidents.Outcome, outcome: Incidents.Outcome) {
    if Succeeds(t, probe) then
      exists k: nat :: k <= t.retryCount && probe(k).isSuccess && outcome == probe(k) &&
                       forall j: nat :: j < k ==> !probe(j).isSuccess
    else if t.retryCount < 0 then outcome == Incidents.Outcome(false, Some("All retries exhausted"))
    else outcome == probe(t.retryCount)
  }

  /** Every checked target is due one interval after the run; nothing else about any target changes. */
  ghost predicate TargetsTaken(table: Table, now: int, checked: seq<string>, table': Table) {
    && table'.Keys == table.Keys
    && forall id :: id in table ==>
         table'[id] == if id in checked then table[id].(nextCheckAt := now + table[id].intervalMinutes * 60)
                       else table[id]
  }

  /** The row of every checked target takes its outcome under the target's own thresholds; other rows stay. */
  ghost predicate RowsTaken(table: Table, rows: map<string, Incidents.StateRow>, now: int, checked: seq<string>,
                            probes: Probes, quiet: string -> bool, rows': map<string, Incidents.StateRow>) {
    && rows'.Keys == rows.Keys
    && forall id :: id in rows ==>
         if id in checked && id in table then
           RowTakes(rows[id], rows'[id], table[id].successThreshold, table[id].failureThreshold,
                    Succeeds(table[id], Attempts(probes, id)), now, quiet(id))
         else rows'[id] == rows[id]
  }

  ghost predicate FallsIn(rows: map<string, Incidents.StateRow>, rows': map<string, Incidents.StateRow>, id: string) {
    id in rows && id in rows' && Fell(rows[id], rows'[id])
  }

  ghost predicate RisesIn(rows: map<string, Incidents.StateRow>, rows': map<string, Incidents.StateRow>, id: string) {
    id in rows && id in rows' && Rose(rows[id], rows'[id])
  }

  /** The incident that a fall in this run opens. */
  ghost predicate OpensWith(table: Table, now: int, probes: Probes, inc: Incidents.Incident) {
    && inc.target in table
    && exists outcome ::
         && Reports(table[inc.target], Attempts(probes, inc.target), outcome)
         && inc == Incidents.Incident(inc.target, true, now, None, None, "system", None,
                                      if outcome.error.Some? then outcome.error.value else "Unknown failure", None)
  }

  /** Recoveries end the open incidents of their targets, and each fall without an open incident adds one. */
  ghost predicate LedgerTaken(table: Table, w: Incidents.World, now: int, checked: seq<string>, probes: Probes,
                              after: Incidents.World) {
    && |w.incidents| <= |after.incidents|
    && (forall i :: 0 <= i < |w.incidents| ==>
          after.incidents[i] == EndedBy(w.incidents[i], w.incidents[i].target,
                                        w.incidents[i].target in checked &&
                                        RisesIn(w.states, after.states, w.incidents[i].target), now))
    && (forall i :: |w.incidents| <= i < |after.incidents| ==>
          && after.incidents[i].target in checked && FallsIn(w.states, after.states, after.incidents[i].target)
          && OpensWith(table, now, probes, after.incidents[i]))
    && (forall id :: id in checked && FallsIn(w.states, after.states, id) && !Incidents.HasOpen(w.incidents, id) ==>
          exists i :: |w.incidents| <= i < |after.incidents| && after.incidents[i].target == id)
  }

  /** One more target has had its turn. */
  lemma RowsExtend(table: Table, w0: Incidents.World, now: int, done: seq<string>, probes: Probes,
                   quiet: string -> bool, w1: Incidents.World, id: string, outcome: Incidents.Outcome,
                   w2: Incidents.World)
    requires RowsTaken(table, w0.states, now, done, probes, quiet, w1.states)
    requires id in table && id !in done
    requires outcome.isSuccess <==> Succeeds(table[id], Attempts(probes, id))
    requires if id in w1.states
             then TurnTaken(w1, w2, id, table[id].successThreshold, table[id].failureThreshold, outcome, now, quiet(id))
             else w2 == w1
    ensures RowsTaken(table, w0.states, now, done + [id], probes, quiet, w2.states)
  {
    hide RowTakes, Succeeds, LedgerTakes;
  }

  /** The target's own turn, after those of `done`. */
  ghost predicate NextTurn(table: Table, w0: Incidents.World, now: int, done: seq<string>, probes: Probes,
                           quiet: string -> bool, w1: Incidents.World, id: string, outcome: Incidents.Outcome,
                           w2: Incidents.World)
  {
    && LedgerTaken(table, w0, now, done, probes, w1)
    && RowsTaken(table, w0.states, now, done, probes, quiet, w1.states)
    && id in table && id !in done && Reports(table[id], Attempts(probes, id), outcome) && id in w1.states
    && TurnTaken(w1, w2, id, table[id].successThreshold, table[id].failureThreshold, outcome, now, quiet(id))
  }

  lemma NextTurnKeeps(table: Table, w0: Incidents.World, now: int, done: seq<string>, probes: Probes,
                      quiet: string -> bool, w1: Incidents.World, id: string, outcome: Incidents.Outcome,
                      w2: Incidents.World, i: nat)
    requires NextTurn(table, w0, now, done, probes, quiet, w1, id, outcome, w2) && i < |w0.incidents|
    ensures |w0.incidents| <= |w2.incidents|
    ensures w2.incidents[i] == EndedBy(w0.incidents[i], w0.incidents[i].target,
                                       w0.incidents[i].target in done + [id] &&
                                       RisesIn(w0.states, w2.states, w0.incidents[i].target), now)
  {
    hide RowTakes, Succeeds, Reports, OpensWith;
    assert w2.incidents[i] == EndedBy(w1.incidents[i], id, Rose(w1.states[id], w2.states[id]), now);
    assert w1.states[id] == w0.states[id];
  }

  lemma NextTurnAdds(table: Table, w0: Incidents.World, now: int, done: seq<string>, probes: Probes,
                     quiet: string -> bool, w1: Incidents.World, id: string, outcome: Incidents.Outcome,
                     w2: Incidents.World, i: nat)
    requires NextTurn(table, w0, now, done, probes, quiet, w1, id, outcome, w2)
    requires |w0.incidents| <= i < |w2.incidents|
    ensures w2.incidents[i].target in done + [id] && FallsIn(w0.states, w2.states, w2.incidents[i].target)
    ensures OpensWith(table, now, probes, w2.incidents[i])
  {
    hide RowTakes, Succeeds, Reports;
    assert w1.states[id] == w0.states[id];
    if i < |w1.incidents| {
      assert w2.incidents[i] == EndedBy(w1.incidents[i], id, Rose(w1.states[id], w2.states[id]), now);
    } else {
      assert w2.incidents[i] == w2.incidents[|w1.incidents|..][i - |w1.incidents|];
    }
  }

  lemma NextTurnReacts(table: Table, w0: Incidents.World, now: int, done: seq<string>, probes: Probes,
                       quiet: string -> bool, w1: Incidents.World, id: string, outcome: Incidents.Outcome,
                       w2: Incidents.World, u: string)
    requires NextTurn(table, w0, now, done, probes, quiet, w1, id, outcome, w2)
    requires u in done + [id] && FallsIn(w0.states, w2.states, u) && !Incidents.HasOpen(w0.incidents, u)
    ensures exists i :: |w0.incidents| <= i < |w2.incidents| && w2.incidents[i].target == u
  {
    hide RowTakes, Succeeds, Reports, OpensWith;
    assert w1.states[id] == w0.states[id];
    if u == id {
      forall i | 0 <= i < |w1.incidents| ensures !(w1.incidents[i].target == id && w1.incidents[i].isOpen) {
      }
      assert w2.incidents[|w1.incidents|] == w2.incidents[|w1.incidents|..][0];
    } else {
      var i :| |w0.incidents| <= i < |w1.incidents| && w1.incidents[i].target == u;
      assert w2.incidents[i] == EndedBy(w1.incidents[i], id, Rose(w1.states[id], w2.states[id]), now);
    }
  }

  lemma LedgerExtends(table: Table, w0: Incidents.World, now: int, done: seq<string>, probes: Probes,
                      quiet: string -> bool, w1: Incidents.World, id: string, outcome: Incidents.Outcome,
                      w2: Incidents.World)
    requires LedgerTaken(table, w0, now, done, probes, w1)
    requires RowsTaken(table, w0.states, now, done, probes, quiet, w1.states)
    requires id in table && id !in done && Reports(table[id], Attempts(probes, id), outcome)
    requires if id in w1.states
             then TurnTaken(w1, w2, id, table[id].successThreshold, table[id].failureThreshold, outcome, now, quiet(id))
             else w2 == w1
    ensures LedgerTaken(table, w0, now, done + [id], probes, w2)
  {
    if id in w1.states {
      assert NextTurn(table, w0, now, done, probes, quiet, w1, id, outcome, w2);
      assert |w1.incidents| <= |w2.incidents|;
      hide NextTurn, TurnTaken, RowsTaken, OpensWith, EndedBy;
      forall i: nat | i < |w0.incidents|
        ensures w2.incidents[i] == EndedBy(w0.incidents[i], w0.incidents[i].target,
                                           w0.incidents[i].target in done + [id] &&
                                           RisesIn(w0.states, w2.states, w0.incidents[i].target), now)
      {
        NextTurnKeeps(table, w0, now, done, probes, quiet, w1, id, outcome, w2, i);
      }
      forall i: nat | |w0.incidents| <= i < |w2.incidents|
        ensures w2.incidents[i].target in done + [id] && FallsIn(w0.states, w2.states, w2.incidents[i].target)
        ensures OpensWith(table, now, probes, w2.incidents[i])
      {
        NextTurnAdds(table, w0, now, done, probes, quiet, w1, id, outcome, w2, i);
      }
      forall u | u in done + [id] && FallsIn(w0.states, w2.states, u) && !Incidents.HasOpen(w0.incidents, u)
        ensures exists i :: |w0.incidents| <= i < |w2.incidents| && w2.incidents[i].target == u
      {
        NextTurnReacts(table, w0, now, done, probes, quiet, w1, id, outcome, w2, u);
      }
    }
  }

  // ---- The scheduler itself ----

  class Store {
    var targets: Table
    const monitor: Monitor

    constructor (targets: Table, monitor: Monitor)
      ensures this.targets == targets && this.monitor == monitor
    {
      this.targets, this.monitor := targets, monitor;
    }

    /** The due targets, in no particular order. */
    method SelectDue(now: int) returns (due: seq<string>)
      ensures NoRepeats(due) && forall id :: id in due <==> DueIn(targets, id, now)
    {
      due := [];
      var rest := targets.Keys;
      while rest != {}
        invariant rest <= targets.Keys && NoRepeats(due)
        invariant forall id :: id in due <==> DueIn(targets, id, now) && id !in rest
      {
        var id :| id in rest;
        rest := rest - {id};
        if Due(targets[id], now) {
          due := due + [id];
        }
      }
    }

    /** Check each target of the batch once, with retries, let the ledger react, and set its next due time. */
    method CheckEach(now: int, batch: seq<string>, probes: Probes, quiet: string -> bool)
      returns (checked: seq<string>)
      requires NoRepeats(batch) && forall id :: id in batch ==> id in targets
      modifies this, monitor
      ensures checked == batch
      ensures targets == Rescheduled(old(targets), now, batch)
      ensures monitor.World() == Incidents.Run(old(monitor.World()), Checks(old(targets), now, batch, probes, quiet))
      ensures TargetsTaken(old(targets), now, batch, targets)
      ensures RowsTaken(old(targets), old(monitor.states), now, batch, probes, quiet, monitor.states)
      ensures LedgerTaken(old(targets), old(monitor.World()), now, batch, probes, monitor.World())
    {
      hide Rescheduled, Incidents.Run, Checks, Incidents.Checked, Retried, RowsTaken, LedgerTaken, TurnTaken, Reports;
      ghost var table, world := targets, monitor.World();
      checked := [];
      RescheduleNone(table, now);
      NoChecks(table, now, probes, quiet, world);
      NothingTaken(table, world, now, probes, quiet);
      for i := 0 to |batch|
        invariant checked == batch[..i]
        invariant targets == Rescheduled(table, now, batch[..i])
        invariant monitor.World() == Incidents.Run(world, Checks(table, now, batch[..i], probes, quiet))
        invariant RowsTaken(table, world.states, now, batch[..i], probes, quiet, monitor.states)
        invariant LedgerTaken(table, world, now, batch[..i], probes, monitor.World())
      {
        var id := batch[i];
        assert id in batch && id !in batch[..i];
        assert batch[..i + 1] == batch[..i] + [id];
        RescheduleOneMore(table, now, batch[..i], id);
        OneMoreCheck(table, now, batch, i, probes, quiet, world);
        var t := targets[id];
        var outcome, attempts := ExecuteCheck(t.retryCount, Attempts(probes, id));
        AttemptsReport(t, Attempts(probes, id), outcome, attempts);
        ghost var before := monitor.World();
        monitor.RunCheck(id, t.successThreshold, t.failureThreshold, outcome, now, quiet(id));
        RowsExtend(table, world, now, batch[..i], probes, quiet, before, id, outcome, monitor.World());
        LedgerExtends(table, world, now, batch[..i], probes, quiet, before, id, outcome, monitor.World());
        checked := checked + [id];
        targets := targets[id := t.(nextCheckAt := now + t.intervalMinutes * SECONDS_PER_MINUTE)];
      }
      assert batch[..|batch|] == batch;
      RescheduledIsTaken(table, now, batch);
    }

    /** One run: the first fifty due targets, each checked once and rescheduled. */
    method RunScheduledChecks(now: int, probes: Probes, quiet: string -> bool) returns (checked: seq<string>)
      modifies this, monitor
      ensures IsBatch(old(targets), now, checked)
      ensures targets == Rescheduled(old(targets), now, checked)
      ensures monitor.World() == Incidents.Run(old(monitor.World()), Checks(old(targets), now, checked, probes, quiet))
      ensures OldestFifty(old(targets), now, checked) && TargetsTaken(old(targets), now, checked, targets)
      ensures RowsTaken(old(targets), old(monitor.states), now, checked, probes, quiet, monitor.states)
      ensures LedgerTaken(old(targets), old(monitor.World()), now, checked, probes, monitor.World())
    {
      var due := SelectDue(now);
      var ordered := Sort(due, OlderIn(targets));
      SortedIsAgenda(targets, now, due);
      FirstFiftyIsBatch(targets, now, ordered);
      BatchIsOldestFifty(targets, now, FirstFifty(ordered));
      hide Rescheduled, Sort, Agenda, FirstFifty, Checks, Incidents.Run;
      hide TargetsTaken, RowsTaken, LedgerTaken, OldestFifty;
      checked := CheckEach(now, FirstFifty(ordered), probes, quiet);
    }
  }

  /** All due targets, oldest first. */
  ghost predicate Agenda(table: Table, now: int, ordered: seq<string>) {
    && NoRepeats(ordered)
    && (forall id :: id in ordered <==> DueIn(table, id, now))
    && (forall i, j :: 0 <= i < j < |ordered| ==> NextAt(table, ordered[i]) <= NextAt(table, ordered[j]))
  }

  lemma SortedIsAgenda(table: Table, now: int, due: seq<string>)
    requires NoRepeats(due) && forall id :: id in due <==> DueIn(table, id, now)
    ensures Agenda(table, now, Sort(due, OlderIn(table)))
  {
    hide Sort;
    var ordered := Sort(due, OlderIn(table));
    SortPermutes(due, OlderIn(table));
    SortSorted(due, OlderIn(table));
    PermutedNoRepeats(due, ordered);
    forall i, j | 0 <= i < j < |ordered| ensures NextAt(table, ordered[i]) <= NextAt(table, ordered[j]) {
      assert !OlderIn(table)(ordered[j], ordered[i]);
    }
  }

  function FirstFifty(ordered: seq<string>): seq<string> {
    if |ordered| > BATCH_LIMIT then ordered[..BATCH_LIMIT] else ordered
  }

  /** The first fifty of the agenda are a legal batch. */
  lemma FirstFiftyIsBatch(table: Table, now: int, ordered: seq<string>)
    requires Agenda(table, now, ordered)
    ensures IsBatch(table, now, FirstFifty(ordered))
  {
    var batch := FirstFifty(ordered);
    hide DueIn, NextAt;
    forall id | DueIn(table, id, now) && id !in batch
      ensures |batch| == BATCH_LIMIT && forall u :: u in batch ==> NextAt(table, u) <= NextAt(table, id)
    {
      assert id in ordered;
      var k :| 0 <= k < |ordered| && ordered[k] == id;
      assert |ordered| > BATCH_LIMIT && k >= BATCH_LIMIT;
      forall u | u in batch ensures NextAt(table, u) <= NextAt(table, id) {
        var j :| 0 <= j < |batch| && batch[j] == u;
        assert ordered[j] == u;
      }
    }
  }

  lemma RescheduleOneMore(table: Table, now: int, done: seq<string>, id: string)
    requires id in table && id !in done
    ensures id in Rescheduled(table, now, done) && Rescheduled(table, now, done)[id] == table[id]
    ensures Rescheduled(table, now, done + [id])
         == Rescheduled(table, now, done)[id :=
              table[id].(nextCheckAt := now + table[id].intervalMinutes * SECONDS_PER_MINUTE)]
  {
  }

  lemma OneMoreCheck(table: Table, now: int, batch: seq<string>, i: nat, probes: Probes, quiet: string -> bool,
                     world: Incidents.World)
    requires i < |batch| && batch[i] in table
    ensures Incidents.Run(world, Checks(table, now, batch[..i + 1], probes, quiet))
         == Incidents.Next(Incidents.Run(world, Checks(table, now, batch[..i], probes, quiet)),
                           CheckOf(table[batch[i]], batch[i], now, probes, quiet))
  {
    hide Incidents.Next, Incidents.Run;
    assert batch[..i + 1][..i] == batch[..i];
    Incidents.RunSnoc(world, Checks(table, now, batch[..i], probes, quiet),
                      CheckOf(table[batch[i]], batch[i], now, probes, quiet));
  }

  lemma NothingTaken(table: Table, w: Incidents.World, now: int, probes: Probes, quiet: string -> bool)
    ensures RowsTaken(table, w.states, now, [], probes, quiet, w.states)
    ensures LedgerTaken(table, w, now, [], probes, w)
  {
  }

  lemma RescheduledIsTaken(table: Table, now: int, batch: seq<string>)
    ensures TargetsTaken(table, now, batch, Rescheduled(table, now, batch))
  {
  }

  /** What `execute_check` returns is the first success or the last attempt. */
  lemma AttemptsReport(t: Target, probe: nat -> Incidents.Outcome, outcome: Incidents.Outcome, attempts: nat)
    requires if t.retryCount < 0 then attempts == 0 && outcome == EXHAUSTED
             else 1 <= attempts <= t.retryCount + 1 && outcome == probe(attempts - 1)
    requires forall k: nat :: k < attempts - 1 ==> !probe(k).isSuccess
    requires t.retryCount >= 0 && !outcome.isSuccess ==> attempts == t.retryCount + 1
    requires outcome.isSuccess <==> exists k: nat :: k <= t.retryCount && probe(k).isSuccess
    ensures Reports(t, probe, outcome) && (outcome.isSuccess <==> Succeeds(t, probe))
  {
  }

  lemma NoChecks(table: Table, now: int, probes: Probes, quiet: string -> bool, world: Incidents.World)
    ensures Incidents.Run(world, Checks(table, now, [], probes, quiet)) == world
  {
  }

  lemma RescheduleNone(table: Table, now: int)
    ensures Rescheduled(table, now, []) == table
  {
  }

  // ---- Bounded waiting ----

  /** The other enabled targets due no later than `id`. */
  ghost function Rivals(table: Table, id: string): set<string>
    requires id in table
  {
    set u | u in table && u != id && !table[u].isDisabled && table[u].nextCheckAt <= table[id].nextCheckAt
  }

  /** The targets that may be checked ahead of `id` move on when they are. */
  ghost predicate RivalsMoveOn(table: Table, id: string)
    requires id in table
  {
    forall u :: u in Rivals(table, id) ==> table[u].intervalMinutes >= 1
  }

  /** A due target that is passed over loses fifty rivals for good. */
  lemma PassedOver(table: Table, now: int, batch: seq<string>, id: string)
    requires DueIn(table, id, now) && RivalsMoveOn(table, id)
    requires IsBatch(table, now, batch) && id !in batch
    ensures var table' := Rescheduled(table, now, batch);
            && |Rivals(table, id)| >= BATCH_LIMIT
            && |Rivals(table', id)| == |Rivals(table, id)| - BATCH_LIMIT
            && table'[id] == table[id] && RivalsMoveOn(table', id)
  {
    var table' := Rescheduled(table, now, batch);
    ElementsCount(batch);
    assert Elements(batch) <= Rivals(table, id) by {
      forall u | u in batch ensures u in Rivals(table, id) { assert NextAt(table, u) <= NextAt(table, id); }
    }
    assert Rivals(table', id) == Rivals(table, id) - Elements(batch);
    SubsetSize(Elements(batch), Rivals(table, id));
  }

  lemma SubsetSize(a: set<string>, b: set<string>)
    requires a <= b
    ensures |b - a| == |b| - |a| && |a| <= |b|
  {
    assert b == (b - a) + a;
  }

  /** A due target with `k` rivals is checked within `k / 50 + 1` runs. */
  lemma {:induction false} BoundedWaiting(table: Table, rounds: seq<Round>, id: string)
    requires Runs(table, rounds) && rounds != []
    requires id in table && !table[id].isDisabled && table[id].nextCheckAt <= rounds[0].now && RivalsMoveOn(table, id)
    requires |rounds| > |Rivals(table, id)| / 50
    ensures exists r :: 0 <= r <= |Rivals(table, id)| / 50 && id in rounds[r].batch
  {
    if id !in rounds[0].batch {
      var (now, batch) := (rounds[0].now, rounds[0].batch);
      var table' := Rescheduled(table, now, batch);
      PassedOver(table, now, batch, id);
      assert rounds[1..][0] == rounds[1];
      BoundedWaiting(table', rounds[1..], id);
      var r :| 0 <= r <= |Rivals(table', id)| / 50 && id in rounds[1..][r].batch;
      assert id in rounds[r + 1].batch;
    } else {
      assert id in rounds[0].batch;
    }
  }

  // ---- Not too often ----

  lemma {:induction false} ClockNeverGoesBack(table: Table, rounds: seq<Round>, j: nat)
    requires Runs(table, rounds) && j < |rounds|
    ensures rounds[0].now <= rounds[j].now
  {
    if j == 0 {
    } else {
      assert rounds[1..][j - 1] == rounds[j] && rounds[1..][0] == rounds[1];
      ClockNeverGoesBack(Rescheduled(table, rounds[0].now, rounds[0].batch), rounds[1..], j - 1);
    }
  }

  /** If a target is not due before `time`, no run before `time` picks it. */
  lemma {:induction false} NotBefore(table: Table, rounds: seq<Round>, id: string, time: int, j: nat)
    requires Runs(table, rounds) && id in table && j < |rounds|
    requires table[id].nextCheckAt >= time
    requires id in rounds[j].batch
    ensures rounds[j].now >= time
  {
    var (now, batch) := (rounds[0].now, rounds[0].batch);
    if j == 0 {
      assert DueIn(table, id, now);
    } else {
      assert rounds[1..][j - 1] == rounds[j];
      if id in batch {
        assert DueIn(table, id, now);
        ClockNeverGoesBack(table, rounds, j);
      } else {
        NotBefore(Rescheduled(table, now, batch), rounds[1..], id, time, j - 1);
      }
    }
  }

  /** No target is checked twice within its interval. */
  lemma {:induction false} NeverTwiceWithinInterval(table: Table, rounds: seq<Round>, id: string, i: nat, j: nat)
    requires Runs(table, rounds) && i < j < |rounds|
    requires id in table && id in rounds[i].batch && id in rounds[j].batch
    ensures rounds[j].now >= rounds[i].now + table[id].intervalMinutes * 60
  {
    var (now, batch) := (rounds[0].now, rounds[0].batch);
    var table' := Rescheduled(table, now, batch);
    assert rounds[1..][j - 1] == rounds[j];
    if i == 0 {
      NotBefore(table', rounds[1..], id, now + table[id].intervalMinutes * SECONDS_PER_MINUTE, j - 1);
    } else {
      assert rounds[1..][i - 1] == rounds[i];
      NeverTwiceWithinInterval(table', rounds[1..], id, i - 1, j - 1);
    }
  }
}
