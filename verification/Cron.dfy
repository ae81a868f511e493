/** Whole sequences of cron runs: what the scheduler picks, the ledger it leaves, the figures reported from it. */
module Cron {
  import opened Ordering
  import opened Engine
  import HealthStates
  import opened Incidents
  import opened IncidentTimes
  import opened Downtime
  import opened Scheduler
  import SlaRanges
  import SlaReport
  import SlaWindows

  /** One run: its clock, the batch the query returned, what the probes report, and who is under maintenance. */
  datatype Tick = Tick(now: int, batch: seq<string>, probes: Probes, quiet: string -> bool)

  function RoundsOf(ticks: seq<Tick>): seq<Round> {
    seq(|ticks|, i requires 0 <= i < |ticks| => Round(ticks[i].now, ticks[i].batch))
  }

  /** Every check of the runs, in order. */
  ghost function ActionsOf(table: Table, ticks: seq<Tick>): seq<Action> {
    if ticks == [] then []
    else
      var tick := ticks[0];
      Checks(table, tick.now, tick.batch, tick.probes, tick.quiet)
      + ActionsOf(Rescheduled(table, tick.now, tick.batch), ticks[1..])
  }

  /** Run by run, the ledger goes through the effects that the scheduler promises for each. */
  lemma RunsTickByTick(w: World, table: Table, tick: Tick, rest: seq<Tick>)
    ensures Run(w, ActionsOf(table, [tick] + rest))
         == Run(Run(w, Checks(table, tick.now, tick.batch, tick.probes, tick.quiet)),
                ActionsOf(Rescheduled(table, tick.now, tick.batch), rest))
  {
    hide Run, Rescheduled, Checks;
    var ticks := [tick] + rest;
    assert ticks[0] == tick && ticks[1..] == rest;
    RunConcat(w, Checks(table, tick.now, tick.batch, tick.probes, tick.quiet),
              ActionsOf(Rescheduled(table, tick.now, tick.batch), rest));
  }

  // ---- Health over whole sequences of runs ----

  /** One entry for each run that checked the target: whether some attempt within its retries succeeded. */
  ghost function HistoryOf(t: Target, ticks: seq<Tick>, id: string): seq<bool> {
    if ticks == [] then []
    else
      var tick := ticks[|ticks| - 1];
      HistoryOf(t, ticks[..|ticks| - 1], id)
      + if id in tick.batch then [Succeeds(t, Attempts(tick.probes, id))] else []
  }

  /** Each run of the scheduler leads from one table and set of state rows to the next. */
  ghost predicate Chain(tables: seq<Table>, rows: seq<map<string, StateRow>>, ticks: seq<Tick>) {
    && |tables| == |rows| == |ticks| + 1
    && forall n: nat :: n < |ticks| ==> TickTaken(tables[n], rows[n], ticks[n], tables[n + 1], rows[n + 1])
  }

  /** What `RunScheduledChecks` promises of one run. */
  ghost predicate TickTaken(table: Table, rows: map<string, StateRow>, tick: Tick, table': Table,
                            rows': map<string, StateRow>) {
    && TargetsTaken(table, tick.now, tick.batch, table')
    && RowsTaken(table, rows, tick.now, tick.batch, tick.probes, tick.quiet, rows')
  }

  /** Over any sequence of runs a new target's health is that of the history of its checks, under its own thresholds
      in their own roles: it is down exactly while an outage in that history is unrecovered. */
  lemma {:induction false} HealthFollowsChecks(
    tables: seq<Table>, rows: seq<map<string, StateRow>>, ticks: seq<Tick>, id: string)
    requires Chain(tables, rows, ticks) && id in tables[0] && id in rows[0]
    requires rows[0][id].health == HealthStates.Health(HealthStates.Unknown, 0, 0)
    ensures id in tables[|ticks|]
    ensures tables[|ticks|][id] == tables[0][id].(nextCheckAt := tables[|ticks|][id].nextCheckAt)
    ensures var (t, history) := (tables[0][id], HistoryOf(tables[0][id], ticks, id));
            && id in rows[|ticks|]
            && rows[|ticks|][id].health == HealthStates.After(history, t.successThreshold, t.failureThreshold)
            && (t.successThreshold >= 1 && t.failureThreshold >= 1 ==>
                  HealthStates.FollowsHistory(history, t.successThreshold, t.failureThreshold))
    decreases |ticks|
  {
    hide HealthStates.FollowsHistory;
    var t := tables[0][id];
    if t.successThreshold >= 1 && t.failureThreshold >= 1 {
      HealthStates.StatusFollowsHistory(HistoryOf(t, ticks, id), t.successThreshold, t.failureThreshold);
    }
    if ticks == [] {
    } else {
      var n := |ticks| - 1;
      hide TickTaken;
      assert Chain(tables[..n + 1], rows[..n + 1], ticks[..n]);
      HealthFollowsChecks(tables[..n + 1], rows[..n + 1], ticks[..n], id);
      OneTickMore(tables[n], rows[n], ticks[n], tables[n + 1], rows[n + 1], id, t, HistoryOf(t, ticks[..n], id));
    }
  }

  lemma OneTickMore(table: Table, rows: map<string, StateRow>, tick: Tick, table': Table, rows': map<string, StateRow>,
                    id: string, t: Target, history: seq<bool>)
    requires TickTaken(table, rows, tick, table', rows') && id in table && id in rows
    requires table[id] == t.(nextCheckAt := table[id].nextCheckAt)
    requires rows[id].health == HealthStates.After(history, t.successThreshold, t.failureThreshold)
    ensures id in table' && table'[id] == t.(nextCheckAt := table'[id].nextCheckAt)
    ensures var longer := history + if id in tick.batch then [Succeeds(t, Attempts(tick.probes, id))] else [];
            id in rows' && rows'[id].health == HealthStates.After(longer, t.successThreshold, t.failureThreshold)
  {
    assert Succeeds(t, Attempts(tick.probes, id)) == Succeeds(table[id], Attempts(tick.probes, id));
    if id in tick.batch {
      var one := [Succeeds(t, Attempts(tick.probes, id))];
      assert (history + one)[..|history|] == history;
    } else {
      assert history + [] == history;
    }
  }

  lemma {:induction false} ChecksAreChecks(table: Table, now: int, batch: seq<string>, probes: Probes,
      quiet: string -> bool)
    ensures forall a :: a in Checks(table, now, batch, probes, quiet) ==> a.Check? && a.now == now
  {
    if batch == [] {
    } else {
      hide Retried;
      ChecksAreChecks(table, now, batch[..|batch| - 1], probes, quiet);
    }
  }

  /** The actions are all checks and happen in clock order. */
  lemma {:induction false} CronIsInOrder(table: Table, ticks: seq<Tick>)
    requires Runs(table, RoundsOf(ticks))
    ensures InOrder(ActionsOf(table, ticks)) && Unattended(ActionsOf(table, ticks))
    ensures ticks != [] ==> forall a :: a in ActionsOf(table, ticks) ==> a.now >= ticks[0].now
  {
    if ticks == [] {
    } else {
      hide IsBatch, Rescheduled, Checks;
      var tick, rest := ticks[0], ticks[1..];
      var table' := Rescheduled(table, tick.now, tick.batch);
      assert RoundsOf(ticks)[1..] == RoundsOf(rest);
      CronIsInOrder(table', rest);
      ChecksAreChecks(table, tick.now, tick.batch, tick.probes, tick.quiet);
    }
  }

  /** Over any sequence of cron runs from a fresh ledger: the ledger laws hold, outages never overlap, and the
      SLA figures of every target over every window are the seconds its status was down. */
  lemma CronTellsTheTruth(
    w: World, table: Table, ticks: seq<Tick>, t: TargetId,
    maintenance: seq<SlaReport.Maintenance>, tags: set<(string, string)>, window: SlaRanges.Range)
    requires Initial(w) && Runs(table, RoundsOf(ticks))
    requires forall m :: m in maintenance ==> SlaWindows.CanonicalMaintenance(m)
    ensures var actions := ActionsOf(table, ticks);
            var (d, e) := (DownAt(w, actions, t), SlaWindows.ExcludedFor(maintenance, t, tags));
            && Inv(Run(w, actions)) && Disjoint(Run(w, actions).incidents)
            && SlaWindows.Figures(Map(Run(w, actions).incidents, ToRow), maintenance, t, tags, window)
            == (SlaRanges.Count(window.start, window.end, d), SlaRanges.Count(window.start, window.end, e),
                SlaRanges.Count(window.start, window.end, SlaRanges.Outside(d, e)))
  {
    hide Run, DownAt, SlaWindows.Figures, ActionsOf, Inv, Runs, Disjoint;
    var actions := ActionsOf(table, ticks);
    CronIsInOrder(table, ticks);
    RunKeepsRecords(w, actions);
    UnattendedIsCareful(w, actions);
    CarefulRunsStayDisjoint(w, actions, if actions == [] then 0 else actions[|actions| - 1].now);
    UnattendedFigures(w, actions, t, maintenance, tags, window);
  }
}
