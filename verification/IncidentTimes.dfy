/** When the recorded outages of one target do not overlap. */
module IncidentTimes {
  import opened Wrappers
  import opened HealthStates
  import opened Incidents

  /** Every outage of a target ended before its next one began. */
  ghost predicate Disjoint(incidents: seq<Incident>) {
    forall i, j :: 0 <= i < j < |incidents| && incidents[i].target == incidents[j].target ==>
      incidents[i].resolvedAt.Some? && incidents[i].resolvedAt.value <= incidents[j].openedAt
  }

  ghost predicate TimelyIncident(inc: Incident, clock: int) {
    && inc.openedAt <= clock
    && (inc.isOpen <==> inc.resolvedAt.None?)
    && (inc.resolvedAt.Some? ==> inc.openedAt <= inc.resolvedAt.value <= clock)
  }

  ghost predicate Timely(incidents: seq<Incident>, clock: int) {
    forall i :: 0 <= i < |incidents| ==> TimelyIncident(incidents[i], clock)
  }

  /** Actions happen in clock order. */
  ghost predicate InOrder(actions: seq<Action>) {
    forall i, j :: 0 <= i < j < |actions| ==> actions[i].now <= actions[j].now
  }

  /** The action does not resolve an incident that is already resolved. */
  ghost predicate Careful(w: World, a: Action) {
    a.Resolve? && a.id < |w.incidents| ==> w.incidents[a.id].isOpen
  }

  ghost predicate AllCareful(w: World, actions: seq<Action>) {
    forall n: nat :: n < |actions| ==> Careful(Run(w, actions[..n]), actions[n])
  }

  lemma TimelyLater(incidents: seq<Incident>, clock: int, now: int)
    requires Timely(incidents, clock) && clock <= now
    ensures Timely(incidents, now)
  {
    forall i | 0 <= i < |incidents| ensures TimelyIncident(incidents[i], now) {
      assert TimelyIncident(incidents[i], clock);
    }
  }

  lemma StepKeepsTimes(w: World, a: Action, clock: int)
    requires Inv(w) && Timely(w.incidents, clock) && clock <= a.now
    ensures Timely(Next(w, a).incidents, a.now)
    ensures Disjoint(w.incidents) && Careful(w, a) ==> Disjoint(Next(w, a).incidents)
  {
    TimelyLater(w.incidents, clock, a.now);
    match a
    case Check(t, st, ft, outcome, now, quiet) =>
      OpeningKeepsTimes(w.incidents, t, now, Cause(outcome));
      AutoResolvingKeepsTimes(w.incidents, t, now);
    case Resolve(id, now, who, note) =>
  }

  lemma OpeningKeepsTimes(incidents: seq<Incident>, t: TargetId, now: int, cause: string)
    requires Timely(incidents, now)
    ensures Timely(Opened(incidents, t, now, cause), now)
    ensures Disjoint(incidents) ==> Disjoint(Opened(incidents, t, now, cause))
  {
    var after := Opened(incidents, t, now, cause);
    forall i | 0 <= i < |incidents| ensures after[i] == incidents[i] && TimelyIncident(incidents[i], now) {
    }
  }

  lemma AutoResolvingKeepsTimes(incidents: seq<Incident>, t: TargetId, now: int)
    requires Timely(incidents, now)
    ensures Timely(AutoResolved(incidents, t, now), now)
    ensures Disjoint(incidents) ==> Disjoint(AutoResolved(incidents, t, now))
  {
    AutoResolvedAt(incidents, t, now);
    var after := AutoResolved(incidents, t, now);
    forall i | 0 <= i < |after| ensures TimelyIncident(after[i], now) {
      assert TimelyIncident(incidents[i], now);
    }
  }

  /** With a clock that never goes back and manual resolutions applied only to open incidents, the
      recorded outages of a target never overlap. */
  lemma {:induction false} CarefulRunsStayDisjoint(w: World, actions: seq<Action>, clock: int)
    requires Initial(w) && InOrder(actions) && AllCareful(w, actions)
    requires forall i :: 0 <= i < |actions| ==> actions[i].now <= clock
    ensures Timely(Run(w, actions).incidents, clock) && Disjoint(Run(w, actions).incidents)
  {
    if actions == [] {
    } else {
      var n := |actions| - 1;
      var init, a := actions[..n], actions[n];
      forall m: nat | m < n ensures Careful(Run(w, init[..m]), init[m]) {
        assert init[..m] == actions[..m] && Careful(Run(w, actions[..m]), actions[m]);
      }
      CarefulRunsStayDisjoint(w, init, a.now);
      RunKeepsRecords(w, init);
      StepKeepsTimes(Run(w, init), a, a.now);
      assert Careful(Run(w, init), a);
      var done := Run(w, actions).incidents;
      forall i | 0 <= i < |done| ensures TimelyIncident(done[i], clock) { assert TimelyIncident(done[i], a.now); }
    }
  }

  /** A manual resolution keeps the outages disjoint exactly when no later outage of that target began
      before it; for an open incident there is no later outage. */
  lemma ResolvingKeepsDisjointExactly(w: World, id: nat, now: int, who: string, note: Option<string>, clock: int)
    requires Inv(w) && Disjoint(w.incidents) && Timely(w.incidents, clock) && clock <= now
    requires id < |w.incidents|
    ensures Disjoint(Resolved(w, id, now, who, note).incidents) <==>
              forall j :: id < j < |w.incidents| && w.incidents[j].target == w.incidents[id].target ==>
                now <= w.incidents[j].openedAt
    ensures w.incidents[id].isOpen ==>
              forall j :: id < j < |w.incidents| ==> w.incidents[j].target != w.incidents[id].target
  {
    var after := Resolved(w, id, now, who, note).incidents;
    assert TimelyIncident(w.incidents[id], clock);
    if Disjoint(after) {
      forall j | id < j < |w.incidents| && w.incidents[j].target == w.incidents[id].target
        ensures now <= w.incidents[j].openedAt
      {
        assert after[id].target == after[j].target;
      }
    }
  }

  const FAILURE: Outcome := Outcome(false, None)
  const SUCCESS: Outcome := Outcome(true, None)

  /** Resolving an incident a second time moves its end, and can make it overlap the next outage. */
  lemma SecondResolutionCanOverlap(row: StateRow, quiet: bool)
    requires row.health == FRESH
    ensures var w := World(map["api" := row], [], []);
            var actions := [Check("api", 1, 1, FAILURE, 0, quiet), Check("api", 1, 1, SUCCESS, 10, quiet),
                            Check("api", 1, 1, FAILURE, 20, quiet), Resolve(0, 30, "admin", None)];
            Initial(w) && InOrder(actions) && !Disjoint(Run(w, actions).incidents)
  {
    var w := World(map["api" := row], [], []);
    var a0, a1 := Check("api", 1, 1, FAILURE, 0, quiet), Check("api", 1, 1, SUCCESS, 10, quiet);
    var a2, a3 := Check("api", 1, 1, FAILURE, 20, quiet), Resolve(0, 30, "admin", None);
    var w0, w1, w2 := Next(w, a0), Next(Next(w, a0), a1), Next(Next(Next(w, a0), a1), a2);
    FallOpens(w, "api", 0, quiet);
    RiseResolves(w0, "api", 10, quiet);
    AutoResolvedAt(w0.incidents, "api", 10);
    FallOpens(w1, "api", 20, quiet);
    hide Checked;
    assert Next(w2, a3).incidents[0].resolvedAt == Some(30) && Next(w2, a3).incidents[1].openedAt == 20;
    RunOfFour(w, a0, a1, a2, a3);
  }

  lemma FallOpens(w: World, t: TargetId, now: int, quiet: bool)
    requires t in w.states && w.states[t].health.status != Down && !HasOpen(w.incidents, t)
    requires w.states[t].health.failures >= 0
    ensures var w' := Next(w, Check(t, 1, 1, FAILURE, now, quiet));
            && t in w'.states && w'.states[t].health.status == Down && w'.states[t].health.successes == 0
            && w'.incidents == w.incidents + [NewIncident(t, now, Cause(FAILURE))]
  {
  }

  lemma RiseResolves(w: World, t: TargetId, now: int, quiet: bool)
    requires t in w.states && w.states[t].health.status == Down
    requires w.states[t].health.successes >= 0
    ensures var w' := Next(w, Check(t, 1, 1, SUCCESS, now, quiet));
            && t in w'.states && w'.states[t].health.status == Up && w'.states[t].health.failures == 0
            && w'.incidents == AutoResolved(w.incidents, t, now)
  {
  }

  lemma RunOfFour(w: World, a0: Action, a1: Action, a2: Action, a3: Action)
    ensures Run(w, [a0, a1, a2, a3]) == Next(Next(Next(Next(w, a0), a1), a2), a3)
  {
    hide Next, Run;
    RunOfNone(w);
    RunSnoc(w, [], a0);
    RunSnoc(w, [a0], a1);
    RunSnoc(w, [a0, a1], a2);
    RunSnoc(w, [a0, a1, a2], a3);
    assert [] + [a0] == [a0] && [a0] + [a1] == [a0, a1];
    assert [a0, a1] + [a2] == [a0, a1, a2] && [a0, a1, a2] + [a3] == [a0, a1, a2, a3];
  }

  lemma RunOfNone(w: World)
    ensures Run(w, []) == w
  {
  }
}
