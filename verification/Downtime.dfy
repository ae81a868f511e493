/** From cron runs through the incident ledger to the SLA figures. */
module Downtime {
  import opened Wrappers
  import opened Ordering
  import opened Incidents
  import opened IncidentTimes
  import HealthStates
  import SlaRanges
  import SlaReport
  import SlaWindows

  // ---- The ledger tells when a target was down ----

  /** The target's incident is open at second `x`. */
  predicate CoversAt(inc: Incident, t: TargetId, x: int) {
    inc.target == t && inc.openedAt <= x && (inc.resolvedAt.Some? ==> x < inc.resolvedAt.value)
  }

  ghost predicate RecordedDown(incidents: seq<Incident>, t: TargetId, x: int) {
    exists i :: 0 <= i < |incidents| && CoversAt(incidents[i], t, x)
  }

  /** The actions up to and including second `x`. */
  function Seen(actions: seq<Action>, x: int): seq<Action> {
    if actions == [] || actions[|actions| - 1].now <= x then actions
    else Seen(actions[..|actions| - 1], x)
  }

  /** The target's status was down at second `x`. */
  ghost function DownAt(w: World, actions: seq<Action>, t: TargetId): int -> bool {
    x => IsDown(Run(w, Seen(actions, x)), t)
  }

  /** Nobody resolves an incident by hand. */
  ghost predicate Unattended(actions: seq<Action>) {
    forall a :: a in actions ==> a.Check?
  }

  /** The action resolves an incident of the target by hand. */
  ghost predicate Names(w: World, a: Action, t: TargetId) {
    a.Resolve? && a.id < |w.incidents| && w.incidents[a.id].target == t
  }

  /** Some action resolved an incident of the target, which was down then and has been down ever since. */
  ghost predicate ResolvedByHand(w: World, actions: seq<Action>, t: TargetId) {
    exists n: nat :: n < |actions| && ResolvedAtStep(w, actions, t, n)
  }

  ghost predicate ResolvedAtStep(w: World, actions: seq<Action>, t: TargetId, n: nat)
    requires n < |actions|
  {
    && Names(Run(w, actions[..n]), actions[n], t)
    && forall k: nat :: n <= k <= |actions| ==> IsDown(Run(w, actions[..k]), t)
  }

  /** The target's status was down at second `x`, and nobody had resolved that outage by hand by then. */
  ghost function ShownAt(w: World, actions: seq<Action>, t: TargetId): int -> bool {
    x => IsDown(Run(w, Seen(actions, x)), t) && !ResolvedByHand(w, Seen(actions, x), t)
  }

  lemma ResolvedAtStepSnoc(w: World, actions: seq<Action>, t: TargetId, n: nat)
    requires n < |actions| - 1
    ensures ResolvedAtStep(w, actions, t, n)
       <==> ResolvedAtStep(w, actions[..|actions| - 1], t, n) && IsDown(Run(w, actions), t)
  {
    hide Run, IsDown, Names;
    var init := actions[..|actions| - 1];
    assert actions[..|actions|] == actions && init[..n] == actions[..n];
    assert forall k: nat :: n <= k <= |init| ==> init[..k] == actions[..k];
  }

  lemma ResolvedByHandSnoc(w: World, actions: seq<Action>, t: TargetId)
    requires actions != []
    ensures var init, a := actions[..|actions| - 1], actions[|actions| - 1];
            ResolvedByHand(w, actions, t) <==>
              && IsDown(Run(w, actions), t)
              && (ResolvedByHand(w, init, t) || (IsDown(Run(w, init), t) && Names(Run(w, init), a, t)))
  {
    hide Run, IsDown, Names, ResolvedAtStep;
    var m := |actions| - 1;
    forall n: nat | n < m
      ensures ResolvedAtStep(w, actions, t, n)
         <==> ResolvedAtStep(w, actions[..m], t, n) && IsDown(Run(w, actions), t)
    {
      ResolvedAtStepSnoc(w, actions, t, n);
    }
    LastResolves(w, actions, t);
  }

  lemma LastResolves(w: World, actions: seq<Action>, t: TargetId)
    requires actions != []
    ensures var init, a := actions[..|actions| - 1], actions[|actions| - 1];
            ResolvedAtStep(w, actions, t, |actions| - 1) <==>
              IsDown(Run(w, init), t) && Names(Run(w, init), a, t) && IsDown(Run(w, actions), t)
  {
    hide Run, IsDown, Names;
    assert actions[..|actions|] == actions;
  }

  /** What one action does to the question whether the target has an open incident. */
  lemma StepOpens(w: World, a: Action, t: TargetId)
    requires Inv(w) && Careful(w, a)
    ensures a.Resolve? ==>
              && (HasOpen(Next(w, a).incidents, t) <==> HasOpen(w.incidents, t) && !Names(w, a, t))
              && (IsDown(Next(w, a), t) <==> IsDown(w, t))
    ensures a.Check? ==>
              (HasOpen(Next(w, a).incidents, t) <==>
                 IsDown(Next(w, a), t) && (HasOpen(w.incidents, t) || !IsDown(w, t)))
  {
    match a
    case Check(u, st, ft, outcome, now, quiet) =>
      StepKeepsInv(w, a);
      CheckOpens(w, a, t);
    case Resolve(id, now, who, note) =>
      ResolutionCloses(w, a, t);
  }

  lemma ResolutionCloses(w: World, a: Action, t: TargetId)
    requires OneOpen(w.incidents) && Careful(w, a) && a.Resolve?
    ensures HasOpen(Next(w, a).incidents, t) <==> HasOpen(w.incidents, t) && !Names(w, a, t)
  {
    var after := Next(w, a).incidents;
    if i :| 0 <= i < |w.incidents| && w.incidents[i].target == t && w.incidents[i].isOpen && !Names(w, a, t) {
      assert after[i] == w.incidents[i];
    }
    if i :| 0 <= i < |after| && after[i].target == t && after[i].isOpen {
      assert after[i] == w.incidents[i];
    }
  }

  lemma CheckOpens(w: World, a: Action, t: TargetId)
    requires OpenMeansDown(w) && OpenMeansDown(Next(w, a)) && a.Check?
    ensures HasOpen(Next(w, a).incidents, t) <==> IsDown(Next(w, a), t) && (HasOpen(w.incidents, t) || !IsDown(w, t))
  {
    var w' := Next(w, a);
    AutoResolvedAt(w.incidents, a.target, a.now);
    if HasOpen(w'.incidents, t) && IsDown(w, t) {
      var i :| 0 <= i < |w'.incidents| && w'.incidents[i].target == t && w'.incidents[i].isOpen;
      assert i < |w.incidents| && w.incidents[i] == w'.incidents[i];
    }
    if HasOpen(w.incidents, t) && IsDown(w', t) {
      var i :| 0 <= i < |w.incidents| && w.incidents[i].target == t && w.incidents[i].isOpen;
      assert IsDown(w, t);
      assert w'.incidents[i] == w.incidents[i];
    }
    if IsDown(w', t) && !IsDown(w, t) && !HasOpen(w.incidents, t) {
      assert w'.incidents[|w.incidents|] == NewIncident(t, a.now, Cause(a.outcome));
    }
  }

  /** In a careful run a target has an open incident exactly while it is down and nobody has resolved the
      outage by hand. */
  lemma {:induction false} OpenExactly(w: World, actions: seq<Action>, t: TargetId)
    requires Initial(w) && AllCareful(w, actions)
    ensures HasOpen(Run(w, actions).incidents, t) <==> IsDown(Run(w, actions), t) && !ResolvedByHand(w, actions, t)
  {
    if actions == [] {
    } else {
      var init, a := actions[..|actions| - 1], actions[|actions| - 1];
      hide Next, Inv, HasOpen, IsDown, ResolvedByHand, Names, Initial, Careful;
      CarefulInit(w, actions);
      OpenExactly(w, init, t);
      RunKeepsRecords(w, init);
      StepOpens(Run(w, init), a, t);
      ResolvedByHandSnoc(w, actions, t);
      OnlyResolutionsName(Run(w, init), a, t);
    }
  }

  lemma OnlyResolutionsName(w: World, a: Action, t: TargetId)
    ensures Names(w, a, t) ==> a.Resolve?
    ensures Names(w, a, t) && Inv(w) && Careful(w, a) ==> IsDown(w, t)
  {
  }

  lemma CarefulInit(w: World, actions: seq<Action>)
    requires AllCareful(w, actions) && actions != []
    ensures AllCareful(w, actions[..|actions| - 1])
    ensures Careful(Run(w, actions[..|actions| - 1]), actions[|actions| - 1])
  {
    hide Run, Careful;
    var n := |actions| - 1;
    var init := actions[..n];
    forall m: nat | m < n ensures Careful(Run(w, init[..m]), init[m]) {
      assert init[..m] == actions[..m] && Careful(Run(w, actions[..m]), actions[m]);
    }
  }

  /** A check, or the resolution of an open incident, changes nothing about the seconds before it. */
  lemma StepHidesNothing(w: World, a: Action, t: TargetId, x: int)
    requires Careful(w, a) && x < a.now && Timely(w.incidents, a.now)
    ensures RecordedDown(Next(w, a).incidents, t, x) <==> RecordedDown(w.incidents, t, x)
  {
    var after := Next(w, a).incidents;
    if a.Check? {
      AutoResolvedAt(w.incidents, a.target, a.now);
    }
    forall i | 0 <= i < |w.incidents|
      ensures i < |after| && (CoversAt(after[i], t, x) <==> CoversAt(w.incidents[i], t, x))
    {
      assert TimelyIncident(w.incidents[i], a.now);
    }
    forall i | |w.incidents| <= i < |after| ensures !CoversAt(after[i], t, x) {
    }
  }

  /** From the last action on, the ledger records the target as down exactly while it has an open incident. */
  lemma LedgerIsCurrent(incidents: seq<Incident>, t: TargetId, x: int)
    requires Timely(incidents, x)
    ensures RecordedDown(incidents, t, x) <==> HasOpen(incidents, t)
  {
    if i :| 0 <= i < |incidents| && CoversAt(incidents[i], t, x) {
      assert TimelyIncident(incidents[i], x);
    }
    if i :| 0 <= i < |incidents| && incidents[i].target == t && incidents[i].isOpen {
      assert TimelyIncident(incidents[i], x);
      assert CoversAt(incidents[i], t, x);
    }
  }

  /** With a clock that never goes back and manual resolutions applied only to open incidents, the ledger records
      a target as down at exactly the seconds at which its status was down and nobody had resolved that outage by
      hand. */
  lemma {:induction false} LedgerFollowsStatus(w: World, actions: seq<Action>, t: TargetId, x: int)
    requires Initial(w) && InOrder(actions) && AllCareful(w, actions)
    ensures RecordedDown(Run(w, actions).incidents, t, x) <==> ShownAt(w, actions, t)(x)
  {
    if actions == [] {
    } else {
      var n := |actions| - 1;
      var init, a := actions[..n], actions[n];
      hide Next, Inv, Timely, HasOpen, RecordedDown, IsDown, ResolvedByHand, Careful, AllCareful, Disjoint;
      if a.now <= x {
        CarefulRunsStayDisjoint(w, actions, x);
        OpenExactly(w, actions, t);
        LedgerIsCurrent(Run(w, actions).incidents, t, x);
      } else {
        assert InOrder(init);
        CarefulInit(w, actions);
        CarefulRunsStayDisjoint(w, init, a.now);
        StepHidesNothing(Run(w, init), a, t, x);
        LedgerFollowsStatus(w, init, t, x);
      }
    }
  }

  // ---- Resolutions by hand ----

  /** The incidents record the same seconds of the target as down. */
  ghost predicate SameSeconds(a: seq<Incident>, b: seq<Incident>, t: TargetId) {
    forall x :: RecordedDown(a, t, x) <==> RecordedDown(b, t, x)
  }

  /** The whole stretch is recorded as down. */
  ghost predicate AllRecorded(incidents: seq<Incident>, t: TargetId, from: int, to: int) {
    forall x :: from <= x < to ==> RecordedDown(incidents, t, x)
  }

  /** Resolving an incident again records the stretch since its first resolution as well. */
  lemma SecondResolutionAdds(w: World, id: nat, now: int, who: string, note: Option<string>, u: TargetId, x: int)
    requires id < |w.incidents| && TimelyIncident(w.incidents[id], now) && !w.incidents[id].isOpen
    ensures RecordedDown(Resolved(w, id, now, who, note).incidents, u, x)
       <==> || RecordedDown(w.incidents, u, x)
            || (u == w.incidents[id].target && w.incidents[id].resolvedAt.value <= x < now)
  {
    var inc, after := w.incidents[id], Resolved(w, id, now, who, note).incidents;
    assert forall i :: 0 <= i < |after| && i != id ==> after[i] == w.incidents[i];
    if i :| 0 <= i < |w.incidents| && CoversAt(w.incidents[i], u, x) {
      assert CoversAt(after[i], u, x);
    }
    assert CoversAt(after[id], u, x) <==>
           CoversAt(inc, u, x) || (u == inc.target && inc.resolvedAt.value <= x < now);
  }

  /** Resolving an open incident leaves the second of the resolution unrecorded. */
  lemma FirstResolutionEnds(w: World, id: nat, now: int, who: string, note: Option<string>)
    requires Disjoint(w.incidents) && Timely(w.incidents, now) && id < |w.incidents| && w.incidents[id].isOpen
    ensures RecordedDown(w.incidents, w.incidents[id].target, now)
    ensures !RecordedDown(Resolved(w, id, now, who, note).incidents, w.incidents[id].target, now)
  {
    var t, after := w.incidents[id].target, Resolved(w, id, now, who, note).incidents;
    assert TimelyIncident(w.incidents[id], now) && CoversAt(w.incidents[id], t, now);
    forall i | 0 <= i < |after| ensures !CoversAt(after[i], t, now) {
      assert TimelyIncident(w.incidents[i], now);
    }
  }

  /** A manual resolution changes no recorded second exactly when the incident is resolved already and its target
      is recorded as down from that resolution to this one; it never changes another target's seconds. */
  lemma ResolvingKeepsSecondsExactly(w: World, id: nat, now: int, who: string, note: Option<string>, clock: int)
    requires Disjoint(w.incidents) && Timely(w.incidents, clock) && clock <= now
    requires id < |w.incidents|
    ensures !w.incidents[id].isOpen ==> w.incidents[id].resolvedAt.Some?
    ensures var (inc, after) := (w.incidents[id], Resolved(w, id, now, who, note).incidents);
            && (SameSeconds(after, w.incidents, inc.target) <==>
                  !inc.isOpen && AllRecorded(w.incidents, inc.target, inc.resolvedAt.value, now))
            && forall u :: u != inc.target ==> SameSeconds(after, w.incidents, u)
  {
    hide Disjoint, RecordedDown;
    var inc, after := w.incidents[id], Resolved(w, id, now, who, note).incidents;
    TimelyLater(w.incidents, clock, now);
    assert TimelyIncident(inc, now);
    if inc.isOpen {
      FirstResolutionEnds(w, id, now, who, note);
    } else {
      forall u, x
        ensures RecordedDown(after, u, x) <==>
                  RecordedDown(w.incidents, u, x) || (u == inc.target && inc.resolvedAt.value <= x < now)
      {
        SecondResolutionAdds(w, id, now, who, note, u, x);
      }
    }
    forall u | u != inc.target ensures SameSeconds(after, w.incidents, u) {
      OthersUnmoved(w, id, now, who, note, u);
    }
  }

  lemma OthersUnmoved(w: World, id: nat, now: int, who: string, note: Option<string>, u: TargetId)
    requires id < |w.incidents| && w.incidents[id].target != u
    ensures SameSeconds(Resolved(w, id, now, who, note).incidents, w.incidents, u)
  {
    var after := Resolved(w, id, now, who, note).incidents;
    forall x, i | 0 <= i < |after| ensures CoversAt(after[i], u, x) <==> CoversAt(w.incidents[i], u, x) {
    }
  }

  /** An operator resolves the open incident of a target that stays down: it is down and no longer recorded so. */
  lemma DownAndUnrecorded(row: StateRow, quiet: bool)
    requires row.health == HealthStates.FRESH
    ensures var w := World(map["api" := row], [], []);
            var actions := [Check("api", 1, 1, FAILURE, 0, quiet), Resolve(0, 10, "admin", None)];
            && Initial(w) && InOrder(actions) && AllCareful(w, actions)
            && DownAt(w, actions, "api")(20) && !RecordedDown(Run(w, actions).incidents, "api", 20)
  {
    var w := World(map["api" := row], [], []);
    var a, r := Check("api", 1, 1, FAILURE, 0, quiet), Resolve(0, 10, "admin", None);
    FallOpens(w, "api", 0, quiet);
    RunOfTwo(w, a, r);
    hide Checked, Run;
    assert Seen([a, r], 20) == [a, r];
    assert [a, r][..0] == [] && [a, r][..1] == [a];
  }

  /** An operator resolves an incident again after its target has recovered: it was up and is recorded as down. */
  lemma UpAndRecorded(row: StateRow, quiet: bool)
    requires row.health == HealthStates.FRESH
    ensures var w := World(map["api" := row], [], []);
            var actions := [Check("api", 1, 1, FAILURE, 0, quiet), Check("api", 1, 1, SUCCESS, 10, quiet),
                            Resolve(0, 30, "admin", None)];
            && Initial(w) && InOrder(actions)
            && !DownAt(w, actions, "api")(20) && RecordedDown(Run(w, actions).incidents, "api", 20)
  {
    var w := World(map["api" := row], [], []);
    var a, b := Check("api", 1, 1, FAILURE, 0, quiet), Check("api", 1, 1, SUCCESS, 10, quiet);
    var r := Resolve(0, 30, "admin", None);
    FallOpens(w, "api", 0, quiet);
    RiseResolves(Next(w, a), "api", 10, quiet);
    AutoResolvedAt(Next(w, a).incidents, "api", 10);
    RunOfTwo(w, a, b);
    RunSnoc(w, [a, b], r);
    hide Checked, Run;
    assert [a, b] + [r] == [a, b, r] && [a, b, r][..2] == [a, b];
    assert CoversAt(Run(w, [a, b, r]).incidents[0], "api", 20);
    assert Seen([a, b, r], 20) == [a, b];
  }

  lemma RunOfTwo(w: World, a: Action, b: Action)
    ensures Run(w, []) == w && Run(w, [a]) == Next(w, a) && Run(w, [a, b]) == Next(Next(w, a), b)
  {
    hide Next, Run;
    RunOfNone(w);
    RunSnoc(w, [], a);
    RunSnoc(w, [a], b);
    assert [] + [a] == [a] && [a] + [b] == [a, b];
  }

  // ---- The SLA figures ----

  /** The incidents table as the report reads it. */
  function ToRow(inc: Incident): SlaReport.Incident {
    SlaReport.Incident(
      inc.target, Some(inc.openedAt), if inc.resolvedAt.Some? then Some(Some(inc.resolvedAt.value)) else None,
      inc.durationSec)
  }

  lemma RowsRecordDown(incidents: seq<Incident>, t: TargetId, x: int)
    ensures SlaWindows.DownFor(Map(incidents, ToRow), t)(x) <==> RecordedDown(incidents, t, x)
  {
    var rows := Map(incidents, ToRow);
    forall i | 0 <= i < |incidents|
      ensures rows[i].targetId == t && SlaReport.OpenAt(rows[i], x) <==> CoversAt(incidents[i], t, x)
    {
    }
  }

  /** In a careful run the SLA figures of a target are the seconds its status was down and nobody had resolved the
      outage by hand, the excluded seconds, and those of the first that are not excluded. */
  lemma FiguresFollowStatus(
    w: World, actions: seq<Action>, t: TargetId,
    maintenance: seq<SlaReport.Maintenance>, tags: set<(string, string)>, window: SlaRanges.Range)
    requires Initial(w) && InOrder(actions) && AllCareful(w, actions)
    requires forall m :: m in maintenance ==> SlaWindows.CanonicalMaintenance(m)
    ensures var (d, e) := (ShownAt(w, actions, t), SlaWindows.ExcludedFor(maintenance, t, tags));
            SlaWindows.Figures(Map(Run(w, actions).incidents, ToRow), maintenance, t, tags, window)
            == (SlaRanges.Count(window.start, window.end, d), SlaRanges.Count(window.start, window.end, e),
                SlaRanges.Count(window.start, window.end, SlaRanges.Outside(d, e)))
  {
    hide Run, ShownAt, AllCareful, SlaWindows.DownFor, SlaWindows.Figures;
    var rows := Map(Run(w, actions).incidents, ToRow);
    var (d, e) := (ShownAt(w, actions, t), SlaWindows.ExcludedFor(maintenance, t, tags));
    var r := SlaWindows.DownFor(rows, t);
    forall x ensures r(x) == d(x) {
      RowsRecordDown(Run(w, actions).incidents, t, x);
      LedgerFollowsStatus(w, actions, t, x);
    }
    SlaWindows.FiguresFromTables(rows, maintenance, t, tags, window);
    SlaRanges.CountSame(window.start, window.end, r, d);
    SlaRanges.CountSame(window.start, window.end, SlaRanges.Outside(r, e), SlaRanges.Outside(d, e));
  }

  lemma {:induction false} SeenIsUnattended(actions: seq<Action>, x: int)
    requires Unattended(actions)
    ensures Unattended(Seen(actions, x))
  {
    if actions == [] || actions[|actions| - 1].now <= x {
    } else {
      SeenIsUnattended(actions[..|actions| - 1], x);
    }
  }

  lemma UnattendedShowsAll(w: World, actions: seq<Action>, t: TargetId, x: int)
    requires Unattended(actions)
    ensures ShownAt(w, actions, t)(x) == DownAt(w, actions, t)(x)
  {
    hide Run, IsDown;
    SeenIsUnattended(actions, x);
    var seen := Seen(actions, x);
    forall n: nat | n < |seen| ensures !ResolvedAtStep(w, seen, t, n) {
      assert seen[n] in seen;
    }
  }

  /** As long as nobody resolves incidents by hand, they are the seconds its status was down, the excluded seconds,
      and the seconds it was down outside exclusions. */
  lemma UnattendedFigures(
    w: World, actions: seq<Action>, t: TargetId,
    maintenance: seq<SlaReport.Maintenance>, tags: set<(string, string)>, window: SlaRanges.Range)
    requires Initial(w) && InOrder(actions) && Unattended(actions)
    requires forall m :: m in maintenance ==> SlaWindows.CanonicalMaintenance(m)
    ensures var (d, e) := (DownAt(w, actions, t), SlaWindows.ExcludedFor(maintenance, t, tags));
            SlaWindows.Figures(Map(Run(w, actions).incidents, ToRow), maintenance, t, tags, window)
            == (SlaRanges.Count(window.start, window.end, d), SlaRanges.Count(window.start, window.end, e),
                SlaRanges.Count(window.start, window.end, SlaRanges.Outside(d, e)))
  {
    hide Run, ShownAt, DownAt, AllCareful, Unattended, SlaWindows.Figures;
    UnattendedIsCareful(w, actions);
    FiguresFollowStatus(w, actions, t, maintenance, tags, window);
    var (d, e, shown) := (DownAt(w, actions, t), SlaWindows.ExcludedFor(maintenance, t, tags), ShownAt(w, actions, t));
    forall x ensures shown(x) == d(x) {
      UnattendedShowsAll(w, actions, t, x);
    }
    SlaRanges.CountSame(window.start, window.end, shown, d);
    SlaRanges.CountSame(window.start, window.end, SlaRanges.Outside(shown, e), SlaRanges.Outside(d, e));
  }

  lemma UnattendedIsCareful(w: World, actions: seq<Action>)
    requires Unattended(actions)
    ensures AllCareful(w, actions)
  {
    hide Run;
    forall n: nat | n < |actions| ensures Careful(Run(w, actions[..n]), actions[n]) {
      assert actions[n] in actions;
    }
  }
}
