/** What every column of a recorded incident says about the run that left it. */
module IncidentRecords {
  import opened Wrappers
  import opened Incidents
  import Downtime
  import SlaReport

  /** Action `n` took the target down, and the incident has its time and its error text. */
  ghost predicate OpenedAtStep(w: World, actions: seq<Action>, inc: Incident, n: nat) {
    && n < |actions| && actions[n].Check? && actions[n].target == inc.target
    && !IsDown(Run(w, actions[..n]), inc.target) && IsDown(Run(w, actions[..n + 1]), inc.target)
    && inc.openedAt == actions[n].now && inc.openedBy == "system"
    && inc.cause == if actions[n].outcome.error.Some? then actions[n].outcome.error.value else "Unknown failure"
  }

  ghost predicate Resolves(a: Action, id: nat) {
    a.Resolve? && a.id == id
  }

  /** Action `m` brought the target up again, or resolved this very incident by hand; nobody has resolved it since,
      and the incident has that action's time, author and note. */
  ghost predicate ClosedAtStep(w: World, actions: seq<Action>, id: nat, inc: Incident, m: nat) {
    && m < |actions| && inc.resolvedAt == Some(actions[m].now)
    && (forall k :: m < k < |actions| ==> !Resolves(actions[k], id))
    && match actions[m]
       case Check(t, st, ft, outcome, now, quiet) =>
         && t == inc.target && inc.resolvedBy == Some("system") && inc.note == None
         && IsDown(Run(w, actions[..m]), t) && !IsDown(Run(w, actions[..m + 1]), t)
       case Resolve(named, now, who, note) =>
         named == id && inc.resolvedBy == Some(who) && inc.note == note
  }

  /** The columns of one incident.  A closed one lasted from its opening to its resolution. */
  ghost predicate WellRecorded(w: World, actions: seq<Action>, id: nat, inc: Incident) {
    && (exists n: nat :: OpenedAtStep(w, actions, inc, n))
    && if inc.isOpen
       then inc.resolvedAt == None && inc.durationSec == None && inc.resolvedBy == None && inc.note == None
       else && (exists m: nat :: ClosedAtStep(w, actions, id, inc, m))
            && inc.durationSec == Some(inc.resolvedAt.value - inc.openedAt)
  }

  lemma OpenedStays(w: World, actions: seq<Action>, inc: Incident, later: Incident, n: nat)
    requires actions != [] && OpenedAtStep(w, actions[..|actions| - 1], inc, n)
    requires later.target == inc.target && later.openedAt == inc.openedAt && later.openedBy == inc.openedBy
    requires later.cause == inc.cause
    ensures OpenedAtStep(w, actions, later, n)
  {
    hide Run, IsDown;
    var init := actions[..|actions| - 1];
    assert init[..n] == actions[..n] && init[..n + 1] == actions[..n + 1];
  }

  lemma ClosedStays(w: World, actions: seq<Action>, id: nat, inc: Incident, m: nat)
    requires actions != [] && ClosedAtStep(w, actions[..|actions| - 1], id, inc, m)
    requires !Resolves(actions[|actions| - 1], id)
    ensures ClosedAtStep(w, actions, id, inc, m)
  {
    hide Run, IsDown;
    var init := actions[..|actions| - 1];
    assert init[..m] == actions[..m] && init[..m + 1] == actions[..m + 1];
    assert forall k :: m < k < |init| ==> !Resolves(init[k], id);
  }

  /** An incident that the last action leaves alone. */
  lemma RecordStays(w: World, actions: seq<Action>, id: nat, inc: Incident)
    requires actions != [] && WellRecorded(w, actions[..|actions| - 1], id, inc)
    requires !Resolves(actions[|actions| - 1], id)
    ensures WellRecorded(w, actions, id, inc)
  {
    hide Run, IsDown, OpenedAtStep, ClosedAtStep;
    var init := actions[..|actions| - 1];
    var n: nat :| OpenedAtStep(w, init, inc, n);
    OpenedStays(w, actions, inc, inc, n);
    if !inc.isOpen {
      var m: nat :| ClosedAtStep(w, init, id, inc, m);
      ClosedStays(w, actions, id, inc, m);
    }
  }

  /** An incident that the last action closes. */
  lemma RecordCloses(w: World, actions: seq<Action>, id: nat, inc: Incident, later: Incident)
    requires actions != [] && WellRecorded(w, actions[..|actions| - 1], id, inc)
    requires later.target == inc.target && later.openedAt == inc.openedAt && later.openedBy == inc.openedBy
    requires later.cause == inc.cause && !later.isOpen
    requires ClosedAtStep(w, actions, id, later, |actions| - 1)
    requires later.durationSec == Some(actions[|actions| - 1].now - inc.openedAt)
    ensures WellRecorded(w, actions, id, later)
  {
    hide Run, IsDown, OpenedAtStep;
    var init := actions[..|actions| - 1];
    var n: nat :| OpenedAtStep(w, init, inc, n);
    OpenedStays(w, actions, inc, later, n);
  }

  lemma CheckRecords(w: World, actions: seq<Action>, id: nat)
    requires actions != [] && actions[|actions| - 1].Check?
    requires Inv(Run(w, actions[..|actions| - 1]))
    requires var before := Run(w, actions[..|actions| - 1]).incidents;
             forall i: nat :: i < |before| ==> WellRecorded(w, actions[..|actions| - 1], i, before[i])
    requires id < |Run(w, actions).incidents|
    ensures WellRecorded(w, actions, id, Run(w, actions).incidents[id])
  {
    hide Run, Next, WellRecorded, OpenedAtStep, ClosedAtStep;
    var (init, inc) := (actions[..|actions| - 1], Run(w, actions).incidents[id]);
    var before := Run(w, init).incidents;
    if id >= |before| {
      FallRecords(w, actions, id);
    } else if inc == before[id] {
      RecordStays(w, actions, id, inc);
    } else {
      OpenHasNoNote(w, init, id, before[id]);
      RecoveryCloses(w, actions, id);
      RecordCloses(w, actions, id, before[id], inc);
    }
  }

  lemma OpenHasNoNote(w: World, actions: seq<Action>, id: nat, inc: Incident)
    requires WellRecorded(w, actions, id, inc)
    ensures inc.isOpen ==> inc.note == None
  {
  }

  lemma RecoveryCloses(w: World, actions: seq<Action>, id: nat)
    requires actions != [] && actions[|actions| - 1].Check?
    requires var before := Run(w, actions[..|actions| - 1]);
             id < |before.incidents| && id < |Run(w, actions).incidents|
             && Run(w, actions).incidents[id] != before.incidents[id]
             && (before.incidents[id].isOpen ==> before.incidents[id].note == None)
    ensures var inc := Run(w, actions).incidents[id];
            && Run(w, actions[..|actions| - 1]).incidents[id].isOpen
            && inc == Closed(Run(w, actions[..|actions| - 1]).incidents[id], actions[|actions| - 1].now, "system")
            && ClosedAtStep(w, actions, id, inc, |actions| - 1)
  {
    var last := |actions| - 1;
    var (a, before) := (actions[last], Run(w, actions[..last]));
    assert actions[..last + 1] == actions;
    assert Run(w, actions) == Next(before, a);
    hide Run;
    AutoResolvedAt(before.incidents, a.target, a.now);
  }

  lemma FallRecords(w: World, actions: seq<Action>, id: nat)
    requires actions != [] && actions[|actions| - 1].Check?
    requires |Run(w, actions[..|actions| - 1]).incidents| <= id < |Run(w, actions).incidents|
    ensures WellRecorded(w, actions, id, Run(w, actions).incidents[id])
  {
    FallOpensOne(w, actions, id);
    hide Run, OpenedAtStep, ClosedAtStep;
  }

  lemma FallOpensOne(w: World, actions: seq<Action>, id: nat)
    requires actions != [] && actions[|actions| - 1].Check?
    requires |Run(w, actions[..|actions| - 1]).incidents| <= id < |Run(w, actions).incidents|
    ensures var inc := Run(w, actions).incidents[id];
            && OpenedAtStep(w, actions, inc, |actions| - 1)
            && inc.isOpen && inc.resolvedAt == None && inc.durationSec == None && inc.resolvedBy == None
            && inc.note == None
  {
    var last := |actions| - 1;
    var (a, before) := (actions[last], Run(w, actions[..last]));
    assert actions[..last + 1] == actions;
    assert Run(w, actions) == Next(before, a);
    hide Run;
    AutoResolvedAt(before.incidents, a.target, a.now);
  }

  lemma ResolutionCloses(w: World, actions: seq<Action>, id: nat)
    requires actions != [] && actions[|actions| - 1].Resolve? && id < |Run(w, actions).incidents|
    ensures var (before, after) := (Run(w, actions[..|actions| - 1]).incidents, Run(w, actions).incidents);
            && |after| == |before|
            && if actions[|actions| - 1].id != id then after[id] == before[id]
               else
                 && ClosedAtStep(w, actions, id, after[id], |actions| - 1) && !after[id].isOpen
                 && after[id].durationSec == Some(actions[|actions| - 1].now - before[id].openedAt)
                 && after[id] == before[id].(isOpen := false, resolvedAt := after[id].resolvedAt,
                                             durationSec := after[id].durationSec, resolvedBy := after[id].resolvedBy,
                                             note := after[id].note)
  {
    var last := |actions| - 1;
    assert Run(w, actions) == Next(Run(w, actions[..last]), actions[last]);
    hide Run;
  }

  lemma ResolutionRecords(w: World, actions: seq<Action>, id: nat)
    requires actions != [] && actions[|actions| - 1].Resolve?
    requires var before := Run(w, actions[..|actions| - 1]).incidents;
             forall i: nat :: i < |before| ==> WellRecorded(w, actions[..|actions| - 1], i, before[i])
    requires id < |Run(w, actions).incidents|
    ensures WellRecorded(w, actions, id, Run(w, actions).incidents[id])
  {
    hide Run, WellRecorded, OpenedAtStep, ClosedAtStep;
    ResolutionCloses(w, actions, id);
    var (before, after) := (Run(w, actions[..|actions| - 1]).incidents, Run(w, actions).incidents);
    if actions[|actions| - 1].id != id {
      RecordStays(w, actions, id, before[id]);
    } else {
      RecordCloses(w, actions, id, before[id], after[id]);
    }
  }

  /** In every reachable ledger each incident was opened by the check that took its target down, with that check's
      time and error; if it is closed, its end, author and note are those of the recovery or of the operator's
      resolution that closed it, and its duration is the time between the two. */
  lemma {:induction false} LedgerIsWellRecorded(w: World, actions: seq<Action>, id: nat)
    requires Initial(w) && id < |Run(w, actions).incidents|
    ensures WellRecorded(w, actions, id, Run(w, actions).incidents[id])
    decreases |actions|
  {
    if actions == [] {
    } else {
      var init := actions[..|actions| - 1];
      RunKeepsRecords(w, init);
      forall i: nat | i < |Run(w, init).incidents| ensures WellRecorded(w, init, i, Run(w, init).incidents[i]) {
        LedgerIsWellRecorded(w, init, i);
      }
      hide Run, WellRecorded, Inv;
      if actions[|actions| - 1].Check? {
        CheckRecords(w, actions, id);
      } else {
        ResolutionRecords(w, actions, id);
      }
    }
  }

  /** The mean recovery of a report counts every closed incident of a reachable ledger, with the time between its
      opening and its resolution, and no open one. */
  lemma RecoveriesAreOutages(w: World, actions: seq<Action>, id: nat)
    requires Initial(w) && id < |Run(w, actions).incidents|
    ensures var inc := Run(w, actions).incidents[id];
            && (SlaReport.Recovered(Downtime.ToRow(inc)) <==> !inc.isOpen)
            && (!inc.isOpen ==>
                  && inc.resolvedAt.Some?
                  && SlaReport.Took(Downtime.ToRow(inc)) == inc.resolvedAt.value - inc.openedAt)
  {
    LedgerIsWellRecorded(w, actions, id);
    hide Run, OpenedAtStep;
  }
}
