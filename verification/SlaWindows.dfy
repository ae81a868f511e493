/** The queries that feed the calculator, and reports over adjoining windows. */
module SlaWindows {
  import opened Wrappers
  import opened Ordering
  import opened SlaRanges
  import opened SlaReport

  /** Timestamps as every writer stores them, so that text order is time order. */
  ghost predicate CanonicalIncident(inc: Incident) {
    inc.openedAt.Some? && (inc.resolvedAt.Some? ==> inc.resolvedAt.value.Some?)
  }

  ghost predicate CanonicalMaintenance(m: Maintenance) {
    m.startAt.Some? && m.endAt.Some?
  }

  /** `incidents::list_in_window`: opened before the window ends and not resolved before it starts. */
  function MeetsWindow(target: string, w: Range): Incident -> bool {
    (inc: Incident) =>
      && inc.targetId == target
      && inc.openedAt.Some? && inc.openedAt.value < w.end
      && (inc.resolvedAt.Some? ==> inc.resolvedAt.value.Some? && inc.resolvedAt.value.value > w.start)
  }

  /** The applicability clause: by target, by exact tag, or global. */
  predicate Applies(m: Maintenance, target: string, tags: set<(string, string)>) {
    || m.targetId == Some(target)
    || (m.targetTag.Some? && (target, m.targetTag.value) in tags)
    || (m.targetId.None? && m.targetTag.None?)
  }

  /** A window that may affect the SLA of `target`. */
  predicate CountsFor(m: Maintenance, target: string, tags: set<(string, string)>) {
    m.isActive && m.excludeFromSla && Applies(m, target, tags)
  }

  /** `maintenance::list_in_window`. */
  function OverlapsWindow(target: string, tags: set<(string, string)>, w: Range): Maintenance -> bool {
    (m: Maintenance) =>
      && CountsFor(m, target, tags)
      && m.startAt.Some? && m.startAt.value < w.end
      && m.endAt.Some? && m.endAt.value > w.start
  }

  function IncidentsFor(table: seq<Incident>, target: string, w: Range): seq<Incident> {
    Filter(table, MeetsWindow(target, w))
  }

  function MaintenanceFor(table: seq<Maintenance>, target: string, tags: set<(string, string)>,
      w: Range): seq<Maintenance> {
    Filter(table, OverlapsWindow(target, tags, w))
  }

  /** Down at `x` according to the whole incidents table, with no window in sight. */
  ghost function DownFor(table: seq<Incident>, target: string): int -> bool {
    x => exists i :: 0 <= i < |table| && table[i].targetId == target && OpenAt(table[i], x)
  }

  ghost function ExcludedFor(table: seq<Maintenance>, target: string, tags: set<(string, string)>): int -> bool {
    x => exists i :: 0 <= i < |table| && CountsFor(table[i], target, tags) && InsideAt(table[i], x)
  }

  /** The rows the query drops never change whether a second of the window is down. */
  lemma IncidentFilterIsLossless(table: seq<Incident>, target: string, w: Range, x: int)
    requires forall inc :: inc in table ==> CanonicalIncident(inc)
    requires w.In(x)
    ensures Down(IncidentsFor(table, target, w))(x) <==> DownFor(table, target)(x)
  {
    var kept := IncidentsFor(table, target, w);
    if i :| 0 <= i < |kept| && OpenAt(kept[i], x) {
      assert kept[i] in table;
      var j :| 0 <= j < |table| && table[j] == kept[i];
    }
    if i :| 0 <= i < |table| && table[i].targetId == target && OpenAt(table[i], x) {
      assert table[i] in table && MeetsWindow(target, w)(table[i]);
      assert table[i] in kept;
    }
  }

  lemma MaintenanceFilterIsLossless(table: seq<Maintenance>, target: string, tags: set<(string, string)>,
      w: Range, x: int)
    requires forall m :: m in table ==> CanonicalMaintenance(m)
    requires w.In(x)
    ensures Excluded(MaintenanceFor(table, target, tags, w))(x) <==> ExcludedFor(table, target, tags)(x)
  {
    var kept := MaintenanceFor(table, target, tags, w);
    if i :| 0 <= i < |kept| && InsideAt(kept[i], x) {
      assert kept[i] in table;
      var j :| 0 <= j < |table| && table[j] == kept[i];
    }
    if i :| 0 <= i < |table| && CountsFor(table[i], target, tags) && InsideAt(table[i], x) {
      assert table[i] in table && OverlapsWindow(target, tags, w)(table[i]);
      assert table[i] in kept;
    }
  }

  /** The incidents a report is given, for its figures and for its count and mean, are those of the target that were
      opened before the window ends and not resolved by its start; of those that last at all, the ones open at some
      second of the window. */
  lemma IncidentsFetchedExactly(table: seq<Incident>, target: string, w: Range, inc: Incident)
    requires inc in table && CanonicalIncident(inc)
    ensures inc in IncidentsFor(table, target, w) <==>
              && inc.targetId == target && inc.openedAt.value < w.end
              && (inc.resolvedAt == None || inc.resolvedAt.value.value > w.start)
    ensures w.start < w.end && (inc.resolvedAt.Some? ==> inc.openedAt.value < inc.resolvedAt.value.value) ==>
              (inc in IncidentsFor(table, target, w) <==>
                 inc.targetId == target && exists x :: w.start <= x < w.end && OpenAt(inc, x))
  {
    var x := if inc.openedAt.value > w.start then inc.openedAt.value else w.start;
    if inc.targetId == target && MeetsWindow(target, w)(inc) && w.start < w.end {
      assert (inc.resolvedAt.Some? ==> inc.openedAt.value < inc.resolvedAt.value.value) ==> OpenAt(inc, x);
    }
  }

  /** The window is in force and meant for the target: for it alone, for a tag it has, or for all. */
  ghost predicate InForceFor(m: Maintenance, target: string, tags: set<(string, string)>) {
    && m.isActive == true && m.excludeFromSla == true
    && match (m.targetId, m.targetTag)
       case (None, None) => true
       case (Some(only), None) => only == target
       case (None, Some(tag)) => (target, tag) in tags
       case (Some(only), Some(tag)) => only == target || (target, tag) in tags
  }

  /** The windows a report is given are those in force for the target that overlap it. */
  lemma MaintenanceFetchedExactly(table: seq<Maintenance>, target: string, tags: set<(string, string)>, w: Range,
      m: Maintenance)
    requires m in table && CanonicalMaintenance(m)
    ensures m in MaintenanceFor(table, target, tags, w) <==>
              InForceFor(m, target, tags) && m.startAt.value < w.end && m.endAt.value > w.start
  {
  }

  /** A second is excluded for a target exactly when a window in force for it covers the second. */
  lemma ExcludedInColumns(table: seq<Maintenance>, target: string, tags: set<(string, string)>, x: int)
    ensures ExcludedFor(table, target, tags)(x) <==>
              exists m :: && m in table && InForceFor(m, target, tags)
                          && m.startAt.Some? && m.endAt.Some? && m.startAt.value <= x < m.endAt.value
  {
    if i :| 0 <= i < |table| && CountsFor(table[i], target, tags) && InsideAt(table[i], x) {
      assert table[i] in table && InForceFor(table[i], target, tags);
    }
    if m :| && m in table && InForceFor(m, target, tags)
            && m.startAt.Some? && m.endAt.Some? && m.startAt.value <= x < m.endAt.value {
      var i :| 0 <= i < |table| && table[i] == m;
      assert CountsFor(table[i], target, tags) && InsideAt(table[i], x);
    }
  }

  /** The three figures of a report over `w`, computed from the rows fetched for `w`. */
  ghost function Figures(incidents: seq<Incident>, maintenance: seq<Maintenance>,
                         target: string, tags: set<(string, string)>, w: Range): (int, int, int) {
    var inc, maint := IncidentsFor(incidents, target, w), MaintenanceFor(maintenance, target, tags, w);
    (Downtime(w, inc), ExcludedTime(w, maint), SlaDowntime(w, inc, maint))
  }

  /** The figures depend on the tables only through what is down and excluded in the window. */
  lemma FiguresFromTables(incidents: seq<Incident>, maintenance: seq<Maintenance>,
                          target: string, tags: set<(string, string)>, w: Range)
    requires forall inc :: inc in incidents ==> CanonicalIncident(inc)
    requires forall m :: m in maintenance ==> CanonicalMaintenance(m)
    ensures var (d, e) := (DownFor(incidents, target), ExcludedFor(maintenance, target, tags));
            Figures(incidents, maintenance, target, tags, w)
            == (Count(w.start, w.end, d), Count(w.start, w.end, e), Count(w.start, w.end, Outside(d, e)))
  {
    var inc, maint := IncidentsFor(incidents, target, w), MaintenanceFor(maintenance, target, tags, w);
    var (d, e) := (DownFor(incidents, target), ExcludedFor(maintenance, target, tags));
    forall x | w.start <= x < w.end ensures Down(inc)(x) == d(x) && Excluded(maint)(x) == e(x) {
      IncidentFilterIsLossless(incidents, target, w, x);
      MaintenanceFilterIsLossless(maintenance, target, tags, w, x);
    }
    CountSame(w.start, w.end, Down(inc), d);
    CountSame(w.start, w.end, Excluded(maint), e);
    CountSame(w.start, w.end, Outside(Down(inc), Excluded(maint)), Outside(d, e));
  }

  /** Over adjoining windows every figure adds up, although each window fetches its own rows and
      clips open incidents at its own end. */
  lemma FiguresAddUp(incidents: seq<Incident>, maintenance: seq<Maintenance>,
                     target: string, tags: set<(string, string)>, a: int, b: int, c: int)
    requires forall inc :: inc in incidents ==> CanonicalIncident(inc)
    requires forall m :: m in maintenance ==> CanonicalMaintenance(m)
    requires a <= b <= c
    ensures var (f, g) := (Figures(incidents, maintenance, target, tags, Range(a, b)),
                           Figures(incidents, maintenance, target, tags, Range(b, c)));
            Figures(incidents, maintenance, target, tags, Range(a, c)) == (f.0 + g.0, f.1 + g.1, f.2 + g.2)
  {
    var (d, e) := (DownFor(incidents, target), ExcludedFor(maintenance, target, tags));
    FiguresFromTables(incidents, maintenance, target, tags, Range(a, b));
    FiguresFromTables(incidents, maintenance, target, tags, Range(b, c));
    FiguresFromTables(incidents, maintenance, target, tags, Range(a, c));
    CountSplits(a, b, c, d);
    CountSplits(a, b, c, e);
    CountSplits(a, b, c, Outside(d, e));
  }
}
