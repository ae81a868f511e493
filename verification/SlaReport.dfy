/** The SLA calculator, refined to sets of seconds. */
module SlaReport {
  import opened Wrappers
  import opened SlaRanges

  /** A stored timestamp in seconds, or `None` for text that does not parse. */
  type Timestamp = Option<int>

  /** `resolvedAt` is `None` for a NULL column. */
  datatype Incident = Incident(
    targetId: string, openedAt: Timestamp, resolvedAt: Option<Timestamp>, durationSec: Option<int>)

  datatype Maintenance = Maintenance(
    startAt: Timestamp, endAt: Timestamp, targetId: Option<string>, targetTag: Option<string>,
    excludeFromSla: bool, isActive: bool)

  datatype Report = Report(
    windowSeconds: int, downtimeSeconds: int, excludedSeconds: int,
    grossUptimeRatio: real, slaUptimeRatio: Option<real>, incidentCount: int, mttrSeconds: Option<int>)

  // ---- Clipping to the window ----

  function IncidentRange(inc: Incident, window: Range): Option<Range> {
    if inc.openedAt.None? then None
    else
      var end := if inc.resolvedAt.Some? && inc.resolvedAt.value.Some? then inc.resolvedAt.value.value
                 else window.end;
      Range(inc.openedAt.value, end).Intersect(window)
  }

  function MaintenanceRange(m: Maintenance, window: Range): Option<Range> {
    if m.startAt.None? || m.endAt.None? then None
    else Range(m.startAt.value, m.endAt.value).Intersect(window)
  }

  function IncidentRanges(incidents: seq<Incident>, window: Range): seq<Range> {
    if incidents == [] then []
    else
      var r := IncidentRange(incidents[|incidents| - 1], window);
      IncidentRanges(incidents[..|incidents| - 1], window) + if r.Some? then [r.value] else []
  }

  function MaintenanceRanges(windows: seq<Maintenance>, window: Range): seq<Range> {
    if windows == [] then []
    else
      var r := MaintenanceRange(windows[|windows| - 1], window);
      MaintenanceRanges(windows[..|windows| - 1], window) + if r.Some? then [r.value] else []
  }

  // ---- What the report means, second by second ----

  /** The incident is open at second `x`; one that never resolved, or whose end does not parse, stays open. */
  ghost predicate OpenAt(inc: Incident, x: int) {
    && inc.openedAt.Some? && inc.openedAt.value <= x
    && (inc.resolvedAt.Some? && inc.resolvedAt.value.Some? ==> x < inc.resolvedAt.value.value)
  }

  ghost predicate InsideAt(m: Maintenance, x: int) {
    m.startAt.Some? && m.endAt.Some? && m.startAt.value <= x < m.endAt.value
  }

  /** Some incident is open at the given second. */
  ghost function Down(incidents: seq<Incident>): int -> bool {
    x => exists i :: 0 <= i < |incidents| && OpenAt(incidents[i], x)
  }

  /** Some maintenance window covers the given second. */
  ghost function Excluded(windows: seq<Maintenance>): int -> bool {
    x => exists i :: 0 <= i < |windows| && InsideAt(windows[i], x)
  }

  /** Down are the seconds from an opening on, before the resolution if it has one that can be read; a row whose opening
      cannot be read says nothing. */
  lemma DownInColumns(incidents: seq<Incident>, x: int)
    ensures Down(incidents)(x) <==>
              exists inc :: inc in incidents && (exists from :: inc.openedAt == Some(from) && from <= x)
                            && forall to :: inc.resolvedAt == Some(Some(to)) ==> x < to
  {
    if i :| 0 <= i < |incidents| && OpenAt(incidents[i], x) {
      assert incidents[i] in incidents && incidents[i].openedAt == Some(incidents[i].openedAt.value);
    }
    if inc :| inc in incidents && (exists from :: inc.openedAt == Some(from) && from <= x)
              && forall to :: inc.resolvedAt == Some(Some(to)) ==> x < to {
      var i :| 0 <= i < |incidents| && incidents[i] == inc;
      assert OpenAt(incidents[i], x);
    }
  }

  /** Excluded are the seconds from a start on and before the end; both have to be readable. */
  lemma ExcludedInColumns(windows: seq<Maintenance>, x: int)
    ensures Excluded(windows)(x) <==>
              exists m :: && m in windows && m.startAt.Some? && m.endAt.Some?
                          && m.startAt.value <= x < m.endAt.value
  {
    if m :| m in windows && m.startAt.Some? && m.endAt.Some? && m.startAt.value <= x < m.endAt.value {
      var i :| 0 <= i < |windows| && windows[i] == m;
      assert InsideAt(windows[i], x);
    }
  }

  ghost predicate ClippedTo(rs: seq<Range>, window: Range, p: int -> bool) {
    && NonEmpty(rs)
    && (forall i :: 0 <= i < |rs| ==> window.start <= rs[i].start && rs[i].end <= window.end)
    && forall x :: Covers(rs, x) <==> window.In(x) && p(x)
  }

  lemma IncidentRangeExact(inc: Incident, window: Range, x: int)
    ensures var r := IncidentRange(inc, window); r.Some? && r.value.In(x) <==> window.In(x) && OpenAt(inc, x)
  {
    if inc.openedAt.Some? {
      var end := if inc.resolvedAt.Some? && inc.resolvedAt.value.Some? then inc.resolvedAt.value.value else window.end;
      assert Range(inc.openedAt.value, end).In(x) && window.In(x) <==> window.In(x) && OpenAt(inc, x);
    }
  }

  lemma MaintenanceRangeExact(m: Maintenance, window: Range, x: int)
    ensures var r := MaintenanceRange(m, window); r.Some? && r.value.In(x) <==> window.In(x) && InsideAt(m, x)
  {
    if m.startAt.Some? && m.endAt.Some? {
      assert Range(m.startAt.value, m.endAt.value).In(x) <==> InsideAt(m, x);
    }
  }

  lemma DownSnoc(init: seq<Incident>, inc: Incident, x: int)
    ensures Down(init + [inc])(x) <==> Down(init)(x) || OpenAt(inc, x)
  {
    if i :| 0 <= i < |init| && OpenAt(init[i], x) { assert OpenAt((init + [inc])[i], x); }
    if OpenAt(inc, x) { assert OpenAt((init + [inc])[|init|], x); }
  }

  lemma ExcludedSnoc(init: seq<Maintenance>, m: Maintenance, x: int)
    ensures Excluded(init + [m])(x) <==> Excluded(init)(x) || InsideAt(m, x)
  {
    if i :| 0 <= i < |init| && InsideAt(init[i], x) { assert InsideAt((init + [m])[i], x); }
    if InsideAt(m, x) { assert InsideAt((init + [m])[|init|], x); }
  }

  lemma {:induction false} IncidentRangesClip(incidents: seq<Incident>, window: Range)
    ensures ClippedTo(IncidentRanges(incidents, window), window, Down(incidents))
  {
    if incidents == [] {
    } else {
      var n := |incidents| - 1;
      var (init, inc) := (incidents[..n], incidents[n]);
      IncidentRangesClip(init, window);
      var r := IncidentRange(inc, window);
      forall x ensures Covers(IncidentRanges(incidents, window), x) <==> window.In(x) && Down(incidents)(x) {
        IncidentRangeExact(inc, window, x);
        DownSnoc(init, inc, x);
        assert incidents == init + [inc];
        if r.Some? { CoversSnoc(IncidentRanges(init, window), r.value, x); }
        else { assert IncidentRanges(incidents, window) == IncidentRanges(init, window); }
      }
    }
  }

  lemma {:induction false} MaintenanceRangesClip(windows: seq<Maintenance>, window: Range)
    ensures ClippedTo(MaintenanceRanges(windows, window), window, Excluded(windows))
  {
    if windows == [] {
    } else {
      var n := |windows| - 1;
      var (init, m) := (windows[..n], windows[n]);
      MaintenanceRangesClip(init, window);
      var r := MaintenanceRange(m, window);
      forall x ensures Covers(MaintenanceRanges(windows, window), x) <==> window.In(x) && Excluded(windows)(x) {
        MaintenanceRangeExact(m, window, x);
        ExcludedSnoc(init, m, x);
        assert windows == init + [m];
        if r.Some? { CoversSnoc(MaintenanceRanges(init, window), r.value, x); }
        else { assert MaintenanceRanges(windows, window) == MaintenanceRanges(init, window); }
      }
    }
  }

  ghost function Downtime(w: Range, incidents: seq<Incident>): int {
    Count(w.start, w.end, Down(incidents))
  }

  ghost function ExcludedTime(w: Range, maintenance: seq<Maintenance>): int {
    Count(w.start, w.end, Excluded(maintenance))
  }

  /** Seconds down and not excluded. */
  ghost function SlaDowntime(w: Range, incidents: seq<Incident>, maintenance: seq<Maintenance>): int {
    Count(w.start, w.end, Outside(Down(incidents), Excluded(maintenance)))
  }

  // ---- Mean time to recovery ----

  function Duration(inc: Incident): Option<int> {
    if inc.durationSec.Some? then inc.durationSec
    else if inc.openedAt.Some? && inc.resolvedAt.Some? && inc.resolvedAt.value.Some?
    then Some(inc.resolvedAt.value.value - inc.openedAt.value)
    else None
  }

  /** The durations of the resolved incidents that have one, in order. */
  function ResolvedDurations(incidents: seq<Incident>): seq<int> {
    if incidents == [] then []
    else
      var inc := incidents[|incidents| - 1];
      var d := Duration(inc);
      ResolvedDurations(incidents[..|incidents| - 1]) + if inc.resolvedAt.Some? && d.Some? then [d.value] else []
  }

  function Sum(xs: seq<int>): int {
    if xs == [] then 0 else Sum(xs[..|xs| - 1]) + xs[|xs| - 1]
  }

  /** Integer division that truncates toward zero. */
  function Truncated(a: int, b: int): (q: int)
    requires b > 0
    ensures if a >= 0 then b * q <= a < b * (q + 1) else b * (q - 1) < a <= b * q
  {
    if a >= 0 then a / b else -((-a) / b)
  }

  function MeanRecovery(incidents: seq<Incident>): Option<int> {
    var ds := ResolvedDurations(incidents);
    if ds == [] then None else Some(Truncated(Sum(ds), |ds|))
  }

  /** Resolved, with a known duration: a stored one, or one between two readable timestamps. */
  ghost predicate Recovered(inc: Incident) {
    && inc.resolvedAt.Some?
    && (inc.durationSec.Some? || (inc.openedAt.Some? && inc.resolvedAt.value.Some?))
  }

  ghost function Took(inc: Incident): int
    requires Recovered(inc)
  {
    if inc.durationSec.Some? then inc.durationSec.value else inc.resolvedAt.value.value - inc.openedAt.value
  }

  ghost function RecoveredAmong(incidents: seq<Incident>): set<nat> {
    set i | 0 <= i < |incidents| && Recovered(incidents[i])
  }

  ghost function TotalTook(incidents: seq<Incident>): int {
    if incidents == [] then 0
    else
      var inc := incidents[|incidents| - 1];
      TotalTook(incidents[..|incidents| - 1]) + if Recovered(inc) then Took(inc) else 0
  }

  /** The mean of the recovered incidents' durations, truncated toward zero, if there are any. */
  ghost predicate IsMeanRecovery(mean: Option<int>, incidents: seq<Incident>) {
    var (n, total) := (|RecoveredAmong(incidents)|, TotalTook(incidents));
    if n == 0 then mean.None?
    else
      && mean.Some?
      && if total >= 0 then n * mean.value <= total < n * (mean.value + 1)
         else n * (mean.value - 1) < total <= n * mean.value
  }

  lemma DurationsSnoc(incidents: seq<Incident>, inc: Incident)
    ensures ResolvedDurations(incidents + [inc])
         == ResolvedDurations(incidents) + if Recovered(inc) then [Took(inc)] else []
  {
    assert (incidents + [inc])[..|incidents|] == incidents;
  }

  lemma SumSnoc(xs: seq<int>, x: int)
    ensures Sum(xs + [x]) == Sum(xs) + x
  {
    assert (xs + [x])[..|xs|] == xs;
  }

  lemma {:induction false} DurationsAreRecoveries(incidents: seq<Incident>)
    ensures |ResolvedDurations(incidents)| == |RecoveredAmong(incidents)|
    ensures Sum(ResolvedDurations(incidents)) == TotalTook(incidents)
  {
    if incidents == [] {
    } else {
      var (n, last) := (|incidents| - 1, incidents[|incidents| - 1]);
      var before := RecoveredAmong(incidents[..n]);
      assert RecoveredAmong(incidents) == if Recovered(last) then before + {n} else before;
      assert incidents == incidents[..n] + [last];
      DurationsAreRecoveries(incidents[..n]);
      DurationsSnoc(incidents[..n], last);
      hide ResolvedDurations, Sum, Recovered, Took, RecoveredAmong;
      if Recovered(last) {
        SumSnoc(ResolvedDurations(incidents[..n]), Took(last));
      } else {
        assert ResolvedDurations(incidents[..n]) + [] == ResolvedDurations(incidents[..n]);
      }
    }
  }

  lemma MeanIsMean(incidents: seq<Incident>)
    ensures IsMeanRecovery(MeanRecovery(incidents), incidents)
  {
    DurationsAreRecoveries(incidents);
  }

  lemma {:induction false} DurationsConcat(a: seq<Incident>, b: seq<Incident>)
    ensures ResolvedDurations(a + b) == ResolvedDurations(a) + ResolvedDurations(b)
  {
    if b == [] {
      assert a + b == a;
    } else {
      DurationsConcat(a, b[..|b| - 1]);
      assert (a + b)[..|a + b| - 1] == a + b[..|b| - 1];
    }
  }

  /** An incident that is still open, anywhere in the list, does not change the mean. */
  lemma OpenIncidentChangesNothing(a: seq<Incident>, open: Incident, b: seq<Incident>)
    requires open.resolvedAt.None?
    ensures MeanRecovery(a + [open] + b) == MeanRecovery(a + b)
  {
    hide ResolvedDurations, Sum, Truncated;
    DurationsConcat(a + [open], b);
    DurationsConcat(a, [open]);
    DurationsConcat(a, b);
    NoDuration(open);
    assert ResolvedDurations(a) + [] == ResolvedDurations(a);
  }

  lemma NoDuration(open: Incident)
    requires open.resolvedAt.None?
    ensures ResolvedDurations([open]) == []
  {
    assert [open][..0] == [];
  }

  // ---- The calculator ----

  function Clamp(x: real): real { if x < 0.0 then 0.0 else if x > 1.0 then 1.0 else x }

  /** The report a second-by-second count would give; no clamping anywhere. */
  ghost function Counted(w: Range, incidents: seq<Incident>, maintenance: seq<Maintenance>): Report {
    var (d, e, s) := (Downtime(w, incidents), ExcludedTime(w, maintenance), SlaDowntime(w, incidents, maintenance));
    var total := w.Len();
    Report(
      total, d, e,
      if total == 0 then 1.0 else (total - d) as real / total as real,
      if total == 0 then Some(1.0)
      else if total == e then None
      else Some((total - e - s) as real / (total - e) as real),
      |incidents|, MeanRecovery(incidents))
  }

  /** Downtime splits into SLA downtime and downtime inside exclusions, SLA downtime fits in what
      is not excluded, and the exclusions fill the window exactly when every second is excluded. */
  lemma Conservation(w: Range, incidents: seq<Incident>, maintenance: seq<Maintenance>)
    requires w.start <= w.end
    ensures Downtime(w, incidents) == SlaDowntime(w, incidents, maintenance)
            + Count(w.start, w.end, Both(Down(incidents), Excluded(maintenance)))
    ensures 0 <= SlaDowntime(w, incidents, maintenance) <= w.Len() - ExcludedTime(w, maintenance)
    ensures Downtime(w, incidents) <= w.Len()
    ensures ExcludedTime(w, maintenance) == w.Len() <==> forall x :: w.In(x) ==> Excluded(maintenance)(x)
  {
    CountCases(w.start, w.end, Down(incidents), Excluded(maintenance));
    CountWithin(w.start, w.end, Excluded(maintenance));
    CountWithin(w.start, w.end, Down(incidents));
    CountApart(w.start, w.end, Down(incidents), Excluded(maintenance));
  }

  lemma {:induction false} CountApart(lo: int, hi: int, p: int -> bool, q: int -> bool)
    requires lo <= hi
    ensures Count(lo, hi, Outside(p, q)) + Count(lo, hi, q) <= hi - lo
    decreases hi - lo
  {
    if hi <= lo {
    } else {
      CountApart(lo, hi - 1, p, q);
    }
  }

  lemma MeasuredIsCounted(w: Range, raw: seq<Range>, rs: seq<Range>, p: int -> bool)
    requires ClippedTo(raw, w, p) && Separated(rs) && forall x :: Covers(rs, x) <==> Covers(raw, x)
    ensures TotalSeconds(rs) == Count(w.start, w.end, p)
  {
    if w.start <= w.end {
      forall i | 0 <= i < |rs| ensures w.start <= rs[i].start && rs[i].end <= w.end {
        assert rs[i].In(rs[i].start) && rs[i].In(rs[i].end - 1);
        assert Covers(rs, rs[i].start) && Covers(rs, rs[i].end - 1);
      }
      TotalIsCount(rs, w.start, w.end);
      CountSame(w.start, w.end, CoveredBy(rs), p);
    } else {
      if rs != [] {
        assert rs[0].In(rs[0].start);
        assert Covers(rs, rs[0].start);
      }
    }
  }

  /** The ratio is already between zero and one. */
  lemma RatioInRange(part: int, whole: int)
    requires 0 <= part <= whole && whole > 0
    ensures Clamp(part as real / whole as real) == part as real / whole as real
    ensures 0.0 <= part as real / whole as real <= 1.0
  {
    assert part as real / whole as real * whole as real == part as real;
  }

  /** The seconds of the window that satisfy `p`. */
  ghost function SecondsIn(w: Range, p: int -> bool): set<int> {
    set x | w.start <= x < w.end && p(x)
  }

  /** `part` of `whole` is the ratio. */
  ghost predicate IsRatio(ratio: real, part: int, whole: int) {
    ratio * whole as real == part as real
  }

  /** Every figure of the report in terms of sets of seconds and of the incidents themselves. */
  ghost predicate CountsSeconds(r: Report, w: Range, incidents: seq<Incident>, maintenance: seq<Maintenance>) {
    var (d, e) := (|SecondsIn(w, Down(incidents))|, |SecondsIn(w, Excluded(maintenance))|);
    var lost := |SecondsIn(w, Outside(Down(incidents), Excluded(maintenance)))|;
    var total := if w.start < w.end then w.end - w.start else 0;
    && r.windowSeconds == total && r.downtimeSeconds == d && r.excludedSeconds == e
    && (if total == 0 then r.grossUptimeRatio == 1.0 else IsRatio(r.grossUptimeRatio, total - d, total))
    && (if total == 0 then r.slaUptimeRatio == Some(1.0)
        else if total == e then r.slaUptimeRatio == None
        else r.slaUptimeRatio.Some? && IsRatio(r.slaUptimeRatio.value, total - e - lost, total - e))
    && r.incidentCount == |incidents| && IsMeanRecovery(r.mttrSeconds, incidents)
  }

  lemma CountedCountsSeconds(w: Range, incidents: seq<Incident>, maintenance: seq<Maintenance>)
    ensures CountsSeconds(Counted(w, incidents, maintenance), w, incidents, maintenance)
  {
    hide MeanRecovery, IsMeanRecovery, IsRatio, Down, Excluded, Outside;
    MeanIsMean(incidents);
    CountIsSize(w, Down(incidents));
    CountIsSize(w, Excluded(maintenance));
    CountIsSize(w, Outside(Down(incidents), Excluded(maintenance)));
    RatioTimes(w.Len() - Downtime(w, incidents), w.Len());
    RatioTimes(w.Len() - ExcludedTime(w, maintenance) - SlaDowntime(w, incidents, maintenance),
               w.Len() - ExcludedTime(w, maintenance));
    hide SecondsIn, Count;
  }

  lemma CountIsSize(w: Range, p: int -> bool)
    ensures Count(w.start, w.end, p) == |SecondsIn(w, p)|
  {
    CountIsCardinality(w.start, w.end, p);
  }

  lemma RatioTimes(part: int, whole: int)
    ensures whole != 0 ==> IsRatio(part as real / whole as real, part, whole)
  {
  }

  /** `compute_sla`. */
  method ComputeSla(window: Range, incidents: seq<Incident>, maintenance: seq<Maintenance>) returns (r: Report)
    ensures r == Counted(window, incidents, maintenance)
    ensures CountsSeconds(r, window, incidents, maintenance)
    ensures 0.0 <= r.grossUptimeRatio <= 1.0
    ensures r.slaUptimeRatio.Some? ==> 0.0 <= r.slaUptimeRatio.value <= 1.0
    ensures window.start < window.end ==>
              (r.slaUptimeRatio.None? <==> forall x :: window.In(x) ==> Excluded(maintenance)(x))
  {
    hide CountsSeconds;
    var windowSeconds := window.Len();
    IncidentRangesClip(incidents, window);
    MaintenanceRangesClip(maintenance, window);
    var incidentSet := Union(IncidentRanges(incidents, window));
    var maintenanceSet := Union(MaintenanceRanges(maintenance, window));
    var remaining := Subtract(incidentSet, maintenanceSet);

    var downtimeSeconds := TotalSeconds(incidentSet);
    var slaDowntimeSeconds := TotalSeconds(remaining);
    var excludedSeconds := TotalSeconds(maintenanceSet);
    MeasuredIsCounted(window, IncidentRanges(incidents, window), incidentSet, Down(incidents));
    MeasuredIsCounted(window, MaintenanceRanges(maintenance, window), maintenanceSet, Excluded(maintenance));
    RemainingIsCounted(window, incidents, maintenance, remaining);
    BoundedFigures(window, incidents, maintenance);
    CountedCountsSeconds(window, incidents, maintenance);

    var gross := 1.0;
    if windowSeconds > 0 {
      RatioInRange(windowSeconds - downtimeSeconds, windowSeconds);
      gross := Clamp((windowSeconds - downtimeSeconds) as real / windowSeconds as real);
    }
    var effective := if windowSeconds - excludedSeconds > 0 then windowSeconds - excludedSeconds else 0;
    var sla := None;
    if windowSeconds == 0 {
      sla := Some(1.0);
    } else if effective > 0 {
      RatioInRange(effective - slaDowntimeSeconds, effective);
      sla := Some(Clamp((effective - slaDowntimeSeconds) as real / effective as real));
    }
    r := Report(windowSeconds, downtimeSeconds, excludedSeconds, gross, sla, |incidents|, MeanRecovery(incidents));
  }

  lemma RemainingIsCounted(w: Range, incidents: seq<Incident>, maintenance: seq<Maintenance>, remaining: seq<Range>)
    requires Separated(remaining)
    requires forall x :: Covers(remaining, x) <==> w.In(x) && Down(incidents)(x) && !Excluded(maintenance)(x)
    ensures TotalSeconds(remaining) == SlaDowntime(w, incidents, maintenance)
  {
    var p := Outside(Down(incidents), Excluded(maintenance));
    forall i | 0 <= i < |remaining| ensures w.start <= remaining[i].start && remaining[i].end <= w.end {
      assert remaining[i].In(remaining[i].start) && remaining[i].In(remaining[i].end - 1);
      assert Covers(remaining, remaining[i].start) && Covers(remaining, remaining[i].end - 1);
    }
    MeasuredIsCounted(w, remaining, remaining, p);
  }

  lemma BoundedFigures(w: Range, incidents: seq<Incident>, maintenance: seq<Maintenance>)
    ensures 0 <= Downtime(w, incidents) <= w.Len()
    ensures 0 <= SlaDowntime(w, incidents, maintenance) <= w.Len() - ExcludedTime(w, maintenance)
    ensures w.start < w.end ==>
              (ExcludedTime(w, maintenance) == w.Len() <==> forall x :: w.In(x) ==> Excluded(maintenance)(x))
  {
    if w.start <= w.end {
      Conservation(w, incidents, maintenance);
    }
  }
}
