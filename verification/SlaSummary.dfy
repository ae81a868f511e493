/** The aggregate report: recovering whole seconds from ratios and averaging them. */
module SlaSummary {
  import opened Wrappers
  import opened SlaRanges
  import opened SlaReport

  /** Round half away from zero. */
  function Round(x: real): int {
    if x >= 0.0 then (x + 0.5).Floor else -((-x + 0.5).Floor)
  }

  function Effective(r: Report): int {
    if r.windowSeconds - r.excludedSeconds > 0 then r.windowSeconds - r.excludedSeconds else 0
  }

  datatype Summary = Summary(
    perTarget: seq<Report>, overallGrossUptimeRatio: real, overallSlaUptimeRatio: Option<real>)

  /** A report whose figures are consistent, with `downtime` seconds of SLA downtime behind its ratio;
      the stored ratio may be off, as long as the error is below half a second of the effective window. */
  ghost predicate Faithful(r: Report, downtime: int) {
    && 0 <= r.excludedSeconds <= r.windowSeconds && 0 <= r.downtimeSeconds <= r.windowSeconds
    && 0 <= downtime <= Effective(r)
    && (r.slaUptimeRatio.None? ==> Effective(r) == 0)
    && (r.slaUptimeRatio.Some? ==>
          -0.5 < (1.0 - r.slaUptimeRatio.value) * Effective(r) as real - downtime as real < 0.5)
  }

  lemma ExactRatio(n: int, s: int)
    requires n > 0
    ensures (1.0 - (n - s) as real / n as real) * n as real == s as real
  {
    assert (n - s) as real / n as real * n as real == (n - s) as real;
  }

  lemma ExactIsFaithful(r: Report, s: int)
    requires 0 <= r.excludedSeconds <= r.windowSeconds && 0 <= r.downtimeSeconds <= r.windowSeconds
    requires 0 <= s <= r.windowSeconds - r.excludedSeconds
    requires var n := r.windowSeconds - r.excludedSeconds;
             r.slaUptimeRatio == if r.windowSeconds == 0 then Some(1.0)
               else if n == 0 then None else Some((n - s) as real / n as real)
    ensures Faithful(r, s)
  {
    var n := r.windowSeconds - r.excludedSeconds;
    if n > 0 {
      ExactRatio(n, s);
      assert (1.0 - r.slaUptimeRatio.value) * Effective(r) as real == s as real;
    }
  }

  /** What `compute_sla` returns is faithful with no error at all. */
  lemma ComputedIsFaithful(w: Range, incidents: seq<Incident>, maintenance: seq<Maintenance>)
    requires w.start <= w.end
    ensures Faithful(Counted(w, incidents, maintenance), SlaDowntime(w, incidents, maintenance))
  {
    hide Faithful;
    Conservation(w, incidents, maintenance);
    CountWithin(w.start, w.end, Excluded(maintenance));
    ExactIsFaithful(Counted(w, incidents, maintenance), SlaDowntime(w, incidents, maintenance));
  }

  /** Whole seconds of downtime told from an uptime ratio and its denominator. */
  function SecondsLost(ratio: real, effective: int): int {
    Round((1.0 - ratio) * effective as real)
  }

  function RecoveredDowntime(r: Report): int {
    if r.slaUptimeRatio.None? then 0 else SecondsLost(r.slaUptimeRatio.value, Effective(r))
  }

  function Uptime(up: int, n: int): real
    requires n > 0
  {
    Clamp(up as real / n as real)
  }

  /** The ratio carries enough information to give back the whole number of seconds. */
  lemma DowntimeRecovered(r: Report, downtime: int)
    requires Faithful(r, downtime)
    ensures RecoveredDowntime(r) == downtime
  {
    if r.slaUptimeRatio.Some? {
    }
  }

  ghost function SumOf(rs: seq<Report>, f: Report -> int): int {
    if rs == [] then 0 else SumOf(rs[..|rs| - 1], f) + f(rs[|rs| - 1])
  }

  function WindowOf(r: Report): int { r.windowSeconds }
  function DowntimeOf(r: Report): int { r.downtimeSeconds }
  function ExcludedOf(r: Report): int { r.excludedSeconds }

  ghost predicate AllFaithful(rs: seq<Report>, downtimes: seq<int>) {
    |rs| == |downtimes| && forall i :: 0 <= i < |rs| ==> Faithful(rs[i], downtimes[i])
  }

  lemma {:induction false} TotalsConsistent(rs: seq<Report>, downtimes: seq<int>)
    requires AllFaithful(rs, downtimes)
    ensures 0 <= Sum(downtimes) <= SumOf(rs, Effective) <= SumOf(rs, WindowOf)
    ensures 0 <= SumOf(rs, DowntimeOf) <= SumOf(rs, WindowOf)
    ensures SumOf(rs, ExcludedOf) + SumOf(rs, Effective) == SumOf(rs, WindowOf)
    ensures SumOf(rs, RecoveredDowntime) == Sum(downtimes)
  {
    if rs == [] {
    } else {
      var n := |rs| - 1;
      TotalsConsistent(rs[..n], downtimes[..n]);
      assert Faithful(rs[n], downtimes[n]);
      DowntimeRecovered(rs[n], downtimes[n]);
    }
  }

  /** The summary in terms of the four totals the loop keeps. */
  ghost function Aggregated(rs: seq<Report>): Summary {
    var (w, d) := (SumOf(rs, WindowOf), SumOf(rs, DowntimeOf));
    var (e, s) := (SumOf(rs, ExcludedOf), SumOf(rs, RecoveredDowntime));
    var effective := if w - e > 0 then w - e else 0;
    Summary(
      rs,
      if w > 0 then Uptime(w - d, w) else 1.0,
      if w == 0 then Some(1.0)
      else if effective > 0 then Some(Uptime(effective - s, effective))
      else None)
  }

  lemma SumSnoc(rs: seq<Report>, k: nat, f: Report -> int)
    requires k < |rs|
    ensures SumOf(rs[..k + 1], f) == SumOf(rs[..k], f) + f(rs[k])
  {
    assert rs[..k + 1][..k] == rs[..k];
  }

  /** `aggregate_sla`, over the reports of the visible targets. */
  method AggregateSla(reports: seq<Report>) returns (summary: Summary)
    ensures summary == Aggregated(reports)
  {
    var totalWindow, totalDowntime, totalExcluded, totalSlaDowntime := 0, 0, 0, 0;
    var perTarget := [];
    assert forall f :: SumOf([], f) == 0;
    hide SumOf, SecondsLost, Uptime, Effective;
    assert reports[..0] == [];
    for k := 0 to |reports|
      invariant perTarget == reports[..k]
      invariant totalWindow == SumOf(reports[..k], WindowOf)
      invariant totalDowntime == SumOf(reports[..k], DowntimeOf)
      invariant totalExcluded == SumOf(reports[..k], ExcludedOf)
      invariant totalSlaDowntime == SumOf(reports[..k], RecoveredDowntime)
    {
      var report := reports[k];
      SumSnoc(reports, k, WindowOf);
      SumSnoc(reports, k, DowntimeOf);
      SumSnoc(reports, k, ExcludedOf);
      SumSnoc(reports, k, RecoveredDowntime);
      totalWindow := totalWindow + report.windowSeconds;
      totalDowntime := totalDowntime + report.downtimeSeconds;
      totalExcluded := totalExcluded + report.excludedSeconds;
      if report.slaUptimeRatio.Some? {
        var effective := Effective(report);
        totalSlaDowntime := totalSlaDowntime + SecondsLost(report.slaUptimeRatio.value, effective);
      }
      perTarget := perTarget + [report];
    }
    assert reports[..|reports|] == reports;
    var gross := if totalWindow > 0 then Uptime(totalWindow - totalDowntime, totalWindow) else 1.0;
    var effective := if totalWindow - totalExcluded > 0 then totalWindow - totalExcluded else 0;
    var sla :=
      if totalWindow == 0 then Some(1.0)
      else if effective > 0 then Some(Uptime(effective - totalSlaDowntime, effective))
      else None;
    summary := Summary(perTarget, gross, sla);
  }

  /** The uptime of one report, from whole seconds. */
  ghost function ExactUptime(r: Report, downtime: int): real
    requires Effective(r) > 0
  {
    (Effective(r) - downtime) as real / Effective(r) as real
  }

  /** From inexact ratios the summary still computes the exact mean, weighted by effective window. */
  lemma OverallIsExactMean(rs: seq<Report>, downtimes: seq<int>)
    requires AllFaithful(rs, downtimes)
    ensures var (summary, n) := (Aggregated(rs), SumOf(rs, Effective));
            summary.overallSlaUptimeRatio ==
              if SumOf(rs, WindowOf) == 0 then Some(1.0)
              else if n > 0 then Some((n - Sum(downtimes)) as real / n as real)
              else None
  {
    TotalsConsistent(rs, downtimes);
    var n := SumOf(rs, Effective);
    if n > 0 { RatioInRange(n - Sum(downtimes), n); }
  }

  /** The gross ratio is the seconds not down of all windows over the seconds of all windows, and the reports
      themselves are passed on. */
  lemma OverallGrossIsMean(rs: seq<Report>, downtimes: seq<int>)
    requires AllFaithful(rs, downtimes)
    ensures var (w, d) := (SumOf(rs, (r: Report) => r.windowSeconds), SumOf(rs, (r: Report) => r.downtimeSeconds));
            && Aggregated(rs).perTarget == rs
            && Aggregated(rs).overallGrossUptimeRatio == if w == 0 then 1.0 else (w - d) as real / w as real
  {
    TotalsConsistent(rs, downtimes);
    SumSame(rs, (r: Report) => r.windowSeconds, WindowOf);
    SumSame(rs, (r: Report) => r.downtimeSeconds, DowntimeOf);
    var w := SumOf(rs, WindowOf);
    if w > 0 { RatioInRange(w - SumOf(rs, DowntimeOf), w); }
  }

  /** The SLA ratio leaves the excluded seconds of every window out. */
  lemma OverallEffectiveIsRest(rs: seq<Report>, downtimes: seq<int>)
    requires AllFaithful(rs, downtimes)
    ensures SumOf(rs, Effective) == SumOf(rs, (r: Report) => r.windowSeconds - r.excludedSeconds)
  {
    forall i | 0 <= i < |rs| ensures Effective(rs[i]) == rs[i].windowSeconds - rs[i].excludedSeconds {
      assert Faithful(rs[i], downtimes[i]);
    }
    SumSame(rs, Effective, (r: Report) => r.windowSeconds - r.excludedSeconds);
  }

  lemma {:induction false} SumSame(rs: seq<Report>, f: Report -> int, g: Report -> int)
    requires forall i :: 0 <= i < |rs| ==> f(rs[i]) == g(rs[i])
    ensures SumOf(rs, f) == SumOf(rs, g)
  {
    if rs == [] {
    } else {
      SumSame(rs[..|rs| - 1], f, g);
    }
  }

  /** Rounding goes to the nearest whole number, and away from zero between two. */
  lemma RoundIsNearest(x: real)
    ensures -0.5 <= Round(x) as real - x <= 0.5
    ensures Round(x) as real - x == 0.5 ==> x >= 0.0
    ensures Round(x) as real - x == -0.5 ==> x <= 0.0
  {
  }

  /** `v` seconds up out of `n` is a ratio between `lo` and `hi`. */
  ghost predicate Between(lo: real, hi: real, n: int, v: int) {
    lo * n as real <= v as real <= hi * n as real
  }

  /** Adding one target to the running totals keeps the bounds. */
  lemma BetweenAdds(lo: real, hi: real, m: int, u: int, n: int, v: int)
    requires Between(lo, hi, m, u) && Between(lo, hi, n, v)
    ensures Between(lo, hi, m + n, u + v)
  {
    assert lo * (m + n) as real == lo * m as real + lo * n as real;
    assert hi * (m + n) as real == hi * m as real + hi * n as real;
  }

  lemma BetweenMeansRatio(lo: real, hi: real, n: int, v: int)
    requires n > 0
    ensures Between(lo, hi, n, v) <==> lo <= v as real / n as real <= hi
  {
    var q := v as real / n as real;
    assert q * n as real == v as real;
    SameSign(q - lo, n as real);
    SameSign(hi - q, n as real);
  }

  lemma SameSign(d: real, n: real)
    requires n > 0.0
    ensures d * n >= 0.0 <==> d >= 0.0
  {
  }

  /** Total uptime seconds are bounded by any bounds on the per-target ratios. */
  lemma {:induction false} UptimeBounded(rs: seq<Report>, downtimes: seq<int>, lo: real, hi: real)
    requires AllFaithful(rs, downtimes)
    requires forall i :: 0 <= i < |rs| && Effective(rs[i]) > 0 ==> lo <= ExactUptime(rs[i], downtimes[i]) <= hi
    ensures Between(lo, hi, SumOf(rs, Effective), SumOf(rs, Effective) - Sum(downtimes))
  {
    if rs == [] {
    } else {
      var k := |rs| - 1;
      UptimeBounded(rs[..k], downtimes[..k], lo, hi);
      var (m, n) := (SumOf(rs[..k], Effective), Effective(rs[k]));
      assert Faithful(rs[k], downtimes[k]);
      assert Between(lo, hi, n, n - downtimes[k]) by {
        if n > 0 { BetweenMeansRatio(lo, hi, n, n - downtimes[k]); }
      }
      hide Between, Faithful, ExactUptime;
      BetweenAdds(lo, hi, m, m - Sum(downtimes[..k]), n, n - downtimes[k]);
    }
  }

  /** The overall ratio lies between the smallest and the largest defined per-target ratio. */
  lemma OverallBetweenExtremes(rs: seq<Report>, downtimes: seq<int>, lo: real, hi: real)
    requires AllFaithful(rs, downtimes) && SumOf(rs, Effective) > 0
    requires forall i :: 0 <= i < |rs| && Effective(rs[i]) > 0 ==> lo <= ExactUptime(rs[i], downtimes[i]) <= hi
    ensures var overall := Aggregated(rs).overallSlaUptimeRatio; overall.Some? && lo <= overall.value <= hi
  {
    hide Aggregated, Between, ExactUptime, Faithful;
    OverallIsExactMean(rs, downtimes);
    TotalsConsistent(rs, downtimes);
    UptimeBounded(rs, downtimes, lo, hi);
    var n := SumOf(rs, Effective);
    BetweenMeansRatio(lo, hi, n, n - Sum(downtimes));
  }
}
