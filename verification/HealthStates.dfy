/** The up/down state machine with success and failure thresholds. */
module HealthStates {

  datatype Status = Up | Down | Unknown

  datatype Health = Health(status: Status, successes: int, failures: int)

  datatype Decision = Decision(health: Health, changed: bool)

  const FRESH: Health := Health(Unknown, 0, 0)

  /** `decide_transition`. */
  function Decide(h: Health, successThreshold: int, failureThreshold: int, ok: bool): Decision {
    var (s, f) := if ok then (h.successes + 1, 0) else (0, h.failures + 1);
    var status :=
      if f >= failureThreshold && h.status != Down then Down
      else if (s >= successThreshold && h.status == Down) || (ok && h.status == Unknown) then Up
      else h.status;
    Decision(Health(status, s, f), status != h.status)
  }

  /** The health of a new target after a history of check outcomes. */
  function After(history: seq<bool>, st: int, ft: int): Health {
    if history == [] then FRESH
    else Decide(After(history[..|history| - 1], st, ft), st, ft, history[|history| - 1]).health
  }

  /** The last `n` outcomes before position `i` all equal `v`. */
  ghost predicate RunEnds(history: seq<bool>, i: nat, n: int, v: bool) {
    0 <= n <= i <= |history| && forall k :: i - n <= k < i ==> history[k] == v
  }

  /** The number of `v`s at the end of the history. */
  ghost function Trailing(history: seq<bool>, v: bool): nat {
    if history == [] || history[|history| - 1] != v then 0
    else 1 + Trailing(history[..|history| - 1], v)
  }

  /** An outage completed at `i` that no later recovery has ended. */
  ghost predicate Unrecovered(history: seq<bool>, st: int, ft: int, i: nat) {
    && RunEnds(history, i, ft, false)
    && forall j: nat :: i < j <= |history| ==> !RunEnds(history, j, st, true)
  }

  ghost predicate InOutage(history: seq<bool>, st: int, ft: int) {
    exists i: nat :: Unrecovered(history, st, ft, i)
  }

  ghost predicate Untried(history: seq<bool>, ft: int) {
    |history| < ft && forall k :: 0 <= k < |history| ==> !history[k]
  }

  lemma {:induction false} TrailingIsRun(history: seq<bool>, v: bool)
    ensures RunEnds(history, |history|, Trailing(history, v), v)
    ensures forall n: int :: RunEnds(history, |history|, n, v) ==> n <= Trailing(history, v)
  {
    if history == [] {
    } else {
      var n := |history| - 1;
      var last := history[n];
      if last == v {
        TrailingIsRun(history[..n], v);
        forall m: int | RunEnds(history, |history|, m, v) ensures m <= Trailing(history, v) {
          if m > 0 {
            forall k | n - (m - 1) <= k < n ensures history[..n][k] == v { assert history[k] == v; }
            assert RunEnds(history[..n], n, m - 1, v);
          }
        }
      } else {
        assert forall m: int :: RunEnds(history, |history|, m, v) && m > 0 ==> last == v;
      }
    }
  }

  lemma RunEndsEarlier(history: seq<bool>, i: nat, n: int, v: bool)
    requires history != [] && i < |history|
    ensures RunEnds(history, i, n, v) <==> RunEnds(history[..|history| - 1], i, n, v)
  {
    if RunEnds(history[..|history| - 1], i, n, v) {
      forall k | i - n <= k < i ensures history[k] == v { assert history[..|history| - 1][k] == v; }
    }
  }

  /** One more outcome: an outage is in progress when one was and it has not just ended, or one just completed. */
  lemma OutageStep(history: seq<bool>, st: int, ft: int)
    requires history != [] && st >= 1 && ft >= 1
    ensures var n := |history|;
            InOutage(history, st, ft) <==>
              (InOutage(history[..n - 1], st, ft) && !RunEnds(history, n, st, true)) || RunEnds(history, n, ft, false)
  {
    var n, init := |history|, history[..|history| - 1];
    forall i: nat, m: int, v: bool | i < n ensures RunEnds(history, i, m, v) <==> RunEnds(init, i, m, v) {
      RunEndsEarlier(history, i, m, v);
    }
    if i: nat :| Unrecovered(history, st, ft, i) {
      if i < n {
        forall j: nat | i < j <= |init| ensures !RunEnds(init, j, st, true) { assert !RunEnds(history, j, st, true); }
        assert Unrecovered(init, st, ft, i);
        assert !RunEnds(history, n, st, true);
      }
    }
    if i: nat :| Unrecovered(init, st, ft, i) {
      if !RunEnds(history, n, st, true) {
        forall j: nat | i < j <= n ensures !RunEnds(history, j, st, true) {
          if j < n { assert !RunEnds(init, j, st, true); }
        }
        assert Unrecovered(history, st, ft, i);
      }
    }
    if RunEnds(history, n, ft, false) { assert Unrecovered(history, st, ft, n); }
  }

  /** The counters are the trailing runs, the target is down exactly while an outage is unrecovered, and
      unknown exactly until its first success or first outage. */
  ghost predicate FollowsHistory(history: seq<bool>, st: int, ft: int) {
    var h := After(history, st, ft);
    && h.successes == Trailing(history, true) && h.failures == Trailing(history, false)
    && (h.status == Down <==> InOutage(history, st, ft))
    && (h.status == Unknown <==> Untried(history, ft))
  }

  lemma {:induction false} StatusFollowsHistory(history: seq<bool>, st: int, ft: int)
    requires st >= 1 && ft >= 1
    ensures FollowsHistory(history, st, ft)
  {
    if history == [] {
      assert !InOutage(history, st, ft);
    } else {
      var n := |history| - 1;
      StatusFollowsHistory(history[..n], st, ft);
      OutageStep(history, st, ft);
      ThresholdMeansRun(history, st, true);
      ThresholdMeansRun(history, ft, false);
      UntriedStep(history, st, ft);
    }
  }

  lemma ThresholdMeansRun(history: seq<bool>, n: int, v: bool)
    requires n >= 1
    ensures Trailing(history, v) >= n <==> RunEnds(history, |history|, n, v)
  {
    TrailingIsRun(history, v);
  }

  lemma UntriedRun(history: seq<bool>, ft: int)
    requires history != [] && ft >= 1
    requires Untried(history[..|history| - 1], ft) && !history[|history| - 1]
    ensures Trailing(history, false) == |history|
    ensures RunEnds(history, |history|, ft, false) <==> ft <= |history|
  {
    var n := |history| - 1;
    forall k | 0 <= k <= n ensures !history[k] { if k < n { assert !history[..n][k]; } }
    assert RunEnds(history, n + 1, n + 1, false);
    TrailingIsRun(history, false);
  }

  lemma UntriedStep(history: seq<bool>, st: int, ft: int)
    requires history != [] && ft >= 1
    ensures Untried(history, ft) <==>
              Untried(history[..|history| - 1], ft) && !history[|history| - 1] &&
                  !RunEnds(history, |history|, ft, false)
    ensures Untried(history[..|history| - 1], ft) && history[|history| - 1] == false ==>
              Trailing(history, false) == |history|
  {
    hide RunEnds, Trailing;
    var n := |history| - 1;
    if Untried(history[..n], ft) && !history[n] {
      UntriedRun(history, ft);
      forall k | 0 <= k <= n ensures !history[k] { if k < n { assert !history[..n][k]; } }
    }
    if Untried(history, ft) {
      forall k | 0 <= k < n ensures !history[..n][k] { assert !history[k]; }
    }
  }

  // ---- Thresholds below one ----

  function Failures(n: nat): seq<bool> {
    seq(n, i => false)
  }

  /** A new target that only ever fails counts its failures and goes down at the threshold. */
  lemma {:induction false} OnlyFailures(n: nat, st: int, ft: int)
    requires 1 <= ft && n <= ft
    ensures After(Failures(n), st, ft) == Health(if n < ft then Unknown else Down, 0, n)
  {
    if n == 0 {
    } else {
      OnlyFailures(n - 1, st, ft);
      assert Failures(n)[..n - 1] == Failures(n - 1);
    }
  }

  /** With a success threshold below one, the failure after the one that takes the target down brings it up. */
  lemma FailureBringsUp(st: int, ft: int)
    requires st <= 0 && ft >= 1
    ensures !FollowsHistory(Failures(ft + 1), st, ft)
  {
    var history := Failures(ft + 1);
    assert history[..ft] == Failures(ft);
    OnlyFailures(ft, st, ft);
    assert After(history, st, ft).status == Up;
    assert RunEnds(history, ft + 1, ft, false);
    assert Unrecovered(history, st, ft, ft + 1);
  }

  /** With a failure threshold below one, a success takes a new target down, and at zero an untried target
      already counts as being in an outage. */
  lemma SuccessTakesDown(st: int, ft: int)
    requires ft <= 0
    ensures !FollowsHistory(if ft == 0 then [] else [true], st, ft)
  {
    if ft == 0 {
      assert RunEnds([], 0, 0, false) && Unrecovered([], st, ft, 0);
    } else {
      var one := [true];
      assert one[..0] == [] && After(one, st, ft).status == Down;
      assert forall i: nat :: !RunEnds(one, i, ft, false);
    }
  }

  /** Nothing in the decision guards the thresholds: status follows the history on every history exactly when
      both are at least one.  The schema's checks keep them between 1 and 10. */
  lemma HistoryLawHoldsExactly(st: int, ft: int)
    ensures (forall history :: FollowsHistory(history, st, ft)) <==> st >= 1 && ft >= 1
  {
    hide FollowsHistory;
    if st >= 1 && ft >= 1 {
      forall history ensures FollowsHistory(history, st, ft) {
        StatusFollowsHistory(history, st, ft);
      }
    } else if ft <= 0 {
      SuccessTakesDown(st, ft);
    } else {
      FailureBringsUp(st, ft);
    }
  }
}
