/** Following a partial successor function until it ends or repeats. */
module Orbits {
  import opened Wrappers
  import opened Ordering

  type Step = nat -> Option<nat>

  predicate Below(p: Option<nat>, n: nat) { p.Some? ==> p.value < n }

  ghost predicate Bounded(step: Step, n: nat) {
    forall i: nat :: Below(step(i), n)
  }

  ghost function UpTo(n: nat): (s: set<nat>)
    ensures forall i :: i in s <==> 0 <= i < n
  {
    if n == 0 then {} else UpTo(n - 1) + {n - 1}
  }

  /** The k-th element met when starting at `p`. */
  ghost function Hop(step: Step, p: Option<nat>, k: nat): Option<nat>
    decreases k
  {
    if k == 0 || p.None? then p else Hop(step, step(p.value), k - 1)
  }

  /** The elements met before the orbit ends or meets one of `reached` again. */
  datatype Trail = Trail(path: seq<nat>, cycleAt: Option<nat>)

  ghost function Trace(step: Step, n: nat, reached: set<nat>, p: Option<nat>): Trail
    requires Bounded(step, n) && Below(p, n)
    decreases UpTo(n) - reached
  {
    if p.None? then Trail([], None)
    else if p.value in reached then Trail([], p)
    else
      assert p.value in UpTo(n);
      var t := Trace(step, n, reached + {p.value}, step(p.value));
      Trail([p.value] + t.path, t.cycleAt)
  }

  lemma {:induction false} HopNext(step: Step, p: Option<nat>, k: nat)
    ensures var q := Hop(step, p, k);
            Hop(step, p, k + 1) == if q.None? then None else step(q.value)
    decreases k
  {
    if k == 0 || p.None? {
    } else {
      HopNext(step, step(p.value), k - 1);
    }
  }

  ghost predicate IsPrefix(step: Step, reached: set<nat>, p: Option<nat>, path: seq<nat>) {
    && NoRepeats(path)
    && forall k :: 0 <= k < |path| ==> Hop(step, p, k) == Some(path[k]) && path[k] !in reached
  }

  lemma {:induction false} TraceIsPrefix(step: Step, n: nat, reached: set<nat>, p: Option<nat>)
    requires Bounded(step, n) && Below(p, n)
    ensures var t := Trace(step, n, reached, p);
            && IsPrefix(step, reached, p, t.path)
            && Hop(step, p, |t.path|) == t.cycleAt
            && (t.cycleAt.Some? ==> t.cycleAt.value in reached || t.cycleAt.value in t.path)
    decreases UpTo(n) - reached
  {
    if p.None? || p.value in reached {
    } else {
      assert p.value in UpTo(n);
      TraceIsPrefix(step, n, reached + {p.value}, step(p.value));
      var q := Trace(step, n, reached + {p.value}, step(p.value)).path;
      var t := Trace(step, n, reached, p);
      assert t.path == [p.value] + q;
      forall k | 0 <= k < |t.path| ensures Hop(step, p, k) == Some(t.path[k]) && t.path[k] !in reached {
        if k > 0 { assert t.path[k] == q[k - 1]; }
      }
      assert NoRepeats(t.path);
    }
  }

  lemma {:induction false} HopStaysOnTrace(step: Step, n: nat, p: Option<nat>, k: nat)
    requires Bounded(step, n) && Below(p, n)
    ensures var t := Trace(step, n, {}, p);
            if t.cycleAt.Some?
            then Hop(step, p, k).Some? && Hop(step, p, k).value in t.path
            else k >= |t.path| ==> Hop(step, p, k).None?
  {
    TraceIsPrefix(step, n, {}, p);
    var t := Trace(step, n, {}, p);
    if k <= |t.path| {
    } else {
      HopStaysOnTrace(step, n, p, k - 1);
      HopNext(step, p, k - 1);
      if t.cycleAt.Some? {
        var j :| 0 <= j < |t.path| && t.path[j] == Hop(step, p, k - 1).value;
        HopNext(step, p, j);
        if j + 1 < |t.path| { assert Hop(step, p, j + 1) == Some(t.path[j + 1]); }
      }
    }
  }

  ghost predicate OnOrbit(step: Step, p: Option<nat>, i: nat) {
    exists k: nat :: Hop(step, p, k) == Some(i)
  }

  /** Tracing visits each element of the orbit exactly once, and reports a cycle exactly
      when the orbit never ends, naming the first element met twice. */
  lemma TraceVisitsOrbit(step: Step, n: nat, p: Option<nat>)
    requires Bounded(step, n) && Below(p, n)
    ensures var t := Trace(step, n, {}, p);
            && NoRepeats(t.path)
            && (forall k :: 0 <= k < |t.path| ==> Hop(step, p, k) == Some(t.path[k]))
            && (forall i: nat :: i in t.path <==> OnOrbit(step, p, i))
            && (t.cycleAt.Some? <==> forall k: nat :: Hop(step, p, k).Some?)
            && (t.cycleAt.Some? ==> t.cycleAt.value in t.path && t.cycleAt == Hop(step, p, |t.path|))
  {
    TraceIsPrefix(step, n, {}, p);
    var t := Trace(step, n, {}, p);
    forall i: nat ensures i in t.path <==> OnOrbit(step, p, i) {
      if i in t.path {
        var k :| 0 <= k < |t.path| && t.path[k] == i;
        assert Hop(step, p, k) == Some(i);
      }
      if OnOrbit(step, p, i) {
        var k: nat :| Hop(step, p, k) == Some(i);
        HopStaysOnTrace(step, n, p, k);
        if k < |t.path| { assert t.path[k] == i; }
      }
    }
    forall k: nat ensures t.cycleAt.Some? ==> Hop(step, p, k).Some? {
      HopStaysOnTrace(step, n, p, k);
    }
  }

  /** Two orbits that run in parallel have parallel traces. */
  lemma {:induction false} TraceParallel(
    step: Step, step': Step, n: nat, reached: set<nat>, reached': set<nat>,
    p: Option<nat>, p': Option<nat>, to: nat -> nat)
    requires Bounded(step, n) && Below(p, n) && Bounded(step', n) && Below(p', n)
    requires forall i: nat, j: nat :: i < n && j < n && to(i) == to(j) ==> i == j
    requires Image(p, to) == p'
    requires forall i: nat :: i < n ==> Image(step(i), to) == step'(to(i))
    requires forall i: nat :: i < n ==> (i in reached <==> to(i) in reached')
    ensures var t, t' := Trace(step, n, reached, p), Trace(step', n, reached', p');
            && |t.path| == |t'.path|
            && (forall k :: 0 <= k < |t.path| ==> to(t.path[k]) == t'.path[k])
            && Image(t.cycleAt, to) == t'.cycleAt
    decreases UpTo(n) - reached
  {
    if p.None? || p.value in reached {
    } else {
      assert p.value in UpTo(n) && p'.value in UpTo(n);
      TraceParallel(step, step', n, reached + {p.value}, reached' + {p'.value},
                    step(p.value), step'(p'.value), to);
    }
  }

  ghost function Image(p: Option<nat>, to: nat -> nat): Option<nat> {
    if p.None? then None else Some(to(p.value))
  }

  lemma {:induction false} TraceInBounds(step: Step, n: nat, reached: set<nat>, p: Option<nat>)
    requires Bounded(step, n) && Below(p, n)
    ensures var t := Trace(step, n, reached, p);
            (forall k :: 0 <= k < |t.path| ==> t.path[k] < n) && Below(t.cycleAt, n)
    decreases UpTo(n) - reached
  {
    if p.None? || p.value in reached {
    } else {
      assert p.value in UpTo(n);
      TraceInBounds(step, n, reached + {p.value}, step(p.value));
    }
  }

  /** `whole` is the trace that first walks `path` and then goes on from `p`. */
  ghost predicate Continues(step: Step, n: nat, whole: Trail, path: seq<nat>, p: Option<nat>) {
    && Bounded(step, n) && Below(p, n)
    && var rest := Trace(step, n, Elements(path), p);
       whole == Trail(path + rest.path, rest.cycleAt)
  }

  lemma ContinuesStep(step: Step, n: nat, whole: Trail, path: seq<nat>, p: Option<nat>)
    requires Continues(step, n, whole, path, p) && p.Some? && p.value !in path
    ensures Continues(step, n, whole, path + [p.value], step(p.value))
    ensures Elements(path + [p.value]) == Elements(path) + {p.value} && p.value in UpTo(n)
  {
    assert Elements(path + [p.value]) == Elements(path) + {p.value};
    var rest := Trace(step, n, Elements(path) + {p.value}, step(p.value));
    assert path + ([p.value] + rest.path) == (path + [p.value]) + rest.path;
  }

  lemma ContinuesStarts(step: Step, n: nat, p: Option<nat>)
    requires Bounded(step, n) && Below(p, n)
    ensures Continues(step, n, Trace(step, n, {}, p), [], p)
  {
    var rest := Trace(step, n, {}, p);
    assert Elements<nat>([]) == {};
    assert [] + rest.path == rest.path;
  }

  /** If every step climbs a bounded rank, the orbit ends. */
  lemma ClimbingOrbitEnds(step: Step, n: nat, p: Option<nat>, rank: nat -> nat, bound: nat)
    requires Bounded(step, n) && Below(p, n)
    requires forall i: nat :: i < n ==> rank(i) < bound
    requires forall i: nat :: i < n && step(i).Some? ==> rank(i) < rank(step(i).value)
    ensures Trace(step, n, {}, p).cycleAt.None?
  {
    TraceVisitsOrbit(step, n, p);
    HopClimbs(step, n, p, rank, bound);
  }

  lemma {:induction false} HopClimbs(step: Step, n: nat, p: Option<nat>, rank: nat -> nat, k: nat)
    requires Bounded(step, n) && Below(p, n)
    requires forall i: nat :: i < n && step(i).Some? ==> rank(i) < rank(step(i).value)
    ensures var q := Hop(step, p, k); Below(q, n) && (q.Some? ==> rank(q.value) >= k)
  {
    if k == 0 {
    } else {
      HopClimbs(step, n, p, rank, k - 1);
      HopNext(step, p, k - 1);
    }
  }

  /** `path` starts at `p`, follows the steps and then ends. */
  ghost predicate Threads(step: Step, p: Option<nat>, path: seq<nat>) {
    && NoRepeats(path)
    && p == At(path, 0)
    && forall k: nat :: k < |path| ==> step(path[k]) == At(path, k + 1)
  }

  ghost function At(path: seq<nat>, k: nat): Option<nat> {
    if k < |path| then Some(path[k]) else None
  }

  /** Such a path is the whole trace. */
  lemma PathIsTrace(step: Step, n: nat, p: Option<nat>, path: seq<nat>)
    requires Bounded(step, n) && Below(p, n) && Threads(step, p, path)
    ensures Trace(step, n, {}, p) == Trail(path, None)
  {
    TraceIsPrefix(step, n, {}, p);
    var t := Trace(step, n, {}, p);
    forall k: nat | k <= |path| ensures Hop(step, p, k) == At(path, k) {
      HopAlong(step, p, path, k);
    }
    assert Hop(step, p, |path|) == None;
    assert forall k: nat :: k < |t.path| ==> Hop(step, p, k) == Some(t.path[k]);
    assert |t.path| <= |path|;
    assert forall k: nat :: k < |t.path| ==> Some(t.path[k]) == Some(path[k]);
    assert t.path == path[..|t.path|];
    assert Hop(step, p, |t.path|) == At(path, |t.path|) == t.cycleAt;
    assert path[..|path|] == path;
  }

  lemma {:induction false} HopAlong(step: Step, p: Option<nat>, path: seq<nat>, k: nat)
    requires k <= |path| && Threads(step, p, path)
    ensures Hop(step, p, k) == At(path, k)
  {
    if k == 0 {
    } else {
      HopAlong(step, p, path, k - 1);
      HopNext(step, p, k - 1);
    }
  }
}
