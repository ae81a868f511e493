/** Importing rows into a keyed table under a conflict policy, whatever the table. */
module Upserts {
  import opened Wrappers

  datatype Policy = Skip | Replace | Fail

  datatype Outcome = Inserted | Replaced | Skipped

  /** How one kind of row enters its table: its key, the value a new row gets, and what a colliding row becomes. */
  datatype Kind<!K(==), !V, !R> = Kind(key: R -> K, make: R -> V, merge: (V, R) -> V)

  /** Whether the store admits a write, and what a refused write leaves behind. */
  datatype Gate<!K(==), !V, !R> = Gate(
    admits: (map<K, V>, R) -> bool,
    wreck: (map<K, V>, R) -> map<K, V>)

  /** A statement that the schema refuses for the row's own columns writes nothing. */
  function RowGate<K, V, R>(test: R -> bool): Gate<K, V, R> {
    Gate((m: map<K, V>, r: R) => test(r), (m: map<K, V>, r: R) => m)
  }

  /** One row: the table after it, and the outcome unless the write was refused. */
  function Upsert<K, V, R>(
    t: Kind<K, V, R>, g: Gate<K, V, R>, m: map<K, V>, policy: Policy, r: R): (map<K, V>, Option<Outcome>)
  {
    var k := t.key(r);
    if k in m && policy.Skip? then (m, Some(Skipped))
    else if !g.admits(m, r) then (g.wreck(m, r), None)
    else if k in m then (m[k := t.merge(m[k], r)], Some(Replaced))
    else (m[k := t.make(r)], Some(Inserted))
  }

  datatype Progress<K, V> = Progress(table: map<K, V>, inserted: nat, replaced: nat, skipped: nat, failed: bool)

  function Advance<K, V, R>(
    t: Kind<K, V, R>, g: Gate<K, V, R>, p: Progress<K, V>, policy: Policy, r: R): Progress<K, V>
  {
    if p.failed then p
    else
      var (m, outcome) := Upsert(t, g, p.table, policy, r);
      match outcome
      case None => p.(table := m, failed := true)
      case Some(Inserted) => p.(table := m, inserted := p.inserted + 1)
      case Some(Replaced) => p.(table := m, replaced := p.replaced + 1)
      case Some(Skipped) => p.(table := m, skipped := p.skipped + 1)
  }

  /** The rows in order; nothing is written after the first refusal. */
  function Run<K, V, R>(
    t: Kind<K, V, R>, g: Gate<K, V, R>, m: map<K, V>, policy: Policy, rows: seq<R>): Progress<K, V>
  {
    if rows == [] then Progress(m, 0, 0, 0, false)
    else Advance(t, g, Run(t, g, m, policy, rows[..|rows| - 1]), policy, rows[|rows| - 1])
  }

  lemma RunSnoc<K, V, R>(t: Kind<K, V, R>, g: Gate<K, V, R>, m: map<K, V>, policy: Policy, rows: seq<R>, n: nat)
    requires n < |rows|
    ensures Run(t, g, m, policy, rows[..n + 1]) == Advance(t, g, Run(t, g, m, policy, rows[..n]), policy, rows[n])
  {
    assert rows[..n + 1][..n] == rows[..n];
  }

  lemma RunOfOneNew<K, V, R>(t: Kind<K, V, R>, g: Gate<K, V, R>, m: map<K, V>, policy: Policy, r: R)
    requires t.key(r) !in m
    ensures Run(t, g, m, policy, [r])
         == if g.admits(m, r) then Progress(m[t.key(r) := t.make(r)], 1, 0, 0, false)
            else Progress(g.wreck(m, r), 0, 0, 0, true)
  {
    assert [r][..0] == [];
    assert Run(t, g, m, policy, []) == Progress(m, 0, 0, 0, false);
  }

  lemma {:induction false} RunStaysFailed<K, V, R>(
    t: Kind<K, V, R>, g: Gate<K, V, R>, m: map<K, V>, policy: Policy, rows: seq<R>, n: nat)
    requires n <= |rows| && Run(t, g, m, policy, rows[..n]).failed
    ensures Run(t, g, m, policy, rows) == Run(t, g, m, policy, rows[..n])
  {
    if n == |rows| {
      assert rows[..n] == rows;
    } else {
      var init := rows[..|rows| - 1];
      assert init[..n] == rows[..n];
      RunStaysFailed(t, g, m, policy, init, n);
    }
  }

  // ---- What a run leaves behind ----

  ghost predicate DistinctKeys<K, V, R>(t: Kind<K, V, R>, rows: seq<R>) {
    forall i, j :: 0 <= i < j < |rows| ==> t.key(rows[i]) != t.key(rows[j])
  }

  predicate HasKey<K, V, R>(t: Kind<K, V, R>, rows: seq<R>, k: K) {
    exists i :: 0 <= i < |rows| && t.key(rows[i]) == k
  }

  lemma HasKeySnoc<K, V, R>(t: Kind<K, V, R>, rows: seq<R>, k: K)
    requires rows != []
    ensures HasKey(t, rows, k) <==> HasKey(t, rows[..|rows| - 1], k) || t.key(rows[|rows| - 1]) == k
  {
    var n := |rows| - 1;
    assert forall i :: 0 <= i < n ==> rows[..n][i] == rows[i];
    if i :| 0 <= i < |rows| && t.key(rows[i]) == k && i < n {
      assert t.key(rows[..n][i]) == k;
    }
  }

  /** What the table holds for a row of the payload, told from the table before the run alone. */
  function Final<K, V, R>(t: Kind<K, V, R>, m: map<K, V>, policy: Policy, r: R): V {
    var k := t.key(r);
    if k !in m then t.make(r)
    else if policy.Skip? then m[k]
    else t.merge(m[k], r)
  }

  ghost predicate Untouched<K(!new), V(!new), R(!new)>(t: Kind<K, V, R>, m: map<K, V>, rows: seq<R>, after: map<K, V>) {
    forall k :: !HasKey(t, rows, k) ==> (k in after <==> k in m) && (k in m ==> after[k] == m[k])
  }

  ghost predicate Settled<K(!new), V(!new), R(!new)>(
    t: Kind<K, V, R>, m: map<K, V>, policy: Policy, rows: seq<R>, after: map<K, V>)
  {
    && Untouched(t, m, rows, after)
    && forall i :: 0 <= i < |rows| ==>
         t.key(rows[i]) in after && after[t.key(rows[i])] == Final(t, m, policy, rows[i])
  }

  /** The rows whose key the table already has. */
  function Colliding<K, V, R>(t: Kind<K, V, R>, m: map<K, V>, rows: seq<R>): seq<R> {
    if rows == [] then []
    else
      var r := rows[|rows| - 1];
      Colliding(t, m, rows[..|rows| - 1]) + if t.key(r) in m then [r] else []
  }

  /** Every row is accounted for exactly once. */
  lemma {:induction false} RunCountsEveryRow<K, V, R>(
    t: Kind<K, V, R>, g: Gate<K, V, R>, m: map<K, V>, policy: Policy, rows: seq<R>)
    requires !Run(t, g, m, policy, rows).failed
    ensures var p := Run(t, g, m, policy, rows);
            p.inserted + p.replaced + p.skipped == |rows|
    ensures policy.Skip? ==> Run(t, g, m, policy, rows).replaced == 0
    ensures !policy.Skip? ==> Run(t, g, m, policy, rows).skipped == 0
  {
    if rows == [] {
    } else {
      RunCountsEveryRow(t, g, m, policy, rows[..|rows| - 1]);
    }
  }

  lemma {:induction false} RunSettles<K(!new), V(!new), R(!new)>(
    t: Kind<K, V, R>, g: Gate<K, V, R>, m: map<K, V>, policy: Policy, rows: seq<R>)
    requires DistinctKeys(t, rows) && !Run(t, g, m, policy, rows).failed
    ensures Settled(t, m, policy, rows, Run(t, g, m, policy, rows).table)
  {
    hide HasKey;
    if rows == [] {
      assert Untouched(t, m, rows, m);
    } else {
      var n := |rows| - 1;
      hide Upsert, Untouched, Final;
      RunSettles(t, g, m, policy, rows[..n]);
      RunLeavesOthers(t, g, m, policy, rows);
      var before := Run(t, g, m, policy, rows[..n]);
      LastKeyIsNew(t, rows);
      SettleOne(t, g, m, policy, rows, before.table, Advance(t, g, before, policy, rows[n]).table);
    }
  }

  lemma LastKeyIsNew<K, V, R>(t: Kind<K, V, R>, rows: seq<R>)
    requires rows != [] && DistinctKeys(t, rows)
    ensures !HasKey(t, rows[..|rows| - 1], t.key(rows[|rows| - 1]))
  {
  }

  lemma OthersKept<K(!new), V(!new), R(!new)>(t: Kind<K, V, R>, m: map<K, V>, rows: seq<R>, after: map<K, V>, k: K)
    requires Untouched(t, m, rows, after) && !HasKey(t, rows, k)
    ensures k in after <==> k in m
    ensures k in m ==> after[k] == m[k]
  {
  }

  /** Afterwards the table has the keys it had and those of the rows. */
  lemma SettledKeys<K(!new), V(!new), R(!new)>(
    t: Kind<K, V, R>, m: map<K, V>, policy: Policy, rows: seq<R>, after: map<K, V>, k: K)
    requires Settled(t, m, policy, rows, after)
    ensures k in after <==> k in m || HasKey(t, rows, k)
  {
    if HasKey(t, rows, k) {
      hide Untouched;
      var i :| 0 <= i < |rows| && t.key(rows[i]) == k;
    } else {
      OthersKept(t, m, rows, after, k);
    }
  }

  /** The counts tell how many rows the table already had before the run. */
  lemma {:induction false} RunCountsCollisions<K(!new), V(!new), R(!new)>(
    t: Kind<K, V, R>, g: Gate<K, V, R>, m: map<K, V>, policy: Policy, rows: seq<R>)
    requires DistinctKeys(t, rows) && !Run(t, g, m, policy, rows).failed
    ensures Run(t, g, m, policy, rows).replaced == if policy.Skip? then 0 else |Colliding(t, m, rows)|
    ensures Run(t, g, m, policy, rows).skipped == if policy.Skip? then |Colliding(t, m, rows)| else 0
  {
    if rows == [] {
    } else {
      var n := |rows| - 1;
      hide HasKey, Untouched, Final;
      RunCountsCollisions(t, g, m, policy, rows[..n]);
      RunSettles(t, g, m, policy, rows[..n]);
      LastKeyIsNew(t, rows);
      OthersKept(t, m, rows[..n], Run(t, g, m, policy, rows[..n]).table, t.key(rows[n]));
    }
  }

  lemma RunLeavesOthers<K(!new), V(!new), R(!new)>(
    t: Kind<K, V, R>, g: Gate<K, V, R>, m: map<K, V>, policy: Policy, rows: seq<R>)
    requires rows != [] && !Run(t, g, m, policy, rows).failed
    requires Untouched(t, m, rows[..|rows| - 1], Run(t, g, m, policy, rows[..|rows| - 1]).table)
    ensures Untouched(t, m, rows, Run(t, g, m, policy, rows).table)
  {
    hide HasKey;
    forall k ensures HasKey(t, rows, k) <==> HasKey(t, rows[..|rows| - 1], k) || t.key(rows[|rows| - 1]) == k {
      HasKeySnoc(t, rows, k);
    }
  }

  lemma SettleOne<K(!new), V(!new), R(!new)>(
    t: Kind<K, V, R>, g: Gate<K, V, R>, m: map<K, V>, policy: Policy, rows: seq<R>, before: map<K, V>, after: map<K, V>)
    requires rows != [] && DistinctKeys(t, rows)
    requires Settled(t, m, policy, rows[..|rows| - 1], before)
    requires Upsert(t, g, before, policy, rows[|rows| - 1]).1.Some?
    requires after == Upsert(t, g, before, policy, rows[|rows| - 1]).0
    requires Untouched(t, m, rows, after)
    requires !HasKey(t, rows[..|rows| - 1], t.key(rows[|rows| - 1]))
    ensures Settled(t, m, policy, rows, after)
  {
    hide HasKey;
    var n := |rows| - 1;
    var k := t.key(rows[n]);
    assert k in before <==> k in m;
    forall i | 0 <= i < |rows|
      ensures t.key(rows[i]) in after && after[t.key(rows[i])] == Final(t, m, policy, rows[i])
    {
      if i < n {
        assert rows[..n][i] == rows[i] && t.key(rows[i]) != k;
      }
    }
  }

  /** A run refused part-way has still left every row outside the payload alone. */
  lemma {:induction false} RunTouchesOnlyItsKeys<K(!new), V(!new), R(!new)>(
    t: Kind<K, V, R>, g: Gate<K, V, R>, m: map<K, V>, policy: Policy, rows: seq<R>)
    requires forall n: map<K, V>, r, k :: k != t.key(r) ==>
      (k in g.wreck(n, r) <==> k in n) && (k in n ==> g.wreck(n, r)[k] == n[k])
    ensures Untouched(t, m, rows, Run(t, g, m, policy, rows).table)
  {
    if rows == [] {
    } else {
      RunTouchesOnlyItsKeys(t, g, m, policy, rows[..|rows| - 1]);
      forall k ensures HasKey(t, rows, k) <==> HasKey(t, rows[..|rows| - 1], k) || t.key(rows[|rows| - 1]) == k {
        HasKeySnoc(t, rows, k);
      }
    }
  }

  // ---- When a run is refused ----

  /** Every row is skipped or passes the test. */
  ghost predicate Passes<K, V, R>(t: Kind<K, V, R>, m: map<K, V>, policy: Policy, rows: seq<R>, test: R -> bool) {
    forall i :: 0 <= i < |rows| ==> (policy.Skip? && t.key(rows[i]) in m) || test(rows[i])
  }

  lemma PassesSnoc<K, V, R>(t: Kind<K, V, R>, m: map<K, V>, policy: Policy, rows: seq<R>, test: R -> bool)
    requires rows != []
    ensures Passes(t, m, policy, rows, test)
       <==> && Passes(t, m, policy, rows[..|rows| - 1], test)
            && ((policy.Skip? && t.key(rows[|rows| - 1]) in m) || test(rows[|rows| - 1]))
  {
    assert forall i :: 0 <= i < |rows| - 1 ==> rows[..|rows| - 1][i] == rows[i];
  }

  /** When admission depends on the row alone, one bad row that is not skipped is what refuses a run. */
  lemma {:induction false} RunFailsExactly<K(!new), V(!new), R(!new)>(
    t: Kind<K, V, R>, g: Gate<K, V, R>, m: map<K, V>, policy: Policy, rows: seq<R>, test: R -> bool)
    requires DistinctKeys(t, rows)
    requires forall n, r :: g.admits(n, r) == test(r)
    ensures Run(t, g, m, policy, rows).failed <==> !Passes(t, m, policy, rows, test)
  {
    if rows == [] {
      assert Passes(t, m, policy, rows, test);
    } else {
      hide HasKey, Untouched, Final, Passes;
      var n := |rows| - 1;
      RunFailsExactly(t, g, m, policy, rows[..n], test);
      PassesSnoc(t, m, policy, rows, test);
      if !Run(t, g, m, policy, rows[..n]).failed {
        RunSettles(t, g, m, policy, rows[..n]);
        LastKeyIsNew(t, rows);
        OthersKept(t, m, rows[..n], Run(t, g, m, policy, rows[..n]).table, t.key(rows[n]));
      }
    }
  }

  /** The first row that is neither skipped nor passes the test. */
  ghost predicate StopsAt<K, V, R>(
    t: Kind<K, V, R>, m: map<K, V>, policy: Policy, rows: seq<R>, test: R -> bool, f: nat)
  {
    && f < |rows| && !test(rows[f]) && !(policy.Skip? && t.key(rows[f]) in m)
    && Passes(t, m, policy, rows[..f], test)
  }

  lemma StopFails<K, V, R>(
    t: Kind<K, V, R>, m: map<K, V>, policy: Policy, rows: seq<R>, test: R -> bool, f: nat)
    requires StopsAt(t, m, policy, rows, test, f)
    ensures f < |rows| && !Passes(t, m, policy, rows, test)
  {
  }

  lemma {:induction false} FirstStop<K, V, R>(
    t: Kind<K, V, R>, m: map<K, V>, policy: Policy, rows: seq<R>, test: R -> bool) returns (f: nat)
    requires !Passes(t, m, policy, rows, test)
    ensures StopsAt(t, m, policy, rows, test, f)
  {
    var n := |rows| - 1;
    if Passes(t, m, policy, rows[..n], test) {
      f := n;
      PassesSnoc(t, m, policy, rows, test);
    } else {
      f := FirstStop(t, m, policy, rows[..n], test);
      assert rows[..n][..f] == rows[..f];
    }
  }

  lemma PrefixIsDistinct<K, V, R>(t: Kind<K, V, R>, rows: seq<R>, n: nat)
    requires DistinctKeys(t, rows) && n <= |rows|
    ensures DistinctKeys(t, rows[..n])
    ensures n < |rows| ==> !HasKey(t, rows[..n], t.key(rows[n]))
  {
  }

  /** A refused run has imported the rows before the first refused one as a run of those alone would, and then
      left what that row's refusal leaves. */
  lemma RunStops<K(!new), V(!new), R(!new)>(
    t: Kind<K, V, R>, g: Gate<K, V, R>, m: map<K, V>, policy: Policy, rows: seq<R>, test: R -> bool, f: nat)
    returns (before: map<K, V>)
    requires DistinctKeys(t, rows) && StopsAt(t, m, policy, rows, test, f)
    requires forall n, r :: g.admits(n, r) == test(r)
    ensures Settled(t, m, policy, rows[..f], before)
    ensures !Run(t, g, m, policy, rows[..f]).failed && before == Run(t, g, m, policy, rows[..f]).table
    ensures Run(t, g, m, policy, rows).failed && Run(t, g, m, policy, rows).table == g.wreck(before, rows[f])
    ensures var k := t.key(rows[f]); (k in before <==> k in m) && (k in m ==> before[k] == m[k])
  {
    hide Run, Passes, HasKey, Settled, DistinctKeys;
    before := Run(t, g, m, policy, rows[..f]).table;
    PrefixIsDistinct(t, rows, f);
    RunFailsExactly(t, g, m, policy, rows[..f], test);
    RunSettles(t, g, m, policy, rows[..f]);
    SettledOthers(t, m, policy, rows[..f], before, t.key(rows[f]));
    RunSnoc(t, g, m, policy, rows, f);
    RunStaysFailed(t, g, m, policy, rows, f + 1);
  }

  lemma SettledOthers<K(!new), V(!new), R(!new)>(
    t: Kind<K, V, R>, m: map<K, V>, policy: Policy, rows: seq<R>, after: map<K, V>, k: K)
    requires Settled(t, m, policy, rows, after) && !HasKey(t, rows, k)
    ensures k in after <==> k in m
    ensures k in m ==> after[k] == m[k]
  {
    OthersKept(t, m, rows, after, k);
  }

  // ---- What no run breaks ----

  ghost predicate All<K(!new), V(!new)>(m: map<K, V>, fits: (K, V) -> bool) {
    forall k :: k in m ==> fits(k, m[k])
  }

  /** What every write and every refusal keeps, every run keeps, finished or not. */
  lemma {:induction false} RunKeepsAll<K(!new), V(!new), R(!new)>(
    t: Kind<K, V, R>, g: Gate<K, V, R>, m: map<K, V>, policy: Policy, rows: seq<R>, fits: (K, V) -> bool)
    requires All(m, fits)
    requires forall n, r :: All(n, fits) && !g.admits(n, r) ==> All(g.wreck(n, r), fits)
    requires forall n, r :: g.admits(n, r) ==>
      fits(t.key(r), t.make(r)) && forall v :: fits(t.key(r), v) ==> fits(t.key(r), t.merge(v, r))
    ensures All(Run(t, g, m, policy, rows).table, fits)
  {
    if rows == [] {
    } else {
      RunKeepsAll(t, g, m, policy, rows[..|rows| - 1], fits);
    }
  }

  /** No row is ever removed, as long as a refusal removes none. */
  lemma {:induction false} RunKeepsKeys<K(!new), V(!new), R(!new)>(
    t: Kind<K, V, R>, g: Gate<K, V, R>, m: map<K, V>, policy: Policy, rows: seq<R>)
    requires forall n: map<K, V>, r :: n.Keys <= g.wreck(n, r).Keys
    ensures m.Keys <= Run(t, g, m, policy, rows).table.Keys
  {
    if rows == [] {
    } else {
      RunKeepsKeys(t, g, m, policy, rows[..|rows| - 1]);
    }
  }

  // ---- Running again ----

  /** The table already is what the rows would make it. */
  ghost predicate Idle<K, V, R>(t: Kind<K, V, R>, g: Gate<K, V, R>, m: map<K, V>, policy: Policy, rows: seq<R>) {
    forall i :: 0 <= i < |rows| ==>
      var k := t.key(rows[i]);
      k in m && (policy.Skip? || (g.admits(m, rows[i]) && t.merge(m[k], rows[i]) == m[k]))
  }

  lemma {:induction false} IdleRun<K, V, R>(
    t: Kind<K, V, R>, g: Gate<K, V, R>, m: map<K, V>, policy: Policy, rows: seq<R>)
    requires Idle(t, g, m, policy, rows)
    ensures Run(t, g, m, policy, rows)
         == Progress(m, 0, if policy.Skip? then 0 else |rows|, if policy.Skip? then |rows| else 0, false)
  {
    if rows == [] {
    } else {
      var n := |rows| - 1;
      assert forall i :: 0 <= i < n ==> rows[..n][i] == rows[i];
      IdleRun(t, g, m, policy, rows[..n]);
      var k := t.key(rows[n]);
      assert k in m && m[k := m[k]] == m;
    }
  }

  /** Writing a row twice is writing it once. */
  ghost predicate MergeSticks<K(!new), V(!new), R(!new)>(t: Kind<K, V, R>, rows: seq<R>) {
    forall r :: r in rows ==>
      t.merge(t.make(r), r) == t.make(r) && forall v :: t.merge(t.merge(v, r), r) == t.merge(v, r)
  }

  lemma SettledIsIdle<K(!new), V(!new), R(!new)>(
    t: Kind<K, V, R>, g: Gate<K, V, R>, m: map<K, V>, policy: Policy, rows: seq<R>, after: map<K, V>)
    requires Settled(t, m, policy, rows, after) && MergeSticks(t, rows)
    requires !policy.Skip? ==> forall r :: r in rows ==> g.admits(after, r)
    ensures Idle(t, g, after, policy, rows)
  {
    forall i | 0 <= i < |rows|
      ensures var k := t.key(rows[i]);
              k in after && (policy.Skip? || (g.admits(after, rows[i]) && t.merge(after[k], rows[i]) == after[k]))
    {
      assert rows[i] in rows;
    }
  }
}
