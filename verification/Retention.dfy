/** Archive-before-delete cleanup of expired rows, with crashes at any point. */
module Retention {
  import opened Wrappers

  /** What cleanup looks at, the expiry timestamp and for incidents whether it is resolved, and the row's
      other columns. */
  datatype Record = Record(time: int, resolved: bool, rest: string)

  type Rows = map<string, Record>

  type Tables = map<string, Rows>

  /** The object key: table, second of the clock, and number of rows. */
  datatype Key = Key(table: string, second: int, count: nat)

  type Archive = map<Key, Rows>

  datatype Policy = Policy(tableName: string, retentionDays: int, archiveToR2: bool)

  const BATCH_SIZE: nat := 100
  const SECONDS_PER_DAY: int := 86400

  predicate IsNonExpiring(table: string) { table == "audit_logs" }

  predicate RequiresArchival(table: string) { table == "check_results" || table == "incidents" }

  /** The eligibility clause, or `None` for a table cleanup does not know. */
  function Eligible(table: string, r: Record, cutoff: int): Option<bool> {
    if table == "check_results" then Some(r.time < cutoff)
    else if table == "incidents" then Some(r.time < cutoff && r.resolved)
    else None
  }

  predicate IsEligible(table: string, r: Record, cutoff: int) { Eligible(table, r, cutoff) == Some(true) }

  predicate KnownTable(table: string) { table == "check_results" || table == "incidents" }

  function Cutoff(now: int, p: Policy): int { now - p.retentionDays * SECONDS_PER_DAY }

  /** The policies a pass acts on. */
  predicate Processed(p: Policy) {
    && !IsNonExpiring(p.tableName) && KnownTable(p.tableName)
    && (RequiresArchival(p.tableName) ==> p.archiveToR2)
  }

  function RowsOf(tables: Tables, table: string): Rows { if table in tables then tables[table] else map[] }

  ghost function EligibleRows(rows: Rows, table: string, cutoff: int): set<string> {
    set id | id in rows && IsEligible(table, rows[id], cutoff)
  }

  /** A batch the query may return: eligible rows, as many as there are up to the limit. */
  ghost predicate IsBatch(rows: Rows, table: string, cutoff: int, batch: Rows) {
    && (forall id :: id in batch ==> id in rows && batch[id] == rows[id] && IsEligible(table, rows[id], cutoff))
    && |batch| <= BATCH_SIZE
    && (batch.Keys != EligibleRows(rows, table, cutoff) ==> |batch| == BATCH_SIZE)
  }

  // ---- The pass, one store operation at a time ----

  datatype Phase =
    | Idle
    | Selected(table: string, batch: Rows)
    | Archived(table: string, batch: Rows)

  /** `ever` is every row the tables have held, as it was last written. */
  datatype State = State(tables: Tables, archive: Archive, phase: Phase, ever: set<(string, string, Record)>)

  datatype Action =
    | Select(policy: Policy, now: int, batch: Rows)
    | Put(second: int)
    | Delete
    | Crash
    | Insert(table: string, id: string, record: Record)
    | Update(id: string, record: Record)

  const INCIDENTS: string := "incidents"

  ghost predicate Enabled(s: State, a: Action) {
    match a
    case Select(p, now, batch) =>
      && s.phase.Idle? && Processed(p) && batch != map[]
      && IsBatch(RowsOf(s.tables, p.tableName), p.tableName, Cutoff(now, p), batch)
    case Put(second) => s.phase.Selected?
    case Delete => s.phase.Archived?
    case Crash => true
    case Insert(table, id, r) => id !in RowsOf(s.tables, table)
    case Update(id, r) =>
      // Resolving an incident, or resolving it again: it is never reopened and never moves in time.
      && id in RowsOf(s.tables, INCIDENTS)
      && var was := RowsOf(s.tables, INCIDENTS)[id];
         r.time == was.time && (was.resolved ==> r.resolved)
  }

  ghost function PutKey(s: State, second: int): Key
    requires s.phase.Selected?
  {
    Key(s.phase.table, second, |s.phase.batch|)
  }

  ghost function Next(s: State, a: Action): State
    requires Enabled(s, a)
  {
    match a
    case Select(p, now, batch) => s.(phase := Selected(p.tableName, batch))
    case Put(second) =>
      s.(archive := s.archive[PutKey(s, second) := s.phase.batch], phase := Archived(s.phase.table, s.phase.batch))
    case Delete =>
      s.(tables := s.tables[s.phase.table := RowsOf(s.tables, s.phase.table) - s.phase.batch.Keys], phase := Idle)
    case Crash => s.(phase := Idle)
    case Insert(table, id, r) =>
      s.(tables := s.tables[table := RowsOf(s.tables, table)[id := r]], ever := s.ever + {(table, id, r)})
    case Update(id, r) =>
      s.(tables := s.tables[INCIDENTS := RowsOf(s.tables, INCIDENTS)[id := r]],
         ever := s.ever - {(INCIDENTS, id, RowsOf(s.tables, INCIDENTS)[id])} + {(INCIDENTS, id, r)})
  }

  ghost predicate InTables(tables: Tables, table: string, id: string, r: Record) {
    id in RowsOf(tables, table) && RowsOf(tables, table)[id] == r
  }

  ghost predicate StoredAt(archive: Archive, key: Key, table: string, id: string, r: Record) {
    key in archive && key.table == table && id in archive[key] && archive[key][id] == r
  }

  ghost predicate InArchive(archive: Archive, table: string, id: string, r: Record) {
    exists key :: StoredAt(archive, key, table, id, r)
  }

  /** Every row that was ever stored is still in its table or in the archive. */
  ghost predicate NothingLost(s: State) {
    forall table, id, r :: (table, id, r) in s.ever ==>
      InTables(s.tables, table, id, r) || InArchive(s.archive, table, id, r)
  }

  /** The rows in hand are in the table and may be taken; once archived, they are in the archive as selected. */
  ghost predicate InHand(s: State, table: string, batch: Rows, id: string)
    requires id in batch
  {
    && id in RowsOf(s.tables, table) && Expirable(table, RowsOf(s.tables, table)[id])
    && (s.phase.Archived? ==> InArchive(s.archive, table, id, batch[id]))
  }

  ghost predicate PhaseOk(s: State) {
    s.phase.Idle? ||
      (&& KnownTable(s.phase.table)
       && forall id :: id in s.phase.batch ==> InHand(s, s.phase.table, s.phase.batch, id))
  }

  /** No row in hand was rewritten since it was selected. */
  ghost predicate Current(s: State) {
    s.phase.Idle? || forall id :: id in s.phase.batch ==> InTables(s.tables, s.phase.table, id, s.phase.batch[id])
  }

  /** Cleanup may take the row: never an open incident. */
  ghost predicate Expirable(table: string, r: Record) { table == "incidents" ==> r.resolved }

  /** Audit rows and open incidents that were ever stored are still in their tables. */
  ghost predicate KeepsProtected(s: State) {
    forall table, id, r ::
      (table, id, r) in s.ever && (IsNonExpiring(table) || !KnownTable(table) || !Expirable(table, r)) ==>
        InTables(s.tables, table, id, r)
  }

  /** What holds whatever keys are used. */
  ghost predicate Sound(s: State) {
    && PhaseOk(s) && KeepsProtected(s)
    && forall table, id, r :: InTables(s.tables, table, id, r) ==> (table, id, r) in s.ever
  }

  ghost predicate Inv(s: State) { Sound(s) && Current(s) && NothingLost(s) }

  /** A put never lands on a key that is already in the bucket. */
  ghost predicate FreshKey(s: State, a: Action) {
    a.Put? && s.phase.Selected? ==> PutKey(s, a.second) !in s.archive
  }

  /** An update never hits a row in hand. */
  ghost predicate Calm(s: State, a: Action) {
    a.Update? && !s.phase.Idle? && s.phase.table == INCIDENTS ==> a.id !in s.phase.batch
  }

  lemma StepKeepsSound(s: State, a: Action)
    requires Sound(s) && Enabled(s, a)
    ensures Sound(Next(s, a))
  {
    match a
    case Select(p, now, batch) =>
    case Put(second) => PutKeepsSound(s, second);
    case Delete => DeleteTakesOnlyTheBatch(s);
    case Crash =>
    case Insert(table, id, r) => InsertKeepsRows(s, table, id, r);
    case Update(id, r) => UpdateKeepsSound(s, id, r);
  }

  lemma PutKeepsSound(s: State, second: int)
    requires Sound(s) && s.phase.Selected?
    ensures Sound(Next(s, Put(second)))
  {
    var t := Next(s, Put(second));
    forall id | id in s.phase.batch ensures InHand(t, s.phase.table, s.phase.batch, id) {
      assert InHand(s, s.phase.table, s.phase.batch, id);
      assert StoredAt(t.archive, PutKey(s, second), s.phase.table, id, s.phase.batch[id]);
    }
  }

  lemma UpdateKeepsSound(s: State, id: string, r: Record)
    requires Sound(s) && Enabled(s, Update(id, r))
    ensures Sound(Next(s, Update(id, r)))
  {
    var t := Next(s, Update(id, r));
    if !s.phase.Idle? {
      forall i | i in s.phase.batch ensures InHand(t, s.phase.table, s.phase.batch, i) {
        assert InHand(s, s.phase.table, s.phase.batch, i);
      }
    }
    UpdateKeepsRows(s, id, r);
  }

  lemma UpdateKeepsRows(s: State, id: string, r: Record)
    requires Enabled(s, Update(id, r))
    ensures var t := Next(s, Update(id, r));
            && InTables(t.tables, INCIDENTS, id, r)
            && forall u, i, q :: (u, i) != (INCIDENTS, id) ==>
                 (InTables(t.tables, u, i, q) <==> InTables(s.tables, u, i, q))
  {
  }

  /** A delete removes only rows of the batch, each archived as it was selected, and as it is unless it was
      rewritten since. */
  lemma DeleteTakesOnlyTheBatch(s: State)
    requires Sound(s) && s.phase.Archived?
    ensures forall table, id, r ::
              InTables(s.tables, table, id, r) && !InTables(Next(s, Delete).tables, table, id, r) ==>
              && table == s.phase.table && id in s.phase.batch && InArchive(s.archive, table, id, s.phase.batch[id])
              && (Current(s) ==> s.phase.batch[id] == r)
    ensures forall table, id, r :: InTables(Next(s, Delete).tables, table, id, r) ==> InTables(s.tables, table, id, r)
    ensures Sound(Next(s, Delete))
  {
    forall table, id, r | InTables(s.tables, table, id, r) && !InTables(Next(s, Delete).tables, table, id, r)
      ensures table == s.phase.table && id in s.phase.batch && InArchive(s.archive, table, id, s.phase.batch[id])
      ensures Current(s) ==> s.phase.batch[id] == r
      ensures KnownTable(table) && Expirable(table, r)
    {
      assert InHand(s, s.phase.table, s.phase.batch, id);
      assert Current(s) ==> InTables(s.tables, s.phase.table, id, s.phase.batch[id]);
    }
  }

  /** Deleting an archived batch loses a row exactly when some row in it was rewritten since it was selected
      and the archive does not hold it as it is now. */
  lemma DeleteLosesExactlyStaleRows(s: State)
    requires Sound(s) && NothingLost(s) && s.phase.Archived?
    ensures NothingLost(Next(s, Delete)) <==>
              forall id :: id in s.phase.batch ==>
                InArchive(s.archive, s.phase.table, id, RowsOf(s.tables, s.phase.table)[id])
  {
    var t, table := Next(s, Delete), s.phase.table;
    DeleteTakesOnlyTheBatch(s);
    forall id | id in s.phase.batch
      ensures id in RowsOf(s.tables, table) && (table, id, RowsOf(s.tables, table)[id]) in s.ever
      ensures !InTables(t.tables, table, id, RowsOf(s.tables, table)[id])
    {
      assert InHand(s, table, s.phase.batch, id);
      assert InTables(s.tables, table, id, RowsOf(s.tables, table)[id]);
    }
  }

  /** An archived incident resolved a second time before the batch is deleted keeps only its earlier columns. */
  lemma UpdateInHandIsLost(s: State, id: string, r: Record)
    requires Inv(s) && s.phase.Archived? && s.phase.table == INCIDENTS && id in s.phase.batch
    requires Enabled(s, Update(id, r)) && !InArchive(s.archive, INCIDENTS, id, r)
    ensures !NothingLost(Next(Next(s, Update(id, r)), Delete))
  {
    UpdateKeepsSound(s, id, r);
    var t := Next(s, Update(id, r));
    UpdateKeepsNothingLost(s, id, r);
    DeleteLosesExactlyStaleRows(t);
    assert InTables(t.tables, INCIDENTS, id, r);
  }

  lemma UpdateKeepsNothingLost(s: State, id: string, r: Record)
    requires NothingLost(s) && Enabled(s, Update(id, r))
    ensures NothingLost(Next(s, Update(id, r)))
  {
    UpdateKeepsRows(s, id, r);
    var t := Next(s, Update(id, r));
    forall table, i, q | (table, i, q) in t.ever
      ensures InTables(t.tables, table, i, q) || InArchive(t.archive, table, i, q)
    {
      if (table, i, q) != (INCIDENTS, id, r) && InTables(s.tables, table, i, q) {
        assert (table, i) != (INCIDENTS, id);
      }
    }
  }

  lemma InsertKeepsRows(s: State, table: string, id: string, r: Record)
    requires Enabled(s, Insert(table, id, r))
    ensures var t := Next(s, Insert(table, id, r));
            && InTables(t.tables, table, id, r)
            && forall u, i, q :: InTables(t.tables, u, i, q) <==>
                 InTables(s.tables, u, i, q) || (u, i, q) == (table, id, r)
  {
  }

  lemma StepLosesNothing(s: State, a: Action)
    requires Inv(s) && Enabled(s, a) && FreshKey(s, a) && Calm(s, a)
    ensures NothingLost(Next(s, a)) && Current(Next(s, a))
  {
    match a
    case Select(p, now, batch) =>
    case Put(second) => FreshPutKeepsArchive(s, second);
    case Delete => DeleteTakesOnlyTheBatch(s);
    case Crash =>
    case Insert(table, id, r) => InsertKeepsRows(s, table, id, r);
    case Update(id, r) =>
      UpdateKeepsNothingLost(s, id, r);
      UpdateKeepsRows(s, id, r);
  }

  lemma FreshPutKeepsArchive(s: State, second: int)
    requires s.phase.Selected? && PutKey(s, second) !in s.archive
    ensures forall table, id, r :: InArchive(s.archive, table, id, r) ==>
        InArchive(Next(s, Put(second)).archive, table, id, r)
  {
    forall table, id, r | InArchive(s.archive, table, id, r)
      ensures InArchive(Next(s, Put(second)).archive, table, id, r)
    {
      var k :| StoredAt(s.archive, k, table, id, r);
      assert StoredAt(Next(s, Put(second)).archive, k, table, id, r);
    }
  }

  ghost predicate Runs(s: State, actions: seq<Action>, t: State)
    decreases |actions|
  {
    if actions == [] then s == t
    else Enabled(s, actions[0]) && Runs(Next(s, actions[0]), actions[1..], t)
  }

  ghost predicate FreshKeys(s: State, actions: seq<Action>)
    decreases |actions|
  {
    actions == [] || (Enabled(s, actions[0]) && FreshKey(s, actions[0]) && FreshKeys(Next(s, actions[0]), actions[1..]))
  }

  ghost predicate CalmRun(s: State, actions: seq<Action>)
    decreases |actions|
  {
    actions == [] || (Enabled(s, actions[0]) && Calm(s, actions[0]) && CalmRun(Next(s, actions[0]), actions[1..]))
  }

  /** Under any policies and however often it is stopped, cleanup never takes an audit row, a row of a
      table it does not know, or an unresolved incident. */
  lemma {:induction false} CleanupKeepsProtectedRows(s: State, actions: seq<Action>, t: State)
    requires Sound(s) && Runs(s, actions, t)
    ensures KeepsProtected(t)
    decreases |actions|
  {
    if actions == [] {
    } else {
      StepKeepsSound(s, actions[0]);
      hide Sound;
      CleanupKeepsProtectedRows(Next(s, actions[0]), actions[1..], t);
    }
  }

  /** Stopping the cleanup at any step, any number of times, and starting over beside inserts and updates
      loses no row, as long as no archive key is reused and no row in hand is rewritten. */
  lemma {:induction false} CleanupLosesNothing(s: State, actions: seq<Action>, t: State)
    requires Inv(s) && Runs(s, actions, t) && FreshKeys(s, actions) && CalmRun(s, actions)
    ensures NothingLost(t)
    decreases |actions|
  {
    if actions == [] {
    } else {
      StepKeepsSound(s, actions[0]);
      StepLosesNothing(s, actions[0]);
      hide Sound, NothingLost, Current;
      CleanupLosesNothing(Next(s, actions[0]), actions[1..], t);
    }
  }

  /** The archive holds the row in some version. */
  ghost predicate Held(archive: Archive, table: string, id: string) {
    exists key, r :: StoredAt(archive, key, table, id, r)
  }

  /** Every row that was ever stored is in its table, or the archive has some version of it. */
  ghost predicate NoIdLost(s: State) {
    forall table, id, r :: (table, id, r) in s.ever ==> id in RowsOf(s.tables, table) || Held(s.archive, table, id)
  }

  lemma StepLosesNoId(s: State, a: Action)
    requires Sound(s) && NoIdLost(s) && Enabled(s, a) && FreshKey(s, a)
    ensures NoIdLost(Next(s, a))
  {
    var t := Next(s, a);
    forall table, id | Held(s.archive, table, id) ensures Held(t.archive, table, id) {
      var key, r :| StoredAt(s.archive, key, table, id, r);
      assert StoredAt(t.archive, key, table, id, r);
    }
    if a.Delete? {
      forall id | id in s.phase.batch ensures Held(t.archive, s.phase.table, id) {
        assert InHand(s, s.phase.table, s.phase.batch, id);
      }
    }
  }

  /** Whatever is rewritten beside it, cleanup never loses a row altogether as long as no archive key is reused:
      some version of it stays. */
  lemma {:induction false} CleanupLosesNoId(s: State, actions: seq<Action>, t: State)
    requires Sound(s) && NoIdLost(s) && Runs(s, actions, t) && FreshKeys(s, actions)
    ensures NoIdLost(t)
    decreases |actions|
  {
    if actions == [] {
    } else {
      StepKeepsSound(s, actions[0]);
      StepLosesNoId(s, actions[0]);
      hide Sound, NoIdLost;
      CleanupLosesNoId(Next(s, actions[0]), actions[1..], t);
    }
  }

  // ---- What key reuse costs ----

  /** Every archived row is gone from its table and kept under one key only, as after any
      number of completed batches. */
  ghost predicate Settled(s: State) {
    && (forall key, table, id, r :: StoredAt(s.archive, key, table, id, r) ==>
          !InTables(s.tables, table, id, r) && (table, id, r) in s.ever)
    && (forall k1, k2, table, id, r ::
          StoredAt(s.archive, k1, table, id, r) && StoredAt(s.archive, k2, table, id, r) ==> k1 == k2)
    && (forall key :: key in s.archive ==> s.archive[key] != map[])
  }

  /** A completed batch under a new key leaves the store settled again. */
  lemma BatchKeepsSettled(s: State, second: int)
    requires Inv(s) && Settled(s) && s.phase.Selected? && s.phase.batch != map[] && PutKey(s, second) !in s.archive
    ensures Settled(Next(Next(s, Put(second)), Delete))
  {
    var t, key := Next(Next(s, Put(second)), Delete), PutKey(s, second);
    forall k, table, id, r | StoredAt(t.archive, k, table, id, r)
      ensures !InTables(t.tables, table, id, r) && (table, id, r) in t.ever
      ensures k != key ==> StoredAt(s.archive, k, table, id, r)
    {
      if k == key {
        assert InTables(s.tables, table, id, s.phase.batch[id]);
      } else {
        assert StoredAt(s.archive, k, table, id, r);
      }
    }
    forall k1, k2, table, id, r | StoredAt(t.archive, k1, table, id, r) && StoredAt(t.archive, k2, table, id, r)
      ensures k1 == k2
    {
      if k1 == key || k2 == key {
        assert InTables(s.tables, s.phase.table, id, s.phase.batch[id]);
      }
    }
  }

  /** With no crash pending, a put loses rows exactly when its key is already in use: the key is only
      the table, the second and the batch length, so two full batches in one second collide. */
  lemma PutLosesRowsExactlyOnKeyReuse(s: State, second: int)
    requires Inv(s) && Settled(s) && s.phase.Selected?
    ensures NothingLost(Next(s, Put(second))) <==> PutKey(s, second) !in s.archive
  {
    var t, key := Next(s, Put(second)), PutKey(s, second);
    if key !in s.archive {
      FreshPutKeepsArchive(s, second);
    } else {
      var id :| id in s.archive[key];
      var r := s.archive[key][id];
      assert StoredAt(s.archive, key, key.table, id, r);
      assert id in s.phase.batch ==> InTables(s.tables, key.table, id, s.phase.batch[id]);
      assert forall k :: StoredAt(t.archive, k, key.table, id, r) && k != key ==>
          StoredAt(s.archive, k, key.table, id, r);
      assert !InTables(t.tables, key.table, id, r) && (key.table, id, r) in t.ever;
    }
  }

  lemma RunsCons(s: State, a: Action, rest: seq<Action>, t: State)
    requires Enabled(s, a) && Runs(Next(s, a), rest, t)
    ensures Runs(s, [a] + rest, t)
  {
    assert ([a] + rest)[1..] == rest;
  }

  /** The row does not depend on the object `key`: it is still in its table, in the batch in hand unchanged, or
      under another key. */
  ghost predicate Spared(s: State, key: Key, id: string, r: Record)
    requires s.phase.Selected?
  {
    || InTables(s.tables, key.table, id, r)
    || (id in s.phase.batch && s.phase.batch[id] == r)
    || exists k :: k != key && StoredAt(s.archive, k, key.table, id, r)
  }

  /** A put is harmless exactly when every row under the object it replaces is spared. */
  lemma PutIsHarmlessExactly(s: State, second: int)
    requires NothingLost(s) && s.phase.Selected?
    ensures NothingLost(Next(s, Put(second))) <==>
              forall id, r ::
                && StoredAt(s.archive, PutKey(s, second), s.phase.table, id, r)
                && (s.phase.table, id, r) in s.ever
                ==> Spared(s, PutKey(s, second), id, r)
  {
    var t, key := Next(s, Put(second)), PutKey(s, second);
    forall id, r | StoredAt(s.archive, key, s.phase.table, id, r)
      ensures InTables(t.tables, s.phase.table, id, r) || InArchive(t.archive, s.phase.table, id, r) <==>
          Spared(s, key, id, r)
    {
      RowAfterPut(s, second, id, r);
    }
    forall table, id, r | InArchive(s.archive, table, id, r) && !StoredAt(s.archive, key, table, id, r)
      ensures InArchive(t.archive, table, id, r)
    {
      var k :| StoredAt(s.archive, k, table, id, r);
      assert StoredAt(t.archive, k, table, id, r);
    }
  }

  lemma RowAfterPut(s: State, second: int, id: string, r: Record)
    requires s.phase.Selected?
    ensures (|| InTables(Next(s, Put(second)).tables, s.phase.table, id, r)
             || InArchive(Next(s, Put(second)).archive, s.phase.table, id, r))
       <==> Spared(s, PutKey(s, second), id, r)
  {
    var t, key, table := Next(s, Put(second)), PutKey(s, second), s.phase.table;
    assert forall k :: k != key ==> (StoredAt(t.archive, k, table, id, r) <==> StoredAt(s.archive, k, table, id, r));
    assert StoredAt(t.archive, key, table, id, r) <==> id in s.phase.batch && s.phase.batch[id] == r;
  }

  // ---- A backlog within one second ----

  lemma {:induction false} SubsetOfSize(whole: set<string>, n: nat) returns (part: set<string>)
    requires n <= |whole|
    ensures part <= whole && |part| == n
  {
    if n == 0 {
      part := {};
    } else {
      var x :| x in whole;
      part := SubsetOfSize(whole - {x}, n - 1);
      part := part + {x};
    }
  }

  /** Any full batch of eligible rows may be the one the query returns. */
  lemma FullBatch(rows: Rows, table: string, cutoff: int) returns (batch: Rows)
    requires |EligibleRows(rows, table, cutoff)| >= BATCH_SIZE
    ensures IsBatch(rows, table, cutoff, batch) && |batch| == BATCH_SIZE
  {
    var ids := SubsetOfSize(EligibleRows(rows, table, cutoff), BATCH_SIZE);
    batch := map id | id in ids :: rows[id];
    assert batch.Keys == ids;
  }

  /** One full batch, archived under a new key and deleted. */
  ghost function AfterBatch(s: State, p: Policy, batch: Rows, second: int): State {
    State(s.tables[p.tableName := RowsOf(s.tables, p.tableName) - batch.Keys],
          s.archive[Key(p.tableName, second, |batch|) := batch], Idle, s.ever)
  }

  lemma BatchGoesThrough(s: State, p: Policy, now: int, second: int, batch: Rows)
    requires Inv(s) && Settled(s) && Enabled(s, Select(p, now, batch))
    requires Key(p.tableName, second, |batch|) !in s.archive
    ensures var s1 := Next(s, Select(p, now, batch));
            && s1.phase.Selected? && Next(Next(s1, Put(second)), Delete) == AfterBatch(s, p, batch, second)
            && Inv(AfterBatch(s, p, batch, second)) && Settled(AfterBatch(s, p, batch, second))
  {
    hide Inv, IsBatch;
    var s1 := Next(s, Select(p, now, batch));
    StepKeepsInv(s, Select(p, now, batch));
    assert Settled(s1);
    hide Settled;
    BatchKeepsSettled(s1, second);
    StepKeepsInv(s1, Put(second));
    StepKeepsInv(Next(s1, Put(second)), Delete);
  }

  /** A second batch of the same length within the second lands on the first one's object. */
  lemma SecondBatchLoses(s: State, p: Policy, now: int, second: int, batch: Rows)
    requires Inv(s) && Settled(s) && Enabled(s, Select(p, now, batch))
    requires Key(p.tableName, second, |batch|) in s.archive
    ensures var s1 := Next(s, Select(p, now, batch));
            s1.phase.Selected? && !NothingLost(Next(s1, Put(second)))
  {
    hide Inv, IsBatch, NothingLost;
    var s1 := Next(s, Select(p, now, batch));
    StepKeepsInv(s, Select(p, now, batch));
    assert Settled(s1);
    hide Settled;
    PutLosesRowsExactlyOnKeyReuse(s1, second);
  }

  /** Two full batches of a backlog, put within one second, share a key: the first is gone. */
  lemma BacklogLosesRows(s: State, p: Policy, now: int, second: int)
    returns (first: Rows, rest: Rows, t: State)
    requires Inv(s) && Settled(s) && s.phase.Idle? && Processed(p)
    requires |EligibleRows(RowsOf(s.tables, p.tableName), p.tableName, Cutoff(now, p))| >= 2 * BATCH_SIZE
    requires Key(p.tableName, second, BATCH_SIZE) !in s.archive
    ensures |first| == |rest| == BATCH_SIZE
    ensures Runs(s, [Select(p, now, first), Put(second), Delete, Select(p, now, rest), Put(second)], t)
    ensures !NothingLost(t)
  {
    hide Inv, Settled, NothingLost, IsBatch, EligibleRows;
    var rows, cutoff := RowsOf(s.tables, p.tableName), Cutoff(now, p);
    first := FullBatch(rows, p.tableName, cutoff);
    EnoughLeft(rows, p.tableName, cutoff, first);
    rest := FullBatch(rows - first.Keys, p.tableName, cutoff);
    BatchGoesThrough(s, p, now, second, first);
    var s3 := AfterBatch(s, p, first, second);
    assert RowsOf(s3.tables, p.tableName) == rows - first.Keys;
    SecondBatchLoses(s3, p, now, second, rest);
    var s1, s4 := Next(s, Select(p, now, first)), Next(s3, Select(p, now, rest));
    t := Next(s4, Put(second));
    RunOfFive(s, s1, Next(s1, Put(second)), s3, s4, t,
              Select(p, now, first), Put(second), Delete, Select(p, now, rest), Put(second));
  }

  lemma EnoughLeft(rows: Rows, table: string, cutoff: int, batch: Rows)
    requires IsBatch(rows, table, cutoff, batch) && |batch| == BATCH_SIZE
    requires |EligibleRows(rows, table, cutoff)| >= 2 * BATCH_SIZE
    ensures |EligibleRows(rows - batch.Keys, table, cutoff)| >= BATCH_SIZE
  {
    var all := EligibleRows(rows, table, cutoff);
    assert batch.Keys <= all && |batch.Keys| == BATCH_SIZE;
    assert |all - batch.Keys| == |all| - |batch.Keys|;
    assert EligibleRows(rows - batch.Keys, table, cutoff) == all - batch.Keys;
  }

  lemma StepKeepsInv(s: State, a: Action)
    requires Inv(s) && Enabled(s, a) && FreshKey(s, a) && Calm(s, a)
    ensures Inv(Next(s, a))
  {
    hide Sound, NothingLost, Current, Enabled, Next;
    StepKeepsSound(s, a);
    StepLosesNothing(s, a);
  }

  lemma RunOfFive(s0: State, s1: State, s2: State, s3: State, s4: State, s5: State,
                  a0: Action, a1: Action, a2: Action, a3: Action, a4: Action)
    requires Enabled(s0, a0) && Next(s0, a0) == s1 && Enabled(s1, a1) && Next(s1, a1) == s2
    requires Enabled(s2, a2) && Next(s2, a2) == s3 && Enabled(s3, a3) && Next(s3, a3) == s4
    requires Enabled(s4, a4) && Next(s4, a4) == s5
    ensures Runs(s0, [a0, a1, a2, a3, a4], s5)
  {
    hide Enabled, Next;
    RunsCons(s4, a4, [], s5);
    RunsCons(s3, a3, [a4], s5);
    RunsCons(s2, a2, [a3, a4], s5);
    RunsCons(s1, a1, [a2, a3, a4], s5);
    RunsCons(s0, a0, [a1, a2, a3, a4], s5);
    hide Runs;
    assert [a4] + [] == [a4] && [a3] + [a4] == [a3, a4] && [a2] + [a3, a4] == [a2, a3, a4];
    assert [a1] + [a2, a3, a4] == [a1, a2, a3, a4] && [a0] + [a1, a2, a3, a4] == [a0, a1, a2, a3, a4];
  }

  // ---- What may leave a table, column by column ----

  /** The policy names a table that cleanup knows, and archives it. */
  predicate Usable(p: Policy) {
    (p.tableName == "check_results" || p.tableName == "incidents") && p.archiveToR2
  }

  /** Older than the policy's days, and not an open incident. */
  predicate Expired(p: Policy, now: int, r: Record) {
    r.time < now - p.retentionDays * 86400 && (p.tableName == "incidents" ==> r.resolved)
  }

  lemma EligibleIsExpired(p: Policy, now: int, r: Record)
    ensures Processed(p) <==> Usable(p)
    ensures Usable(p) ==> (IsEligible(p.tableName, r, Cutoff(now, p)) <==> Expired(p, now, r))
  {
  }

  /** The batch in hand was taken from the policy's table, and every row of it in the table is expired. */
  ghost predicate HandExpired(s: State, p: Policy, now: int) {
    s.phase.Idle? ||
      (&& Usable(p) && s.phase.table == p.tableName && |s.phase.batch| <= 100
       && forall id :: id in s.phase.batch ==>
            id in RowsOf(s.tables, p.tableName) && Expired(p, now, RowsOf(s.tables, p.tableName)[id]))
  }

  lemma SelectTakesExpired(s: State, p: Policy, now: int, batch: Rows)
    requires Enabled(s, Select(p, now, batch))
    ensures HandExpired(Next(s, Select(p, now, batch)), p, now)
  {
    forall id | id in batch ensures Expired(p, now, RowsOf(s.tables, p.tableName)[id]) {
      EligibleIsExpired(p, now, RowsOf(s.tables, p.tableName)[id]);
    }
    EligibleIsExpired(p, now, Record(0, false, ""));
  }

  lemma StepKeepsHand(s: State, a: Action, p: Policy, now: int)
    requires HandExpired(s, p, now) && Enabled(s, a) && !a.Select?
    ensures HandExpired(Next(s, a), p, now)
  {
    if !Next(s, a).phase.Idle? {
      forall id | id in s.phase.batch
        ensures id in RowsOf(Next(s, a).tables, p.tableName)
        ensures Expired(p, now, RowsOf(Next(s, a).tables, p.tableName)[id])
      {
        assert Expired(p, now, RowsOf(s.tables, p.tableName)[id]);
      }
    }
  }

  /** What is in hand comes from the start of the run or from one of its selects. */
  lemma {:induction false} HandFromSelect(s: State, actions: seq<Action>, t: State, p: Policy, now: int)
    requires HandExpired(s, p, now) && Runs(s, actions, t)
    ensures HandExpired(t, p, now)
         || exists m: nat :: m < |actions| && actions[m].Select? && HandExpired(t, actions[m].policy, actions[m].now)
    decreases |actions|
  {
    if actions == [] {
    } else {
      hide HandExpired;
      var a, next, rest := actions[0], Next(s, actions[0]), actions[1..];
      var (q, at) := if a.Select? then (a.policy, a.now) else (p, now);
      if a.Select? {
        SelectTakesExpired(s, a.policy, a.now, a.batch);
      } else {
        StepKeepsHand(s, a, p, now);
      }
      HandFromSelect(next, rest, t, q, at);
      if m: nat :| m < |rest| && rest[m].Select? && HandExpired(t, rest[m].policy, rest[m].now) {
        assert actions[m + 1] == rest[m];
      } else if a.Select? {
        assert actions[0] == a;
      }
    }
  }

  /** The rows that a delete would take now are all expired under the policy. */
  ghost predicate TakesExpired(s: State, p: Policy, now: int)
    requires s.phase.Archived?
  {
    forall table, id, r :: InTables(s.tables, table, id, r) && !InTables(Next(s, Delete).tables, table, id, r) ==>
      table == p.tableName && Expired(p, now, r)
  }

  lemma ExpiredHandIsTaken(s: State, p: Policy, now: int)
    requires s.phase.Archived? && HandExpired(s, p, now)
    ensures Usable(p) && |s.phase.batch| <= 100 && TakesExpired(s, p, now)
  {
    hide Expired, Usable;
  }

  /** Whatever is interleaved, a delete takes at most a hundred rows, all of one table, each of them older than the days
      of a usable policy at the time of a select of the run, and never an open incident. */
  lemma DeleteTakesOnlyExpired(s: State, actions: seq<Action>, t: State)
    requires s.phase.Idle? && Runs(s, actions, t) && t.phase.Archived?
    ensures |t.phase.batch| <= 100
    ensures exists m: nat :: m < |actions| && actions[m].Select? && Usable(actions[m].policy)
                             && TakesExpired(t, actions[m].policy, actions[m].now)
  {
    var nobody := Policy("", 0, false);
    assert HandExpired(s, nobody, 0) && !HandExpired(t, nobody, 0);
    hide Runs, HandExpired, Usable, TakesExpired;
    HandFromSelect(s, actions, t, nobody, 0);
    var m: nat :| m < |actions| && actions[m].Select? && HandExpired(t, actions[m].policy, actions[m].now);
    ExpiredHandIsTaken(t, actions[m].policy, actions[m].now);
  }

  // ---- A pass ----

  lemma {:induction false} RunsSnoc(s: State, actions: seq<Action>, t: State, a: Action)
    requires Runs(s, actions, t) && Enabled(t, a)
    ensures Runs(s, actions + [a], Next(t, a))
    decreases |actions|
  {
    hide Enabled, Next;
    if actions == [] {
      assert Runs(Next(t, a), [], Next(t, a));
      RunsCons(t, a, [], Next(t, a));
      assert [a] + [] == [] + [a];
    } else {
      RunsSnoc(Next(s, actions[0]), actions[1..], t, a);
      RunsCons(s, actions[0], actions[1..] + [a], Next(t, a));
      assert [actions[0]] + (actions[1..] + [a]) == actions + [a];
    }
  }

  /** `later` holds some of the rows of `earlier`, unchanged. */
  ghost predicate Shrunk(earlier: Rows, later: Rows) {
    forall id :: id in later ==> id in earlier && later[id] == earlier[id]
  }

  lemma DeletingShrinks(rows: Rows, table: string, cutoff: int, batch: Rows)
    requires IsBatch(rows, table, cutoff, batch) && batch != map[]
    ensures Shrunk(rows, rows - batch.Keys)
    ensures EligibleRows(rows - batch.Keys, table, cutoff) == EligibleRows(rows, table, cutoff) - batch.Keys
    ensures EligibleRows(rows - batch.Keys, table, cutoff) < EligibleRows(rows, table, cutoff)
  {
    var id :| id in batch;
    assert id in EligibleRows(rows, table, cutoff);
  }

  /** The three store operations for one batch. */
  lemma BatchCompletes(start: State, actions: seq<Action>, s: State, p: Policy, now: int, batch: Rows, second: int)
    requires Runs(start, actions, s) && Enabled(s, Select(p, now, batch))
    ensures Runs(start, actions + [Select(p, now, batch), Put(second), Delete],
                 State(s.tables[p.tableName := RowsOf(s.tables, p.tableName) - batch.Keys],
                       s.archive[Key(p.tableName, second, |batch|) := batch], Idle, s.ever))
  {
    hide Runs, IsBatch;
    var s1 := Next(s, Select(p, now, batch));
    RunsSnoc(start, actions, s, Select(p, now, batch));
    RunsSnoc(start, actions + [Select(p, now, batch)], s1, Put(second));
    RunsSnoc(start, actions + [Select(p, now, batch)] + [Put(second)], Next(s1, Put(second)), Delete);
    assert actions + [Select(p, now, batch)] + [Put(second)] + [Delete] ==
        actions + [Select(p, now, batch), Put(second), Delete];
  }

  lemma BatchAborts(start: State, actions: seq<Action>, s: State, p: Policy, now: int, batch: Rows)
    requires Runs(start, actions, s) && Enabled(s, Select(p, now, batch))
    ensures Runs(start, actions + [Select(p, now, batch), Crash], s)
  {
    hide Runs, IsBatch;
    RunsSnoc(start, actions, s, Select(p, now, batch));
    RunsSnoc(start, actions + [Select(p, now, batch)], Next(s, Select(p, now, batch)), Crash);
    assert actions + [Select(p, now, batch)] + [Crash] == actions + [Select(p, now, batch), Crash];
  }

  /** No usable policy names the table. */
  ghost predicate Unprocessed(policies: seq<Policy>, table: string) {
    forall i :: 0 <= i < |policies| && policies[i].tableName == table ==> !Usable(policies[i])
  }

  /** What has left the table was expired under the policy, and what stays is as it was. */
  ghost predicate OnlyExpiredLeft(p: Policy, now: int, before: Rows, after: Rows) {
    && Shrunk(before, after)
    && forall id :: id in before && id !in after ==> Expired(p, now, before[id])
  }

  /** Nothing that stays is expired. */
  ghost predicate NoneExpired(p: Policy, now: int, rows: Rows) {
    forall id :: id in rows ==> !Expired(p, now, rows[id])
  }

  /** What has left any table was expired under a usable policy for it, and what stays is as it was. */
  ghost predicate OnlyExpiredGone(policies: seq<Policy>, now: int, before: Tables, after: Tables) {
    && (forall t :: Shrunk(RowsOf(before, t), RowsOf(after, t)))
    && forall t, id :: id in RowsOf(before, t) && id !in RowsOf(after, t) ==>
         ExpiredUnder(policies, now, t, RowsOf(before, t)[id])
  }

  ghost predicate ExpiredUnder(policies: seq<Policy>, now: int, table: string, r: Record) {
    exists i :: && 0 <= i < |policies| && Usable(policies[i]) && policies[i].tableName == table
                && Expired(policies[i], now, r)
  }

  lemma GoneGrows(policies: seq<Policy>, now: int, before: Tables, mid: Tables, after: Tables, i: nat)
    requires i < |policies| && Usable(policies[i]) && OnlyExpiredGone(policies, now, before, mid)
    requires OnlyExpiredLeft(policies[i], now, RowsOf(mid, policies[i].tableName), RowsOf(after, policies[i].tableName))
    requires forall t :: t != policies[i].tableName ==> RowsOf(after, t) == RowsOf(mid, t)
    ensures OnlyExpiredGone(policies, now, before, after)
  {
    hide Usable, Expired;
    forall t, id | id in RowsOf(before, t) && id !in RowsOf(after, t)
      ensures ExpiredUnder(policies, now, t, RowsOf(before, t)[id])
    {
      if id in RowsOf(mid, t) {
        assert Expired(policies[i], now, RowsOf(mid, t)[id]);
      }
    }
  }

  lemma NothingLeft(p: Policy, now: int, rows: Rows)
    ensures OnlyExpiredLeft(p, now, rows, rows)
  {
  }

  lemma BatchLeaves(p: Policy, now: int, before: Rows, rows: Rows, batch: Rows)
    requires Usable(p) && OnlyExpiredLeft(p, now, before, rows)
    requires IsBatch(rows, p.tableName, Cutoff(now, p), batch)
    ensures OnlyExpiredLeft(p, now, before, rows - batch.Keys)
  {
    hide IsEligible, Expired;
    forall id | id in batch ensures Expired(p, now, rows[id]) {
      EligibleIsExpired(p, now, rows[id]);
    }
  }

  type Stamps = map<string, int>

  /** Tables without a usable policy keep their rows and their policy its time stamp. */
  ghost predicate OthersSpared(policies: seq<Policy>, before: Tables, was: Stamps, after: Tables, stamps: Stamps) {
    forall t :: Unprocessed(policies, t) ==>
      && RowsOf(after, t) == RowsOf(before, t)
      && (t in stamps <==> t in was) && (t in stamps ==> stamps[t] == was[t])
  }

  /** The first `n` policies have been carried out: nothing expired is left, and the time of the pass is noted. */
  ghost predicate CarriedOut(policies: seq<Policy>, n: nat, now: int, tables: Tables, stamps: Stamps)
    requires n <= |policies|
  {
    forall i :: 0 <= i < n && Usable(policies[i]) ==>
      && NoneExpired(policies[i], now, RowsOf(tables, policies[i].tableName))
      && policies[i].tableName in stamps && stamps[policies[i].tableName] == now
  }

  /** Cleaning the table of one more policy. */
  lemma SparingGoes(policies: seq<Policy>, i: nat, before: Tables, was: Stamps, mid: Tables, after: Tables,
                    stamps: Stamps, now: int)
    requires i < |policies| && Usable(policies[i]) && OthersSpared(policies, before, was, mid, stamps)
    requires forall t :: t != policies[i].tableName ==> RowsOf(after, t) == RowsOf(mid, t)
    ensures OthersSpared(policies, before, was, after, stamps)
    ensures OthersSpared(policies, before, was, after, stamps[policies[i].tableName := now])
  {
    hide Usable, RowsOf;
    assert !Unprocessed(policies, policies[i].tableName);
  }

  lemma OneMoreCarriedOut(policies: seq<Policy>, i: nat, now: int, mid: Tables, after: Tables, stamps: Stamps)
    requires i < |policies| && Usable(policies[i]) && CarriedOut(policies, i, now, mid, stamps)
    requires OnlyExpiredLeft(policies[i], now, RowsOf(mid, policies[i].tableName), RowsOf(after, policies[i].tableName))
    requires forall t :: t != policies[i].tableName ==> RowsOf(after, t) == RowsOf(mid, t)
    requires NoneExpired(policies[i], now, RowsOf(after, policies[i].tableName))
    ensures CarriedOut(policies, i + 1, now, after, stamps[policies[i].tableName := now])
  {
    hide Usable, Expired, RowsOf;
    forall j | 0 <= j < i && Usable(policies[j])
      ensures NoneExpired(policies[j], now, RowsOf(after, policies[j].tableName))
    {
      assert NoneExpired(policies[j], now, RowsOf(mid, policies[j].tableName));
    }
  }

  lemma EligibleAreExpired(p: Policy, now: int, rows: Rows)
    requires Usable(p)
    ensures forall id :: id in EligibleRows(rows, p.tableName, Cutoff(now, p)) <==>
              id in rows && Expired(p, now, rows[id])
  {
    forall id | id in rows ensures IsEligible(p.tableName, rows[id], Cutoff(now, p)) <==> Expired(p, now, rows[id]) {
      EligibleIsExpired(p, now, rows[id]);
    }
  }

  class Store {
    var tables: Tables
    var archive: Archive
    var lastCleanup: map<string, int>

    constructor (tables: Tables)
      ensures this.tables == tables && archive == map[] && lastCleanup == map[]
    {
      this.tables, archive, lastCleanup := tables, map[], map[];
    }

    ghost function At(phase: Phase, ever: set<(string, string, Record)>): State
      reads this
    {
      State(tables, archive, phase, ever)
    }

    /** Up to a hundred eligible rows. */
    method SelectEligibleBatch(table: string, cutoff: int) returns (batch: Rows)
      requires KnownTable(table)
      ensures IsBatch(RowsOf(tables, table), table, cutoff, batch)
      ensures |batch| <= 100 && forall id :: id in batch ==>
                && id in RowsOf(tables, table) && batch[id] == RowsOf(tables, table)[id]
                && batch[id].time < cutoff && (table == "incidents" ==> batch[id].resolved)
      ensures |batch| < 100 ==> forall id :: id in RowsOf(tables, table) && id !in batch ==>
                var r := RowsOf(tables, table)[id];
                r.time >= cutoff || (table == "incidents" && !r.resolved)
    {
      var rows := RowsOf(tables, table);
      var rest := rows.Keys;
      batch := map[];
      while rest != {} && |batch| < BATCH_SIZE
        invariant rest <= rows.Keys && |batch| <= BATCH_SIZE
        invariant forall id :: id in batch ==>
          id in rows && batch[id] == rows[id] && IsEligible(table, rows[id], cutoff) && id !in rest
        invariant forall id :: id in rows && IsEligible(table, rows[id], cutoff) ==> id in rest || id in batch
        decreases rest
      {
        var id :| id in rest;
        rest := rest - {id};
        if IsEligible(table, rows[id], cutoff) {
          batch := batch[id := rows[id]];
        }
      }
      assert rest == {} ==> batch.Keys == EligibleRows(rows, table, cutoff);
    }

    /** The inner loop for one policy: select, archive, delete, until nothing is eligible. A failed put ends
        the pass with the batch still in its table. */
    method CleanTable(p: Policy, now: int, clock: nat -> int, putOk: nat -> bool, puts: nat,
                      ghost ever: set<(string, string, Record)>, ghost before: seq<Action>, ghost start: State)
      returns (ok: bool, puts': nat, ghost actions: seq<Action>)
      requires Processed(p) && Runs(start, before, At(Idle, ever))
      modifies this`tables, this`archive
      ensures Runs(start, actions, At(Idle, ever))
      ensures ok ==> EligibleRows(RowsOf(tables, p.tableName), p.tableName, Cutoff(now, p)) == {}
      ensures OnlyExpiredLeft(p, now, RowsOf(old(tables), p.tableName), RowsOf(tables, p.tableName))
      ensures ok ==> NoneExpired(p, now, RowsOf(tables, p.tableName))
      ensures forall t :: t != p.tableName ==> RowsOf(tables, t) == RowsOf(old(tables), t)
    {
      hide Runs, IsEligible, Expired, OnlyExpiredLeft;
      NothingLeft(p, now, RowsOf(tables, p.tableName));
      EligibleIsExpired(p, now, Record(0, false, ""));
      var table, cutoff := p.tableName, Cutoff(now, p);
      ok, puts', actions := true, puts, before;
      while true
        invariant Runs(start, actions, At(Idle, ever))
        invariant OnlyExpiredLeft(p, now, RowsOf(old(tables), table), RowsOf(tables, table))
        invariant forall t :: t != table ==> RowsOf(tables, t) == RowsOf(old(tables), t)
        decreases EligibleRows(RowsOf(tables, table), table, cutoff)
      {
        var batch := SelectEligibleBatch(table, cutoff);
        EligibleAreExpired(p, now, RowsOf(tables, table));
        if batch == map[] {
          return;
        }
        DeletingShrinks(RowsOf(tables, table), table, cutoff, batch);
        BatchLeaves(p, now, RowsOf(old(tables), table), RowsOf(tables, table), batch);
        if !putOk(puts') {
          BatchAborts(start, actions, At(Idle, ever), p, now, batch);
          actions := actions + [Select(p, now, batch), Crash];
          return false, puts', actions;
        }
        var second := clock(puts');
        BatchCompletes(start, actions, At(Idle, ever), p, now, batch, second);
        actions := actions + [Select(p, now, batch), Put(second), Delete];
        archive := archive[Key(table, second, |batch|) := batch];
        puts' := puts' + 1;
        tables := tables[table := RowsOf(tables, table) - batch.Keys];
      }
    }

    /** `run_cleanup`: every policy in turn. The run it makes is one the interleaving theorems speak about; a
        pass that ends normally leaves nothing eligible, and tables without a usable policy are untouched. */
    method RunCleanup(policies: seq<Policy>, now: int, clock: nat -> int, putOk: nat -> bool,
                      ghost ever: set<(string, string, Record)>)
      returns (ok: bool, ghost actions: seq<Action>)
      modifies this
      ensures Runs(State(old(tables), old(archive), Idle, ever), actions, At(Idle, ever))
      ensures OnlyExpiredGone(policies, now, old(tables), tables)
      ensures ok ==> CarriedOut(policies, |policies|, now, tables, lastCleanup)
      ensures OthersSpared(policies, old(tables), old(lastCleanup), tables, lastCleanup)
    {
      hide Runs, Expired, EligibleRows, OnlyExpiredGone, OnlyExpiredLeft, NoneExpired, OthersSpared;
      ghost var start := At(Idle, ever);
      RunsNothing(start);
      NothingGone(policies, now, tables, lastCleanup);
      ok, actions := true, [];
      var puts := 0;
      for i := 0 to |policies|
        invariant Runs(start, actions, At(Idle, ever))
        invariant OnlyExpiredGone(policies, now, old(tables), tables)
        invariant CarriedOut(policies, i, now, tables, lastCleanup)
        invariant OthersSpared(policies, old(tables), old(lastCleanup), tables, lastCleanup)
      {
        var p := policies[i];
        if IsNonExpiring(p.tableName) {
          continue;
        }
        if !KnownTable(p.tableName) {
          continue;
        }
        if RequiresArchival(p.tableName) && !p.archiveToR2 {
          continue;
        }
        ghost var earlier := tables;
        EligibleIsExpired(p, now, Record(0, false, ""));
        ok, puts, actions := CleanTable(p, now, clock, putOk, puts, ever, actions, start);
        GoneGrows(policies, now, old(tables), earlier, tables, i);
        SparingGoes(policies, i, old(tables), old(lastCleanup), earlier, tables, lastCleanup, now);
        if !ok {
          return;
        }
        OneMoreCarriedOut(policies, i, now, earlier, tables, lastCleanup);
        lastCleanup := lastCleanup[p.tableName := now];
      }
    }
  }

  lemma NothingGone(policies: seq<Policy>, now: int, tables: Tables, stamps: Stamps)
    ensures OnlyExpiredGone(policies, now, tables, tables) && OthersSpared(policies, tables, stamps, tables, stamps)
  {
  }

  lemma RunsNothing(s: State)
    ensures Runs(s, [], s)
  {
  }
}
