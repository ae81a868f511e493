/** Any number of writers, each reading the head and inserting its row in two separate steps,
    while rows may also disappear. */
module AuditProtocol {
  import opened Wrappers
  import opened Ordering
  import opened AuditHash
  import opened Orbits
  import opened AuditChain
  import opened AuditTrunk
  import opened AuditReport

  type Writer = nat

  /** The table, the head each writer has read, and every row ever inserted. */
  datatype State = State(table: seq<Row>, pending: map<Writer, string>, history: seq<Row>)

  datatype Action =
    | ReadHead(w: Writer)
    | InsertRow(w: Writer, fields: Fields)
    | RemoveRow(i: nat)

  /** New rows carry a fresh identifier. */
  ghost predicate Enabled(s: State, a: Action) {
    match a
    case ReadHead(w) => true
    case InsertRow(w, f) =>
      w in s.pending && SEPARATOR !in f.id && forall r :: r in s.history ==> r.fields.id != f.id
    case RemoveRow(i) => i < |s.table|
  }

  ghost function Next(sha: string -> string, s: State, a: Action): State
    requires Enabled(s, a)
  {
    match a
    case ReadHead(w) => s.(pending := s.pending[w := Report(HashWith(sha), s.table).head])
    case InsertRow(w, f) =>
      var r := Row(f, Some(s.pending[w]), Some(RowHash(sha, s.pending[w], f)));
      State(s.table + [r], s.pending - {w}, s.history + [r])
    case RemoveRow(i) => s.(table := s.table[..i] + s.table[i + 1..])
  }

  /** Every sequence of enabled actions from `s`, in any interleaving, ends in `t`. */
  ghost predicate Runs(sha: string -> string, s: State, actions: seq<Action>, t: State)
    decreases |actions|
  {
    if actions == [] then s == t
    else Enabled(s, actions[0]) && Runs(sha, Next(sha, s, actions[0]), actions[1..], t)
  }

  /** A table that has never been written by the chain: only legacy rows. */
  ghost predicate Initial(s: State) {
    s.pending == map[] && s.history == [] && forall r :: r in s.table ==> IsLegacy(r)
  }

  // ---- The invariant: history is a tree of genuine rows rooted at genesis ----

  /** `h` is genesis or the hash of one of the first `n` rows. */
  ghost predicate Rooted(history: seq<Row>, n: nat, h: string)
    requires n <= |history|
  {
    h == GENESIS || exists j :: 0 <= j < n && Stored(history[j]) == h
  }

  ghost predicate TreeAt(sha: string -> string, history: seq<Row>, i: nat)
    requires i < |history|
  {
    var r := history[i];
    && IsHashed(r) && Intact(HashWith(sha), r) && SEPARATOR !in r.fields.id
    && Rooted(history, i, r.prevHash.value)
  }

  /** Each row chains from genesis or from an earlier row, and no id is used twice. */
  ghost predicate Tree(sha: string -> string, history: seq<Row>) {
    && (forall i: nat :: i < |history| ==> TreeAt(sha, history, i))
    && (forall i, j :: 0 <= i < j < |history| ==> history[i].fields.id != history[j].fields.id)
  }

  ghost predicate Inv(sha: string -> string, s: State) {
    && Tree(sha, s.history)
    && (forall r :: r in s.table ==> IsLegacy(r) || r in s.history)
    && (forall w :: w in s.pending ==> Rooted(s.history, |s.history|, s.pending[w]))
  }

  lemma RootedGrows(history: seq<Row>, n: nat, r: Row, h: string)
    requires n <= |history| && Rooted(history, n, h)
    ensures Rooted(history + [r], n, h) && Rooted(history + [r], |history| + 1, h)
  {
    if h != GENESIS {
      var j :| 0 <= j < n && Stored(history[j]) == h;
      assert (history + [r])[j] == history[j];
    }
  }

  lemma TreeGrows(sha: string -> string, history: seq<Row>, prev: string, f: Fields)
    requires Tree(sha, history) && Rooted(history, |history|, prev)
    requires SEPARATOR !in f.id && forall r :: r in history ==> r.fields.id != f.id
    ensures Tree(sha, history + [Row(f, Some(prev), Some(RowHash(sha, prev, f)))])
  {
    hide RowHash;
    var r := Row(f, Some(prev), Some(RowHash(sha, prev, f)));
    var grown := history + [r];
    RootedGrows(history, |history|, r, prev);
    forall i: nat | i < |grown| ensures TreeAt(sha, grown, i) {
      if i < |history| {
        assert TreeAt(sha, history, i);
        RootedGrows(history, i, r, history[i].prevHash.value);
      }
    }
  }

  /** The head of a table whose hashed rows are all in `history` is rooted there. */
  lemma HeadIsRooted(sha: string -> string, s: State)
    requires Inv(sha, s)
    ensures Rooted(s.history, |s.history|, Report(HashWith(sha), s.table).head)
  {
    hide Walk, Tree, Rooted, Report;
    var head := Report(HashWith(sha), s.table).head;
    if head != GENESIS {
      HeadIsInTable(HashWith(sha), s.table);
      var r :| r in s.table && IsHashed(r) && Stored(r) == head;
      InHistory(s.history, r);
    } else {
      GenesisIsRooted(s.history);
    }
  }

  lemma GenesisIsRooted(history: seq<Row>)
    ensures Rooted(history, |history|, GENESIS)
  {
  }

  lemma InHistory(history: seq<Row>, r: Row)
    requires r in history
    ensures Rooted(history, |history|, Stored(r))
  {
    var j :| 0 <= j < |history| && history[j] == r;
    assert Stored(history[j]) == Stored(r);
  }

  lemma HeadIsInTable(hash: HashFn, rows: seq<Row>)
    ensures var head := Report(hash, rows).head;
            head == GENESIS || exists r :: r in rows && IsHashed(r) && Stored(r) == head
  {
    hide Walk, Trace, OnOrbit;
    PathIsOrbit(rows);
    var path := Walk(rows).path;
    if path != [] {
      var i := path[|path| - 1];
      assert i in path && rows[i] in rows;
    }
  }

  lemma InvIsInductive(sha: string -> string, s: State, a: Action)
    requires Inv(sha, s) && Enabled(s, a)
    ensures Inv(sha, Next(sha, s, a))
  {
    match a
    case ReadHead(w) =>
      HeadIsRooted(sha, s);
      hide Report;
    case InsertRow(w, f) =>
      hide Tree, RowHash;
      TreeGrows(sha, s.history, s.pending[w], f);
      var r := Row(f, Some(s.pending[w]), Some(RowHash(sha, s.pending[w], f)));
      forall v | v in s.pending ensures Rooted(s.history + [r], |s.history| + 1, s.pending[v]) {
        RootedGrows(s.history, |s.history|, r, s.pending[v]);
      }
    case RemoveRow(i) =>
  }

  // ---- What the invariant says about the report ----

  lemma StoredIsSeparatorFree(sha: string -> string, history: seq<Row>, n: nat, h: string)
    requires CollisionFree(sha) && Tree(sha, history) && n <= |history| && Rooted(history, n, h)
    ensures SEPARATOR !in h
  {
    GenesisHasNoSeparator(64);
    if j :| 0 <= j < n && Stored(history[j]) == h {
      assert TreeAt(sha, history, j);
    }
  }

  /** Different rows of the tree have different hashes, none of them genesis. */
  lemma HashesDistinct(sha: string -> string, history: seq<Row>, i: nat, j: nat)
    requires CollisionFree(sha) && Tree(sha, history) && i < |history| && j < |history|
    requires Stored(history[i]) == Stored(history[j])
    ensures i == j && Stored(history[i]) != GENESIS
  {
    assert TreeAt(sha, history, i) && TreeAt(sha, history, j);
    var p, q := history[i].prevHash.value, history[j].prevHash.value;
    StoredIsSeparatorFree(sha, history, i, p);
    StoredIsSeparatorFree(sha, history, j, q);
    RowHashPinsPrevAndId(sha, p, history[i].fields, q, history[j].fields);
  }

  /** A row always comes later in history than the row it chains from. */
  lemma LinksClimb(sha: string -> string, history: seq<Row>, i: nat, j: nat)
    requires CollisionFree(sha) && Tree(sha, history) && i < |history| && j < |history|
    requires Links(history[j], Stored(history[i]))
    ensures i < j
  {
    assert TreeAt(sha, history, i) && TreeAt(sha, history, j);
    HashesDistinct(sha, history, i, i);
    var k :| 0 <= k < j && Stored(history[k]) == Stored(history[i]);
    HashesDistinct(sha, history, k, i);
  }

  ghost function RankAt(s: State): nat -> nat {
    (i: nat) => if i < |s.table| then IndexOf(s.history, s.table[i]) else 0
  }

  lemma NoCycle(sha: string -> string, s: State)
    requires CollisionFree(sha) && Inv(sha, s)
    ensures Walk(s.table).cycleAt.None?
  {
    hide Tree, CollisionFree, Trace, Ranked, RowHash;
    var rank := RankAt(s);
    forall i: nat | i < |s.table| && Successor(s.table)(i).Some?
      ensures rank(i) < rank(Successor(s.table)(i).value)
    {
      RankClimbs(sha, s, i);
    }
    ClimbingOrbitEnds(Successor(s.table), |s.table|, Pick(s.table, GENESIS), rank, |s.history| + 1);
  }

  lemma RankClimbs(sha: string -> string, s: State, i: nat)
    requires CollisionFree(sha) && Inv(sha, s) && i < |s.table| && IsHashed(s.table[i])
    requires Pick(s.table, Stored(s.table[i])).Some?
    ensures RankAt(s)(i) < RankAt(s)(Pick(s.table, Stored(s.table[i])).value)
  {
    hide CollisionFree, Ranked, Pick, RowHash, Tree;
    PickLinks(s.table, Stored(s.table[i]));
    var j := Pick(s.table, Stored(s.table[i])).value;
    assert s.table[i] in s.table && s.table[j] in s.table;
    assert s.table[i] in s.history && s.table[j] in s.history;
    LinksClimb(sha, s.history, IndexOf(s.history, s.table[i]), IndexOf(s.history, s.table[j]));
  }

  lemma RowsAreGenuine(sha: string -> string, s: State, r: Row)
    requires Inv(sha, s) && r in s.table && !IsLegacy(r)
    ensures IsHashed(r) && Intact(HashWith(sha), r)
  {
    var i :| 0 <= i < |s.history| && s.history[i] == r;
    assert TreeAt(sha, s.history, i);
  }

  /** Nothing is reported as tampered, no cycle is set, the counts add up, and each row is legacy, verified or
      orphaned. */
  ghost predicate Untampered(hash: HashFn, rows: seq<Row>) {
    var v := Report(hash, rows).verification;
    && v.tamperedRows == [] && v.cycleAt == None
    && v.legacyRows + v.verifiedRows + |v.orphanedRows| == v.totalRows == |rows|
    && forall i: nat :: i < |rows| ==> ClassOf(hash, rows, i) in {Legacy, Verified, Orphaned}
  }

  /** The invariant rules out tampering and cycles. */
  lemma InvMeansUntampered(sha: string -> string, s: State)
    requires CollisionFree(sha) && Inv(sha, s)
    ensures Untampered(HashWith(sha), s.table)
  {
    NoCycle(sha, s);
    NothingTampered(sha, s);
    forall i: nat | i < |s.table| && !IsLegacy(s.table[i])
      ensures IsHashed(s.table[i]) && Intact(HashWith(sha), s.table[i])
    {
      RowsAreGenuine(sha, s, s.table[i]);
    }
    hide Inv, Walk, Intact, OnOrbit, Sort, TamperedList, Unreached, Filter;
    ReportPartitions(HashWith(sha), s.table);
  }

  lemma NothingTampered(sha: string -> string, s: State)
    requires Inv(sha, s)
    ensures InTable(s.table, Walk(s.table).path)
    ensures Sort(TamperedList(HashWith(sha), s.table, PathRows(s.table, Walk(s.table).path)), TamperedEarlier) == []
  {
    hide Walk, Intact, Filter, OnOrbit, Inv;
    PathIsOrbit(s.table);
    var walked := PathRows(s.table, Walk(s.table).path);
    forall k | 0 <= k < |walked| ensures !IsAltered(HashWith(sha))(walked[k]) {
      assert walked[k] in s.table;
      if IsHashed(walked[k]) { RowsAreGenuine(sha, s, walked[k]); }
    }
    forall k | 0 <= k < |s.table| ensures !IsHalfSet(s.table[k]) {
      if !IsLegacy(s.table[k]) { RowsAreGenuine(sha, s, s.table[k]); }
    }
    FilterNone(walked, IsAltered(HashWith(sha)));
    FilterNone(s.table, IsHalfSet);
  }

  /** For every interleaving of any number of writers, with any deletions in between: the rows
      ever written form a tree rooted at genesis, no row is ever reported as tampered, no cycle
      is ever reported, and every hashed row is either verified or orphaned. */
  lemma {:induction false} InterleavedWritersAreSafe(sha: string -> string, s: State, actions: seq<Action>, t: State)
    requires CollisionFree(sha) && (Initial(s) || Inv(sha, s)) && Runs(sha, s, actions, t)
    ensures Tree(sha, t.history) && Untampered(HashWith(sha), t.table)
    decreases |actions|
  {
    assert Inv(sha, s);
    if actions == [] {
      InvMeansUntampered(sha, t);
    } else {
      hide Inv, CollisionFree, Untampered;
      InvIsInductive(sha, s, actions[0]);
      InterleavedWritersAreSafe(sha, Next(sha, s, actions[0]), actions[1..], t);
    }
  }

  // ---- Which head a row chains from ----

  ghost predicate OtherWriters(w: Writer, actions: seq<Action>) {
    forall a :: a in actions ==> a.RemoveRow? || a.w != w
  }

  /** The newest row has the columns `f` and chains from `prev`. */
  ghost predicate EndsWith(sha: string -> string, table: seq<Row>, f: Fields, prev: string) {
    table != [] && table[|table| - 1] == Row(f, Some(prev), Some(RowHash(sha, prev, f)))
  }

  /** The last thing the writer did before action `n` was to read the head, in action `m`. */
  ghost predicate LastRead(w: Writer, actions: seq<Action>, m: nat, n: nat)
    requires n < |actions|
  {
    m < n && actions[m] == ReadHead(w) && OtherWriters(w, actions[m + 1..n])
  }

  ghost predicate HasRead(w: Writer, actions: seq<Action>, n: nat)
    requires n < |actions|
  {
    exists m: nat :: LastRead(w, actions, m, n)
  }

  lemma ReadBefore(w: Writer, actions: seq<Action>, n: nat)
    requires 0 < n < |actions|
    ensures HasRead(w, actions[1..], n - 1) ==> HasRead(w, actions, n)
    ensures OtherWriters(w, actions[1..][..n - 1]) ==>
              && (actions[0] == ReadHead(w) ==> HasRead(w, actions, n))
              && (actions[0].RemoveRow? || actions[0].w != w ==> OtherWriters(w, actions[..n]))
  {
    var (k: nat, rest) := (n - 1, actions[1..]);
    if m: nat :| LastRead(w, rest, m, k) {
      assert rest[m + 1..k] == actions[m + 2..n];
      assert LastRead(w, actions, m + 1, n);
    }
    assert rest[..k] == actions[1..n] && actions[..n] == [actions[0]] + actions[1..n];
    assert OtherWriters(w, actions[1..n]) && actions[0] == ReadHead(w) ==> LastRead(w, actions, 0, n);
  }

  lemma HeadIsHeldFromRead(sha: string -> string, s: State, a: Action, w: Writer)
    requires Enabled(s, a) && w in Next(sha, s, a).pending
    ensures a == ReadHead(w) || (w in s.pending && (a.RemoveRow? || a.w != w))
  {
    hide Report, RowHash;
  }

  /** Every insert belongs to a read of its own: since it the writer did nothing else. */
  lemma {:induction false} InsertsFollowReads(sha: string -> string, s: State, actions: seq<Action>, t: State, n: nat)
    requires Runs(sha, s, actions, t) && n < |actions| && actions[n].InsertRow?
    ensures (actions[n].w in s.pending && OtherWriters(actions[n].w, actions[..n])) || HasRead(actions[n].w, actions, n)
    decreases |actions|
  {
    if n == 0 {
    } else {
      var (w, u) := (actions[n].w, Next(sha, s, actions[0]));
      assert actions[1..][n - 1] == actions[n];
      InsertsFollowReads(sha, u, actions[1..], t, n - 1);
      ReadBefore(w, actions, n);
      if w in u.pending { HeadIsHeldFromRead(sha, s, actions[0], w); }
      hide Runs, Next, Enabled, OtherWriters, HasRead;
    }
  }

  lemma {:induction false} PendingStays(sha: string -> string, s: State, w: Writer, between: seq<Action>, f: Fields,
                                        t: State)
    requires w in s.pending && OtherWriters(w, between) && Runs(sha, s, between + [InsertRow(w, f)], t)
    ensures EndsWith(sha, t.table, f, s.pending[w])
    decreases |between|
  {
    var all := between + [InsertRow(w, f)];
    hide Report, RowHash;
    if between == [] {
      assert all == [InsertRow(w, f)] && all[1..] == [];
      assert t == Next(sha, s, all[0]);
    } else {
      assert all[0] == between[0] && all[1..] == between[1..] + [InsertRow(w, f)];
      assert between[0] in between;
      PendingStays(sha, Next(sha, s, all[0]), w, between[1..], f, t);
    }
  }

  /** Whatever the other writers do in between, a row chains from the head of the table as its writer read it. */
  lemma RowsChainFromHeadRead(sha: string -> string, s: State, w: Writer, between: seq<Action>, f: Fields, t: State)
    requires OtherWriters(w, between) && Runs(sha, s, [ReadHead(w)] + between + [InsertRow(w, f)], t)
    ensures EndsWith(sha, t.table, f, Report(HashWith(sha), s.table).head)
  {
    hide Report, RowHash;
    var all := [ReadHead(w)] + between + [InsertRow(w, f)];
    assert all[0] == ReadHead(w) && all[1..] == between + [InsertRow(w, f)];
    PendingStays(sha, Next(sha, s, ReadHead(w)), w, between, f, t);
  }

  lemma ReportsHead(sha: string -> string, rows: seq<Row>)
    ensures Report(HashWith(sha), rows).head == Head(rows)
  {
    hide Walk, TamperedList, Unreached;
    WalkInTable(rows);
  }

  /** A writer whom nobody interrupts appends as the methods of the table do. */
  lemma UninterruptedIsAppend(sha: string -> string, s: State, w: Writer, f: Fields, t: State)
    requires Runs(sha, s, [ReadHead(w), InsertRow(w, f)], t)
    ensures t.table == Append(sha, s.table, f)
  {
    hide RowHash, Report, Head;
    var all := [ReadHead(w), InsertRow(w, f)];
    assert all[1..] == [InsertRow(w, f)] && all[1..][1..] == [];
    ReportsHead(sha, s.table);
    var read := Next(sha, s, all[0]);
    assert Runs(sha, read, [InsertRow(w, f)], t);
    assert t == Next(sha, read, [InsertRow(w, f)][0]);
  }
}
