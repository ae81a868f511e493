/** An uncontested chain from genesis, and what appends, edits and deletions do to its report. */
module AuditTrunk {
  import opened Wrappers
  import opened Ordering
  import opened AuditHash
  import opened Orbits
  import opened AuditChain

  function HashWith(sha: string -> string): HashFn {
    (prev: string, f: Fields) => RowHash(sha, prev, f)
  }

  /** The head `current_head_hash` derives from the walk. */
  ghost function Head(rows: seq<Row>): string {
    WalkInTable(rows);
    HashAfter(rows, Walk(rows).path, |Walk(rows).path|)
  }

  /** Row `i` is the one row chaining from `h`. */
  ghost predicate SoleLink(rows: seq<Row>, h: string, i: nat) {
    && i < |rows| && Links(rows[i], h)
    && forall j :: 0 <= j < |rows| && Links(rows[j], h) ==> j == i
  }

  ghost predicate NoLink(rows: seq<Row>, h: string) {
    forall j :: 0 <= j < |rows| ==> !Links(rows[j], h)
  }

  /** Step `k` of `path` goes to the one row chaining from the hash reached so far. */
  ghost predicate TrunkAt(rows: seq<Row>, path: seq<nat>, k: nat)
    requires InTable(rows, path) && k < |path|
  {
    SoleLink(rows, HashAfter(rows, path, k), path[k])
  }

  /** `path` leads from genesis without a fork, and nothing chains from its end. */
  ghost predicate IsTrunk(rows: seq<Row>, path: seq<nat>) {
    && InTable(rows, path) && NoRepeats(path)
    && (forall k: nat :: k < |path| ==> TrunkAt(rows, path, k))
    && NoLink(rows, HashAfter(rows, path, |path|))
  }

  lemma SolePick(rows: seq<Row>, h: string, i: nat)
    requires SoleLink(rows, h, i)
    ensures Pick(rows, h) == Some(i) && !Contested(rows, h)
  {
    PickLinks(rows, h);
    ContestedMeansFork(rows, h);
  }

  lemma NoPick(rows: seq<Row>, h: string)
    requires NoLink(rows, h)
    ensures Pick(rows, h) == None && !Contested(rows, h)
  {
    PickLinks(rows, h);
    ContestedMeansFork(rows, h);
  }

  lemma TrunkSteps(rows: seq<Row>, path: seq<nat>, k: nat)
    requires IsTrunk(rows, path) && k <= |path|
    ensures Pick(rows, HashAfter(rows, path, k)) == At(path, k)
    ensures !Contested(rows, HashAfter(rows, path, k))
    ensures k > 0 ==> Successor(rows)(path[k - 1]) == At(path, k)
  {
    hide Pick, Contested;
    if k > 0 { assert TrunkAt(rows, path, k - 1); }
    if k < |path| {
      assert TrunkAt(rows, path, k);
      SolePick(rows, HashAfter(rows, path, k), path[k]);
    } else {
      NoPick(rows, HashAfter(rows, path, k));
    }
  }

  lemma TrunkIsWalk(rows: seq<Row>, path: seq<nat>)
    requires IsTrunk(rows, path)
    ensures Walk(rows) == Trail(path, None)
    ensures Head(rows) == HashAfter(rows, path, |path|)
    ensures !ForkSeen(rows, path, |path| + 1)
  {
    hide Pick, Contested, Successor, SoleLink, NoLink, Trace;
    forall k: nat | k <= |path|
      ensures !Contested(rows, HashAfter(rows, path, k))
      ensures k > 0 ==> Successor(rows)(path[k - 1]) == At(path, k)
    {
      TrunkSteps(rows, path, k);
    }
    TrunkSteps(rows, path, 0);
    forall k: nat | k < |path| ensures Successor(rows)(path[k]) == At(path, k + 1) {
      TrunkSteps(rows, path, k + 1);
    }
    SuccessorBounded(rows);
    PathIsTrace(Successor(rows), |rows|, Pick(rows, GENESIS), path);
  }

  lemma SuccessorBounded(rows: seq<Row>)
    ensures Bounded(Successor(rows), |rows|)
  {
  }

  // ---- Appending ----

  /** The row `log`, `log_system` and `log_login` insert: chained from the head they read. */
  ghost function NewRow(sha: string -> string, rows: seq<Row>, f: Fields): Row {
    Row(f, Some(Head(rows)), Some(RowHash(sha, Head(rows), f)))
  }

  ghost function Append(sha: string -> string, rows: seq<Row>, f: Fields): seq<Row> {
    rows + [NewRow(sha, rows, f)]
  }

  ghost function AppendAll(sha: string -> string, rows: seq<Row>, fs: seq<Fields>): seq<Row> {
    if fs == [] then rows
    else Append(sha, AppendAll(sha, rows, fs[..|fs| - 1]), fs[|fs| - 1])
  }

  /** `h` is genesis or the hash of some row whose id has been used. */
  ghost predicate Known(sha: string -> string, used: set<string>, h: string) {
    || h == GENESIS
    || exists q, g :: h == RowHash(sha, q, g) && SEPARATOR !in q && SEPARATOR !in g.id && g.id in used
  }

  /** Every hashed row is genuine and chains from a known hash; `path` is the live chain. */
  ghost predicate Live(sha: string -> string, rows: seq<Row>, path: seq<nat>, used: set<string>) {
    && IsTrunk(rows, path)
    && Known(sha, used, HashAfter(rows, path, |path|))
    && forall r :: r in rows ==> IsLegacy(r) || Genuine(sha, used, r)
  }

  ghost predicate Genuine(sha: string -> string, used: set<string>, r: Row) {
    IsHashed(r) && Intact(HashWith(sha), r) && Known(sha, used, r.prevHash.value)
  }

  lemma GenesisHasNoSeparator(n: nat)
    ensures SEPARATOR !in Zeros(n)
  {
  }

  lemma KnownIsSeparatorFree(sha: string -> string, used: set<string>, h: string)
    requires CollisionFree(sha) && Known(sha, used, h)
    ensures SEPARATOR !in h
  {
    GenesisHasNoSeparator(64);
  }

  /** A hash over an unused id differs from every known hash. */
  lemma FreshHashIsUnknown(sha: string -> string, used: set<string>, prev: string, f: Fields)
    requires CollisionFree(sha)
    requires SEPARATOR !in prev && SEPARATOR !in f.id && f.id !in used
    ensures !Known(sha, used, RowHash(sha, prev, f))
  {
    if q, g :| RowHash(sha, prev, f) == RowHash(sha, q, g) && SEPARATOR !in q && SEPARATOR !in g.id && g.id in used {
      RowHashPinsPrevAndId(sha, prev, f, q, g);
    }
  }

  lemma SoleLinkStays(rows: seq<Row>, path: seq<nat>, r: Row, k: nat)
    requires IsTrunk(rows, path) && Links(r, HashAfter(rows, path, |path|)) && k < |path|
    ensures SoleLink(rows + [r], HashAfter(rows, path, k), path[k])
  {
    assert TrunkAt(rows, path, k);
    assert Links(rows[path[k]], HashAfter(rows, path, k));
    assert !Links(rows[path[k]], HashAfter(rows, path, |path|));
  }

  lemma SoleLinkNew(rows: seq<Row>, h: string, r: Row)
    requires NoLink(rows, h) && Links(r, h)
    ensures SoleLink(rows + [r], h, |rows|)
  {
  }

  lemma TrunkGrows(rows: seq<Row>, path: seq<nat>, r: Row)
    requires IsTrunk(rows, path) && Links(r, HashAfter(rows, path, |path|))
    requires NoLink(rows, Stored(r)) && !Links(r, Stored(r))
    ensures IsTrunk(rows + [r], path + [|rows|])
    ensures HashAfter(rows + [r], path + [|rows|], |path| + 1) == Stored(r)
  {
    var rows', path' := rows + [r], path + [|rows|];
    assert NoRepeats(path') && InTable(rows', path');
    hide Links, NoRepeats;
    forall k | 0 <= k <= |path| ensures HashAfter(rows', path', k) == HashAfter(rows, path, k) {}
    forall k: nat | k < |path'| ensures TrunkAt(rows', path', k) {
      if k < |path| { SoleLinkStays(rows, path, r, k); } else { SoleLinkNew(rows, HashAfter(rows, path, k), r); }
    }
  }

  lemma AppendKeepsLive(sha: string -> string, rows: seq<Row>, path: seq<nat>, used: set<string>, f: Fields)
    requires CollisionFree(sha) && Live(sha, rows, path, used)
    requires SEPARATOR !in f.id && f.id !in used
    ensures Live(sha, Append(sha, rows, f), path + [|rows|], used + {f.id})
  {
    hide RowHash, Walk;
    TrunkIsWalk(rows, path);
    var h, r := Head(rows), NewRow(sha, rows, f);
    KnownIsSeparatorFree(sha, used, h);
    FreshHashIsUnknown(sha, used, h, f);
    forall x | Known(sha, used, x) ensures Known(sha, used + {f.id}, x) {
      if x != GENESIS {
        var q, g :| x == RowHash(sha, q, g) && SEPARATOR !in q && SEPARATOR !in g.id && g.id in used;
        assert g.id in used + {f.id};
      }
    }
    assert Known(sha, used + {f.id}, Stored(r)) by { assert f.id in used + {f.id}; }
    forall j | 0 <= j < |rows| ensures !Links(rows[j], Stored(r)) { assert rows[j] in rows; }
    TrunkGrows(rows, path, r);
  }

  // ---- The report of a live chain ----

  ghost function OrphanList(rows: seq<Row>, path: seq<nat>): seq<OrphanedRow> {
    Sort(Map(Unreached(rows, Elements(path), |rows|), Orphaned), OrphanedEarlier)
  }

  lemma LiveReport(sha: string -> string, rows: seq<Row>, path: seq<nat>, used: set<string>)
    requires Live(sha, rows, path, used)
    ensures Report(HashWith(sha), rows) == WalkResult(
              Verification(|rows|, |Filter(rows, IsLegacy)|, |path|, [], OrphanList(rows, path), None),
              HashAfter(rows, path, |path|), false)
  {
    TrunkIsWalk(rows, path);
    LiveLists(sha, rows, path, used);
    hide Walk, Unreached, IsTrunk, Known, Genuine, Pick, ForkSeen;
    assert IdAt(rows, None) == None;
  }

  lemma LiveLists(sha: string -> string, rows: seq<Row>, path: seq<nat>, used: set<string>)
    requires Live(sha, rows, path, used)
    ensures Filter(PathRows(rows, path), IsVerified(HashWith(sha))) == PathRows(rows, path)
    ensures TamperedList(HashWith(sha), rows, PathRows(rows, path)) == []
    ensures Sort<TamperedRow>([], TamperedEarlier) == []
  {
    hide RowHash, Filter;
    var walked := PathRows(rows, path);
    var hash := HashWith(sha);
    forall k | 0 <= k < |path| ensures IsVerified(hash)(walked[k]) {
      assert TrunkAt(rows, path, k);
      assert rows[path[k]] in rows;
    }
    FilterAll(walked, IsVerified(hash));
    FilterNone(walked, IsAltered(hash));
    FilterNone(rows, IsHalfSet);
  }

  lemma {:induction false} FilterAll<T>(s: seq<T>, p: T -> bool)
    requires forall k :: 0 <= k < |s| ==> p(s[k])
    ensures Filter(s, p) == s
  {
    if s == [] {
    } else {
      FilterAll(s[..|s| - 1], p);
      assert s == s[..|s| - 1] + [s[|s| - 1]];
    }
  }

  lemma {:induction false} FilterNone<T>(s: seq<T>, p: T -> bool)
    requires forall k :: 0 <= k < |s| ==> !p(s[k])
    ensures Filter(s, p) == []
  {
    if s == [] {
    } else {
      FilterNone(s[..|s| - 1], p);
    }
  }
}
