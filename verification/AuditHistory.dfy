/** Whole histories of one writer: appends, then an edit or a deletion, then more appends. */
module AuditHistory {
  import opened Wrappers
  import opened Ordering
  import opened AuditHash
  import opened Orbits
  import opened AuditChain
  import opened AuditTrunk

  /** Rows a writer may append: ids are new, distinct and free of the separator. */
  ghost predicate FreshIds(fs: seq<Fields>, used: set<string>) {
    && (forall j :: 0 <= j < |fs| ==> SEPARATOR !in fs[j].id && fs[j].id !in used)
    && (forall j, k :: 0 <= j < k < |fs| ==> fs[j].id != fs[k].id)
  }

  ghost function Ids(fs: seq<Fields>): set<string> {
    if fs == [] then {} else Ids(fs[..|fs| - 1]) + {fs[|fs| - 1].id}
  }

  /** The indices from `a` up to `b`. */
  ghost function Span(a: nat, b: nat): (s: seq<nat>)
    ensures |s| == (if a <= b then b - a else 0)
    ensures forall i: nat :: i in s <==> a <= i < b
  {
    if b <= a then [] else Span(a, b - 1) + [b - 1]
  }

  lemma LastOfSpan(a: nat, b: nat)
    ensures a < b ==> Span(a, b)[|Span(a, b)| - 1] == b - 1
  {
  }

  lemma {:induction false} FreshAmongIds(fs: seq<Fields>, id: string)
    ensures id in Ids(fs) <==> exists j :: 0 <= j < |fs| && fs[j].id == id
  {
    if fs == [] {
    } else {
      FreshAmongIds(fs[..|fs| - 1], id);
    }
  }

  lemma AppendLength(sha: string -> string, rows: seq<Row>, f: Fields)
    ensures |Append(sha, rows, f)| == |rows| + 1
  {
  }

  lemma {:induction false} AppendAllKeepsLive(
    sha: string -> string, rows: seq<Row>, path: seq<nat>, used: set<string>, fs: seq<Fields>)
    requires CollisionFree(sha) && Live(sha, rows, path, used) && FreshIds(fs, used)
    ensures |AppendAll(sha, rows, fs)| == |rows| + |fs|
    ensures Live(sha, AppendAll(sha, rows, fs), path + Span(|rows|, |rows| + |fs|), used + Ids(fs))
  {
    hide Live, Append, CollisionFree;
    if fs == [] {
      assert path + Span(|rows|, |rows|) == path && used + Ids(fs) == used;
    } else {
      var n := |fs| - 1;
      var before := AppendAll(sha, rows, fs[..n]);
      AppendAllKeepsLive(sha, rows, path, used, fs[..n]);
      FreshAmongIds(fs[..n], fs[n].id);
      AppendKeepsLive(sha, before, path + Span(|rows|, |rows| + n), used + Ids(fs[..n]), fs[n]);
      AppendLength(sha, before, fs[n]);
      assert path + Span(|rows|, |rows| + n) + [|rows| + n] == path + Span(|rows|, |rows| + n + 1);
      assert used + Ids(fs[..n]) + {fs[n].id} == used + Ids(fs);
    }
  }

  /** The table is `rows` followed by one hashed row per appended record. */
  ghost predicate Extends(rows: seq<Row>, r: seq<Row>, fs: seq<Fields>) {
    && |r| == |rows| + |fs|
    && r[..|rows|] == rows
    && forall j :: |rows| <= j < |r| ==> IsHashed(r[j]) && r[j].fields == fs[j - |rows|]
  }

  lemma ExtendsNothing(rows: seq<Row>)
    ensures Extends(rows, rows, [])
  {
  }

  lemma ExtendsMore(rows: seq<Row>, before: seq<Row>, fs: seq<Fields>, r: Row)
    requires Extends(rows, before, fs) && IsHashed(r)
    ensures Extends(rows, before + [r], fs + [r.fields])
  {
  }

  lemma {:induction false} AppendAllExtends(sha: string -> string, rows: seq<Row>, fs: seq<Fields>)
    ensures Extends(rows, AppendAll(sha, rows, fs), fs)
  {
    hide Head, RowHash, Extends;
    ExtendsNothing(rows);
    if fs == [] {
    } else {
      var n := |fs| - 1;
      var before := AppendAll(sha, rows, fs[..n]);
      AppendAllExtends(sha, rows, fs[..n]);
      ExtendsMore(rows, before, fs[..n], NewRow(sha, before, fs[n]));
      assert fs[..n] + [fs[n]] == fs;
    }
  }

  lemma LegacyIsLive(sha: string -> string, legacy: seq<Row>)
    requires forall r :: r in legacy ==> IsLegacy(r)
    ensures Live(sha, legacy, [], {})
  {
    forall j | 0 <= j < |legacy| ensures !Links(legacy[j], GENESIS) { assert legacy[j] in legacy; }
  }

  // ---- Which rows are left unreached ----

  lemma {:induction false} UnreachedSkips(rows: seq<Row>, reached: set<nat>, a: nat, b: nat)
    requires a <= b <= |rows|
    requires forall i :: a <= i < b ==> i in reached || !IsHashed(rows[i])
    ensures Unreached(rows, reached, b) == Unreached(rows, reached, a)
  {
    if a == b {
    } else {
      UnreachedSkips(rows, reached, a, b - 1);
    }
  }

  lemma {:induction false} UnreachedTakes(rows: seq<Row>, reached: set<nat>, a: nat, b: nat)
    requires a <= b <= |rows|
    requires forall i :: a <= i < b ==> i !in reached && IsHashed(rows[i])
    ensures Unreached(rows, reached, b) == Unreached(rows, reached, a) + rows[a..b]
  {
    if a == b {
    } else {
      UnreachedTakes(rows, reached, a, b - 1);
      assert rows[a..b] == rows[a..b - 1] + [rows[b - 1]];
    }
  }

  /** The head after a writer's appends to `legacy` rows that carry no hashes. */
  ghost function LastHash(rows: seq<Row>, legacy: nat): string
    requires legacy <= |rows|
  {
    if |rows| == legacy then GENESIS else Stored(rows[|rows| - 1])
  }

  lemma {:induction false} LegacyCount(legacy: seq<Row>, rows: seq<Row>, fs: seq<Fields>)
    requires Extends(legacy, rows, fs)
    requires forall r :: r in legacy ==> IsLegacy(r)
    ensures |Filter(rows, IsLegacy)| == |legacy|
  {
    if fs == [] {
      assert rows == legacy;
      FilterAll(rows, IsLegacy);
    } else {
      var before := rows[..|rows| - 1];
      assert before[..|legacy|] == legacy;
      LegacyCount(legacy, before, fs[..|fs| - 1]);
    }
  }

  lemma NoneUnreached(legacy: seq<Row>, rows: seq<Row>, fs: seq<Fields>)
    requires Extends(legacy, rows, fs)
    requires forall r :: r in legacy ==> IsLegacy(r)
    ensures OrphanList(rows, Span(|legacy|, |rows|)) == []
  {
    var reached := Elements(Span(|legacy|, |rows|));
    forall i: nat | i < |rows| ensures i in reached || !IsHashed(rows[i]) {
      if i < |legacy| { assert rows[..|legacy|][i] in legacy; }
    }
    UnreachedSkips(rows, reached, 0, |rows|);
  }

  /** One writer, any number of appends: every hashed row verifies, whatever the timestamps. */
  lemma SingleWriterVerifies(sha: string -> string, legacy: seq<Row>, fs: seq<Fields>)
    requires CollisionFree(sha) && FreshIds(fs, {})
    requires forall r :: r in legacy ==> IsLegacy(r)
    ensures |AppendAll(sha, legacy, fs)| == |legacy| + |fs|
    ensures Report(HashWith(sha), AppendAll(sha, legacy, fs)) == WalkResult(
              Verification(|legacy| + |fs|, |legacy|, |fs|, [], [], None),
              LastHash(AppendAll(sha, legacy, fs), |legacy|), false)
  {
    hide CollisionFree, FreshIds, Live, Walk, Report, OrphanList, Filter, AppendAll, Span;
    var rows, path := AppendAll(sha, legacy, fs), Span(|legacy|, |legacy| + |fs|);
    LegacyIsLive(sha, legacy);
    AppendAllKeepsLive(sha, legacy, [], {}, fs);
    assert [] + path == path && {} + Ids(fs) == Ids(fs);
    AppendAllExtends(sha, legacy, fs);
    LiveReport(sha, rows, path, Ids(fs));
    LegacyCount(legacy, rows, fs);
    NoneUnreached(legacy, rows, fs);
    LastOfSpan(|legacy|, |rows|);
  }

  // ---- Deleting a row, then going on ----

  ghost function Without(rows: seq<Row>, d: nat): (cut: seq<Row>)
    requires d < |rows|
    ensures |cut| == |rows| - 1
  {
    rows[..d] + rows[d + 1..]
  }

  lemma {:induction false} SpanAt(a: nat, b: nat, k: nat)
    requires a + k < b
    ensures Span(a, b)[k] == a + k
  {
    if a + k == b - 1 {
    } else {
      SpanAt(a, b - 1, k);
    }
  }

  lemma HashOnSpan(rows: seq<Row>, a: nat, b: nat, k: nat)
    requires a + k <= b <= |rows| && InTable(rows, Span(a, b))
    ensures HashAfter(rows, Span(a, b), k) == if k == 0 then GENESIS else Stored(rows[a + k - 1])
  {
    if k > 0 { SpanAt(a, b, k - 1); }
  }

  lemma SpanInTable(rows: seq<Row>, a: nat, b: nat)
    requires b <= |rows|
    ensures InTable(rows, Span(a, b)) && NoRepeats(Span(a, b))
  {
    forall k | 0 <= k < |Span(a, b)| ensures Span(a, b)[k] == a + k { SpanAt(a, b, k); }
  }

  lemma SoleLinkSurvives(rows: seq<Row>, h: string, i: nat, d: nat)
    requires SoleLink(rows, h, i) && i < d < |rows|
    ensures SoleLink(Without(rows, d), h, i)
  {
    var cut := Without(rows, d);
    forall j | 0 <= j < |cut| && Links(cut[j], h) ensures j == i {
      assert cut[j] == rows[if j < d then j else j + 1];
    }
  }

  lemma SoleLinkGone(rows: seq<Row>, h: string, d: nat)
    requires SoleLink(rows, h, d)
    ensures NoLink(Without(rows, d), h)
  {
    var cut := Without(rows, d);
    forall j | 0 <= j < |cut| ensures !Links(cut[j], h) {
      assert cut[j] == rows[if j < d then j else j + 1];
    }
  }

  lemma HashBeforeCut(rows: seq<Row>, a: nat, d: nat, k: nat)
    requires a + k <= d < |rows| && InTable(rows, Span(a, |rows|)) && InTable(Without(rows, d), Span(a, d))
    ensures HashAfter(Without(rows, d), Span(a, d), k) == HashAfter(rows, Span(a, |rows|), k)
  {
    HashOnSpan(rows, a, |rows|, k);
    HashOnSpan(Without(rows, d), a, d, k);
  }

  lemma TrunkBeforeCut(rows: seq<Row>, a: nat, d: nat, k: nat)
    requires IsTrunk(rows, Span(a, |rows|)) && a + k < d < |rows| && InTable(Without(rows, d), Span(a, d))
    ensures TrunkAt(Without(rows, d), Span(a, d), k)
  {
    hide SoleLink, Span, Without, NoLink, NoRepeats;
    assert TrunkAt(rows, Span(a, |rows|), k);
    SpanAt(a, |rows|, k);
    SpanAt(a, d, k);
    HashBeforeCut(rows, a, d, k);
    SoleLinkSurvives(rows, HashAfter(rows, Span(a, |rows|), k), a + k, d);
  }

  /** Deleting row `d` of a chain leaves the part before it live. */
  lemma CutKeepsLive(sha: string -> string, rows: seq<Row>, a: nat, d: nat, used: set<string>)
    requires Live(sha, rows, Span(a, |rows|), used) && a <= d < |rows|
    ensures Live(sha, Without(rows, d), Span(a, d), used)
  {
    WithoutKeeps(rows, d);
    hide Known, Genuine, SoleLink, NoLink, Span, Without;
    SpanInTable(Without(rows, d), a, d);
    forall k: nat | k < d - a ensures TrunkAt(Without(rows, d), Span(a, d), k) {
      TrunkBeforeCut(rows, a, d, k);
    }
    HashBeforeCut(rows, a, d, d - a);
    assert TrunkAt(rows, Span(a, |rows|), d - a);
    SpanAt(a, |rows|, d - a);
    SoleLinkGone(rows, HashAfter(rows, Span(a, |rows|), d - a), d);
    EndIsKnown(sha, rows, HashAfter(rows, Span(a, |rows|), d - a), d, used);
  }

  lemma WithoutKeeps(rows: seq<Row>, d: nat)
    requires d < |rows|
    ensures forall r :: r in Without(rows, d) ==> r in rows
  {
  }

  lemma EndIsKnown(sha: string -> string, rows: seq<Row>, h: string, d: nat, used: set<string>)
    requires SoleLink(rows, h, d)
    requires forall r :: r in rows ==> IsLegacy(r) || Genuine(sha, used, r)
    ensures Known(sha, used, h)
  {
    assert rows[d] in rows;
  }

  /** The orphaned island: the rows after the deleted one, and nothing else. */
  lemma IslandUnreached(rows: seq<Row>, a: nat, d: nat, b: nat)
    requires a <= d <= b <= |rows|
    requires forall i :: 0 <= i < |rows| ==> (IsHashed(rows[i]) <==> a <= i)
    ensures Unreached(rows, Elements(Span(a, d) + Span(b, |rows|)), |rows|) == rows[d..b]
  {
    var reached := Elements(Span(a, d) + Span(b, |rows|));
    forall i: nat ensures i in reached <==> a <= i < d || b <= i < |rows| {}
    UnreachedSkips(rows, reached, 0, d);
    UnreachedTakes(rows, reached, d, b);
    UnreachedSkips(rows, reached, b, |rows|);
  }

  lemma FreshSplit(fs: seq<Fields>, gs: seq<Fields>)
    requires FreshIds(fs + gs, {})
    ensures FreshIds(fs, {}) && FreshIds(gs, Ids(fs))
  {
    var all := fs + gs;
    forall j | 0 <= j < |fs| ensures SEPARATOR !in fs[j].id { assert all[j] == fs[j]; }
    forall j, k | 0 <= j < k < |fs| ensures fs[j].id != fs[k].id { assert all[j] == fs[j] && all[k] == fs[k]; }
    forall j | 0 <= j < |gs| ensures SEPARATOR !in gs[j].id && gs[j].id !in Ids(fs) {
      assert all[|fs| + j] == gs[j];
      FreshAmongIds(fs, gs[j].id);
      forall i | 0 <= i < |fs| ensures fs[i].id != gs[j].id { assert all[i] == fs[i]; }
    }
    forall j, k | 0 <= j < k < |gs| ensures gs[j].id != gs[k].id {
      assert all[|fs| + j] == gs[j] && all[|fs| + k] == gs[k];
    }
  }

  lemma ExtendsCut(legacy: seq<Row>, rows: seq<Row>, fs: seq<Fields>, k: nat, after: seq<Row>, gs: seq<Fields>)
    requires Extends(legacy, rows, fs) && k < |fs|
    requires Extends(Without(rows, |legacy| + k), after, gs)
    ensures Extends(legacy, after, fs[..k] + fs[k + 1..] + gs)
    ensures after[|legacy| + k..|rows| - 1] == rows[|legacy| + k + 1..]
    ensures |after| == |rows| - 1 + |gs|
    ensures k > 0 ==> after[|legacy| + k - 1] == rows[|legacy| + k - 1]
  {
    var d := |legacy| + k;
    var cut := Without(rows, d);
    assert after[..|cut|] == cut;
    forall j | |legacy| <= j < |after|
      ensures IsHashed(after[j]) && after[j].fields == (fs[..k] + fs[k + 1..] + gs)[j - |legacy|]
    {
      if j < |cut| {
        assert after[j] == cut[j] == rows[if j < d then j else j + 1];
      }
    }
    assert after[..|legacy|] == cut[..|legacy|] == rows[..|legacy|];
    assert after[d..|rows| - 1] == cut[d..] == rows[d + 1..];
  }

  /** Deleting row `k` of a chain orphans exactly its successors and makes row `k - 1` the head;
      whatever is appended later verifies, and the orphaned island stays exactly as it was. */
  lemma DeletionOrphansSuccessors(
    sha: string -> string, legacy: seq<Row>, fs: seq<Fields>, k: nat, gs: seq<Fields>)
    requires CollisionFree(sha) && FreshIds(fs + gs, {}) && k < |fs|
    requires forall r :: r in legacy ==> IsLegacy(r)
    ensures |AppendAll(sha, legacy, fs)| == |legacy| + |fs|
    ensures var rows := AppendAll(sha, legacy, fs);
            var d := |legacy| + k;
            var after := AppendAll(sha, Without(rows, d), gs);
            && |after| == |rows| - 1 + |gs|
            && Report(HashWith(sha), after) == WalkResult(
                 Verification(|after|, |legacy|, k + |gs|, [],
                              Sort(Map(rows[d + 1..], Orphaned), OrphanedEarlier), None),
                 if gs != [] then Stored(after[|after| - 1]) else if k == 0 then GENESIS else Stored(rows[d - 1]),
                 false)
  {
    hide CollisionFree, FreshIds, Live, Walk, Report, Filter, AppendAll, Span, Extends, Without, Sort, Map, HashWith;
    hide Ids;
    var rows, d := AppendAll(sha, legacy, fs), |legacy| + k;
    FreshSplit(fs, gs);
    LegacyIsLive(sha, legacy);
    AppendAllKeepsLive(sha, legacy, [], {}, fs);
    PlusNothing(Span(|legacy|, |rows|), Ids(fs));
    CutKeepsLive(sha, rows, |legacy|, d, Ids(fs));
    var cut := Without(rows, d);
    AppendAllKeepsLive(sha, cut, Span(|legacy|, d), Ids(fs), gs);
    AppendAllExtends(sha, legacy, fs);
    AppendAllExtends(sha, cut, gs);
    CutReport(sha, legacy, fs, k, gs, rows, AppendAll(sha, cut, gs), Ids(fs) + Ids(gs));
  }

  /** The report accuses no row. */
  predicate Clears(v: Verification) {
    v.tamperedRows == [] && v.orphanedRows == [] && v.cycleAt.None?
  }

  /** A deletion is reported exactly when the row has a successor, whatever is appended later; without the last
      row the table is the one of a writer that never wrote it. */
  lemma DeletionReportedExactly(
    sha: string -> string, legacy: seq<Row>, fs: seq<Fields>, k: nat, gs: seq<Fields>)
    requires CollisionFree(sha) && FreshIds(fs + gs, {}) && k < |fs|
    requires forall r :: r in legacy ==> IsLegacy(r)
    ensures |AppendAll(sha, legacy, fs)| == |legacy| + |fs|
    ensures var rows, last := AppendAll(sha, legacy, fs), |fs| - 1;
            && (Clears(Report(HashWith(sha), AppendAll(sha, Without(rows, |legacy| + k), gs)).verification)
                <==> k == last)
            && Without(rows, |legacy| + last) == AppendAll(sha, legacy, fs[..last])
  {
    hide CollisionFree, FreshIds, Report, HashWith, Orphaned;
    DeletionOrphansSuccessors(sha, legacy, fs, k, gs);
    hide AppendAll;
    var rows, d := AppendAll(sha, legacy, fs), |legacy| + k;
    SortPermutes(Map(rows[d + 1..], Orphaned), OrphanedEarlier);
    LastAppended(sha, legacy, fs);
  }

  lemma LastAppended(sha: string -> string, legacy: seq<Row>, fs: seq<Fields>)
    requires fs != [] && |AppendAll(sha, legacy, fs)| == |legacy| + |fs|
    ensures Without(AppendAll(sha, legacy, fs), |legacy| + |fs| - 1) == AppendAll(sha, legacy, fs[..|fs| - 1])
  {
    AppendLength(sha, AppendAll(sha, legacy, fs[..|fs| - 1]), fs[|fs| - 1]);
  }

  lemma PlusNothing(path: seq<nat>, used: set<string>)
    ensures [] + path == path && {} + used == used
  {
  }

  lemma CutReport(sha: string -> string, legacy: seq<Row>, fs: seq<Fields>, k: nat, gs: seq<Fields>,
                  rows: seq<Row>, after: seq<Row>, used: set<string>)
    requires Extends(legacy, rows, fs) && k < |fs| && |rows| == |legacy| + |fs|
    requires Extends(Without(rows, |legacy| + k), after, gs)
    requires forall r :: r in legacy ==> IsLegacy(r)
    requires Live(sha, after, Span(|legacy|, |legacy| + k) + Span(|rows| - 1, |rows| - 1 + |gs|), used)
    ensures var d := |legacy| + k;
            Report(HashWith(sha), after) == WalkResult(
                 Verification(|after|, |legacy|, k + |gs|, [],
                              Sort(Map(rows[d + 1..], Orphaned), OrphanedEarlier), None),
                 if gs != [] then Stored(after[|after| - 1]) else if k == 0 then GENESIS else Stored(rows[d - 1]),
                 false)
  {
    hide Live, Walk, Report, Filter, Extends, Without, Unreached, Sort, Map;
    var (d, b) := (|legacy| + k, |rows| - 1);
    ExtendsCut(legacy, rows, fs, k, after, gs);
    LegacyCount(legacy, after, fs[..k] + fs[k + 1..] + gs);
    HashedTail(legacy, after, fs[..k] + fs[k + 1..] + gs);
    IslandUnreached(after, |legacy|, d, b);
    assert |after| == b + |gs|;
    LiveReport(sha, after, Span(|legacy|, d) + Span(b, |after|), used);
    LastOfSpan(|legacy|, d);
    LastOfSpan(b, |after|);
  }

  lemma HashedTail(legacy: seq<Row>, rows: seq<Row>, fs: seq<Fields>)
    requires Extends(legacy, rows, fs)
    requires forall r :: r in legacy ==> IsLegacy(r)
    ensures forall i :: 0 <= i < |rows| ==> (IsHashed(rows[i]) <==> |legacy| <= i)
  {
    forall i | 0 <= i < |legacy| ensures !IsHashed(rows[i]) { assert rows[..|legacy|][i] in legacy; }
  }

  // ---- Editing a row ----

  lemma EditKeepsTrunk(rows: seq<Row>, path: seq<nat>, i: nat, g: Fields)
    requires IsTrunk(rows, path) && i < |rows|
    ensures IsTrunk(rows[i := rows[i].(fields := g)], path)
    ensures forall k :: 0 <= k <= |path| ==>
      HashAfter(rows[i := rows[i].(fields := g)], path, k) == HashAfter(rows, path, k)
  {
    var edited := rows[i := rows[i].(fields := g)];
    forall k | 0 <= k <= |path| ensures HashAfter(edited, path, k) == HashAfter(rows, path, k) {}
    forall j, h | 0 <= j < |rows| ensures Links(edited[j], h) <==> Links(rows[j], h) {}
    forall k: nat | k < |path| ensures TrunkAt(edited, path, k) {
      assert TrunkAt(rows, path, k);
    }
  }

  lemma {:induction false} FilterOne<T>(s: seq<T>, p: T -> bool, k: nat)
    requires k < |s| && forall j :: 0 <= j < |s| ==> (p(s[j]) <==> j == k)
    ensures Filter(s, p) == [s[k]]
  {
    var n := |s| - 1;
    if k == n {
      FilterNone(s[..n], p);
    } else {
      FilterOne(s[..n], p, k);
    }
  }

  lemma {:induction false} FilterSplits<T>(s: seq<T>, p: T -> bool, q: T -> bool)
    requires forall j :: 0 <= j < |s| ==> (p(s[j]) <==> !q(s[j]))
    ensures |Filter(s, p)| + |Filter(s, q)| == |s|
  {
    if s == [] {
    } else {
      FilterSplits(s[..|s| - 1], p, q);
    }
  }

  /** Overwriting the hashed columns of row `i` with `g`, leaving both hash columns alone. */
  ghost function Edited(rows: seq<Row>, i: nat, g: Fields): (e: seq<Row>)
    requires i < |rows|
    ensures |e| == |rows|
  {
    rows[i := rows[i].(fields := g)]
  }

  /** The edit passes the row's own hash check exactly when it leaves the encoding unchanged; if no column
      of the row held a separator, that is when it leaves every column's text unchanged. */
  lemma EditDetected(sha: string -> string, r: Row, g: Fields)
    requires CollisionFree(sha) && IsHashed(r) && Intact(HashWith(sha), r)
    ensures Intact(HashWith(sha), r.(fields := g)) <==> CanonicalRow(g) == CanonicalRow(r.fields)
    ensures SeparatorFree(Parts(r.fields)) ==>
              (Intact(HashWith(sha), r.(fields := g)) <==> Parts(g) == Parts(r.fields))
  {
    var p, x, y := r.prevHash.value, CanonicalRow(g), CanonicalRow(r.fields);
    hide CanonicalRow, Parts, SeparatorFree;
    assert (p + x)[|p|..] == x && (p + y)[|p|..] == y;
    if SeparatorFree(Parts(r.fields)) {
      CanonicalRowFaithful(r.fields, g);
    }
  }

  /** The hash check finds every edit of a row's columns exactly when none of them held a separator. */
  lemma EveryEditDetectedExactly(sha: string -> string, r: Row)
    requires CollisionFree(sha) && IsHashed(r) && Intact(HashWith(sha), r)
    ensures (forall g :: Parts(g) != Parts(r.fields) ==> !Intact(HashWith(sha), r.(fields := g)))
       <==> SeparatorFree(Parts(r.fields))
  {
    hide CanonicalRow, Parts, SeparatorFree, CollisionFree, Intact;
    if SeparatorFree(Parts(r.fields)) {
      forall g | Parts(g) != Parts(r.fields) ensures !Intact(HashWith(sha), r.(fields := g)) {
        EditDetected(sha, r, g);
      }
    } else {
      var g := SeparatorInAColumnIsAmbiguous(r.fields);
      EditDetected(sha, r, g);
    }
  }

  ghost predicate Chained(sha: string -> string, rows: seq<Row>, a: nat, used: set<string>) {
    && a <= |rows| && Live(sha, rows, Span(a, |rows|), used)
    && forall i :: 0 <= i < |rows| ==> (IsHashed(rows[i]) <==> a <= i) && (IsLegacy(rows[i]) <==> i < a)
  }

  /** The lists of the report after one edit. */
  lemma EditedLists(sha: string -> string, rows: seq<Row>, a: nat, i: nat, g: Fields, used: set<string>)
    requires CollisionFree(sha) && Chained(sha, rows, a, used) && a <= i < |rows|
    requires InTable(Edited(rows, i, g), Span(a, |rows|))
    ensures var (edited, hash) := (Edited(rows, i, g), HashWith(sha));
            var walked := PathRows(edited, Span(a, |rows|));
            var same := CanonicalRow(g) == CanonicalRow(rows[i].fields);
            && Filter(walked, IsAltered(hash)) == (if same then [] else [edited[i]])
            && |Filter(walked, IsVerified(hash))| == |rows| - a - if same then 0 else 1
  {
    hide Filter, CanonicalRow, RowHash, CollisionFree, Span, IsTrunk, Known;
    var (edited, hash) := (Edited(rows, i, g), HashWith(sha));
    var walked := PathRows(edited, Span(a, |rows|));
    forall j | 0 <= j < |walked| ensures walked[j] == edited[a + j] && IsHashed(walked[j]) {
      SpanAt(a, |rows|, j);
    }
    forall j | 0 <= j < |walked|
      ensures IsVerified(hash)(walked[j]) <==> !IsAltered(hash)(walked[j])
      ensures j != i - a ==> IsVerified(hash)(walked[j])
    {
      if a + j != i { assert edited[a + j] == rows[a + j] && rows[a + j] in rows; }
    }
    FilterSplits(walked, IsVerified(hash), IsAltered(hash));
    assert rows[i] in rows;
    EditDetected(sha, rows[i], g);
    if CanonicalRow(g) == CanonicalRow(rows[i].fields) {
      FilterNone(walked, IsAltered(hash));
    } else {
      FilterOne(walked, IsAltered(hash), i - a);
    }
  }

  lemma EditedKeepsClasses(rows: seq<Row>, i: nat, g: Fields, p: Row -> bool)
    requires i < |rows| && forall r: Row, f: Fields :: p(r.(fields := f)) == p(r)
    ensures |Filter(Edited(rows, i, g), p)| == |Filter(rows, p)|
  {
    var edited := Edited(rows, i, g);
    forall j | 0 <= j < |rows| ensures p(edited[j]) == p(rows[j]) {}
    SameFilterSize(rows, edited, p);
  }

  lemma {:induction false} SameFilterSize(s: seq<Row>, t: seq<Row>, p: Row -> bool)
    requires |s| == |t| && forall j :: 0 <= j < |s| ==> p(s[j]) == p(t[j])
    ensures |Filter(s, p)| == |Filter(t, p)|
  {
    if s == [] {
    } else {
      SameFilterSize(s[..|s| - 1], t[..|s| - 1], p);
    }
  }

  lemma AllReached(rows: seq<Row>, a: nat)
    requires a <= |rows| && forall i :: 0 <= i < a ==> !IsHashed(rows[i])
    ensures OrphanList(rows, Span(a, |rows|)) == []
  {
    UnreachedSkips(rows, Elements(Span(a, |rows|)), 0, |rows|);
  }

  /** The report with nothing amiss, except that row `i` is accused if its encoding changed. */
  ghost function AccusedAtMost(sha: string -> string, rows: seq<Row>, a: nat, i: nat, g: Fields): WalkResult
    requires a <= i < |rows|
  {
    var same := CanonicalRow(g) == CanonicalRow(rows[i].fields);
    WalkResult(
      Verification(|rows|, |Filter(rows, IsLegacy)|, |rows| - a - (if same then 0 else 1),
                   if same then [] else [TamperedRow(g.id, g.actionTime, ContentTampered)], [], None),
      Report(HashWith(sha), rows).head, false)
  }

  /** Editing a chain row is reported as tampering with exactly that row, if and only if the edit
      changes the row's encoding; every other row still verifies and nothing is orphaned. */
  lemma EditIsPinpointed(sha: string -> string, rows: seq<Row>, a: nat, i: nat, g: Fields, used: set<string>)
    requires CollisionFree(sha) && Chained(sha, rows, a, used) && a <= i < |rows|
    ensures Report(HashWith(sha), Edited(rows, i, g)) == AccusedAtMost(sha, rows, a, i, g)
  {
    EditTrail(sha, rows, a, i, g, used);
    EditedLists(sha, rows, a, i, g, used);
    EditedTampered(sha, rows, a, i, g, used);
    EditedKeepsClasses(rows, i, g, IsLegacy);
    hide Filter, CanonicalRow, CollisionFree, Span, Walk, Map, Sort, Intact, TamperedList, Chained;
    hide ForkSeen, HashAfter, Unreached, PathRows, Edited;
  }

  /** The report accuses exactly the edited row. */
  ghost predicate Accused(hash: HashFn, edited: seq<Row>, i: nat)
    requires i < |edited|
  {
    Report(hash, edited).verification.tamperedRows
    == [TamperedRow(edited[i].fields.id, edited[i].fields.actionTime, ContentTampered)]
  }

  /** Verification reports every edit of a chain row's columns, as tampering with that row alone, exactly
      when none of the columns it was written with held a separator. */
  lemma EveryEditIsReportedExactly(sha: string -> string, rows: seq<Row>, a: nat, i: nat, used: set<string>)
    requires CollisionFree(sha) && Chained(sha, rows, a, used) && a <= i < |rows|
    ensures (forall g :: Parts(g) != Parts(rows[i].fields) ==> Accused(HashWith(sha), Edited(rows, i, g), i))
       <==> SeparatorFree(Parts(rows[i].fields))
  {
    hide CanonicalRow, Parts, SeparatorFree, CollisionFree, Chained, Report, Filter;
    var f := rows[i].fields;
    if SeparatorFree(Parts(f)) {
      forall g | Parts(g) != Parts(f) ensures Accused(HashWith(sha), Edited(rows, i, g), i) {
        CanonicalRowFaithful(f, g);
        EditIsPinpointed(sha, rows, a, i, g, used);
      }
    } else {
      var g := SeparatorInAColumnIsAmbiguous(f);
      EditIsPinpointed(sha, rows, a, i, g, used);
    }
  }

  lemma NoHalfSet(sha: string -> string, rows: seq<Row>, a: nat, i: nat, g: Fields, used: set<string>)
    requires Chained(sha, rows, a, used) && i < |rows|
    ensures Filter(Edited(rows, i, g), IsHalfSet) == []
  {
    hide Live;
    FilterNone(Edited(rows, i, g), IsHalfSet);
  }

  lemma EditedTampered(sha: string -> string, rows: seq<Row>, a: nat, i: nat, g: Fields, used: set<string>)
    requires CollisionFree(sha) && Chained(sha, rows, a, used) && a <= i < |rows|
    requires InTable(Edited(rows, i, g), Span(a, |rows|))
    ensures var (edited, hash) := (Edited(rows, i, g), HashWith(sha));
            Sort(TamperedList(hash, edited, PathRows(edited, Span(a, |rows|))), TamperedEarlier)
            == if CanonicalRow(g) == CanonicalRow(rows[i].fields) then [] else [Tampered(ContentTampered)(edited[i])]
  {
    NoHalfSet(sha, rows, a, i, g, used);
    EditedLists(sha, rows, a, i, g, used);
    var edited := Edited(rows, i, g);
    hide Filter, CanonicalRow, CollisionFree, Span, Map, Sort, Intact, Chained, PathRows, Edited, IsAltered;
  }

  /** The edit changes no link: same path, no fork, same head. */
  lemma EditTrail(sha: string -> string, rows: seq<Row>, a: nat, i: nat, g: Fields, used: set<string>)
    requires Chained(sha, rows, a, used) && a <= i < |rows|
    ensures var (edited, path) := (Edited(rows, i, g), Span(a, |rows|));
            && InTable(edited, path) && Walk(edited) == Trail(path, None) && !ForkSeen(edited, path, |path| + 1)
            && HashAfter(edited, path, |path|) == Report(HashWith(sha), rows).head
            && Sort(Map(Unreached(edited, Elements(path), |rows|), Orphaned), OrphanedEarlier) == []
  {
    hide Span, Walk, Intact, TrunkAt, Filter, Sort, Map, Unreached, RowHash;
    EditKeepsTrunk(rows, Span(a, |rows|), i, g);
    TrunkIsWalk(Edited(rows, i, g), Span(a, |rows|));
    LiveReport(sha, rows, Span(a, |rows|), used);
    AllReached(Edited(rows, i, g), a);
  }

  /** A single writer's table is such a chain, so the edit law applies to every row it wrote. */
  lemma SingleWriterIsChained(sha: string -> string, legacy: seq<Row>, fs: seq<Fields>)
    requires CollisionFree(sha) && FreshIds(fs, {})
    requires forall r :: r in legacy ==> IsLegacy(r)
    ensures Chained(sha, AppendAll(sha, legacy, fs), |legacy|, Ids(fs))
  {
    hide CollisionFree, FreshIds, Live, AppendAll, Span;
    LegacyIsLive(sha, legacy);
    AppendAllKeepsLive(sha, legacy, [], {}, fs);
    assert [] + Span(|legacy|, |legacy| + |fs|) == Span(|legacy|, |legacy| + |fs|) && {} + Ids(fs) == Ids(fs);
    AppendAllExtends(sha, legacy, fs);
    var rows := AppendAll(sha, legacy, fs);
    forall i | 0 <= i < |legacy| ensures IsLegacy(rows[i]) { assert rows[..|legacy|][i] in legacy; }
  }
}
