/** The report does not depend on the order in which the rows arrive. */
module AuditOrder {
  import opened Ordering
  import opened AuditHash
  import opened Orbits
  import opened AuditChain

  /** `id` is the primary key of `audit_logs`. */
  ghost predicate UniqueIds(rows: seq<Row>) {
    forall i, j :: 0 <= i < j < |rows| ==> rows[i].fields.id != rows[j].fields.id
  }

  lemma KeyOrder(rows: seq<Row>)
    ensures StrictWeakOrder(IndexLess(rows))
  {
    forall a: nat, b: nat | IndexLess(rows)(a, b) ensures !IndexLess(rows)(b, a) {
      PairLessTotal(KeyAt(rows, a), KeyAt(rows, b));
    }
    forall a: nat, b: nat, c: nat | !IndexLess(rows)(b, a) && !IndexLess(rows)(c, b)
      ensures !IndexLess(rows)(c, a)
    {
      PairLessNegTransitive(KeyAt(rows, a), KeyAt(rows, b), KeyAt(rows, c));
    }
  }

  lemma PairLessNegTransitive(a: (string, string), b: (string, string), c: (string, string))
    requires !PairLess(b, a) && !PairLess(c, b)
    ensures !PairLess(c, a)
  {
    if PairLess(c, a) {
      PairLessTotal(a, b);
      PairLessTotal(b, c);
      PairLessTransitive(a, b, c);
      PairLessTotal(a, c);
    }
  }

  /** The walk moves to the candidate with the least `(action_time, id)`. */
  lemma PickIsLeast(rows: seq<Row>, h: string, j: nat)
    requires j < |rows| && Links(rows[j], h)
    ensures Pick(rows, h).Some? && !PairLess(Key(rows[j]), Key(rows[Pick(rows, h).value]))
  {
    var c := Ranked(rows, h);
    RankedExact(rows, h);
    assert j in c;
    KeyOrder(rows);
    SortSorted(Candidates(rows, h, |rows|), IndexLess(rows));
    var k :| 0 <= k < |c| && c[k] == j;
    if k > 0 { assert !IndexLess(rows)(c[k], c[0]); } else { PairLessTotal(Key(rows[j]), Key(rows[j])); }
  }

  // ---- Two orders of the same rows ----

  ghost predicate Reordered(rows: seq<Row>, rows': seq<Row>) {
    UniqueIds(rows) && UniqueIds(rows') && |rows| == |rows'| && forall r :: r in rows <==> r in rows'
  }

  ghost function Relocate(rows: seq<Row>, rows': seq<Row>): nat -> nat {
    (i: nat) => if i < |rows| then IndexOf(rows', rows[i]) else i
  }

  lemma PickRelocates(rows: seq<Row>, rows': seq<Row>, h: string)
    requires Reordered(rows, rows')
    ensures Image(Pick(rows, h), Relocate(rows, rows')) == Pick(rows', h)
    ensures Pick(rows, h).Some? ==> rows'[Pick(rows', h).value] == rows[Pick(rows, h).value]
  {
    hide Ranked, Pick;
    var p, p' := Pick(rows, h), Pick(rows', h);
    PickLinks(rows', h);
    assert p'.Some? ==> rows'[p'.value] in rows;
    PickLinks(rows, h);
    if p.Some? {
      assert rows[p.value] in rows';
      var j' :| 0 <= j' < |rows'| && rows'[j'] == rows[p.value];
      PickIsLeast(rows', h, j');
      assert rows'[p'.value] in rows;
      var j :| 0 <= j < |rows| && rows[j] == rows'[p'.value];
      PickIsLeast(rows, h, j);
      PairLessTotal(Key(rows[p.value]), Key(rows'[p'.value]));
      assert j == p.value;
    }
  }

  /** Both walks meet the same rows in the same order. */
  lemma WalksAgree(rows: seq<Row>, rows': seq<Row>)
    requires Reordered(rows, rows')
    ensures var (t, t') := (Walk(rows), Walk(rows'));
            && InTable(rows, t.path) && InTable(rows', t'.path)
            && PathRows(rows, t.path) == PathRows(rows', t'.path)
            && Below(t.cycleAt, |rows|) && Below(t'.cycleAt, |rows'|)
            && IdAt(rows, t.cycleAt) == IdAt(rows', t'.cycleAt)
  {
    hide Ranked, Pick, Trace;
    var to := Relocate(rows, rows');
    forall i: nat | i < |rows| ensures rows'[to(i)] == rows[i] && to(i) < |rows'| { assert rows[i] in rows'; }
    forall i: nat | i < |rows| ensures Image(Successor(rows)(i), to) == Successor(rows')(to(i)) {
      PickRelocates(rows, rows', Stored(rows[i]));
    }
    PickRelocates(rows, rows', GENESIS);
    TraceParallel(Successor(rows), Successor(rows'), |rows|, {}, {}, Pick(rows, GENESIS), Pick(rows', GENESIS), to);
    WalkInTable(rows);
    WalkInTable(rows');
  }

  function LinksTo(h: string): Row -> bool { (r: Row) => Links(r, h) }

  lemma {:induction false} CandidatesCount(rows: seq<Row>, h: string, n: nat)
    requires n <= |rows|
    ensures |Candidates(rows, h, n)| == |Filter(rows[..n], LinksTo(h))|
  {
    if n == 0 {
    } else {
      CandidatesCount(rows, h, n - 1);
      assert rows[..n] == rows[..n - 1] + [rows[n - 1]];
      FilterSnoc(rows[..n - 1], rows[n - 1], LinksTo(h));
    }
  }

  lemma ContestedAgrees(rows: seq<Row>, rows': seq<Row>, h: string)
    requires multiset(rows) == multiset(rows')
    ensures Contested(rows, h) <==> Contested(rows', h)
  {
    RankedExact(rows, h);
    RankedExact(rows', h);
    CandidatesCount(rows, h, |rows|);
    CandidatesCount(rows', h, |rows'|);
    FilterPermutation(rows, rows', LinksTo(h));
    assert rows[..|rows|] == rows && rows'[..|rows'|] == rows';
  }

  function MissedBy(walked: seq<Row>): Row -> bool { (r: Row) => IsHashed(r) && r !in walked }

  lemma ReachedIsOnPath(rows: seq<Row>, path: seq<nat>, i: nat)
    requires UniqueIds(rows) && InTable(rows, path) && i < |rows|
    ensures i in Elements(path) <==> rows[i] in PathRows(rows, path)
  {
    if i in path {
      var k :| 0 <= k < |path| && path[k] == i;
      assert PathRows(rows, path)[k] == rows[i];
    }
  }

  lemma {:induction false} UnreachedIsFilter(rows: seq<Row>, path: seq<nat>, n: nat)
    requires UniqueIds(rows) && InTable(rows, path) && n <= |rows|
    ensures Unreached(rows, Elements(path), n) == Filter(rows[..n], MissedBy(PathRows(rows, path)))
  {
    hide Elements, InTable, UniqueIds, PathRows;
    if n == 0 {
    } else {
      UnreachedIsFilter(rows, path, n - 1);
      assert rows[..n] == rows[..n - 1] + [rows[n - 1]];
      FilterSnoc(rows[..n - 1], rows[n - 1], MissedBy(PathRows(rows, path)));
      ReachedIsOnPath(rows, path, n - 1);
    }
  }

  /** Reordering a table with unique ids changes neither the head, the fork flag, the cycle,
      nor any count, and each list holds the same entries. */
  lemma OrderIndependence(hash: HashFn, rows: seq<Row>, rows': seq<Row>)
    requires UniqueIds(rows) && multiset(rows) == multiset(rows')
    ensures var (r, r') := (Report(hash, rows), Report(hash, rows'));
            && r.head == r'.head && r.forked == r'.forked
            && r.verification.cycleAt == r'.verification.cycleAt
            && r.verification.totalRows == r'.verification.totalRows
            && r.verification.legacyRows == r'.verification.legacyRows
            && r.verification.verifiedRows == r'.verification.verifiedRows
            && multiset(r.verification.tamperedRows) == multiset(r'.verification.tamperedRows)
            && multiset(r.verification.orphanedRows) == multiset(r'.verification.orphanedRows)
  {
    PermutationIsReordering(rows, rows');
    WalksAgree(rows, rows');
    HeadsAgree(rows, rows');
    TamperedAgree(hash, rows, rows');
    OrphanedAgree(rows, rows');
    FilterPermutation(rows, rows', IsLegacy);
  }

  lemma PermutationIsReordering(rows: seq<Row>, rows': seq<Row>)
    requires UniqueIds(rows) && multiset(rows) == multiset(rows')
    ensures Reordered(rows, rows')
  {
    assert |rows| == |multiset(rows)| == |multiset(rows')| == |rows'|;
    forall r ensures r in rows <==> r in rows' {
      assert r in rows <==> r in multiset(rows);
      assert r in rows' <==> r in multiset(rows');
    }
    forall i, j | 0 <= i < j < |rows'| ensures rows'[i].fields.id != rows'[j].fields.id {
      var a, b := IndexOf(rows, rows'[i]), IndexOf(rows, rows'[j]);
      assert rows'[i] in rows && rows'[j] in rows;
      if rows[a].fields.id == rows[b].fields.id {
        assert a == b;
        RepeatCounts(rows', i, j);
        CountsOnce(rows, a);
      }
    }
  }

  lemma CountsOnce(s: seq<Row>, a: nat)
    requires UniqueIds(s) && a < |s|
    ensures multiset(s)[s[a]] == 1
  {
    assert s == s[..a] + [s[a]] + s[a + 1..];
    assert s[a] !in s[..a] && s[a] !in s[a + 1..];
  }

  lemma HeadsAgree(rows: seq<Row>, rows': seq<Row>)
    requires Reordered(rows, rows') && multiset(rows) == multiset(rows')
    ensures var (p, p') := (Walk(rows).path, Walk(rows').path);
            && InTable(rows, p) && InTable(rows', p') && |p| == |p'|
            && HashAfter(rows, p, |p|) == HashAfter(rows', p', |p'|)
            && (ForkSeen(rows, p, |p| + 1) <==> ForkSeen(rows', p', |p'| + 1))
  {
    hide Walk, Ranked, Contested;
    WalksAgree(rows, rows');
    var p, p' := Walk(rows).path, Walk(rows').path;
    assert |p| == |PathRows(rows, p)| == |p'|;
    forall k | 0 <= k <= |p| ensures HashAfter(rows, p, k) == HashAfter(rows', p', k) {
      if k > 0 { assert PathRows(rows, p)[k - 1] == PathRows(rows', p')[k - 1]; }
      ContestedAgrees(rows, rows', HashAfter(rows, p, k));
    }
    forall k | 0 <= k <= |p|
      ensures Contested(rows, HashAfter(rows, p, k)) <==> Contested(rows', HashAfter(rows', p', k))
    {
      ContestedAgrees(rows, rows', HashAfter(rows, p, k));
    }
  }

  lemma TamperedAgree(hash: HashFn, rows: seq<Row>, rows': seq<Row>)
    requires multiset(rows) == multiset(rows') && Reordered(rows, rows')
    ensures multiset(Report(hash, rows).verification.tamperedRows)
         == multiset(Report(hash, rows').verification.tamperedRows)
  {
    hide Walk, Sort, Filter, Map;
    WalksAgree(rows, rows');
    var w, w' := PathRows(rows, Walk(rows).path), PathRows(rows', Walk(rows').path);
    SortPermutes(TamperedList(hash, rows, w), TamperedEarlier);
    SortPermutes(TamperedList(hash, rows', w'), TamperedEarlier);
    FilterPermutation(rows, rows', IsHalfSet);
    MapPermutation(Filter(rows, IsHalfSet), Filter(rows', IsHalfSet), Tampered(HalfSetColumns));
  }

  lemma OrphanedAgree(rows: seq<Row>, rows': seq<Row>)
    requires multiset(rows) == multiset(rows') && Reordered(rows, rows')
    ensures forall hash :: multiset(Report(hash, rows).verification.orphanedRows)
                        == multiset(Report(hash, rows').verification.orphanedRows)
  {
    hide Walk, Sort, Filter, Map;
    WalksAgree(rows, rows');
    var w, w' := PathRows(rows, Walk(rows).path), PathRows(rows', Walk(rows').path);
    UnreachedIsFilter(rows, Walk(rows).path, |rows|);
    UnreachedIsFilter(rows', Walk(rows').path, |rows'|);
    assert rows[..|rows|] == rows && rows'[..|rows'|] == rows';
    FilterPermutation(rows, rows', MissedBy(w));
    var u := Unreached(rows, Elements(Walk(rows).path), |rows|);
    var u' := Unreached(rows', Elements(Walk(rows').path), |rows'|);
    MapPermutation(u, u', Orphaned);
    SortPermutes(Map(u, Orphaned), OrphanedEarlier);
    SortPermutes(Map(u', Orphaned), OrphanedEarlier);
  }
}
