/** What the verification report says about an arbitrary table. */
module AuditReport {
  import opened Wrappers
  import opened Ordering
  import opened AuditHash
  import opened Orbits
  import opened AuditChain
  import opened AuditOrder

  datatype Class = Legacy | Verified | Altered | HalfSet | Orphaned

  /** The class a row deserves, defined by the link orbit and not by the walk. */
  ghost function ClassOf(hash: HashFn, rows: seq<Row>, i: nat): Class
    requires i < |rows|
  {
    if IsLegacy(rows[i]) then Legacy
    else if !IsHashed(rows[i]) then HalfSet
    else if !OnOrbit(Successor(rows), Pick(rows, GENESIS), i) then Orphaned
    else if Intact(hash, rows[i]) then Verified
    else Altered
  }

  ghost function InClass(hash: HashFn, rows: seq<Row>, c: Class): set<nat> {
    Cell(|rows|, Classes(hash, rows), c)
  }

  ghost function Classes(hash: HashFn, rows: seq<Row>): nat -> Class {
    (i: nat) => if i < |rows| then ClassOf(hash, rows, i) else Legacy
  }

  ghost function Cell(n: nat, classes: nat -> Class, c: Class): set<nat> {
    set i | i in UpTo(n) && classes(i) == c
  }

  // ---- Counting ----

  ghost function Where<T>(s: seq<T>, p: T -> bool): set<nat> {
    set i | i in UpTo(|s|) && p(s[i])
  }

  lemma {:induction false} FilterCounts<T>(s: seq<T>, p: T -> bool)
    ensures |Filter(s, p)| == |Where(s, p)|
  {
    if s == [] {
    } else {
      hide UpTo;
      var n := |s| - 1;
      FilterCounts(s[..n], p);
      CountOneMore(Where(s, p), Where(s[..n], p), n, p(s[n]));
    }
  }

  lemma CountOneMore(a: set<nat>, b: set<nat>, x: nat, extra: bool)
    requires x !in b && forall i :: i in a <==> i in b || (extra && i == x)
    ensures |a| == if extra then |b| + 1 else |b|
  {
    assert a == if extra then b + {x} else b;
  }

  ghost function OnPath(rows: seq<Row>, path: seq<nat>, p: Row -> bool): set<nat>
    requires InTable(rows, path)
  {
    set i | i in path && p(rows[i])
  }

  lemma PathGrows(rows: seq<Row>, path: seq<nat>, i: nat, p: Row -> bool)
    requires InTable(rows, path) && i < |rows| && i !in path
    ensures var extra := if p(rows[i]) then 1 else 0;
            && |Filter(PathRows(rows, path + [i]), p)| == |Filter(PathRows(rows, path), p)| + extra
            && |OnPath(rows, path + [i], p)| == |OnPath(rows, path, p)| + extra
  {
    hide Filter;
    assert PathRows(rows, path + [i]) == PathRows(rows, path) + [rows[i]];
    FilterSnoc(PathRows(rows, path), rows[i], p);
    CountOneMore(OnPath(rows, path + [i], p), OnPath(rows, path, p), i, p(rows[i]));
  }

  lemma {:induction false} PathCounts(rows: seq<Row>, path: seq<nat>, p: Row -> bool)
    requires InTable(rows, path) && NoRepeats(path)
    ensures |Filter(PathRows(rows, path), p)| == |OnPath(rows, path, p)|
  {
    if path == [] {
      assert OnPath(rows, path, p) == {};
    } else {
      hide Filter, OnPath, PathRows;
      var q, i := path[..|path| - 1], path[|path| - 1];
      assert path == q + [i] && NoRepeats(q) && i !in q;
      PathCounts(rows, q, p);
      PathGrows(rows, q, i, p);
    }
  }

  ghost function Missed(rows: seq<Row>, reached: set<nat>, n: nat): set<nat>
    requires n <= |rows|
  {
    set i | i in UpTo(n) && IsHashed(rows[i]) && i !in reached
  }

  lemma {:induction false} UnreachedCounts(rows: seq<Row>, reached: set<nat>, n: nat)
    requires n <= |rows|
    ensures |Unreached(rows, reached, n)| == |Missed(rows, reached, n)|
    ensures forall i :: i in Missed(rows, reached, n) ==> rows[i] in Unreached(rows, reached, n)
  {
    if n == 0 {
    } else {
      UnreachedCounts(rows, reached, n - 1);
      CountOneMore(Missed(rows, reached, n), Missed(rows, reached, n - 1), n - 1,
                   IsHashed(rows[n - 1]) && n - 1 !in reached);
    }
  }

  lemma HopIsHashed(rows: seq<Row>, k: nat)
    ensures var i := Hop(Successor(rows), Pick(rows, GENESIS), k);
            i.Some? ==> i.value < |rows| && IsHashed(rows[i.value])
  {
    hide Ranked, Pick;
    PickLinks(rows, GENESIS);
    if k > 0 {
      HopNext(Successor(rows), Pick(rows, GENESIS), k - 1);
      var j := Hop(Successor(rows), Pick(rows, GENESIS), k - 1);
      if j.Some? && j.value < |rows| { PickLinks(rows, Stored(rows[j.value])); }
    }
  }

  /** Every row on the walk is hashed, and the walk is exactly the link orbit from genesis. */
  lemma PathIsOrbit(rows: seq<Row>)
    ensures var path := Walk(rows).path;
            && InTable(rows, path) && NoRepeats(path)
            && (forall i: nat :: i in path <==> OnOrbit(Successor(rows), Pick(rows, GENESIS), i))
            && (forall i :: i in path ==> i < |rows| && IsHashed(rows[i]))
  {
    hide Trace, Ranked, Pick;
    TraceVisitsOrbit(Successor(rows), |rows|, Pick(rows, GENESIS));
    WalkInTable(rows);
    forall i | i in Walk(rows).path ensures i < |rows| && IsHashed(rows[i]) {
      var k: nat :| Hop(Successor(rows), Pick(rows, GENESIS), k) == Some(i);
      HopIsHashed(rows, k);
    }
  }

  // ---- The partition ----

  lemma CellsPartition(n: nat, f: nat -> Class)
    ensures |Cell(n, f, Legacy)| + |Cell(n, f, Verified)| + |Cell(n, f, Altered)|
            + |Cell(n, f, HalfSet)| + |Cell(n, f, Orphaned)| == n
  {
    UpToSize(n);
    hide UpTo;
    forall i | i in UpTo(n)
      ensures i in Cell(n, f, Legacy) + Cell(n, f, Verified) + Cell(n, f, Altered)
                 + Cell(n, f, HalfSet) + Cell(n, f, Orphaned)
    {
      match f(i) case _ => {}
    }
    SizeOfUnion(UpTo(n), Cell(n, f, Legacy), Cell(n, f, Verified), Cell(n, f, Altered),
                Cell(n, f, HalfSet), Cell(n, f, Orphaned));
  }

  lemma SizeOfUnion(u: set<nat>, l: set<nat>, v: set<nat>, a: set<nat>, h: set<nat>, o: set<nat>)
    requires forall i :: i in u <==> i in l + v + a + h + o
    requires l !! v !! a !! h !! o
    ensures |u| == |l| + |v| + |a| + |h| + |o|
  {
    assert u == l + v + a + h + o;
  }

  lemma {:induction false} UpToSize(n: nat)
    ensures |UpTo(n)| == n
  {
    if n == 0 {
    } else {
      UpToSize(n - 1);
    }
  }

  /** The five class sets, in terms of the walked path. */
  lemma ClassSets(hash: HashFn, rows: seq<Row>)
    ensures var path := Walk(rows).path;
            && InTable(rows, path) && NoRepeats(path)
            && InClass(hash, rows, Legacy) == Where(rows, IsLegacy)
            && InClass(hash, rows, HalfSet) == Where(rows, IsHalfSet)
            && InClass(hash, rows, Verified) == OnPath(rows, path, IsVerified(hash))
            && InClass(hash, rows, Altered) == OnPath(rows, path, IsAltered(hash))
            && InClass(hash, rows, Orphaned) == Missed(rows, Elements(path), |rows|)
  {
    PathIsOrbit(rows);
    hide UpTo, OnOrbit, Walk, Intact;
  }

  /** Every row is reported in exactly one class, each list names exactly the rows of its
      class, and the counts add up, on any table at all: forks, cycles, reused hashes. */
  lemma ReportPartitions(hash: HashFn, rows: seq<Row>)
    ensures var v := Report(hash, rows).verification;
            && v.legacyRows == |InClass(hash, rows, Legacy)|
            && v.verifiedRows == |InClass(hash, rows, Verified)|
            && |v.tamperedRows| == |InClass(hash, rows, Altered)| + |InClass(hash, rows, HalfSet)|
            && |v.orphanedRows| == |InClass(hash, rows, Orphaned)|
            && v.legacyRows + v.verifiedRows + |v.tamperedRows| + |v.orphanedRows| == v.totalRows == |rows|
  {
    var path := Walk(rows).path;
    ClassSets(hash, rows);
    CellsPartition(|rows|, Classes(hash, rows));
    FilterCounts(rows, IsLegacy);
    FilterCounts(rows, IsHalfSet);
    PathCounts(rows, path, IsVerified(hash));
    PathCounts(rows, path, IsAltered(hash));
    UnreachedCounts(rows, Elements(path), |rows|);
    SortPermutes(TamperedList(hash, rows, PathRows(rows, path)), TamperedEarlier);
    SortPermutes(Map(Unreached(rows, Elements(path), |rows|), AuditChain.Orphaned), OrphanedEarlier);
  }

  // ---- The report in terms of the table's columns ----

  /** The hash the walk stands at after `k` rows of the path: 64 zeros, then each row's stored hash. */
  ghost function StoodAt(rows: seq<Row>, path: seq<nat>, k: nat): string
    requires InTable(rows, path) && k <= |path|
  {
    if k == 0 then Zeros(64) else Text(rows[path[k - 1]].rowHash)
  }

  /** Row `i` has both hashes and names `h` as its previous one. */
  ghost predicate Follows(rows: seq<Row>, h: string, i: nat) {
    i < |rows| && rows[i].prevHash == Some(h) && rows[i].rowHash.Some?
  }

  /** Of the rows that follow `h` it is the earliest, and among those of one time the one with the least id. */
  ghost predicate FirstFollower(rows: seq<Row>, h: string, i: nat) {
    && Follows(rows, h, i)
    && forall j: nat :: Follows(rows, h, j) ==>
         && !StringLess(rows[j].fields.actionTime, rows[i].fields.actionTime)
         && (rows[j].fields.actionTime == rows[i].fields.actionTime ==>
               !StringLess(rows[j].fields.id, rows[i].fields.id))
  }

  /** From 64 zeros on, each row of the walk is the first to follow the hash stored in the one before; the walk ends
      where no row follows, or where the first follower is on it already. */
  lemma WalkFollowsHashes(rows: seq<Row>)
    ensures |Zeros(64)| == 64 && forall k :: 0 <= k < 64 ==> Zeros(64)[k] == '0'
    ensures var t := Walk(rows);
            && InTable(rows, t.path) && NoRepeats(t.path)
            && (forall k: nat :: k < |t.path| ==> FirstFollower(rows, StoodAt(rows, t.path, k), t.path[k]))
            && if t.cycleAt.Some?
               then t.cycleAt.value in t.path && FirstFollower(rows, StoodAt(rows, t.path, |t.path|), t.cycleAt.value)
               else forall i: nat :: !Follows(rows, StoodAt(rows, t.path, |t.path|), i)
  {
    hide Trace, Ranked, Pick, Zeros;
    ZerosAreZeros(64);
    PathIsOrbit(rows);
    var t := Walk(rows);
    TraceVisitsOrbit(Successor(rows), |rows|, Pick(rows, GENESIS));
    forall k: nat | k <= |t.path|
      ensures Hop(Successor(rows), Pick(rows, GENESIS), k) == Pick(rows, StoodAt(rows, t.path, k))
    {
      if k > 0 {
        HopNext(Successor(rows), Pick(rows, GENESIS), k - 1);
        assert t.path[k - 1] in t.path;
      }
    }
    forall k: nat | k <= |t.path| ensures PickedFirst(rows, StoodAt(rows, t.path, k)) {
      PickIsFirst(rows, StoodAt(rows, t.path, k));
    }
    assert Hop(Successor(rows), Pick(rows, GENESIS), |t.path|) == t.cycleAt by {
      TraceIsPrefix(Successor(rows), |rows|, {}, Pick(rows, GENESIS));
    }
  }

  ghost predicate PickedFirst(rows: seq<Row>, h: string) {
    var p := Pick(rows, h);
    if p.Some? then FirstFollower(rows, h, p.value) else forall i: nat :: !Follows(rows, h, i)
  }

  lemma PickIsFirst(rows: seq<Row>, h: string)
    ensures PickedFirst(rows, h)
  {
    hide Pick;
    PickLinks(rows, h);
    var p := Pick(rows, h);
    if p.Some? {
      forall j: nat | Follows(rows, h, j)
        ensures !StringLess(rows[j].fields.actionTime, rows[p.value].fields.actionTime)
        ensures rows[j].fields.actionTime == rows[p.value].fields.actionTime ==>
                  !StringLess(rows[j].fields.id, rows[p.value].fields.id)
      {
        PickIsLeast(rows, h, j);
      }
    }
  }

  /** The stored hash of the row is not the one its columns give. */
  ghost predicate Mismatched(hash: HashFn, r: Row) {
    r.prevHash.Some? && r.rowHash.Some? && hash(r.prevHash.value, r.fields) != r.rowHash.value
  }

  /** The entry is row `i`'s, for the reason the row gives. */
  ghost predicate Names(hash: HashFn, rows: seq<Row>, path: seq<nat>, e: TamperedRow, i: nat) {
    && i < |rows| && e.id == rows[i].fields.id && e.actionTime == rows[i].fields.actionTime
    && match e.reason
       case ContentTampered => i in path && Mismatched(hash, rows[i])
       case HalfSetColumns => rows[i].prevHash.Some? != rows[i].rowHash.Some?
  }

  ghost predicate IsNamed(hash: HashFn, rows: seq<Row>, path: seq<nat>, e: TamperedRow) {
    exists i: nat :: Names(hash, rows, path, e, i)
  }

  ghost predicate NamesOrphan(rows: seq<Row>, path: seq<nat>, e: OrphanedRow, i: nat) {
    && i < |rows| && e.id == rows[i].fields.id && e.actionTime == rows[i].fields.actionTime
    && rows[i].prevHash.Some? && rows[i].rowHash.Some? && i !in path
  }

  ghost predicate IsNamedOrphan(rows: seq<Row>, path: seq<nat>, e: OrphanedRow) {
    exists i: nat :: NamesOrphan(rows, path, e, i)
  }

  /** The entries of the tampered list are the walked rows whose hash does not match and the rows with one of the two
      hashes, by id, time and reason; it ascends by time. */
  lemma TamperedInColumns(hash: HashFn, rows: seq<Row>)
    ensures var list := Report(hash, rows).verification.tamperedRows;
            && (forall e :: e in list <==> IsNamed(hash, rows, Walk(rows).path, e))
            && forall a, b :: 0 <= a < b < |list| ==> !StringLess(list[b].actionTime, list[a].actionTime)
  {
    hide Walk, Sort, Filter, Map, Intact;
    PathIsOrbit(rows);
    var path := Walk(rows).path;
    var walked := PathRows(rows, path);
    var tampered := TamperedList(hash, rows, walked);
    SortPermutes(tampered, TamperedEarlier);
    EarlierIsOrder();
    SortSorted(tampered, TamperedEarlier);
    forall e ensures e in tampered <==> IsNamed(hash, rows, path, e) {
      TamperedEntry(hash, rows, path, e);
    }
  }

  lemma TamperedEntry(hash: HashFn, rows: seq<Row>, path: seq<nat>, e: TamperedRow)
    requires InTable(rows, path) && forall i :: i in path ==> i < |rows| && IsHashed(rows[i])
    ensures e in TamperedList(hash, rows, PathRows(rows, path)) <==> IsNamed(hash, rows, path, e)
  {
    hide Sort, Filter, Map, PathRows;
    var walked := PathRows(rows, path);
    MapMembers(Filter(walked, IsAltered(hash)), Tampered(ContentTampered), e);
    MapMembers(Filter(rows, IsHalfSet), Tampered(HalfSetColumns), e);
    if r :| r in Filter(walked, IsAltered(hash)) && Tampered(ContentTampered)(r) == e {
      var k :| 0 <= k < |walked| && walked[k] == r;
      assert Names(hash, rows, path, e, path[k]);
    }
    if r :| r in Filter(rows, IsHalfSet) && Tampered(HalfSetColumns)(r) == e {
      var i :| 0 <= i < |rows| && rows[i] == r;
      assert Names(hash, rows, path, e, i);
    }
    if i: nat :| Names(hash, rows, path, e, i) {
      if e.reason.ContentTampered? {
        var k :| 0 <= k < |path| && path[k] == i;
        assert walked[k] == rows[i];
        assert rows[i] in Filter(walked, IsAltered(hash)) && Tampered(ContentTampered)(rows[i]) == e;
      } else {
        assert rows[i] in Filter(rows, IsHalfSet) && Tampered(HalfSetColumns)(rows[i]) == e;
      }
    }
  }

  /** The entries of the orphaned list are the rows with both hashes off the walk, by id and time; it ascends by
      time. */
  lemma OrphanedInColumns(hash: HashFn, rows: seq<Row>)
    ensures var list := Report(hash, rows).verification.orphanedRows;
            && (forall e :: e in list <==> IsNamedOrphan(rows, Walk(rows).path, e))
            && forall a, b :: 0 <= a < b < |list| ==> !StringLess(list[b].actionTime, list[a].actionTime)
  {
    hide Walk, Sort, Map, Unreached, TamperedList, Filter;
    var path := Walk(rows).path;
    var orphans := Unreached(rows, Elements(path), |rows|);
    SortPermutes(Map(orphans, AuditChain.Orphaned), OrphanedEarlier);
    EarlierIsOrder();
    SortSorted(Map(orphans, AuditChain.Orphaned), OrphanedEarlier);
    forall r ensures r in orphans <==> exists i: nat :: i < |rows| && i !in path && IsHashed(rows[i]) && rows[i] == r {
      UnreachedMembers(rows, Elements(path), |rows|, r);
    }
    forall e ensures e in Map(orphans, AuditChain.Orphaned) <==> IsNamedOrphan(rows, path, e) {
      MapMembers(orphans, AuditChain.Orphaned, e);
      if r :| r in orphans && AuditChain.Orphaned(r) == e {
        var i: nat :| i < |rows| && i !in path && IsHashed(rows[i]) && rows[i] == r;
        assert NamesOrphan(rows, path, e, i);
      }
      if i: nat :| NamesOrphan(rows, path, e, i) {
        assert rows[i] in orphans && AuditChain.Orphaned(rows[i]) == e;
      }
    }
  }

  lemma {:induction false} UnreachedMembers(rows: seq<Row>, reached: set<nat>, n: nat, r: Row)
    requires n <= |rows|
    ensures r in Unreached(rows, reached, n)
       <==> exists i: nat :: i < n && i !in reached && IsHashed(rows[i]) && rows[i] == r
  {
    if n == 0 {
    } else {
      UnreachedMembers(rows, reached, n - 1, r);
    }
  }

  lemma EarlierIsOrder()
    ensures StrictWeakOrder(TamperedEarlier) && StrictWeakOrder(OrphanedEarlier)
  {
    forall a, b | StringLess(a, b) ensures !StringLess(b, a) {
      StringLessTotal(a, b);
    }
    forall a, b, c | !StringLess(b, a) && !StringLess(c, b) ensures !StringLess(c, a) {
      if StringLess(c, a) {
        StringLessTotal(a, b);
        StringLessTotal(b, c);
        if StringLess(a, b) { StringLessTransitive(c, a, b); }
      }
    }
  }

  /** Two rows follow `h`. */
  ghost predicate ForksFrom(rows: seq<Row>, h: string) {
    exists i: nat, j: nat :: i < j && Follows(rows, h, i) && Follows(rows, h, j)
  }

  /** The counts, the head, the fork flag and the cycle, in the same terms: the legacy rows are those without hashes,
      the verified ones the walked rows whose hash matches, and the cycle is named by the row met twice. */
  lemma FiguresInColumns(hash: HashFn, rows: seq<Row>)
    ensures var (r, t) := (Report(hash, rows), Walk(rows));
            && InTable(rows, t.path) && Below(t.cycleAt, |rows|)
            && r.verification.legacyRows
            == |set i | i in UpTo(|rows|) && rows[i].prevHash.None? && rows[i].rowHash.None?|
            && r.verification.verifiedRows == |set i | i in t.path && !Mismatched(hash, rows[i])|
            && r.head == StoodAt(rows, t.path, |t.path|)
            && (r.forked <==> exists k: nat :: k <= |t.path| && ForksFrom(rows, StoodAt(rows, t.path, k)))
            && r.verification.cycleAt == if t.cycleAt.Some? then Some(rows[t.cycleAt.value].fields.id) else None
  {
    hide Walk, Sort, Filter, Ranked, Unreached, TamperedList, Map, UpTo, Contested, ForksFrom, Intact;
    WalkInTable(rows);
    CountsInColumns(hash, rows);
    ForksInColumns(rows, Walk(rows).path);
  }

  lemma CountsInColumns(hash: HashFn, rows: seq<Row>)
    ensures var path := Walk(rows).path;
            && InTable(rows, path)
            && |Filter(rows, IsLegacy)|
            == |set i | i in UpTo(|rows|) && rows[i].prevHash.None? && rows[i].rowHash.None?|
            && |Filter(PathRows(rows, path), IsVerified(hash))| == |set i | i in path && !Mismatched(hash, rows[i])|
  {
    hide Walk, Filter, UpTo;
    var path := Walk(rows).path;
    PathIsOrbit(rows);
    FilterCounts(rows, IsLegacy);
    PathCounts(rows, path, IsVerified(hash));
    UpToMembers(|rows|);
    assert Where(rows, IsLegacy) == set i | i in UpTo(|rows|) && rows[i].prevHash.None? && rows[i].rowHash.None?;
    assert OnPath(rows, path, IsVerified(hash)) == set i | i in path && !Mismatched(hash, rows[i]);
  }

  lemma ForksInColumns(rows: seq<Row>, path: seq<nat>)
    requires InTable(rows, path)
    ensures ForkSeen(rows, path, |path| + 1)
       <==> exists k: nat :: k <= |path| && ForksFrom(rows, StoodAt(rows, path, k))
  {
    hide Contested, Zeros;
    forall k: nat | k <= |path|
      ensures Contested(rows, HashAfter(rows, path, k)) <==> ForksFrom(rows, StoodAt(rows, path, k))
    {
      var h := HashAfter(rows, path, k);
      ContestedMeansFork(rows, h);
      if i, j :| 0 <= i < j < |rows| && Links(rows[i], h) && Links(rows[j], h) {
        assert Follows(rows, h, i) && Follows(rows, h, j);
      }
      if i: nat, j: nat :| i < j && Follows(rows, h, i) && Follows(rows, h, j) {
        assert Links(rows[i], h) && Links(rows[j], h);
      }
    }
  }

  lemma UpToMembers(n: nat)
    ensures forall i :: i in UpTo(n) <==> 0 <= i < n
  {
  }

  lemma MapMembers<T, U>(s: seq<T>, f: T -> U, y: U)
    ensures y in Map(s, f) <==> exists x :: x in s && f(x) == y
  {
    if y in Map(s, f) {
      var k :| 0 <= k < |Map(s, f)| && Map(s, f)[k] == y;
      assert s[k] in s && f(s[k]) == y;
    }
    if x :| x in s && f(x) == y {
      MapContains(s, f, x);
    }
  }

  /** Each altered, half-set or orphaned row is named, with its reason. */
  lemma ReportNames(hash: HashFn, rows: seq<Row>, i: nat)
    requires i < |rows|
    ensures var (v, f) := (Report(hash, rows).verification, rows[i].fields);
            && (ClassOf(hash, rows, i) == Altered ==>
                  TamperedRow(f.id, f.actionTime, ContentTampered) in v.tamperedRows)
            && (ClassOf(hash, rows, i) == HalfSet ==> TamperedRow(f.id, f.actionTime, HalfSetColumns) in v.tamperedRows)
            && (ClassOf(hash, rows, i) == Orphaned ==> OrphanedRow(f.id, f.actionTime) in v.orphanedRows)
  {
    hide Report, Walk, OnOrbit, Trace;
    PathIsOrbit(rows);
    TamperedInColumns(hash, rows);
    OrphanedInColumns(hash, rows);
    var (path, f) := (Walk(rows).path, rows[i].fields);
    match ClassOf(hash, rows, i)
    case Altered =>
      var e := TamperedRow(f.id, f.actionTime, ContentTampered);
      assert Names(hash, rows, path, e, i) && IsNamed(hash, rows, path, e);
    case HalfSet =>
      var e := TamperedRow(f.id, f.actionTime, HalfSetColumns);
      assert Names(hash, rows, path, e, i) && IsNamed(hash, rows, path, e);
    case Orphaned =>
      var e := OrphanedRow(f.id, f.actionTime);
      assert NamesOrphan(rows, path, e, i) && IsNamedOrphan(rows, path, e);
    case _ =>
  }

  lemma MapContains<T, U>(s: seq<T>, f: T -> U, x: T)
    requires x in s
    ensures f(x) in Map(s, f)
  {
    var k :| 0 <= k < |s| && s[k] == x;
    assert Map(s, f)[k] == f(x);
  }
}
