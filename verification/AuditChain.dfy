/** The hash-chain walk over an arbitrary audit table (`walk_chain`). */
module AuditChain {
  import opened Wrappers
  import opened Ordering
  import opened AuditHash
  import opened Orbits

  /** `compute_row_hash`, as a function of the previous hash and the row's fields. */
  type HashFn = (string, Fields) -> string

  datatype Row = Row(fields: Fields, prevHash: Option<string>, rowHash: Option<string>)

  predicate IsLegacy(r: Row) { r.prevHash.None? && r.rowHash.None? }
  predicate IsHashed(r: Row) { r.prevHash.Some? && r.rowHash.Some? }
  predicate IsHalfSet(r: Row) { !IsLegacy(r) && !IsHashed(r) }

  /** A hashed row that chains from hash `h`. */
  predicate Links(r: Row, h: string) { IsHashed(r) && r.prevHash.value == h }

  /** The hash a successor must name; total so that specifications stay simple. */
  function Stored(r: Row): string { Text(r.rowHash) }

  predicate Intact(hash: HashFn, r: Row)
    requires IsHashed(r)
  {
    hash(r.prevHash.value, r.fields) == r.rowHash.value
  }

  /** Fork tiebreak. */
  function Key(r: Row): (string, string) { (r.fields.actionTime, r.fields.id) }

  function KeyAt(rows: seq<Row>, i: nat): (string, string) {
    if i < |rows| then Key(rows[i]) else ("", "")
  }

  function IndexLess(rows: seq<Row>): (nat, nat) -> bool {
    (a: nat, b: nat) => PairLess(KeyAt(rows, a), KeyAt(rows, b))
  }

  /** Indices below `n` of the rows chaining from `h`, in table order. */
  function Candidates(rows: seq<Row>, h: string, n: nat): seq<nat>
    requires n <= |rows|
  {
    if n == 0 then []
    else Candidates(rows, h, n - 1) + if Links(rows[n - 1], h) then [n - 1] else []
  }

  lemma {:induction false} CandidatesExact(rows: seq<Row>, h: string, n: nat)
    requires n <= |rows|
    ensures forall i: nat :: i in Candidates(rows, h, n) <==> i < n && Links(rows[i], h)
  {
    if n == 0 {
    } else {
      CandidatesExact(rows, h, n - 1);
    }
  }

  /** The candidates after the fork tiebreak. */
  function Ranked(rows: seq<Row>, h: string): (c: seq<nat>)
    ensures c != [] ==> c[0] < |rows|
  {
    var c := Candidates(rows, h, |rows|);
    CandidatesExact(rows, h, |rows|);
    SortPermutes(c, IndexLess(rows));
    var ranked := Sort(c, IndexLess(rows));
    assert ranked != [] ==> ranked[0] in c;
    ranked
  }

  /** The row the walk moves to from hash `h`. */
  function Pick(rows: seq<Row>, h: string): (p: Option<nat>)
    ensures Below(p, |rows|)
  {
    var c := Ranked(rows, h);
    if c == [] then None else Some(c[0])
  }

  /** Two rows chain from `h`. */
  predicate Contested(rows: seq<Row>, h: string) {
    |Ranked(rows, h)| > 1
  }

  /** From a row the walk continues at the hash that row stores. */
  function Successor(rows: seq<Row>): Step {
    (i: nat) => if i < |rows| && IsHashed(rows[i]) then Pick(rows, Stored(rows[i])) else None
  }

  /** The row indices the walk reaches from genesis, and where it closes a cycle. */
  ghost function Walk(rows: seq<Row>): Trail {
    Trace(Successor(rows), |rows|, {}, Pick(rows, GENESIS))
  }

  predicate InTable(rows: seq<Row>, path: seq<nat>) {
    forall k :: 0 <= k < |path| ==> path[k] < |rows|
  }

  /** The hash the walk stands at after the first `k` steps of `path`. */
  ghost function HashAfter(rows: seq<Row>, path: seq<nat>, k: nat): string
    requires InTable(rows, path) && k <= |path|
  {
    if k == 0 then GENESIS else Stored(rows[path[k - 1]])
  }

  /** One of the first `n` hashes the walk stood at was contested. */
  ghost predicate ForkSeen(rows: seq<Row>, path: seq<nat>, n: nat)
    requires InTable(rows, path) && n <= |path| + 1
  {
    exists k :: 0 <= k < n && Contested(rows, HashAfter(rows, path, k))
  }

  /** Where a row stands in a sequence. */
  ghost function IndexOf(rows: seq<Row>, r: Row): (i: nat)
    ensures r in rows ==> i < |rows| && rows[i] == r
  {
    if r in rows then var i :| 0 <= i < |rows| && rows[i] == r; i else 0
  }

  // ---- The report ----

  datatype Reason = ContentTampered | HalfSetColumns

  datatype TamperedRow = TamperedRow(id: string, actionTime: string, reason: Reason)

  datatype OrphanedRow = OrphanedRow(id: string, actionTime: string)

  datatype Verification = Verification(
    totalRows: nat, legacyRows: nat, verifiedRows: nat,
    tamperedRows: seq<TamperedRow>, orphanedRows: seq<OrphanedRow>, cycleAt: Option<string>)

  datatype WalkResult = WalkResult(verification: Verification, head: string, forked: bool)

  predicate TamperedEarlier(a: TamperedRow, b: TamperedRow) { StringLess(a.actionTime, b.actionTime) }
  predicate OrphanedEarlier(a: OrphanedRow, b: OrphanedRow) { StringLess(a.actionTime, b.actionTime) }

  function Tampered(reason: Reason): Row -> TamperedRow {
    (r: Row) => TamperedRow(r.fields.id, r.fields.actionTime, reason)
  }

  function Orphaned(r: Row): OrphanedRow { OrphanedRow(r.fields.id, r.fields.actionTime) }

  function PathRows(rows: seq<Row>, path: seq<nat>): (r: seq<Row>)
    requires InTable(rows, path)
    ensures |r| == |path| && forall k :: 0 <= k < |path| ==> r[k] == rows[path[k]]
  {
    seq(|path|, k requires 0 <= k < |path| => rows[path[k]])
  }

  function IsVerified(hash: HashFn): Row -> bool {
    (r: Row) => IsHashed(r) && Intact(hash, r)
  }

  function IsAltered(hash: HashFn): Row -> bool {
    (r: Row) => IsHashed(r) && !Intact(hash, r)
  }

  /** Hashed rows below `n` whose index the walk never reached. */
  function Unreached(rows: seq<Row>, reached: set<nat>, n: nat): seq<Row>
    requires n <= |rows|
  {
    if n == 0 then []
    else Unreached(rows, reached, n - 1)
         + if IsHashed(rows[n - 1]) && n - 1 !in reached then [rows[n - 1]] else []
  }

  ghost function TamperedList(hash: HashFn, rows: seq<Row>, walked: seq<Row>): seq<TamperedRow> {
    Map(Filter(walked, IsAltered(hash)), Tampered(ContentTampered))
    + Map(Filter(rows, IsHalfSet), Tampered(HalfSetColumns))
  }

  ghost function Report(hash: HashFn, rows: seq<Row>): WalkResult {
    WalkInTable(rows);
    var t := Walk(rows);
    var walked := PathRows(rows, t.path);
    WalkResult(
      Verification(
        |rows|, |Filter(rows, IsLegacy)|, |Filter(walked, IsVerified(hash))|,
        Sort(TamperedList(hash, rows, walked), TamperedEarlier),
        Sort(Map(Unreached(rows, Elements(t.path), |rows|), Orphaned), OrphanedEarlier),
        IdAt(rows, t.cycleAt)),
      HashAfter(rows, t.path, |t.path|),
      ForkSeen(rows, t.path, |t.path| + 1))
  }

  lemma WalkInTable(rows: seq<Row>)
    ensures InTable(rows, Walk(rows).path) && Below(Walk(rows).cycleAt, |rows|)
  {
    TraceInBounds(Successor(rows), |rows|, {}, Pick(rows, GENESIS));
  }

  // ---- Picking a successor ----

  lemma RankedExact(rows: seq<Row>, h: string)
    ensures forall i: nat :: i in Ranked(rows, h) <==> i < |rows| && Links(rows[i], h)
    ensures |Ranked(rows, h)| == |Candidates(rows, h, |rows|)|
  {
    CandidatesExact(rows, h, |rows|);
    SortPermutes(Candidates(rows, h, |rows|), IndexLess(rows));
  }

  lemma PickLinks(rows: seq<Row>, h: string)
    ensures var p := Pick(rows, h);
            if p.Some? then Links(rows[p.value], h)
            else forall i :: 0 <= i < |rows| ==> !Links(rows[i], h)
  {
    RankedExact(rows, h);
    var c := Ranked(rows, h);
    if c != [] { assert c[0] in c; }
    forall i | 0 <= i < |rows| && Links(rows[i], h) ensures c != [] { assert i in c; }
  }

  ghost predicate Ascending(c: seq<nat>) {
    forall a, b :: 0 <= a < b < |c| ==> c[a] < c[b]
  }

  lemma {:induction false} CandidatesAscend(rows: seq<Row>, h: string, n: nat)
    requires n <= |rows|
    ensures Ascending(Candidates(rows, h, n))
  {
    if n == 0 {
    } else {
      CandidatesAscend(rows, h, n - 1);
      CandidatesExact(rows, h, n - 1);
      var c := Candidates(rows, h, n - 1);
      forall k | 0 <= k < |c| ensures c[k] < n - 1 { assert c[k] in c; }
    }
  }

  /** A hash is contested exactly when two different rows chain from it. */
  lemma ContestedMeansFork(rows: seq<Row>, h: string)
    ensures Contested(rows, h) <==>
            exists i, j :: 0 <= i < j < |rows| && Links(rows[i], h) && Links(rows[j], h)
  {
    var c := Candidates(rows, h, |rows|);
    CandidatesAscend(rows, h, |rows|);
    CandidatesExact(rows, h, |rows|);
    RankedExact(rows, h);
    if |c| > 1 {
      assert c[0] in c && c[1] in c;
      assert Links(rows[c[0]], h) && Links(rows[c[1]], h) && c[0] < c[1];
    }
    if i, j :| 0 <= i < j < |rows| && Links(rows[i], h) && Links(rows[j], h) {
      assert i in c && j in c;
    }
  }

  // ---- The walk as the code runs it ----

  /** The hash index after the first `n` rows: non-empty candidate lists, by previous hash. */
  ghost predicate Indexed(rows: seq<Row>, index: map<string, seq<nat>>, n: nat)
    requires n <= |rows|
  {
    forall h :: if h in index then index[h] == Candidates(rows, h, n) != [] else Candidates(rows, h, n) == []
  }

  ghost predicate SortedIndex(rows: seq<Row>, index: map<string, seq<nat>>) {
    forall h :: if h in index then index[h] == Ranked(rows, h) != [] else Ranked(rows, h) == []
  }

  /** The fork tiebreak, applied to every entry of the index. */
  method SortCandidates(rows: seq<Row>, index: map<string, seq<nat>>) returns (sorted: map<string, seq<nat>>)
    requires Indexed(rows, index, |rows|)
    ensures SortedIndex(rows, sorted)
  {
    sorted := index;
    var keys := index.Keys;
    while keys != {}
      invariant keys <= sorted.Keys == index.Keys
      invariant forall h :: h in keys ==> sorted[h] == index[h]
      invariant forall h :: h in sorted && h !in keys ==> sorted[h] == Ranked(rows, h) != []
    {
      var h :| h in keys;
      SortPermutes(sorted[h], IndexLess(rows));
      sorted := sorted[h := Sort(sorted[h], IndexLess(rows))];
      keys := keys - {h};
    }
  }

  /** What reaching row `idx` does to the lists computed from the path. */
  lemma StepTaken(hash: HashFn, rows: seq<Row>, path: seq<nat>, idx: nat)
    requires InTable(rows, path) && idx < |rows|
    ensures var (w, w') := (PathRows(rows, path), PathRows(rows, path + [idx]));
            && w' == w + [rows[idx]]
            && Filter(w', IsVerified(hash)) == Filter(w, IsVerified(hash))
               + (if IsVerified(hash)(rows[idx]) then [rows[idx]] else [])
            && Map(Filter(w', IsAltered(hash)), Tampered(ContentTampered))
               == Map(Filter(w, IsAltered(hash)), Tampered(ContentTampered))
                  + (if IsAltered(hash)(rows[idx]) then [Tampered(ContentTampered)(rows[idx])] else [])
  {
    var w := PathRows(rows, path);
    assert PathRows(rows, path + [idx]) == w + [rows[idx]];
    FilterSnoc(w, rows[idx], IsVerified(hash));
    FilterSnoc(w, rows[idx], IsAltered(hash));
    MapSnoc(Filter(w, IsAltered(hash)), rows[idx], Tampered(ContentTampered));
  }

  lemma FinalPassStep(rows: seq<Row>, reached: set<nat>, idx: nat)
    requires idx < |rows|
    ensures Map(Filter(rows[..idx + 1], IsHalfSet), Tampered(HalfSetColumns))
            == Map(Filter(rows[..idx], IsHalfSet), Tampered(HalfSetColumns))
               + (if IsHalfSet(rows[idx]) then [Tampered(HalfSetColumns)(rows[idx])] else [])
    ensures Map(Unreached(rows, reached, idx + 1), Orphaned)
            == Map(Unreached(rows, reached, idx), Orphaned)
               + (if IsHashed(rows[idx]) && idx !in reached then [Orphaned(rows[idx])] else [])
  {
    hide Filter, Map;
    assert rows[..idx + 1] == rows[..idx] + [rows[idx]];
    FilterSnoc(rows[..idx], rows[idx], IsHalfSet);
    MapSnoc(Filter(rows[..idx], IsHalfSet), rows[idx], Tampered(HalfSetColumns));
    MapSnoc(Unreached(rows, reached, idx), rows[idx], Orphaned);
  }

  /** First pass: count rows and legacy rows, and index hashed rows by previous hash. */
  method IndexRows(rows: seq<Row>) returns (total: nat, legacy: nat, index: map<string, seq<nat>>)
    ensures total == |rows| && legacy == |Filter(rows, IsLegacy)| && Indexed(rows, index, |rows|)
  {
    hide Filter;
    total, legacy, index := 0, 0, map[];
    FilterEmpty<Row>(IsLegacy);
    for idx := 0 to |rows|
      invariant total == idx && legacy == |Filter(rows[..idx], IsLegacy)|
      invariant Indexed(rows, index, idx)
    {
      FilterSnoc(rows[..idx], rows[idx], IsLegacy);
      assert rows[..idx + 1] == rows[..idx] + [rows[idx]];
      total := total + 1;
      if IsLegacy(rows[idx]) {
        legacy := legacy + 1;
      } else if IsHashed(rows[idx]) {
        var prev := rows[idx].prevHash.value;
        index := index[prev := (if prev in index then index[prev] else []) + [idx]];
      }
    }
    assert rows[..|rows|] == rows;
  }

  /** Where the loop stands: `path` walked so far, the rest of the walk still to come. */
  ghost predicate Standing(rows: seq<Row>, path: seq<nat>, expected: string) {
    && InTable(rows, path)
    && expected == HashAfter(rows, path, |path|)
    && Continues(Successor(rows), |rows|, Walk(rows), path, Pick(rows, expected))
  }

  lemma StandingMoves(rows: seq<Row>, path: seq<nat>, expected: string, idx: nat)
    requires Standing(rows, path, expected)
    requires Pick(rows, expected) == Some(idx) && idx !in path
    ensures Standing(rows, path + [idx], Stored(rows[idx]))
    ensures idx in UpTo(|rows|) && Elements(path + [idx]) == Elements(path) + {idx}
  {
    PickLinks(rows, expected);
    ContinuesStep(Successor(rows), |rows|, Walk(rows), path, Pick(rows, expected));
  }

  lemma ForkSeenGrows(rows: seq<Row>, path: seq<nat>, idx: nat)
    requires InTable(rows, path) && idx < |rows|
    ensures ForkSeen(rows, path + [idx], |path| + 1) <==>
            ForkSeen(rows, path, |path|) || Contested(rows, HashAfter(rows, path, |path|))
  {
    forall k | 0 <= k <= |path| ensures HashAfter(rows, path + [idx], k) == HashAfter(rows, path, k) {}
  }

  /** The flags record exactly the rows on `path`, all of them hashed. */
  ghost predicate Marked(rows: seq<Row>, path: seq<nat>, reached: seq<bool>) {
    && |reached| == |rows|
    && (forall i: nat :: i < |rows| ==> (reached[i] <==> i in path))
    && (forall i :: i in path ==> i < |rows| && IsHashed(rows[i]))
  }

  /** The count and the list the loop has filled once it has walked `path`. */
  ghost predicate Tallied(hash: HashFn, rows: seq<Row>, path: seq<nat>, verified: nat, tampered: seq<TamperedRow>)
    requires InTable(rows, path)
  {
    && verified == |Filter(PathRows(rows, path), IsVerified(hash))|
    && tampered == Map(Filter(PathRows(rows, path), IsAltered(hash)), Tampered(ContentTampered))
  }

  lemma MarkedMoves(rows: seq<Row>, path: seq<nat>, reached: seq<bool>, idx: nat)
    requires Marked(rows, path, reached) && idx < |rows| && IsHashed(rows[idx])
    ensures Marked(rows, path + [idx], reached[idx := true])
  {
  }

  lemma TalliedMoves(hash: HashFn, rows: seq<Row>, path: seq<nat>, verified: nat, tampered: seq<TamperedRow>, idx: nat)
    requires InTable(rows, path) && Tallied(hash, rows, path, verified, tampered)
    requires idx < |rows| && IsHashed(rows[idx])
    ensures var ok := Intact(hash, rows[idx]);
            Tallied(hash, rows, path + [idx], if ok then verified + 1 else verified,
                    if ok then tampered else tampered + [Tampered(ContentTampered)(rows[idx])])
  {
    StepTaken(hash, rows, path, idx);
    assert IsVerified(hash)(rows[idx]) == Intact(hash, rows[idx]);
    assert IsAltered(hash)(rows[idx]) == !Intact(hash, rows[idx]);
  }

  ghost predicate LoopState(hash: HashFn, rows: seq<Row>, path: seq<nat>, expected: string,
                            reached: seq<bool>, verified: nat, tampered: seq<TamperedRow>, forked: bool) {
    && Standing(rows, path, expected)
    && Marked(rows, path, reached)
    && Tallied(hash, rows, path, verified, tampered)
    && (forked <==> ForkSeen(rows, path, |path|))
  }

  lemma LoopStarts(hash: HashFn, rows: seq<Row>, reached: seq<bool>)
    requires |reached| == |rows| && forall i: nat :: i < |rows| ==> !reached[i]
    ensures LoopState(hash, rows, [], GENESIS, reached, 0, [], false)
  {
    ContinuesStarts(Successor(rows), |rows|, Pick(rows, GENESIS));
  }

  lemma LoopStops(rows: seq<Row>, path: seq<nat>, expected: string)
    requires Standing(rows, path, expected)
    requires Pick(rows, expected).None? || Pick(rows, expected).value in path
    ensures Walk(rows) == Trail(path, Pick(rows, expected))
  {
  }

  lemma LoopMoves(hash: HashFn, rows: seq<Row>, path: seq<nat>, expected: string,
                  reached: seq<bool>, verified: nat, tampered: seq<TamperedRow>, forked: bool, idx: nat)
    requires LoopState(hash, rows, path, expected, reached, verified, tampered, forked)
    requires Pick(rows, expected) == Some(idx) && !reached[idx]
    ensures IsHashed(rows[idx])
    ensures var ok := Intact(hash, rows[idx]);
            LoopState(hash, rows, path + [idx], Stored(rows[idx]), reached[idx := true],
                      if ok then verified + 1 else verified,
                      if ok then tampered else tampered + [Tampered(ContentTampered)(rows[idx])],
                      forked || Contested(rows, expected))
    ensures idx in UpTo(|rows|) && Elements(path + [idx]) == Elements(path) + {idx} && idx !in path
  {
    PickLinks(rows, expected);
    StandingMoves(rows, path, expected, idx);
    MarkedMoves(rows, path, reached, idx);
    TalliedMoves(hash, rows, path, verified, tampered, idx);
    ForkSeenGrows(rows, path, idx);
  }

  /** Recompute the hash of a reached row and file the row accordingly. */
  method Classify(hash: HashFn, row: Row, verified: nat, tampered: seq<TamperedRow>)
    returns (verified': nat, tampered': seq<TamperedRow>)
    requires IsHashed(row)
    ensures verified' == if Intact(hash, row) then verified + 1 else verified
    ensures tampered' == if Intact(hash, row) then tampered else tampered + [Tampered(ContentTampered)(row)]
  {
    verified', tampered' := verified, tampered;
    if hash(row.prevHash.value, row.fields) == row.rowHash.value {
      verified' := verified' + 1;
    } else {
      tampered' := tampered' + [Tampered(ContentTampered)(row)];
    }
  }

  /** The walk itself: follow the stored hashes from genesis, refusing to revisit a row. */
  method FollowLinks(hash: HashFn, rows: seq<Row>, index: map<string, seq<nat>>)
    returns (verified: nat, tampered: seq<TamperedRow>, reached: array<bool>,
             forked: bool, cycleAt: Option<string>, expected: string, ghost path: seq<nat>)
    requires SortedIndex(rows, index)
    ensures fresh(reached) && Marked(rows, path, reached[..])
    ensures InTable(rows, path) && Tallied(hash, rows, path, verified, tampered)
    ensures Walk(rows).path == path && Below(Walk(rows).cycleAt, |rows|)
    ensures forked <==> ForkSeen(rows, path, |path| + 1)
    ensures expected == HashAfter(rows, path, |path|)
    ensures cycleAt == IdAt(rows, Walk(rows).cycleAt)
  {
    hide Tallied, Continues, Ranked;
    verified, tampered, forked, cycleAt, expected, path := 0, [], false, None, GENESIS, [];
    reached := new bool[|rows|](_ => false);
    LoopStarts(hash, rows, reached[..]);
    while expected in index
      invariant LoopState(hash, rows, path, expected, reached[..], verified, tampered, forked)
      invariant fresh(reached) && reached.Length == |rows| && cycleAt == None
      decreases UpTo(|rows|) - Elements(path)
    {
      var candidates := index[expected];
      assert Contested(rows, expected) <==> |candidates| > 1;
      var contested := |candidates| > 1;
      var idx := candidates[0];
      if reached[idx] {
        forked := forked || contested;
        cycleAt := Some(rows[idx].fields.id);
        LoopStops(rows, path, expected);
        return;
      }
      LoopMoves(hash, rows, path, expected, reached[..], verified, tampered, forked, idx);
      forked := forked || contested;
      ghost var marked := reached[..][idx := true];
      reached[idx] := true;
      assert reached[..] == marked;
      verified, tampered := Classify(hash, rows[idx], verified, tampered);
      expected := rows[idx].rowHash.value;
      path := path + [idx];
    }
    assert !Contested(rows, expected);
    LoopStops(rows, path, expected);
  }

  function IdAt(rows: seq<Row>, i: Option<nat>): Option<string>
    requires Below(i, |rows|)
  {
    if i.Some? then Some(rows[i.value].fields.id) else None
  }

  /** The last pass: unreached hashed rows are orphaned, half-set rows are tampered. */
  method FinalPass(rows: seq<Row>, reached: array<bool>, ghost path: seq<nat>)
    returns (half: seq<TamperedRow>, orphaned: seq<OrphanedRow>)
    requires Marked(rows, path, reached[..])
    ensures half == Map(Filter(rows, IsHalfSet), Tampered(HalfSetColumns))
    ensures orphaned == Map(Unreached(rows, Elements(path), |rows|), Orphaned)
  {
    half, orphaned := [], [];
    for idx := 0 to |rows|
      invariant half == Map(Filter(rows[..idx], IsHalfSet), Tampered(HalfSetColumns))
      invariant orphaned == Map(Unreached(rows, Elements(path), idx), Orphaned)
    {
      FinalPassStep(rows, Elements(path), idx);
      if reached[idx] {
        continue;
      }
      if IsHashed(rows[idx]) {
        orphaned := orphaned + [Orphaned(rows[idx])];
      } else if !IsLegacy(rows[idx]) {
        half := half + [Tampered(HalfSetColumns)(rows[idx])];
      }
    }
    assert rows[..|rows|] == rows;
  }

  /** `walk_chain`: the classification report, the head to append to, and the fork flag. */
  method WalkChain(hash: HashFn, rows: seq<Row>) returns (r: WalkResult)
    ensures r == Report(hash, rows)
  {
    var totalRows, legacyRows, index := IndexRows(rows);
    index := SortCandidates(rows, index);
    var verifiedRows, tamperedRows, reached, forked, cycleAt, head, path := FollowLinks(hash, rows, index);
    var halfSetRows, orphanedRows := FinalPass(rows, reached, path);
    r := WalkResult(
      Verification(totalRows, legacyRows, verifiedRows, Sort(tamperedRows + halfSetRows, TamperedEarlier),
                   Sort(orphanedRows, OrphanedEarlier), cycleAt),
      head, forked);
  }
}
