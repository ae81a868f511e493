/** The `audit_logs` table and the three writers that append to its chain. */
module AuditLog {
  import opened Wrappers
  import opened Ordering
  import opened AuditHash
  import opened AuditChain
  import opened AuditOrder
  import opened AuditTrunk
  import opened AuditReport

  datatype Caller = Caller(userId: string, email: string)

  predicate RowEarlier(a: Row, b: Row) { StringLess(a.fields.actionTime, b.fields.actionTime) }

  /** The lists hold exactly the altered and half-set rows with their reasons and the orphaned rows, by id and time,
      and ascend by time. */
  ghost predicate ListsAccuse(v: Verification, hash: HashFn, rows: seq<Row>) {
    && (forall e :: e in v.tamperedRows <==> IsNamed(hash, rows, Walk(rows).path, e))
    && (forall e :: e in v.orphanedRows <==> IsNamedOrphan(rows, Walk(rows).path, e))
    && (forall a, b :: 0 <= a < b < |v.tamperedRows| ==>
          !StringLess(v.tamperedRows[b].actionTime, v.tamperedRows[a].actionTime))
    && forall a, b :: 0 <= a < b < |v.orphanedRows| ==>
         !StringLess(v.orphanedRows[b].actionTime, v.orphanedRows[a].actionTime)
  }

  lemma SameMembers<T>(a: seq<T>, b: seq<T>)
    requires multiset(a) == multiset(b)
    ensures forall x :: x in a <==> x in b
  {
    assert forall x :: x in a <==> x in multiset(a);
  }

  class AuditTable {
    const sha: string -> string
    var rows: seq<Row>

    constructor (sha: string -> string)
      ensures this.sha == sha && rows == [] && Valid()
    {
      this.sha := sha;
      rows := [];
    }

    /** `id` is the primary key. */
    ghost predicate Valid()
      reads this
    {
      UniqueIds(rows)
    }

    ghost predicate Unused(id: string)
      reads this
    {
      forall r :: r in rows ==> r.fields.id != id
    }

    /** The query sorts by time only; the head does not depend on that order. */
    method CurrentHeadHash() returns (head: string)
      requires Valid()
      ensures head == Head(rows)
    {
      var fetched := Sort(rows, RowEarlier);
      SortPermutes(rows, RowEarlier);
      OrderIndependence(HashWith(sha), rows, fetched);
      var result := WalkChain(HashWith(sha), fetched);
      head := result.head;
    }

    method VerifyChain() returns (v: Verification)
      requires Valid()
      ensures var r := Report(HashWith(sha), rows).verification;
              && multiset(v.tamperedRows) == multiset(r.tamperedRows)
              && multiset(v.orphanedRows) == multiset(r.orphanedRows)
              && v.(tamperedRows := [], orphanedRows := []) == r.(tamperedRows := [], orphanedRows := [])
      ensures ListsAccuse(v, HashWith(sha), rows)
    {
      hide Report, Walk, UniqueIds, IsNamed, IsNamedOrphan;
      var fetched := Sort(rows, RowEarlier);
      SortPermutes(rows, RowEarlier);
      OrderIndependence(HashWith(sha), rows, fetched);
      var result := WalkChain(HashWith(sha), fetched);
      v := result.verification;
      TamperedInColumns(HashWith(sha), rows);
      TamperedInColumns(HashWith(sha), fetched);
      OrphanedInColumns(HashWith(sha), rows);
      OrphanedInColumns(HashWith(sha), fetched);
      SameMembers(v.tamperedRows, Report(HashWith(sha), rows).verification.tamperedRows);
      SameMembers(v.orphanedRows, Report(HashWith(sha), rows).verification.orphanedRows);
    }

    /** An administrator's or member's write. */
    method Log(id: string, now: string, caller: Caller, resourceType: string, resourceId: string,
               actionType: string, previousValue: Option<string>, newValue: Option<string>)
      requires Valid() && Unused(id)
      modifies this
      ensures Valid()
      ensures rows == Append(sha, old(rows),
                Fields(id, now, caller.userId, Some(caller.email), resourceType, Some(resourceId), actionType,
                       previousValue, newValue, "success", None))
    {
      var prevHash := CurrentHeadHash();
      var columns := Fields(id, now, caller.userId, Some(caller.email), resourceType, Some(resourceId),
                            actionType, previousValue, newValue, "success", None);
      var rowHash := RowHash(sha, prevHash, columns);
      rows := rows + [Row(columns, Some(prevHash), Some(rowHash))];
    }

    /** A write by the monitor itself. */
    method LogSystem(id: string, now: string, resourceType: string, resourceId: string,
                     actionType: string, details: Option<string>)
      requires Valid() && Unused(id)
      modifies this
      ensures Valid()
      ensures rows == Append(sha, old(rows),
                Fields(id, now, "system", Some("system"), resourceType, Some(resourceId), actionType,
                       None, details, "success", None))
    {
      var prevHash := CurrentHeadHash();
      var columns := Fields(id, now, "system", Some("system"), resourceType, Some(resourceId), actionType,
                            None, details, "success", None);
      var rowHash := RowHash(sha, prevHash, columns);
      rows := rows + [Row(columns, Some(prevHash), Some(rowHash))];
    }

    /** A successful login, attributed to the user. */
    method LogLogin(id: string, now: string, userId: string, userEmail: string, ipAddress: Option<string>)
      requires Valid() && Unused(id)
      modifies this
      ensures Valid()
      ensures rows == Append(sha, old(rows),
                Fields(id, now, userId, Some(userEmail), "session", Some(userId), "login",
                       None, None, "success", ipAddress))
    {
      var prevHash := CurrentHeadHash();
      var columns := Fields(id, now, userId, Some(userEmail), "session", Some(userId), "login",
                            None, None, "success", ipAddress);
      var rowHash := RowHash(sha, prevHash, columns);
      rows := rows + [Row(columns, Some(prevHash), Some(rowHash))];
    }
  }
}
