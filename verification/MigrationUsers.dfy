/** When the import's user loop is refused. */
module MigrationUsers {
  import opened Upserts
  import opened Migration
  import Identity

  // ---- The user loop ----

  /** The policy passes over a row whose key the table already has. */
  predicate PassedBy(users: map<string, User>, policy: Policy, u: User) {
    policy.Skip? && u.id in users
  }

  /** The earlier payload user `j` is written and has the email of row `i`. */
  predicate PayloadHolds(users: map<string, User>, policy: Policy, rows: seq<User>, i: nat, j: nat)
    requires j < i < |rows|
  {
    !PassedBy(users, policy, rows[j]) && Identity.SameEmail(rows[j].email, rows[i].email)
  }

  /** The stored user `id`, whom the earlier rows leave alone, has the email of row `i`. */
  predicate StoreHolds(users: map<string, User>, policy: Policy, rows: seq<User>, i: nat, id: string)
    requires i < |rows| && id in users
  {
    && id != rows[i].id && (policy.Skip? || !HasKey(UserKind(), rows[..i], id))
    && Identity.SameEmail(users[id].email, rows[i].email)
  }

  ghost predicate TakenInPayload(users: map<string, User>, policy: Policy, rows: seq<User>, i: nat)
    requires i < |rows|
  {
    exists j :: 0 <= j < i && PayloadHolds(users, policy, rows, i, j)
  }

  ghost predicate TakenInStore(users: map<string, User>, policy: Policy, rows: seq<User>, i: nat)
    requires i < |rows|
  {
    exists id :: id in users && StoreHolds(users, policy, rows, i, id)
  }

  ghost predicate RefusedAt(users: map<string, User>, policy: Policy, rows: seq<User>, i: nat)
    requires i < |rows|
  {
    && !PassedBy(users, policy, rows[i])
    && (|| rows[i].role !in ROLES || TakenInPayload(users, policy, rows, i) || TakenInStore(users, policy, rows, i))
  }

  /** Some user of the payload is refused: its role is not known or its email is taken. */
  ghost predicate SomeRefused(users: map<string, User>, policy: Policy, rows: seq<User>) {
    exists i :: 0 <= i < |rows| && RefusedAt(users, policy, rows, i)
  }

  ghost predicate FirstRefused(users: map<string, User>, policy: Policy, rows: seq<User>, i: nat) {
    i < |rows| && RefusedAt(users, policy, rows, i) && !SomeRefused(users, policy, rows[..i])
  }

  /** Once the rows before it are in, row `i` finds its email taken exactly when one of them or a stored row has it. */
  lemma EmailFreeExactly(users: map<string, User>, policy: Policy, rows: seq<User>, i: nat, table: map<string, User>)
    requires i < |rows| && DistinctKeys(UserKind(), rows)
    requires Settled(UserKind(), users, policy, rows[..i], table)
    ensures EmailFree(table, rows[i])
       <==> !TakenInPayload(users, policy, rows, i) && !TakenInStore(users, policy, rows, i)
  {
    hide Identity.SameEmail, Untouched, HasKey, Settled;
    var init := rows[..i];
    if j :| 0 <= j < i && PayloadHolds(users, policy, rows, i, j) {
      WrittenEmail(users, policy, init, table, j);
      assert init[j] == rows[j] && UserKind().key(rows[j]) != UserKind().key(rows[i]);
    }
    if id :| id in users && StoreHolds(users, policy, rows, i, id) {
      StoredEmail(users, policy, init, table, id);
    }
    if id :| id in table && Identity.SameEmail(table[id].email, rows[i].email) && id != rows[i].id {
      HolderTakes(users, policy, rows, i, table, id);
    }
  }

  lemma HolderTakes(
    users: map<string, User>, policy: Policy, rows: seq<User>, i: nat, table: map<string, User>, id: string)
    requires i < |rows| && Settled(UserKind(), users, policy, rows[..i], table)
    requires id in table && Identity.SameEmail(table[id].email, rows[i].email) && id != rows[i].id
    ensures TakenInPayload(users, policy, rows, i) || TakenInStore(users, policy, rows, i)
  {
    hide Identity.SameEmail, Untouched, HasKey;
    var init := rows[..i];
    if HasKey(UserKind(), init, id) {
      var j := RowOf(init, id);
      WrittenEmail(users, policy, init, table, j);
      if PassedBy(users, policy, init[j]) {
        StoredEmail(users, policy, init, table, id);
        assert StoreHolds(users, policy, rows, i, id);
      } else {
        assert PayloadHolds(users, policy, rows, i, j);
      }
    } else {
      OthersKept(UserKind(), users, init, table, id);
      assert StoreHolds(users, policy, rows, i, id);
    }
  }

  lemma RowOf(rows: seq<User>, id: string) returns (j: nat)
    requires HasKey(UserKind(), rows, id)
    ensures j < |rows| && rows[j].id == id
  {
    j :| 0 <= j < |rows| && UserKind().key(rows[j]) == id;
  }

  lemma WrittenEmail(users: map<string, User>, policy: Policy, rows: seq<User>, table: map<string, User>, j: nat)
    requires j < |rows| && Settled(UserKind(), users, policy, rows, table)
    ensures rows[j].id in table
    ensures !PassedBy(users, policy, rows[j]) ==> table[rows[j].id].email == rows[j].email
  {
    hide Untouched;
    assert UserKind().key(rows[j]) == rows[j].id;
  }

  lemma StoredEmail(users: map<string, User>, policy: Policy, rows: seq<User>, table: map<string, User>, id: string)
    requires Settled(UserKind(), users, policy, rows, table) && id in users
    requires policy.Skip? || !HasKey(UserKind(), rows, id)
    ensures id in table && table[id].email == users[id].email
  {
    if HasKey(UserKind(), rows, id) {
      hide Untouched;
      var j :| 0 <= j < |rows| && UserKind().key(rows[j]) == id;
      assert table[id] == users[id];
    } else {
      OthersKept(UserKind(), users, rows, table, id);
    }
  }

  lemma SomeRefusedSnoc(users: map<string, User>, policy: Policy, rows: seq<User>)
    requires rows != []
    ensures SomeRefused(users, policy, rows)
       <==> SomeRefused(users, policy, rows[..|rows| - 1]) || RefusedAt(users, policy, rows, |rows| - 1)
  {
    hide RefusedAt;
    var n := |rows| - 1;
    forall i: nat | i < n ensures RefusedAt(users, policy, rows[..n], i) <==> RefusedAt(users, policy, rows, i) {
      RefusalOfPrefix(users, policy, rows, n, i);
    }
  }

  /** Whether a user is refused depends on the rows up to it alone. */
  lemma RefusalOfPrefix(users: map<string, User>, policy: Policy, rows: seq<User>, n: nat, i: nat)
    requires i < n <= |rows|
    ensures RefusedAt(users, policy, rows[..n], i) <==> RefusedAt(users, policy, rows, i)
  {
    hide Identity.SameEmail, HasKey;
    var init := rows[..n];
    assert init[..i] == rows[..i] && init[i] == rows[i];
    assert forall j :: 0 <= j < i ==>
        (PayloadHolds(users, policy, init, i, j) <==> PayloadHolds(users, policy, rows, i, j));
    assert forall id :: id in users ==>
        (StoreHolds(users, policy, init, i, id) <==> StoreHolds(users, policy, rows, i, id));
  }

  /** The user loop fails exactly when some user it does not pass over has no known role or a taken email. */
  lemma {:induction false} UsersFailExactly(users: map<string, User>, policy: Policy, rows: seq<User>)
    requires DistinctKeys(UserKind(), rows)
    ensures Run(UserKind(), UserGate(), users, policy, rows).failed <==> SomeRefused(users, policy, rows)
  {
    if rows == [] {
    } else {
      var n := |rows| - 1;
      hide Settled, EmailFree, TakenInPayload, TakenInStore, SomeRefused, Advance, UserKind, UserGate;
      assert DistinctKeys(UserKind(), rows[..n]);
      UsersFailExactly(users, policy, rows[..n]);
      SomeRefusedSnoc(users, policy, rows);
      UserStops(Run(UserKind(), UserGate(), users, policy, rows[..n]), policy, rows[n]);
      if !Run(UserKind(), UserGate(), users, policy, rows[..n]).failed {
        var table := Run(UserKind(), UserGate(), users, policy, rows[..n]).table;
        RunSettles(UserKind(), UserGate(), users, policy, rows[..n]);
        EmailFreeExactly(users, policy, rows, n, table);
        LastKnown(users, policy, rows, table);
      }
    }
  }

  lemma UserStops(p: Progress<string, User>, policy: Policy, u: User)
    ensures Advance(UserKind(), UserGate(), p, policy, u).failed
       <==> p.failed || (!PassedBy(p.table, policy, u) && (u.role !in ROLES || !EmailFree(p.table, u)))
  {
    hide EmailFree;
  }

  lemma LastKnown(users: map<string, User>, policy: Policy, rows: seq<User>, table: map<string, User>)
    requires rows != [] && DistinctKeys(UserKind(), rows)
    requires Settled(UserKind(), users, policy, rows[..|rows| - 1], table)
    ensures rows[|rows| - 1].id in table <==> rows[|rows| - 1].id in users
  {
    hide HasKey, Untouched;
    LastKeyIsNew(UserKind(), rows);
    OthersKept(UserKind(), users, rows[..|rows| - 1], table, rows[|rows| - 1].id);
  }

  lemma {:induction false} FirstRefusedExists(users: map<string, User>, policy: Policy, rows: seq<User>)
    returns (i: nat)
    requires SomeRefused(users, policy, rows)
    ensures FirstRefused(users, policy, rows, i)
  {
    hide RefusedAt;
    var n := |rows| - 1;
    SomeRefusedSnoc(users, policy, rows);
    if SomeRefused(users, policy, rows[..n]) {
      i := FirstRefusedExists(users, policy, rows[..n]);
      RefusalOfPrefix(users, policy, rows, n, i);
      assert rows[..n][..i] == rows[..i];
    } else {
      i := n;
    }
  }

  /** A refused user writes nothing. */
  lemma UsersStopAt(users: map<string, User>, policy: Policy, rows: seq<User>, i: nat)
    requires DistinctKeys(UserKind(), rows) && FirstRefused(users, policy, rows, i)
    ensures !Run(UserKind(), UserGate(), users, policy, rows[..i]).failed
    ensures Run(UserKind(), UserGate(), users, policy, rows).table
         == Run(UserKind(), UserGate(), users, policy, rows[..i]).table
  {
    hide Run, RefusedAt, EmailFree, DistinctKeys, Upsert, Advance, UserKind, UserGate;
    RunSnoc(UserKind(), UserGate(), users, policy, rows, i);
    PrefixIsDistinct(UserKind(), rows, i);
    PrefixIsDistinct(UserKind(), rows, i + 1);
    UsersFailExactly(users, policy, rows[..i]);
    RefusalOfPrefix(users, policy, rows, i + 1, i);
    assert SomeRefused(users, policy, rows[..i + 1]);
    UsersFailExactly(users, policy, rows[..i + 1]);
    RefusedUserWritesNothing(Run(UserKind(), UserGate(), users, policy, rows[..i]), policy, rows[i]);
    RunStaysFailed(UserKind(), UserGate(), users, policy, rows, i + 1);
  }

  lemma RefusedUserWritesNothing(p: Progress<string, User>, policy: Policy, u: User)
    requires Advance(UserKind(), UserGate(), p, policy, u).failed
    ensures Advance(UserKind(), UserGate(), p, policy, u).table == p.table
  {
    hide EmailFree;
  }
}
