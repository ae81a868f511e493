/** Importing again, and what an import guarantees about owners, links and state rows. */
module MigrationRepeat {
  import opened Wrappers
  import opened Upserts
  import opened Migration
  import opened MigrationFacts
  import opened MigrationUsers
  import Identity

  // ---- Repeating an import ----

  ghost predicate UniqueEmails(users: map<string, User>) {
    forall a, b :: a in users && b in users && Identity.SameEmail(users[a].email, users[b].email) ==> a == b
  }

  lemma WriteKeepsEmailsUnique(m: map<string, User>, u: User, v: User)
    requires UniqueEmails(m) && EmailFree(m, u) && v.email == u.email
    ensures UniqueEmails(m[u.id := v])
  {
    hide Identity.FoldCase;
  }

  lemma UpsertKeepsEmailsUnique(m: map<string, User>, policy: Policy, u: User)
    requires UniqueEmails(m)
    ensures UniqueEmails(Upsert(UserKind(), UserGate(), m, policy, u).0)
  {
    hide UniqueEmails;
    if EmailFree(m, u) {
      WriteKeepsEmailsUnique(m, u, u.(sub := None));
      if u.id in m {
        WriteKeepsEmailsUnique(m, u, UserKind().merge(m[u.id], u));
      }
    }
  }

  lemma {:induction false} RunKeepsEmailsUnique(m: map<string, User>, policy: Policy, rows: seq<User>)
    requires UniqueEmails(m)
    ensures UniqueEmails(Run(UserKind(), UserGate(), m, policy, rows).table)
  {
    hide UniqueEmails, Upsert, UserKind, UserGate;
    if rows == [] {
    } else {
      var n := |rows| - 1;
      RunKeepsEmailsUnique(m, policy, rows[..n]);
      UpsertKeepsEmailsUnique(Run(UserKind(), UserGate(), m, policy, rows[..n]).table, policy, rows[n]);
    }
  }

  /** Each user's row, or whatever `Skip` left in its place, stands in the way of nobody else. */
  lemma EmailsStayFree(m: map<string, User>, policy: Policy, rows: seq<User>, after: map<string, User>)
    requires !policy.Skip? && UniqueEmails(after) && Settled(UserKind(), m, policy, rows, after)
    ensures forall u :: u in rows ==> EmailFree(after, u)
  {
    hide Untouched;
    forall u | u in rows ensures EmailFree(after, u) {
      var i :| 0 <= i < |rows| && rows[i] == u;
      assert after[u.id].email == u.email;
    }
  }

  ghost predicate AllIdle(ctx: Context, s: Store, data: Data, policy: Policy) {
    && Idle(UserKind(), UserGate(), s.users, policy, data.UserRows())
    && Idle(TargetKind(ctx), TargetGate(ctx, s.users.Keys), s.targets, policy, data.targets)
    && Idle(ChannelKind(), ChannelGate(s.users.Keys), s.channels, policy, data.channels)
    && Idle(WindowKind(), WindowGate(s.targets.Keys), s.windows, policy, data.windows)
    && Idle(LinkKind(), LinkGate(s.targets.Keys, s.channels.Keys), s.links, policy, data.links)
  }

  /** The store admits every row of the payload, whether it has the row or not. */
  ghost predicate AllEnter(ctx: Context, data: Data, s: Store) {
    && (forall u :: u in data.UserRows() ==> u.role in ROLES)
    && (forall t :: t in data.targets ==> TargetEnters(ctx, s.users.Keys, t))
    && (forall c :: c in data.channels ==> ChannelFits(s.users.Keys, c))
    && (forall w :: w in data.windows ==> WindowFits(s.targets.Keys, w))
    && (forall l :: l in data.links ==> LinkFits(s.targets.Keys, s.channels.Keys, l))
  }

  lemma PassesAll<K, V, R>(t: Kind<K, V, R>, m: map<K, V>, policy: Policy, rows: seq<R>, test: R -> bool)
    requires Passes(t, m, policy, rows, test) && !policy.Skip?
    ensures forall r :: r in rows ==> test(r)
  {
  }

  /** Without `Skip`, a finished import leaves a store that would admit each of its rows again. */
  lemma FinishedAdmits(ctx: Context, s: Store, data: Data, policy: Policy)
    requires DistinctIds(data) && !policy.Skip? && Imported(ctx, s, data, policy).1.Ok?
    ensures AllEnter(ctx, data, Imported(ctx, s, data, policy).0)
  {
    hide Run, Imported, DistinctIds, DistinctKeys, Passes, KnownUsers, KnownTargets, KnownChannels;
    hide TargetEnters, ChannelFits, WindowFits, LinkFits;
    KeysAreDistinct(ctx, data);
    StepsSucceed(ctx, s, data, policy);
    KeysMetAreKnown(ctx, s, data, policy);
    FinishedMeansEntered(ctx, s, data, policy);
    PassesAll(TargetKind(ctx), s.targets, policy, data.targets, TargetTest(ctx, KnownUsers(s, data)));
    PassesAll(ChannelKind(), s.channels, policy, data.channels, ChannelTest(KnownUsers(s, data)));
    PassesAll(WindowKind(), s.windows, policy, data.windows, WindowTest(KnownTargets(s, data)));
    PassesAll(LinkKind(), s.links, policy, data.links, LinkTest(KnownTargets(s, data), KnownChannels(s, data)));
    UsersFailExactly(s.users, policy, data.UserRows());
    RolesKnown(s.users, policy, data.UserRows());
  }

  lemma RolesKnown(users: map<string, User>, policy: Policy, rows: seq<User>)
    requires !SomeRefused(users, policy, rows) && !policy.Skip?
    ensures forall u :: u in rows ==> u.role in ROLES
  {
    hide TakenInPayload, TakenInStore;
    forall u | u in rows ensures u.role in ROLES {
      var i :| 0 <= i < |rows| && rows[i] == u;
      assert !RefusedAt(users, policy, rows, i);
    }
  }

  lemma SettledStoreIsIdle(ctx: Context, s: Store, data: Data, policy: Policy, after: Store)
    requires AllSettled(ctx, s, data, policy, after) && UniqueEmails(after.users)
    requires !policy.Skip? ==> AllEnter(ctx, data, after)
    ensures AllIdle(ctx, after, data, policy)
  {
    hide Settled, Idle, MergeSticks, EmailFree, UniqueEmails, TagsOf, TargetFits, ChannelFits, WindowFits, LinkFits;
    if !policy.Skip? {
      EmailsStayFree(s.users, policy, data.UserRows(), after.users);
    }
    SettledIsIdle(UserKind(), UserGate(), s.users, policy, data.UserRows(), after.users);
    SettledIsIdle(TargetKind(ctx), TargetGate(ctx, after.users.Keys), s.targets, policy, data.targets, after.targets);
    SettledIsIdle(ChannelKind(), ChannelGate(after.users.Keys), s.channels, policy, data.channels, after.channels);
    SettledIsIdle(WindowKind(), WindowGate(after.targets.Keys), s.windows, policy, data.windows, after.windows);
    SettledIsIdle(LinkKind(), LinkGate(after.targets.Keys, after.channels.Keys), s.links, policy, data.links,
                  after.links);
  }

  /** What an import of rows that are all there already reports. */
  function Repeated(data: Data, policy: Policy): Counts {
    if policy.Skip? then Counts(0, 0, 0, 0, 0, data.Size(), 0)
    else
      Counts(|data.targets|, |data.channels|, |data.links|, |data.windows|, |data.UserRows()|, 0, data.Size())
  }

  lemma IdleImport(ctx: Context, s: Store, data: Data, policy: Policy)
    requires AllIdle(ctx, s, data, policy) && !policy.Fail?
    ensures Imported(ctx, s, data, policy)
         == (s, Ok(Repeated(data, policy)))
  {
    hide Run, Idle, UserKind, TargetKind, ChannelKind, WindowKind, LinkKind;
    hide UserGate, TargetGate, ChannelGate, WindowGate, LinkGate;
    IdleRun(UserKind(), UserGate(), s.users, policy, data.UserRows());
    IdleRun(TargetKind(ctx), TargetGate(ctx, s.users.Keys), s.targets, policy, data.targets);
    IdleRun(ChannelKind(), ChannelGate(s.users.Keys), s.channels, policy, data.channels);
    IdleRun(WindowKind(), WindowGate(s.targets.Keys), s.windows, policy, data.windows);
    IdleRun(LinkKind(), LinkGate(s.targets.Keys, s.channels.Keys), s.links, policy, data.links);
  }

  /**
    * Importing a payload again, under the same policy, changes nothing: `Skip` skips every row and
    * `Replace` replaces every row with itself.
    */
  lemma ImportTwiceIsOnce(ctx: Context, s: Store, data: Data, policy: Policy)
    requires DistinctIds(data) && UniqueEmails(s.users) && !policy.Fail?
    requires Imported(ctx, s, data, policy).1.Ok?
    ensures Imported(ctx, Imported(ctx, s, data, policy).0, data, policy)
         == (Imported(ctx, s, data, policy).0, Ok(Repeated(data, policy)))
  {
    hide Run, Imported, AllSettled, AllIdle, AllEnter, UniqueEmails, DistinctIds;
    ImportSettles(ctx, s, data, policy);
    ImportKeepsEmailsUnique(ctx, s, data, policy);
    if !policy.Skip? {
      FinishedAdmits(ctx, s, data, policy);
    }
    SettledStoreIsIdle(ctx, s, data, policy, Imported(ctx, s, data, policy).0);
    IdleImport(ctx, Imported(ctx, s, data, policy).0, data, policy);
  }

  /** The unique index on emails survives every import, finished or not. */
  lemma ImportKeepsEmailsUnique(ctx: Context, s: Store, data: Data, policy: Policy)
    requires UniqueEmails(s.users)
    ensures UniqueEmails(Imported(ctx, s, data, policy).0.users)
  {
    hide Run, Collisions, UniqueEmails;
    RunKeepsEmailsUnique(s.users, policy, data.UserRows());
  }

  // ---- Owners and links ----

  ghost predicate LinksInside(data: Data) {
    forall l :: l in data.links ==>
      && (exists i :: 0 <= i < |data.targets| && data.targets[i].id == l.targetId)
      && (exists i :: 0 <= i < |data.channels| && data.channels[i].id == l.channelId)
  }

  ghost predicate OwnersResolved(users: map<string, User>, data: Data) {
    && (forall t :: t in data.targets ==> Resolved(users, data, t.ownerId))
    && (forall c :: c in data.channels ==> Resolved(users, data, c.ownerId))
  }

  lemma {:induction false} NoOwnerlessTargets(users: map<string, User>, data: Data, rows: seq<Target>)
    ensures OwnerlessTargets(users, data, rows) == [] <==> forall t :: t in rows ==> Resolved(users, data, t.ownerId)
  {
    hide Resolved;
    if rows == [] {
    } else {
      NoOwnerlessTargets(users, data, rows[..|rows| - 1]);
      assert rows == rows[..|rows| - 1] + [rows[|rows| - 1]];
    }
  }

  lemma {:induction false} NoOwnerlessChannels(users: map<string, User>, data: Data, rows: seq<Channel>)
    ensures OwnerlessChannels(users, data, rows) == [] <==> forall c :: c in rows ==> Resolved(users, data, c.ownerId)
  {
    hide Resolved;
    if rows == [] {
    } else {
      NoOwnerlessChannels(users, data, rows[..|rows| - 1]);
      assert rows == rows[..|rows| - 1] + [rows[|rows| - 1]];
    }
  }

  /** The list of unresolvable owners is empty exactly when every owner can be resolved. */
  lemma NothingUnresolvable(users: map<string, User>, data: Data)
    ensures Unresolvable(users, data) == [] <==> OwnersResolved(users, data)
  {
    hide Resolved;
    NoOwnerlessTargets(users, data, data.targets);
    NoOwnerlessChannels(users, data, data.channels);
  }

  /** The list names exactly the targets and channels whose owner is in neither place, with that owner. */
  lemma UnresolvableNames(users: map<string, User>, data: Data, x: Ownerless)
    ensures x in Unresolvable(users, data) <==>
              && x.owner !in users && (forall u :: u in data.UserRows() ==> u.id != x.owner)
              && match x
                 case OwnerlessTarget(id, owner) => exists t :: t in data.targets && t.id == id && t.ownerId == owner
                 case OwnerlessChannel(id, owner) => exists c :: c in data.channels && c.id == id && c.ownerId == owner
  {
    OwnerlessTargetNames(users, data, data.targets, x);
    OwnerlessChannelNames(users, data, data.channels, x);
  }

  lemma {:induction false} OwnerlessTargetNames(users: map<string, User>, data: Data, rows: seq<Target>, x: Ownerless)
    ensures x in OwnerlessTargets(users, data, rows) <==>
              && x.OwnerlessTarget? && !Resolved(users, data, x.owner)
              && exists t :: t in rows && t.id == x.id && t.ownerId == x.owner
  {
    hide Resolved;
    if rows == [] {
    } else {
      OwnerlessTargetNames(users, data, rows[..|rows| - 1], x);
      assert rows == rows[..|rows| - 1] + [rows[|rows| - 1]];
    }
  }

  lemma {:induction false} OwnerlessChannelNames(users: map<string, User>, data: Data, rows: seq<Channel>, x: Ownerless)
    ensures x in OwnerlessChannels(users, data, rows) <==>
              && x.OwnerlessChannel? && !Resolved(users, data, x.owner)
              && exists c :: c in rows && c.id == x.id && c.ownerId == x.owner
  {
    hide Resolved;
    if rows == [] {
    } else {
      OwnerlessChannelNames(users, data, rows[..|rows| - 1], x);
      assert rows == rows[..|rows| - 1] + [rows[|rows| - 1]];
    }
  }

  ghost predicate References(data: Data, after: Store) {
    && (forall t :: t in data.targets ==> t.id in after.targets)
    && (forall t :: t in data.targets ==> t.ownerId in after.users)
    && (forall c :: c in data.channels ==> c.id in after.channels && c.ownerId in after.users)
    && (forall l :: l in data.links ==>
          (l.targetId, l.channelId) in after.links && l.targetId in after.targets && l.channelId in after.channels)
  }

  /** Whatever an import brought in refers to rows that exist: owners, and both ends of every link. */
  lemma ImportedReferencesExist(ctx: Context, s: Store, data: Data, policy: Policy)
    requires DistinctIds(data) && LinksInside(data) && OwnersResolved(s.users, data)
    requires Imported(ctx, s, data, policy).1.Ok?
    ensures References(data, Imported(ctx, s, data, policy).0)
  {
    hide Imported, DistinctIds, Final;
    var after := Imported(ctx, s, data, policy).0;
    ImportSettles(ctx, s, data, policy);
    forall owner | Resolved(s.users, data, owner) ensures owner in after.users {
      ResolvedOwnerExists(ctx, s, data, policy, after, owner);
    }
  }

  lemma ResolvedOwnerExists(ctx: Context, s: Store, data: Data, policy: Policy, after: Store, owner: string)
    requires Settled(UserKind(), s.users, policy, data.UserRows(), after.users)
    requires Resolved(s.users, data, owner)
    ensures owner in after.users
  {
    hide Final;
    if u :| u in data.UserRows() && u.id == owner {
      var i :| 0 <= i < |data.UserRows()| && data.UserRows()[i] == u;
    } else {
      assert !HasKey(UserKind(), data.UserRows(), owner);
    }
  }

  // ---- One state row per target ----

  ghost predicate OneState(targets: map<string, Entry>) {
    forall id :: id in targets ==> targets[id].state.Some?
  }

  lemma {:induction false} RunKeepsOneState(
    ctx: Context, owners: set<string>, m: map<string, Entry>, policy: Policy, rows: seq<Target>)
    requires OneState(m) && !Run(TargetKind(ctx), TargetGate(ctx, owners), m, policy, rows).failed
    ensures OneState(Run(TargetKind(ctx), TargetGate(ctx, owners), m, policy, rows).table)
  {
    if rows == [] {
    } else {
      RunKeepsOneState(ctx, owners, m, policy, rows[..|rows| - 1]);
    }
  }

  /** A finished import keeps one state row per target. */
  lemma ImportKeepsOneState(ctx: Context, s: Store, data: Data, policy: Policy)
    requires OneState(s.targets) && Imported(ctx, s, data, policy).1.Ok?
    ensures OneState(Imported(ctx, s, data, policy).0.targets)
  {
    hide Run, Collisions, OneState;
    StepsSucceed(ctx, s, data, policy);
    RunKeepsOneState(ctx, KeysMet(ctx, s, data, policy).0, s.targets, policy, data.targets);
  }

  /**
    * A target loop that stops leaves a target without a state row exactly when the target it stops at is
    * new and its own row fits the schema, so that its tags are what stopped it.
    */
  lemma StrandedExactly(
    ctx: Context, owners: set<string>, m: map<string, Entry>, policy: Policy, rows: seq<Target>, f: nat)
    requires OneState(m) && DistinctKeys(TargetKind(ctx), rows)
    requires StopsAt(TargetKind(ctx), m, policy, rows, TargetTest(ctx, owners), f)
    ensures var p := Run(TargetKind(ctx), TargetGate(ctx, owners), m, policy, rows);
            p.failed && (OneState(p.table) <==> rows[f].id in m || !TargetFits(owners, rows[f]))
  {
    hide Passes, OneState, Run, Overwritten, NewEntry, DistinctKeys, TargetFits;
    StopFails(TargetKind(ctx), m, policy, rows, TargetTest(ctx, owners), f);
    var before := RunStops(TargetKind(ctx), TargetGate(ctx, owners), m, policy, rows, TargetTest(ctx, owners), f);
    RunKeepsOneState(ctx, owners, m, policy, rows[..f]);
    WreckStrands(ctx, owners, before, rows[f]);
  }

  lemma WreckStrands(ctx: Context, owners: set<string>, m: map<string, Entry>, t: Target)
    requires OneState(m)
    ensures OneState(TargetGate(ctx, owners).wreck(m, t)) <==> t.id in m || !TargetFits(owners, t)
  {
    hide TargetFits;
    var after := TargetGate(ctx, owners).wreck(m, t);
    if t.id !in m && TargetFits(owners, t) {
      assert after[t.id].state.None?;
    }
  }
}
