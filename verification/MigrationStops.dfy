/** When an import stops part-way, and what it has written by then. */
module MigrationStops {
  import opened Wrappers
  import opened Ordering
  import opened Upserts
  import opened Migration
  import opened MigrationFacts
  import opened MigrationRepeat
  import opened MigrationUsers
  import opened MigrationValidate
  import Identity

  // ---- Which import stops where ----

  /** Whether every row of the table is skipped or enters it. */
  ghost predicate Enters(ctx: Context, s: Store, data: Data, policy: Policy, table: TableName) {
    match table
    case Users => !SomeRefused(s.users, policy, data.UserRows())
    case Targets => TargetsEnter(ctx, s, data, policy)
    case Channels => ChannelsEnter(s, data, policy)
    case Windows => WindowsEnter(s, data, policy)
    case Links => LinksEnter(s, data, policy)
  }

  /** The order in which the tables are imported. */
  function Place(table: TableName): nat {
    match table
    case Users => 0
    case Targets => 1
    case Channels => 2
    case Windows => 3
    case Links => 4
  }

  ghost predicate EarlierEnter(ctx: Context, s: Store, data: Data, policy: Policy, table: TableName) {
    forall earlier :: Place(earlier) < Place(table) ==> Enters(ctx, s, data, policy, earlier)
  }

  ghost predicate Turned(s: Store, data: Data, policy: Policy) {
    policy.Fail? && Collides(s, data)
  }

  /** An import is refused up front, fails at the first table with a row that cannot enter, or finishes. */
  lemma ImportStopsExactly(ctx: Context, s: Store, data: Data, policy: Policy)
    requires DistinctIds(data)
    ensures var r := Imported(ctx, s, data, policy).1;
            && ((r.Err? && r.error.Refused?) <==> Turned(s, data, policy))
            && (forall table :: r == Err(FailedAt(table)) <==>
                  && !Turned(s, data, policy) && !Enters(ctx, s, data, policy, table)
                  && EarlierEnter(ctx, s, data, policy, table))
            && (r.Ok? <==> !Turned(s, data, policy) && forall table :: Enters(ctx, s, data, policy, table))
  {
    hide Run, Collides, Collisions, StepsOf, SomeRefused, TargetsEnter, ChannelsEnter, WindowsEnter, LinksEnter;
    TurnedIsCollision(ctx, s, data);
    LoopsFailAs(ctx, s, data, policy);
    assert Enters(ctx, s, data, policy, Users) <==> !SomeRefused(s.users, policy, data.UserRows());
    assert Enters(ctx, s, data, policy, Targets) <==> TargetsEnter(ctx, s, data, policy);
    assert Enters(ctx, s, data, policy, Channels) <==> ChannelsEnter(s, data, policy);
    assert Enters(ctx, s, data, policy, Windows) <==> WindowsEnter(s, data, policy);
    assert Enters(ctx, s, data, policy, Links) <==> LinksEnter(s, data, policy);
  }

  lemma LoopsFailAs(ctx: Context, s: Store, data: Data, policy: Policy)
    requires DistinctIds(data)
    ensures var r := StepsOf(ctx, s, data, policy);
            && (r.users.failed <==> SomeRefused(s.users, policy, data.UserRows()))
            && (!r.users.failed ==> (r.targets.failed <==> !TargetsEnter(ctx, s, data, policy)))
            && (!r.users.failed ==> (r.channels.failed <==> !ChannelsEnter(s, data, policy)))
            && (!r.targets.failed ==> (r.windows.failed <==> !WindowsEnter(s, data, policy)))
            && (!r.targets.failed && !r.channels.failed ==> (r.links.failed <==> !LinksEnter(s, data, policy)))
  {
    hide Run, SomeRefused, DistinctKeys, TargetsEnter, ChannelsEnter, WindowsEnter, LinksEnter;
    KeysAreDistinct(ctx, data);
    UsersFailExactly(s.users, policy, data.UserRows());
    LoopsFailExactly(ctx, s, data, policy);
  }

  lemma TurnedIsCollision(ctx: Context, s: Store, data: Data)
    ensures Collides(s, data) <==> Collisions(ctx, s, data) != []
  {
    hide Collides, Collisions, StepsOf;
    FailRefusesExactlyOnCollision(ctx, s, data);
  }

  /** Row `n` is the first of its table that cannot enter. */
  ghost predicate FirstOut(ctx: Context, s: Store, data: Data, policy: Policy, table: TableName, n: nat) {
    match table
    case Users => FirstRefused(s.users, policy, data.UserRows(), n)
    case Targets =>
      StopsAt(TargetKind(ctx), s.targets, policy, data.targets, TargetTest(ctx, KnownUsers(s, data)), n)
    case Channels => StopsAt(ChannelKind(), s.channels, policy, data.channels, ChannelTest(KnownUsers(s, data)), n)
    case Windows => StopsAt(WindowKind(), s.windows, policy, data.windows, WindowTest(KnownTargets(s, data)), n)
    case Links =>
      StopsAt(LinkKind(), s.links, policy, data.links, LinkTest(KnownTargets(s, data), KnownChannels(s, data)), n)
  }

  /** The import stops at row `n` of the table. */
  ghost predicate StopsAtRow(ctx: Context, s: Store, data: Data, policy: Policy, table: TableName, n: nat) {
    EarlierEnter(ctx, s, data, policy, table) && FirstOut(ctx, s, data, policy, table, n)
  }

  lemma FirstOutIsOut(ctx: Context, s: Store, data: Data, policy: Policy, table: TableName, n: nat)
    requires FirstOut(ctx, s, data, policy, table, n)
    ensures !Enters(ctx, s, data, policy, table)
  {
    hide RefusedAt, TargetTest, ChannelTest, WindowTest, LinkTest, KnownUsers, KnownTargets, KnownChannels;
    hide TargetKind, ChannelKind, WindowKind, LinkKind;
  }

  lemma FirstOutExists(ctx: Context, s: Store, data: Data, policy: Policy, table: TableName) returns (n: nat)
    requires !Enters(ctx, s, data, policy, table)
    ensures FirstOut(ctx, s, data, policy, table, n)
  {
    hide SomeRefused, FirstRefused, StopsAt, Passes;
    match table
    case Users => n := FirstRefusedExists(s.users, policy, data.UserRows());
    case Targets =>
      n := FirstStop(TargetKind(ctx), s.targets, policy, data.targets, TargetTest(ctx, KnownUsers(s, data)));
    case Channels =>
      n := FirstStop(ChannelKind(), s.channels, policy, data.channels, ChannelTest(KnownUsers(s, data)));
    case Windows =>
      n := FirstStop(WindowKind(), s.windows, policy, data.windows, WindowTest(KnownTargets(s, data)));
    case Links =>
      n := FirstStop(LinkKind(), s.links, policy, data.links,
                     LinkTest(KnownTargets(s, data), KnownChannels(s, data)));
  }

  // ---- What a stopped import has written ----

  /** The tables before the one that stopped are settled, and those after it are as they were. */
  ghost predicate AroundStop(
    ctx: Context, s: Store, data: Data, policy: Policy, table: TableName, after: Store)
  {
    && (Place(table) > 0 ==> Settled(UserKind(), s.users, policy, data.UserRows(), after.users))
    && (Place(table) > 1 ==> Settled(TargetKind(ctx), s.targets, policy, data.targets, after.targets))
    && (Place(table) > 2 ==> Settled(ChannelKind(), s.channels, policy, data.channels, after.channels))
    && (Place(table) > 3 ==> Settled(WindowKind(), s.windows, policy, data.windows, after.windows))
    && (Place(table) < 1 ==> after.targets == s.targets)
    && (Place(table) < 2 ==> after.channels == s.channels)
    && (Place(table) < 3 ==> after.windows == s.windows)
    && (Place(table) < 4 ==> after.links == s.links)
  }

  /** The import fails at that table, and only that table's own rows are left to be told. */
  lemma StopLeavesAround(ctx: Context, s: Store, data: Data, policy: Policy, table: TableName, n: nat)
    requires DistinctIds(data) && !Turned(s, data, policy) && StopsAtRow(ctx, s, data, policy, table, n)
    ensures var (after, r) := Imported(ctx, s, data, policy);
            && r == Err(FailedAt(table)) && AroundStop(ctx, s, data, policy, table, after)
            && var p := StepsOf(ctx, s, data, policy);
               match table
               case Users => after.users == p.users.table
               case Targets => after.targets == p.targets.table && !p.users.failed
               case Channels => after.channels == p.channels.table && !p.users.failed
               case Windows => after.windows == p.windows.table && !p.targets.failed
               case Links => after.links == p.links.table && !p.targets.failed && !p.channels.failed
  {
    hide Settled, StepsOf, Collides, Collisions, Enters, FirstOut;
    hide UserKind, TargetKind, ChannelKind, WindowKind, LinkKind, DistinctIds;
    FirstOutIsOut(ctx, s, data, policy, table, n);
    ImportStopsExactly(ctx, s, data, policy);
    LoopsSettle(ctx, s, data, policy);
  }

  /** A refused user leaves exactly the users before it written, and nothing else. */
  lemma UserStopLeaves(ctx: Context, s: Store, data: Data, policy: Policy, n: nat)
    requires DistinctIds(data) && !Turned(s, data, policy) && StopsAtRow(ctx, s, data, policy, Users, n)
    ensures n < |data.UserRows()|
    ensures var (after, r) := Imported(ctx, s, data, policy);
            && r == Err(FailedAt(Users)) && after == s.(users := after.users)
            && Settled(UserKind(), s.users, policy, data.UserRows()[..n], after.users)
  {
    hide Settled, Run, Collides, RefusedAt, DistinctIds, DistinctKeys;
    var rows := data.UserRows();
    StopLeavesAround(ctx, s, data, policy, Users, n);
    KeysAreDistinct(ctx, data);
    PrefixIsDistinct(UserKind(), rows, n);
    UsersStopAt(s.users, policy, rows, n);
    RunSettles(UserKind(), UserGate(), s.users, policy, rows[..n]);
  }

  /** A target that cannot enter leaves every user and the targets before it written.  If only its tags stopped
      it, its own row is written without tags, and without a state row if it is new; nothing else is. */
  lemma TargetStopLeaves(ctx: Context, s: Store, data: Data, policy: Policy, n: nat)
    returns (before: map<string, Entry>)
    requires DistinctIds(data) && !Turned(s, data, policy) && StopsAtRow(ctx, s, data, policy, Targets, n)
    ensures n < |data.targets|
    ensures var (after, r) := Imported(ctx, s, data, policy);
            && r == Err(FailedAt(Targets)) && after == s.(users := after.users, targets := after.targets)
            && Settled(UserKind(), s.users, policy, data.UserRows(), after.users)
            && after.targets == TargetGate(ctx, KnownUsers(s, data)).wreck(before, data.targets[n])
    ensures Settled(TargetKind(ctx), s.targets, policy, data.targets[..n], before)
    ensures data.targets[n].id in before <==> data.targets[n].id in s.targets
    ensures data.targets[n].id in before ==> before[data.targets[n].id] == s.targets[data.targets[n].id]
  {
    hide Settled, Run, Imported, Collides, DistinctIds, DistinctKeys, EarlierEnter;
    hide TargetEnters, TargetFits, NewEntry, Overwritten, KnownUsers;
    StopLeavesAround(ctx, s, data, policy, Targets, n);
    KeysAreDistinct(ctx, data);
    KeysMetAreKnown(ctx, s, data, policy);
    var owners := KnownUsers(s, data);
    before := RunStops(TargetKind(ctx), TargetGate(ctx, owners), s.targets, policy, data.targets,
                       TargetTest(ctx, owners), n);
  }

  /** A channel that the schema refuses leaves every user and target, and the channels before it. */
  lemma ChannelStopLeaves(ctx: Context, s: Store, data: Data, policy: Policy, n: nat)
    requires DistinctIds(data) && !Turned(s, data, policy) && StopsAtRow(ctx, s, data, policy, Channels, n)
    ensures n < |data.channels|
    ensures var (after, r) := Imported(ctx, s, data, policy);
            && r == Err(FailedAt(Channels)) && AroundStop(ctx, s, data, policy, Channels, after)
            && Settled(ChannelKind(), s.channels, policy, data.channels[..n], after.channels)
  {
    hide Settled, Run, Imported, Collides, DistinctIds, DistinctKeys, EarlierEnter, ChannelFits, KnownUsers;
    StopLeavesAround(ctx, s, data, policy, Channels, n);
    KeysAreDistinct(ctx, data);
    KeysMetAreKnown(ctx, s, data, policy);
    var owners := KnownUsers(s, data);
    var before := RunStops(ChannelKind(), ChannelGate(owners), s.channels, policy, data.channels,
                           ChannelTest(owners), n);
  }

  /** A window that the schema refuses leaves every user, target and channel, and the windows before it. */
  lemma WindowStopLeaves(ctx: Context, s: Store, data: Data, policy: Policy, n: nat)
    requires DistinctIds(data) && !Turned(s, data, policy) && StopsAtRow(ctx, s, data, policy, Windows, n)
    ensures n < |data.windows|
    ensures var (after, r) := Imported(ctx, s, data, policy);
            && r == Err(FailedAt(Windows)) && AroundStop(ctx, s, data, policy, Windows, after)
            && Settled(WindowKind(), s.windows, policy, data.windows[..n], after.windows)
  {
    hide Settled, Run, Imported, Collides, DistinctIds, DistinctKeys, EarlierEnter, WindowFits, KnownTargets;
    StopLeavesAround(ctx, s, data, policy, Windows, n);
    KeysAreDistinct(ctx, data);
    KeysMetAreKnown(ctx, s, data, policy);
    var targets := KnownTargets(s, data);
    var before := RunStops(WindowKind(), WindowGate(targets), s.windows, policy, data.windows,
                           WindowTest(targets), n);
  }

  /** A link that the schema refuses leaves everything before it. */
  lemma LinkStopLeaves(ctx: Context, s: Store, data: Data, policy: Policy, n: nat)
    requires DistinctIds(data) && !Turned(s, data, policy) && StopsAtRow(ctx, s, data, policy, Links, n)
    ensures n < |data.links|
    ensures var (after, r) := Imported(ctx, s, data, policy);
            && r == Err(FailedAt(Links)) && AroundStop(ctx, s, data, policy, Links, after)
            && Settled(LinkKind(), s.links, policy, data.links[..n], after.links)
  {
    hide Settled, Run, Imported, Collides, DistinctIds, DistinctKeys, EarlierEnter, LinkFits;
    hide KnownTargets, KnownChannels;
    StopLeavesAround(ctx, s, data, policy, Links, n);
    KeysAreDistinct(ctx, data);
    KeysMetAreKnown(ctx, s, data, policy);
    var (targets, channels) := (KnownTargets(s, data), KnownChannels(s, data));
    var before := RunStops(LinkKind(), LinkGate(targets, channels), s.links, policy, data.links,
                           LinkTest(targets, channels), n);
  }

  // ---- Half-applied imports ----

  ghost predicate HalfApplied(ctx: Context, s: Store, data: Data, policy: Policy) {
    var (after, r) := Imported(ctx, s, data, policy);
    r.Err? && after != s
  }

  /** Each row is passed over, or stored already as it would be written. */
  ghost predicate Unchanged<K, V, R>(t: Kind<K, V, R>, m: map<K, V>, policy: Policy, rows: seq<R>) {
    forall i :: 0 <= i < |rows| ==> t.key(rows[i]) in m && Final(t, m, policy, rows[i]) == m[t.key(rows[i])]
  }

  /** The target is stored already as it would be written. */
  predicate SameRow(ctx: Context, m: map<string, Entry>, t: Target) {
    t.id in m && Overwritten(ctx, m[t.id], t) == m[t.id]
  }

  /** The rows before row `n` of the table, or all of them if there are fewer. */
  function Before<R>(rows: seq<R>, n: nat): seq<R> {
    if n <= |rows| then rows[..n] else rows
  }

  ghost predicate TargetsUnchanged(ctx: Context, s: Store, data: Data, policy: Policy, n: nat) {
    && Unchanged(TargetKind(ctx), s.targets, policy, Before(data.targets, n))
    && (n < |data.targets| && TargetFits(KnownUsers(s, data), data.targets[n]) ==>
          SameRow(ctx, s.targets, data.targets[n]))
  }

  /** All that an import stopping at row `n` of the table writes before it stops is stored already. */
  ghost predicate NothingNew(ctx: Context, s: Store, data: Data, policy: Policy, table: TableName, n: nat) {
    && Unchanged(UserKind(), s.users, policy, if table.Users? then Before(data.UserRows(), n) else data.UserRows())
    && (table.Targets? ==> TargetsUnchanged(ctx, s, data, policy, n))
    && (Place(table) > 1 ==> Unchanged(TargetKind(ctx), s.targets, policy, data.targets))
    && (Place(table) > 1 ==> Unchanged(ChannelKind(), s.channels, policy,
                                       if table.Channels? then Before(data.channels, n) else data.channels))
    && (Place(table) > 2 ==> Unchanged(WindowKind(), s.windows, policy,
                                       if table.Windows? then Before(data.windows, n) else data.windows))
    && (table.Links? ==> Unchanged(LinkKind(), s.links, policy, Before(data.links, n)))
  }

  lemma SettledUnchanged<K(!new), V(!new), R(!new)>(
    t: Kind<K, V, R>, m: map<K, V>, policy: Policy, rows: seq<R>, after: map<K, V>)
    requires Settled(t, m, policy, rows, after)
    ensures after == m <==> Unchanged(t, m, policy, rows)
  {
    hide Final;
    if Unchanged(t, m, policy, rows) {
      forall k | k in m + after ensures k in m && k in after && after[k] == m[k] {
        if HasKey(t, rows, k) {
          var i :| 0 <= i < |rows| && t.key(rows[i]) == k;
        } else {
          OthersKept(t, m, rows, after, k);
        }
      }
      assert after.Keys == m.Keys;
    }
  }

  lemma WreckUnchanged(
    ctx: Context, owners: set<string>, m: map<string, Entry>, before: map<string, Entry>, t: Target)
    requires t.id in before <==> t.id in m
    requires t.id in m ==> before[t.id] == m[t.id]
    ensures TargetGate(ctx, owners).wreck(before, t) == m
       <==> before == m && (TargetFits(owners, t) ==> SameRow(ctx, m, t))
  {
    hide Overwritten, NewEntry, TargetFits;
    var after := TargetGate(ctx, owners).wreck(before, t);
    assert forall k :: k != t.id ==> (k in after <==> k in before) && (k in before ==> after[k] == before[k]);
    if after == m && TargetFits(owners, t) {
      assert t.id in after;
      assert before.Keys == m.Keys;
    }
  }

  /** An import is left half-applied exactly when it is not refused, some row stops it, and not all that it has
      written by then is stored already. */
  lemma HalfAppliedExactly(ctx: Context, s: Store, data: Data, policy: Policy)
    requires DistinctIds(data)
    ensures HalfApplied(ctx, s, data, policy) <==>
              && !Turned(s, data, policy)
              && exists table: TableName, n: nat ::
                   StopsAtRow(ctx, s, data, policy, table, n) && !NothingNew(ctx, s, data, policy, table, n)
  {
    hide Imported, DistinctIds, Collides, Enters, EarlierEnter, FirstOut, NothingNew;
    ImportStopsExactly(ctx, s, data, policy);
    if Turned(s, data, policy) {
      FailRefusesExactlyOnCollision(ctx, s, data);
    } else {
      var r := Imported(ctx, s, data, policy).1;
      if r.Err? {
        var n := FirstOutExists(ctx, s, data, policy, r.error.table);
        assert StopsAtRow(ctx, s, data, policy, r.error.table, n);
        StoppedUnchanged(ctx, s, data, policy, r.error.table, n);
      }
      forall table: TableName, n: nat | StopsAtRow(ctx, s, data, policy, table, n)
        ensures HalfApplied(ctx, s, data, policy) <==> !NothingNew(ctx, s, data, policy, table, n)
      {
        StoppedUnchanged(ctx, s, data, policy, table, n);
      }
    }
  }

  /** A stopped import changes nothing exactly when all that it writes is stored already. */
  lemma StoppedUnchanged(ctx: Context, s: Store, data: Data, policy: Policy, table: TableName, n: nat)
    requires DistinctIds(data) && !Turned(s, data, policy) && StopsAtRow(ctx, s, data, policy, table, n)
    ensures HalfApplied(ctx, s, data, policy) <==> !NothingNew(ctx, s, data, policy, table, n)
  {
    hide Imported, DistinctIds, Collides, EarlierEnter, FirstOut, Unchanged, Settled, TargetsUnchanged;
    hide UserKind, TargetKind, ChannelKind, WindowKind, LinkKind;
    StopLeavesAround(ctx, s, data, policy, table, n);
    var after := Imported(ctx, s, data, policy).0;
    AroundUnchanged(ctx, s, data, policy, table, after);
    match table
    case Users =>
      UserStopLeaves(ctx, s, data, policy, n);
      SettledUnchanged(UserKind(), s.users, policy, data.UserRows()[..n], after.users);
    case Targets =>
      TargetStopUnchanged(ctx, s, data, policy, n);
    case Channels =>
      ChannelStopLeaves(ctx, s, data, policy, n);
      SettledUnchanged(ChannelKind(), s.channels, policy, data.channels[..n], after.channels);
    case Windows =>
      WindowStopLeaves(ctx, s, data, policy, n);
      SettledUnchanged(WindowKind(), s.windows, policy, data.windows[..n], after.windows);
    case Links =>
      LinkStopLeaves(ctx, s, data, policy, n);
      SettledUnchanged(LinkKind(), s.links, policy, data.links[..n], after.links);
  }

  lemma AroundUnchanged(ctx: Context, s: Store, data: Data, policy: Policy, table: TableName, after: Store)
    requires AroundStop(ctx, s, data, policy, table, after)
    ensures Place(table) > 0 ==> (after.users == s.users <==> Unchanged(UserKind(), s.users, policy, data.UserRows()))
    ensures Place(table) > 1 ==>
      (after.targets == s.targets <==> Unchanged(TargetKind(ctx), s.targets, policy, data.targets))
    ensures Place(table) > 2 ==>
      (after.channels == s.channels <==> Unchanged(ChannelKind(), s.channels, policy, data.channels))
    ensures Place(table) > 3 ==>
      (after.windows == s.windows <==> Unchanged(WindowKind(), s.windows, policy, data.windows))
  {
    hide Unchanged, Settled, UserKind, TargetKind, ChannelKind, WindowKind;
    if Place(table) > 0 {
      SettledUnchanged(UserKind(), s.users, policy, data.UserRows(), after.users);
    }
    if Place(table) > 1 {
      SettledUnchanged(TargetKind(ctx), s.targets, policy, data.targets, after.targets);
    }
    if Place(table) > 2 {
      SettledUnchanged(ChannelKind(), s.channels, policy, data.channels, after.channels);
    }
    if Place(table) > 3 {
      SettledUnchanged(WindowKind(), s.windows, policy, data.windows, after.windows);
    }
  }

  lemma TargetStopUnchanged(ctx: Context, s: Store, data: Data, policy: Policy, n: nat)
    requires DistinctIds(data) && !Turned(s, data, policy) && StopsAtRow(ctx, s, data, policy, Targets, n)
    ensures Imported(ctx, s, data, policy).0.targets == s.targets <==> TargetsUnchanged(ctx, s, data, policy, n)
  {
    hide Imported, DistinctIds, Collides, StopsAtRow, Unchanged, Settled, SameRow, TargetFits, KnownUsers;
    hide TargetKind, TargetGate;
    var before := TargetStopLeaves(ctx, s, data, policy, n);
    SettledUnchanged(TargetKind(ctx), s.targets, policy, data.targets[..n], before);
    WreckUnchanged(ctx, KnownUsers(s, data), s.targets, before, data.targets[n]);
  }

  // ---- Validated imports ----

  predicate SelfContained(ctx: Context, t: Target) {
    SettingsFit(t.settings) && TagsReadable(ctx, t)
  }

  lemma ResolvedIsKnown(s: Store, data: Data, owner: string)
    ensures Resolved(s.users, data, owner) <==> owner in KnownUsers(s, data)
  {
  }

  /** What validation and the owner check leave to chance: an import that passes both never fails at a channel or a
      link, and finishes exactly when no user is refused, each target that is not skipped has settings in range and
      readable tags, and each window that is not skipped fits the schema. */
  lemma ValidImportFinishesExactly(white: char -> bool, ctx: Context, s: Store, data: Data, policy: Policy)
    requires WellFormed(white, data) && OwnersResolved(s.users, data)
    ensures var r := Imported(ctx, s, data, policy).1;
            && r != Err(FailedAt(Channels)) && r != Err(FailedAt(Links))
            && (r.Ok? <==>
                  && !Turned(s, data, policy)
                  && !SomeRefused(s.users, policy, data.UserRows())
                  && Passes(TargetKind(ctx), s.targets, policy, data.targets, (t: Target) => SelfContained(ctx, t))
                  && WindowsEnter(s, data, policy))
  {
    hide WellFormed, Imported, Collides, SomeRefused, OwnersResolved, SettingsFit, TagsReadable, DistinctIds, Passes;
    hide TargetsEnter, ChannelsEnter, WindowsEnter, LinksEnter;
    WellFormedMeans(white, data);
    ImportStopsExactly(ctx, s, data, policy);
    ValidChannelsEnter(white, s, data, policy);
    ValidLinksEnter(s, data, policy);
    OwnedTargetsEnter(ctx, s, data, policy);
    assert Enters(ctx, s, data, policy, Users) <==> !SomeRefused(s.users, policy, data.UserRows());
    assert Enters(ctx, s, data, policy, Targets) <==> TargetsEnter(ctx, s, data, policy);
    assert Enters(ctx, s, data, policy, Channels) && Enters(ctx, s, data, policy, Links);
    assert Enters(ctx, s, data, policy, Windows) <==> WindowsEnter(s, data, policy);
  }

  lemma OwnedTargetsEnter(ctx: Context, s: Store, data: Data, policy: Policy)
    requires OwnersResolved(s.users, data)
    ensures TargetsEnter(ctx, s, data, policy)
       <==> Passes(TargetKind(ctx), s.targets, policy, data.targets, (t: Target) => SelfContained(ctx, t))
  {
    hide Resolved, SettingsFit, TagsReadable, KnownUsers;
    forall i | 0 <= i < |data.targets| ensures data.targets[i].ownerId in KnownUsers(s, data) {
      assert data.targets[i] in data.targets;
      ResolvedIsKnown(s, data, data.targets[i].ownerId);
    }
  }

  lemma ValidChannelsEnter(white: char -> bool, s: Store, data: Data, policy: Policy)
    requires WellFormed(white, data) && OwnersResolved(s.users, data)
    ensures ChannelsEnter(s, data, policy)
  {
    hide Resolved, KnownUsers, HasIdProblem, HasLinkProblem, HasTargetProblem;
    forall i | 0 <= i < |data.channels| ensures ChannelFits(KnownUsers(s, data), data.channels[i]) {
      var c := data.channels[i];
      assert !Has(white, data, UnknownChannelType(c.id, c.channelType));
      ResolvedIsKnown(s, data, c.ownerId);
    }
  }

  lemma ValidLinksEnter(s: Store, data: Data, policy: Policy)
    requires LinksInside(data)
    ensures LinksEnter(s, data, policy)
  {
    forall i | 0 <= i < |data.links|
      ensures LinkFits(KnownTargets(s, data), KnownChannels(s, data), data.links[i])
    {
      var l := data.links[i];
      assert l in data.links;
    }
  }

  // ---- Inputs ----

  /** Validation and owner resolution look at no email: a new user, then one with an email that a stored user
      has under another id, stop the import with the first of them written. */
  lemma ValidImportCanStopAtAUser(
    white: char -> bool, ctx: Context, s: Store, holder: string, u: User, v: User, policy: Policy)
    requires u.id !in s.users && v.id !in s.users && u.id != v.id && EmailFree(s.users, u)
    requires u.role in ROLES
    requires holder in s.users && Identity.SameEmail(s.users[holder].email, v.email)
    ensures var data := Data([], [], [], [], Some([u, v]));
            && WellFormed(white, data) && OwnersResolved(s.users, data)
            && Imported(ctx, s, data, policy) == (s.(users := s.users[u.id := u.(sub := None)]), Err(FailedAt(Users)))
  {
    hide Identity.SameEmail;
    var data := Data([], [], [], [], Some([u, v]));
    assert UserIds(data) == [u.id, v.id];
    var once := s.users[u.id := u.(sub := None)];
    TwoUsers(s.users, policy, u, v);
    assert holder in once && once[holder] == s.users[holder];
    hide Run, EmailFree, UserKind, UserGate;
    NoneColliding(ctx, s, data);
  }

  lemma TwoUsers(users: map<string, User>, policy: Policy, u: User, v: User)
    requires u.id !in users && v.id !in users && u.id != v.id && EmailFree(users, u) && u.role in ROLES
    ensures var once := users[u.id := u.(sub := None)];
            !EmailFree(once, v) ==> Run(UserKind(), UserGate(), users, policy, [u, v]) == Progress(once, 1, 0, 0, true)
  {
    hide EmailFree;
    assert [u, v][..1] == [u] && [u][..0] == [];
    assert Run(UserKind(), UserGate(), users, policy, []) == Progress(users, 0, 0, 0, false);
    assert Run(UserKind(), UserGate(), users, policy, [u]) == Progress(users[u.id := u.(sub := None)], 1, 0, 0, false);
  }

  lemma NoneColliding(ctx: Context, s: Store, data: Data)
    requires data.channels == [] && data.links == []
    requires forall i :: 0 <= i < |data.UserRows()| ==> data.UserRows()[i].id !in s.users
    requires forall i :: 0 <= i < |data.targets| ==> data.targets[i].id !in s.targets
    requires forall i :: 0 <= i < |data.windows| ==> data.windows[i].id !in s.windows
    ensures Collisions(ctx, s, data) == []
  {
    hide Collisions;
    TurnedIsCollision(ctx, s, data);
  }

  lemma PayloadOwns(users: map<string, User>, data: Data, u: User, t: Target)
    requires data.targets == [t] && data.channels == [] && u in data.UserRows() && t.ownerId == u.id
    ensures OwnersResolved(users, data)
  {
  }

  /** Validation looks at no window but for its id: a new user, its new target, and a new window that ends before it
      starts, has two scopes or names an unknown target stop the import with the user and the target written. */
  lemma ValidImportCanStopAtAWindow(
    white: char -> bool, ctx: Context, s: Store, u: User, t: Target, w: Window, policy: Policy)
    requires u.id !in s.users && u.role in ROLES && EmailFree(s.users, u)
    requires t.id != "" && !Blank(white, t.settings.name) && !Blank(white, t.settings.host)
    requires t.id !in s.targets && SelfContained(ctx, t) && t.ownerId == u.id
    requires w.id !in s.windows
    requires !StringLess(w.startAt, w.endAt) || (w.targetId.Some? && w.targetTag.Some?)
             || (w.targetId.Some? && w.targetId.value !in s.targets && w.targetId.value != t.id)
    ensures var data := Data([t], [], [], [w], Some([u]));
            && WellFormed(white, data) && OwnersResolved(s.users, data)
            && Imported(ctx, s, data, policy)
            == (s.(users := s.users[u.id := u.(sub := None)], targets := s.targets[t.id := NewEntry(ctx, t)]),
                Err(FailedAt(Windows)))
  {
    hide WellFormed, OwnersResolved, SelfContained, EmailFree, NewEntry, StringLess;
    hide Imported, StepsOf, Collisions;
    var data := Data([t], [], [], [w], Some([u]));
    FewRowsAreWellFormed(white, data);
    PayloadOwns(s.users, data, u, t);
    NoneColliding(ctx, s, data);
    OneOfEach(ctx, s, u, t, w, policy);
    StopsInWindows(ctx, s, data, policy);
  }

  lemma StopsInWindows(ctx: Context, s: Store, data: Data, policy: Policy)
    requires Collisions(ctx, s, data) == []
    ensures var r := StepsOf(ctx, s, data, policy);
            !r.users.failed && !r.targets.failed && !r.channels.failed && r.windows.failed ==>
              Imported(ctx, s, data, policy)
              == (Store(r.users.table, r.targets.table, r.channels.table, r.windows.table, s.links),
                  Err(FailedAt(Windows)))
  {
    hide StepsOf, Collisions;
  }

  lemma OneOfEach(ctx: Context, s: Store, u: User, t: Target, w: Window, policy: Policy)
    requires u.id !in s.users && u.role in ROLES && EmailFree(s.users, u)
    requires t.id !in s.targets && SelfContained(ctx, t) && t.ownerId == u.id && w.id !in s.windows
    ensures var r := StepsOf(ctx, s, Data([t], [], [], [w], Some([u])), policy);
            && r.users == Progress(s.users[u.id := u.(sub := None)], 1, 0, 0, false)
            && r.targets == Progress(s.targets[t.id := NewEntry(ctx, t)], 1, 0, 0, false)
            && r.channels == Progress(s.channels, 0, 0, 0, false)
            && (!WindowFits(s.targets.Keys + {t.id}, w) ==> r.windows == Progress(s.windows, 0, 0, 0, true))
  {
    hide SettingsFit, TagsReadable, EmailFree, NewEntry, WindowFits;
    var owners, targets := s.users.Keys + {u.id}, s.targets.Keys + {t.id};
    RunOfOneNew(UserKind(), UserGate(), s.users, policy, u);
    RunOfOneNew(TargetKind(ctx), TargetGate(ctx, owners), s.targets, policy, t);
    RunOfOneNew(WindowKind(), WindowGate(targets), s.windows, policy, w);
    assert s.users[u.id := u.(sub := None)].Keys == owners;
    assert s.targets[t.id := NewEntry(ctx, t)].Keys == targets;
    assert Run(ChannelKind(), ChannelGate(owners), s.channels, policy, []) == Progress(s.channels, 0, 0, 0, false);
    hide Run;
  }
}
