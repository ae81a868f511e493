/** What holds after an import, whatever the store, the payload and the policy. */
module MigrationFacts {
  import opened Wrappers
  import opened Upserts
  import opened Migration
  import HealthStates
  import Incidents

  ghost predicate DistinctIds(data: Data) {
    && (forall i, j :: 0 <= i < j < |data.targets| ==> data.targets[i].id != data.targets[j].id)
    && (forall i, j :: 0 <= i < j < |data.channels| ==> data.channels[i].id != data.channels[j].id)
    && (forall i, j :: 0 <= i < j < |data.windows| ==> data.windows[i].id != data.windows[j].id)
    && (forall i, j :: 0 <= i < j < |data.UserRows()| ==> data.UserRows()[i].id != data.UserRows()[j].id)
    && (forall i, j :: 0 <= i < j < |data.links| ==>
          (data.links[i].targetId, data.links[i].channelId) != (data.links[j].targetId, data.links[j].channelId))
  }

  lemma KeysAreDistinct(ctx: Context, data: Data)
    requires DistinctIds(data)
    ensures DistinctKeys(UserKind(), data.UserRows()) && DistinctKeys(TargetKind(ctx), data.targets)
    ensures DistinctKeys(ChannelKind(), data.channels) && DistinctKeys(WindowKind(), data.windows)
    ensures DistinctKeys(LinkKind(), data.links)
  {
  }

  lemma StepsSucceed(ctx: Context, s: Store, data: Data, policy: Policy)
    requires Imported(ctx, s, data, policy).1.Ok?
    ensures var r := StepsOf(ctx, s, data, policy);
            && !r.users.failed && !r.targets.failed && !r.channels.failed && !r.windows.failed && !r.links.failed
            && Imported(ctx, s, data, policy) == (Reached(r), Ok(Summary(r)))
  {
    hide Run, Collisions;
  }

  ghost predicate AllSettled(ctx: Context, s: Store, data: Data, policy: Policy, after: Store) {
    && Settled(UserKind(), s.users, policy, data.UserRows(), after.users)
    && Settled(TargetKind(ctx), s.targets, policy, data.targets, after.targets)
    && Settled(ChannelKind(), s.channels, policy, data.channels, after.channels)
    && Settled(WindowKind(), s.windows, policy, data.windows, after.windows)
    && Settled(LinkKind(), s.links, policy, data.links, after.links)
  }

  /** The keys that the foreign keys of an import find: users, targets and channels. */
  function KeysMet(ctx: Context, s: Store, data: Data, policy: Policy): (set<string>, set<string>, set<string>) {
    var r := StepsOf(ctx, s, data, policy);
    (r.users.table.Keys, r.targets.table.Keys, r.channels.table.Keys)
  }

  /** Each loop that finishes leaves its table as told by the table before it, the rows and the policy. */
  lemma LoopsSettle(ctx: Context, s: Store, data: Data, policy: Policy)
    requires DistinctIds(data)
    ensures var r := StepsOf(ctx, s, data, policy);
            && (!r.users.failed ==> Settled(UserKind(), s.users, policy, data.UserRows(), r.users.table))
            && (!r.targets.failed ==> Settled(TargetKind(ctx), s.targets, policy, data.targets, r.targets.table))
            && (!r.channels.failed ==> Settled(ChannelKind(), s.channels, policy, data.channels, r.channels.table))
            && (!r.windows.failed ==> Settled(WindowKind(), s.windows, policy, data.windows, r.windows.table))
            && (!r.links.failed ==> Settled(LinkKind(), s.links, policy, data.links, r.links.table))
  {
    hide Run, Settled, DistinctKeys, UserKind, TargetKind, ChannelKind, WindowKind, LinkKind, DistinctIds;
    hide UserGate, TargetGate, ChannelGate, WindowGate, LinkGate;
    KeysAreDistinct(ctx, data);
    var r := StepsOf(ctx, s, data, policy);
    var (owners, targets, channels) := KeysMet(ctx, s, data, policy);
    if !r.users.failed {
      RunSettles(UserKind(), UserGate(), s.users, policy, data.UserRows());
    }
    if !r.targets.failed {
      RunSettles(TargetKind(ctx), TargetGate(ctx, owners), s.targets, policy, data.targets);
    }
    if !r.channels.failed {
      RunSettles(ChannelKind(), ChannelGate(owners), s.channels, policy, data.channels);
    }
    if !r.windows.failed {
      RunSettles(WindowKind(), WindowGate(targets), s.windows, policy, data.windows);
    }
    if !r.links.failed {
      RunSettles(LinkKind(), LinkGate(targets, channels), s.links, policy, data.links);
    }
  }

  /** A finished import leaves each table in a state told by the table before it and the payload alone. */
  lemma ImportSettles(ctx: Context, s: Store, data: Data, policy: Policy)
    requires DistinctIds(data) && Imported(ctx, s, data, policy).1.Ok?
    ensures AllSettled(ctx, s, data, policy, Imported(ctx, s, data, policy).0)
  {
    hide StepsOf, Imported, Settled, DistinctIds, UserKind, TargetKind, ChannelKind, WindowKind, LinkKind;
    StepsSucceed(ctx, s, data, policy);
    LoopsSettle(ctx, s, data, policy);
  }

  // ---- Conservation ----

  lemma {:induction false} CollisionsAreColliding<K, V, R>(
    t: Kind<K, V, R>, m: map<K, V>, rows: seq<R>, name: R -> Collision)
    ensures |CollisionsIn(t, m, rows, name)| == |Colliding(t, m, rows)|
  {
    if rows == [] {
    } else {
      CollisionsAreColliding(t, m, rows[..|rows| - 1], name);
    }
  }

  ghost predicate Accounted<K, V, R>(t: Kind<K, V, R>, m: map<K, V>, policy: Policy, rows: seq<R>, p: Progress<K, V>) {
    && p.inserted + p.replaced + p.skipped == |rows|
    && p.replaced == (if policy.Skip? then 0 else |Colliding(t, m, rows)|)
    && p.skipped == (if policy.Skip? then |Colliding(t, m, rows)| else 0)
  }

  lemma RunIsAccounted<K(!new), V(!new), R(!new)>(
    t: Kind<K, V, R>, g: Gate<K, V, R>, m: map<K, V>, policy: Policy, rows: seq<R>)
    requires DistinctKeys(t, rows) && !Run(t, g, m, policy, rows).failed
    ensures Accounted(t, m, policy, rows, Run(t, g, m, policy, rows))
  {
    hide Run, DistinctKeys, Colliding;
    RunCountsEveryRow(t, g, m, policy, rows);
    RunCountsCollisions(t, g, m, policy, rows);
  }

  /** How many of a table's payload rows the policy leaves out. */
  function Left<K, V, R>(t: Kind<K, V, R>, m: map<K, V>, rows: seq<R>, policy: Policy): nat {
    if policy.Skip? then |Colliding(t, m, rows)| else 0
  }

  /** How many payload rows the store already has. */
  function Overlap(ctx: Context, s: Store, data: Data): nat {
    |Colliding(UserKind(), s.users, data.UserRows())| + |Colliding(TargetKind(ctx), s.targets, data.targets)|
    + |Colliding(ChannelKind(), s.channels, data.channels)| + |Colliding(WindowKind(), s.windows, data.windows)|
    + |Colliding(LinkKind(), s.links, data.links)|
  }

  lemma OverlapIsCollisions(ctx: Context, s: Store, data: Data)
    ensures |Collisions(ctx, s, data)| == Overlap(ctx, s, data)
  {
    hide CollisionsIn, Colliding, UserKind, TargetKind, ChannelKind, WindowKind, LinkKind;
    CollisionsAreColliding(TargetKind(ctx), s.targets, data.targets, (t: Target) => Collision(Targets, (t.id, "")));
    CollisionsAreColliding(ChannelKind(), s.channels, data.channels, (c: Channel) => Collision(Channels, (c.id, "")));
    CollisionsAreColliding(WindowKind(), s.windows, data.windows, (w: Window) => Collision(Windows, (w.id, "")));
    CollisionsAreColliding(UserKind(), s.users, data.UserRows(), (u: User) => Collision(Users, (u.id, "")));
    CollisionsAreColliding(LinkKind(), s.links, data.links, (l: Link) => Collision(Links, (l.targetId, l.channelId)));
  }

  /** Every payload row is inserted, replaced or skipped, and the counts say which. */
  lemma ImportConserves(ctx: Context, s: Store, data: Data, policy: Policy)
    requires DistinctIds(data) && Imported(ctx, s, data, policy).1.Ok?
    ensures var c := Imported(ctx, s, data, policy).1.value;
            && c.targets + c.channels + c.links + c.windows + c.users + c.skipped == data.Size()
            && c.replaced == (if policy.Replace? then Overlap(ctx, s, data) else 0)
            && c.skipped == (if policy.Skip? then Overlap(ctx, s, data) else 0)
            && c.targets == |data.targets| - Left(TargetKind(ctx), s.targets, data.targets, policy)
            && c.channels == |data.channels| - Left(ChannelKind(), s.channels, data.channels, policy)
            && c.links == |data.links| - Left(LinkKind(), s.links, data.links, policy)
            && c.windows == |data.windows| - Left(WindowKind(), s.windows, data.windows, policy)
            && c.users == |data.UserRows()| - Left(UserKind(), s.users, data.UserRows(), policy)
  {
    hide Run, Colliding, Collisions, Imported, DistinctKeys, DistinctIds;
    hide UserKind, TargetKind, ChannelKind, WindowKind, LinkKind;
    KeysAreDistinct(ctx, data);
    StepsSucceed(ctx, s, data, policy);
    hide UserGate, TargetGate, ChannelGate, WindowGate, LinkGate;
    var (owners, targets, channels) := KeysMet(ctx, s, data, policy);
    RunIsAccounted(UserKind(), UserGate(), s.users, policy, data.UserRows());
    RunIsAccounted(TargetKind(ctx), TargetGate(ctx, owners), s.targets, policy, data.targets);
    RunIsAccounted(ChannelKind(), ChannelGate(owners), s.channels, policy, data.channels);
    RunIsAccounted(WindowKind(), WindowGate(targets), s.windows, policy, data.windows);
    RunIsAccounted(LinkKind(), LinkGate(targets, channels), s.links, policy, data.links);
    NoCollisionUnderFail(ctx, s, data, policy);
    OverlapIsCollisions(ctx, s, data);
  }

  lemma NoCollisionUnderFail(ctx: Context, s: Store, data: Data, policy: Policy)
    requires Imported(ctx, s, data, policy).1.Ok?
    ensures policy.Fail? ==> Collisions(ctx, s, data) == []
  {
    hide Collisions, StepsOf;
  }

  /** Whether some payload row's key is already in the store. */
  ghost predicate Collides(s: Store, data: Data) {
    || (exists i :: 0 <= i < |data.UserRows()| && data.UserRows()[i].id in s.users)
    || (exists i :: 0 <= i < |data.targets| && data.targets[i].id in s.targets)
    || (exists i :: 0 <= i < |data.channels| && data.channels[i].id in s.channels)
    || (exists i :: 0 <= i < |data.windows| && data.windows[i].id in s.windows)
    || (exists i :: 0 <= i < |data.links| && (data.links[i].targetId, data.links[i].channelId) in s.links)
  }

  lemma {:induction false} CollidingIsEmpty<K, V, R>(t: Kind<K, V, R>, m: map<K, V>, rows: seq<R>)
    ensures Colliding(t, m, rows) == [] <==> !exists i :: 0 <= i < |rows| && t.key(rows[i]) in m
  {
    if rows == [] {
    } else {
      var n := |rows| - 1;
      CollidingIsEmpty(t, m, rows[..n]);
      assert forall i :: 0 <= i < n ==> rows[..n][i] == rows[i];
      assert (exists i :: 0 <= i < |rows| && t.key(rows[i]) in m)
        <==> (exists i :: 0 <= i < n && t.key(rows[..n][i]) in m) || t.key(rows[n]) in m by {
        if i :| 0 <= i < |rows| && t.key(rows[i]) in m && i < n {
          assert t.key(rows[..n][i]) in m;
        }
        if i :| 0 <= i < n && t.key(rows[..n][i]) in m {
          assert t.key(rows[i]) in m;
        }
      }
    }
  }

  /** Under `Fail`, a collision anywhere refuses the whole import before anything is written. */
  lemma FailRefusesExactlyOnCollision(ctx: Context, s: Store, data: Data)
    ensures var (after, r) := Imported(ctx, s, data, Fail);
            && ((r.Err? && r.error.Refused?) <==> Collides(s, data))
            && (Collides(s, data) ==> after == s)
  {
    hide Colliding, Collisions, StepsOf;
    OverlapIsCollisions(ctx, s, data);
    CollidingIsEmpty(UserKind(), s.users, data.UserRows());
    CollidingIsEmpty(TargetKind(ctx), s.targets, data.targets);
    CollidingIsEmpty(ChannelKind(), s.channels, data.channels);
    CollidingIsEmpty(WindowKind(), s.windows, data.windows);
    CollidingIsEmpty(LinkKind(), s.links, data.links);
  }

  // ---- What stays ----

  ghost predicate RestUntouched(ctx: Context, s: Store, data: Data, after: Store) {
    && Untouched(UserKind(), s.users, data.UserRows(), after.users)
    && Untouched(TargetKind(ctx), s.targets, data.targets, after.targets)
    && Untouched(ChannelKind(), s.channels, data.channels, after.channels)
    && Untouched(WindowKind(), s.windows, data.windows, after.windows)
    && Untouched(LinkKind(), s.links, data.links, after.links)
  }

  lemma NothingTouched<K(!new), V(!new), R(!new)>(t: Kind<K, V, R>, m: map<K, V>, rows: seq<R>)
    ensures Untouched(t, m, rows, m)
  {
  }

  /** Rows the payload does not name are unchanged, even by an import that fails part-way. */
  lemma ImportLeavesTheRest(ctx: Context, s: Store, data: Data, policy: Policy)
    ensures RestUntouched(ctx, s, data, Imported(ctx, s, data, policy).0)
  {
    hide Run, Collisions, Untouched;
    NothingTouched(UserKind(), s.users, data.UserRows());
    NothingTouched(TargetKind(ctx), s.targets, data.targets);
    NothingTouched(ChannelKind(), s.channels, data.channels);
    NothingTouched(WindowKind(), s.windows, data.windows);
    NothingTouched(LinkKind(), s.links, data.links);
    var (owners, targets, channels) := KeysMet(ctx, s, data, policy);
    RunTouchesOnlyItsKeys(UserKind(), UserGate(), s.users, policy, data.UserRows());
    RunTouchesOnlyItsKeys(TargetKind(ctx), TargetGate(ctx, owners), s.targets, policy, data.targets);
    RunTouchesOnlyItsKeys(ChannelKind(), ChannelGate(owners), s.channels, policy, data.channels);
    RunTouchesOnlyItsKeys(WindowKind(), WindowGate(targets), s.windows, policy, data.windows);
    RunTouchesOnlyItsKeys(LinkKind(), LinkGate(targets, channels), s.links, policy, data.links);
  }

  ghost predicate StatesKept(before: map<string, Entry>, after: map<string, Entry>) {
    forall id :: id in before ==> id in after && after[id].state == before[id].state
  }

  lemma {:induction false} RunKeepsStates(
    ctx: Context, owners: set<string>, m: map<string, Entry>, policy: Policy, rows: seq<Target>)
    ensures StatesKept(m, Run(TargetKind(ctx), TargetGate(ctx, owners), m, policy, rows).table)
  {
    if rows == [] {
    } else {
      RunKeepsStates(ctx, owners, m, policy, rows[..|rows| - 1]);
    }
  }

  /** No import, finished or not, changes the state row of a target that was there before it. */
  lemma ImportKeepsStates(ctx: Context, s: Store, data: Data, policy: Policy)
    ensures StatesKept(s.targets, Imported(ctx, s, data, policy).0.targets)
  {
    hide Run, Collisions;
    RunKeepsStates(ctx, KeysMet(ctx, s, data, policy).0, s.targets, policy, data.targets);
  }

  // ---- What an imported row looks like ----

  /** A new row is the document's without `sub`; a replaced one keeps its creation time and its `sub`. */
  ghost predicate UserImported(s: Store, policy: Policy, after: Store, u: User) {
    && u.id in after.users
    && after.users[u.id] ==
         if u.id !in s.users then u.(sub := None)
         else if policy.Skip? then s.users[u.id]
         else
           var was := s.users[u.id];
           u.(id := was.id, createdAt := was.createdAt, sub := was.sub)
  }

  /** The tags are the non-empty strings of the document's text. */
  ghost predicate HasTags(parse: string -> Option<seq<string>>, tags: set<string>, text: Option<string>) {
    match text
    case None => tags == {}
    case Some(json) => parse(json).Some? && tags == set tag | tag in parse(json).value && tag != ""
  }

  /** The operator is the author of every write; a replaced target keeps its creation columns and its state, and a new
      one has a state row that has seen nothing yet. */
  ghost predicate TargetImported(ctx: Context, s: Store, policy: Policy, after: Store, t: Target) {
    && t.id in after.targets
    && var e := after.targets[t.id];
       if t.id !in s.targets then
         && e.settings == t.settings && e.ownerId == t.ownerId && e.createdAt == t.createdAt
         && e.createdBy == ctx.caller && e.updatedBy == ctx.caller && HasTags(ctx.parse, e.tags, t.tags)
         && e.state == Some(Incidents.StateRow(HealthStates.Health(HealthStates.Unknown, 0, 0), None, None, None))
       else if policy.Skip? then e == s.targets[t.id]
       else
         var was := s.targets[t.id];
         && e.settings == t.settings && e.ownerId == t.ownerId && e.createdAt == was.createdAt
         && e.createdBy == was.createdBy && e.updatedBy == ctx.caller && HasTags(ctx.parse, e.tags, t.tags)
         && e.state == was.state
  }

  /** A replaced channel keeps its creation time alone. */
  ghost predicate ChannelImported(s: Store, policy: Policy, after: Store, c: Channel) {
    && c.id in after.channels
    && after.channels[c.id] ==
         if c.id !in s.channels then c
         else if policy.Skip? then s.channels[c.id]
         else
           var was := s.channels[c.id];
           c.(id := was.id, createdAt := was.createdAt)
  }

  /** A replaced window keeps its creation columns, and its `exclude_from_sla`, which a new one has set. */
  ghost predicate WindowImported(s: Store, policy: Policy, after: Store, w: Window) {
    && w.id in after.windows
    && after.windows[w.id] ==
         if w.id !in s.windows then w.(excludeFromSla := true)
         else if policy.Skip? then s.windows[w.id]
         else
           var was := s.windows[w.id];
           w.(id := was.id, excludeFromSla := was.excludeFromSla, createdAt := was.createdAt,
              createdBy := was.createdBy)
  }

  /** A replaced link has the document's flags. */
  ghost predicate LinkImported(s: Store, policy: Policy, after: Store, l: Link) {
    var key := (l.targetId, l.channelId);
    && key in after.links
    && after.links[key] ==
         if key !in s.links then l
         else if policy.Skip? then s.links[key]
         else
           var was := s.links[key];
           l.(targetId := was.targetId, channelId := was.channelId)
  }

  /** Every column of every row of the payload after a finished import. */
  lemma ImportedRows(ctx: Context, s: Store, data: Data, policy: Policy)
    requires DistinctIds(data) && Imported(ctx, s, data, policy).1.Ok?
    ensures var after := Imported(ctx, s, data, policy).0;
            && (forall u :: u in data.UserRows() ==> UserImported(s, policy, after, u))
            && (forall t :: t in data.targets ==> TargetImported(ctx, s, policy, after, t))
            && (forall c :: c in data.channels ==> ChannelImported(s, policy, after, c))
            && (forall w :: w in data.windows ==> WindowImported(s, policy, after, w))
            && (forall l :: l in data.links ==> LinkImported(s, policy, after, l))
  {
    hide Imported, Run, DistinctIds, Settled, TargetImported, TagsReadable;
    ImportSettles(ctx, s, data, policy);
    TagsParsed(ctx, s, data, policy);
    var after := Imported(ctx, s, data, policy).0;
    forall t | t in data.targets ensures TargetImported(ctx, s, policy, after, t) {
      TargetIsImported(ctx, s, data, policy, after, t);
    }
    hide Passes;
    SettledRows(UserKind(), s.users, policy, data.UserRows(), after.users);
    SettledRows(ChannelKind(), s.channels, policy, data.channels, after.channels);
    SettledRows(WindowKind(), s.windows, policy, data.windows, after.windows);
    SettledRows(LinkKind(), s.links, policy, data.links, after.links);
  }

  lemma SettledRows<K(!new), V(!new), R(!new)>(
    t: Kind<K, V, R>, m: map<K, V>, policy: Policy, rows: seq<R>, after: map<K, V>)
    requires Settled(t, m, policy, rows, after)
    ensures forall r :: r in rows ==> t.key(r) in after && after[t.key(r)] == Final(t, m, policy, r)
  {
    hide Untouched, Final;
    forall r | r in rows ensures t.key(r) in after && after[t.key(r)] == Final(t, m, policy, r) {
      var i :| 0 <= i < |rows| && rows[i] == r;
    }
  }

  lemma TargetIsImported(ctx: Context, s: Store, data: Data, policy: Policy, after: Store, t: Target)
    requires Settled(TargetKind(ctx), s.targets, policy, data.targets, after.targets) && t in data.targets
    requires Passes(TargetKind(ctx), s.targets, policy, data.targets, (r: Target) => TagsReadable(ctx, r))
    ensures TargetImported(ctx, s, policy, after, t)
  {
    hide Untouched;
    var i :| 0 <= i < |data.targets| && data.targets[i] == t;
  }

  /** Each row is stored under its own key. */
  ghost predicate Keyed(s: Store) {
    && (forall id :: id in s.users ==> s.users[id].id == id)
    && (forall id :: id in s.channels ==> s.channels[id].id == id)
    && (forall id :: id in s.windows ==> s.windows[id].id == id)
    && (forall k :: k in s.links ==> (s.links[k].targetId, s.links[k].channelId) == k)
  }

  /** In a store whose rows are under their own keys, `Replace` leaves the document's row but for the columns that a
      collision keeps. */
  lemma ReplacedRows(ctx: Context, s: Store, data: Data)
    requires DistinctIds(data) && Imported(ctx, s, data, Replace).1.Ok? && Keyed(s)
    ensures var after := Imported(ctx, s, data, Replace).0;
            && (forall u :: u in data.UserRows() && u.id in s.users ==>
                  && u.id in after.users
                  && after.users[u.id] == u.(createdAt := s.users[u.id].createdAt, sub := s.users[u.id].sub))
            && (forall c :: c in data.channels && c.id in s.channels ==>
                  c.id in after.channels && after.channels[c.id] == c.(createdAt := s.channels[c.id].createdAt))
            && (forall w :: w in data.windows && w.id in s.windows ==>
                  && w.id in after.windows
                  && after.windows[w.id] == w.(excludeFromSla := s.windows[w.id].excludeFromSla,
                                               createdAt := s.windows[w.id].createdAt,
                                               createdBy := s.windows[w.id].createdBy))
            && (forall l :: l in data.links ==>
                  (l.targetId, l.channelId) in after.links && after.links[(l.targetId, l.channelId)] == l)
  {
    hide Imported, DistinctIds, TargetImported;
    ImportedRows(ctx, s, data, Replace);
    var after := Imported(ctx, s, data, Replace).0;
    assert forall u :: u in data.UserRows() ==> UserImported(s, Replace, after, u);
    assert forall c :: c in data.channels ==> ChannelImported(s, Replace, after, c);
    assert forall w :: w in data.windows ==> WindowImported(s, Replace, after, w);
    assert forall l :: l in data.links ==> LinkImported(s, Replace, after, l);
  }

  // ---- Which rows a collision names ----

  /** The payload row of that table and key is in the store. */
  ghost predicate NamesCollision(s: Store, data: Data, x: Collision) {
    match x.table
    case Targets => exists t :: t in data.targets && t.id in s.targets && x.key == (t.id, "")
    case Channels => exists c :: c in data.channels && c.id in s.channels && x.key == (c.id, "")
    case Windows => exists w :: w in data.windows && w.id in s.windows && x.key == (w.id, "")
    case Users => exists u :: u in data.UserRows() && u.id in s.users && x.key == (u.id, "")
    case Links =>
      exists l :: l in data.links && (l.targetId, l.channelId) in s.links && x.key == (l.targetId, l.channelId)
  }

  lemma {:induction false} CollisionMembers<K, V, R>(
    t: Kind<K, V, R>, m: map<K, V>, rows: seq<R>, name: R -> Collision, x: Collision)
    ensures x in CollisionsIn(t, m, rows, name) <==> exists r :: r in rows && t.key(r) in m && name(r) == x
  {
    if rows == [] {
    } else {
      var n := |rows| - 1;
      CollisionMembers(t, m, rows[..n], name, x);
      assert rows == rows[..n] + [rows[n]];
    }
  }

  /** The collisions reported are the payload's rows that the store already has, by table and key. */
  lemma CollisionsNameRows(ctx: Context, s: Store, data: Data, x: Collision)
    ensures x in Collisions(ctx, s, data) <==> NamesCollision(s, data, x)
  {
    hide CollisionsIn;
    CollisionMembers(TargetKind(ctx), s.targets, data.targets, (t: Target) => Collision(Targets, (t.id, "")), x);
    CollisionMembers(ChannelKind(), s.channels, data.channels, (c: Channel) => Collision(Channels, (c.id, "")), x);
    CollisionMembers(WindowKind(), s.windows, data.windows, (w: Window) => Collision(Windows, (w.id, "")), x);
    CollisionMembers(UserKind(), s.users, data.UserRows(), (u: User) => Collision(Users, (u.id, "")), x);
    CollisionMembers(LinkKind(), s.links, data.links, (l: Link) => Collision(Links, (l.targetId, l.channelId)), x);
  }

  // ---- Which loops fail ----

  lemma TargetsFailExactly(
    ctx: Context, owners: set<string>, m: map<string, Entry>, policy: Policy, rows: seq<Target>)
    requires DistinctKeys(TargetKind(ctx), rows)
    ensures Run(TargetKind(ctx), TargetGate(ctx, owners), m, policy, rows).failed
       <==> !Passes(TargetKind(ctx), m, policy, rows, TargetTest(ctx, owners))
  {
    hide Run, Passes, DistinctKeys;
    RunFailsExactly(TargetKind(ctx), TargetGate(ctx, owners), m, policy, rows, TargetTest(ctx, owners));
  }

  function KnownUsers(s: Store, data: Data): set<string> {
    s.users.Keys + set u | u in data.UserRows() :: u.id
  }

  function KnownTargets(s: Store, data: Data): set<string> {
    s.targets.Keys + set t | t in data.targets :: t.id
  }

  function KnownChannels(s: Store, data: Data): set<string> {
    s.channels.Keys + set c | c in data.channels :: c.id
  }

  lemma KnownAfter<V(!new), R(!new)>(
    t: Kind<string, V, R>, g: Gate<string, V, R>, m: map<string, V>, policy: Policy, rows: seq<R>, known: set<string>)
    requires DistinctKeys(t, rows) && !Run(t, g, m, policy, rows).failed
    requires known == m.Keys + set r | r in rows :: t.key(r)
    ensures Run(t, g, m, policy, rows).table.Keys == known
  {
    hide Run, Settled, HasKey;
    RunSettles(t, g, m, policy, rows);
    var after := Run(t, g, m, policy, rows).table;
    forall k ensures k in after <==> k in known {
      SettledKeys(t, m, policy, rows, after, k);
      RowKeys(t, rows, k);
    }
  }

  lemma RowKeys<V, R>(t: Kind<string, V, R>, rows: seq<R>, k: string)
    ensures HasKey(t, rows, k) <==> exists r :: r in rows && t.key(r) == k
  {
    if r :| r in rows && t.key(r) == k {
      var i :| 0 <= i < |rows| && rows[i] == r;
    }
  }

  /** After the loops that finished, the foreign keys find the stored rows and the payload's. */
  lemma KeysMetAreKnown(ctx: Context, s: Store, data: Data, policy: Policy)
    requires DistinctIds(data)
    ensures var (r, met) := (StepsOf(ctx, s, data, policy), KeysMet(ctx, s, data, policy));
            && (!r.users.failed ==> met.0 == KnownUsers(s, data))
            && (!r.targets.failed ==> met.1 == KnownTargets(s, data))
            && (!r.channels.failed ==> met.2 == KnownChannels(s, data))
  {
    hide Run, DistinctIds, DistinctKeys, UserGate, TargetGate, ChannelGate;
    KeysAreDistinct(ctx, data);
    var (r, met) := (StepsOf(ctx, s, data, policy), KeysMet(ctx, s, data, policy));
    if !r.users.failed {
      KnownAfter(UserKind(), UserGate(), s.users, policy, data.UserRows(), KnownUsers(s, data));
    }
    if !r.targets.failed {
      KnownAfter(TargetKind(ctx), TargetGate(ctx, met.0), s.targets, policy, data.targets, KnownTargets(s, data));
    }
    if !r.channels.failed {
      KnownAfter(ChannelKind(), ChannelGate(met.0), s.channels, policy, data.channels, KnownChannels(s, data));
    }
  }

  /** Each target of the payload is skipped or has settings in range, a known owner and readable tags. */
  ghost predicate TargetsEnter(ctx: Context, s: Store, data: Data, policy: Policy) {
    Passes(TargetKind(ctx), s.targets, policy, data.targets, TargetTest(ctx, KnownUsers(s, data)))
  }

  /** Each channel is skipped or has a known type and a known owner. */
  ghost predicate ChannelsEnter(s: Store, data: Data, policy: Policy) {
    Passes(ChannelKind(), s.channels, policy, data.channels, ChannelTest(KnownUsers(s, data)))
  }

  /** Each window is skipped or ends after it starts, has at most one scope, and names no unknown target. */
  ghost predicate WindowsEnter(s: Store, data: Data, policy: Policy) {
    Passes(WindowKind(), s.windows, policy, data.windows, WindowTest(KnownTargets(s, data)))
  }

  /** Each link is skipped or joins a known target and a known channel. */
  ghost predicate LinksEnter(s: Store, data: Data, policy: Policy) {
    Passes(LinkKind(), s.links, policy, data.links, LinkTest(KnownTargets(s, data), KnownChannels(s, data)))
  }

  /** Each loop after finished ones fails exactly when some row of its table cannot enter. */
  lemma LoopsFailExactly(ctx: Context, s: Store, data: Data, policy: Policy)
    requires DistinctIds(data)
    ensures var r := StepsOf(ctx, s, data, policy);
            && (!r.users.failed ==> (r.targets.failed <==> !TargetsEnter(ctx, s, data, policy)))
            && (!r.users.failed ==> (r.channels.failed <==> !ChannelsEnter(s, data, policy)))
            && (!r.targets.failed ==> (r.windows.failed <==> !WindowsEnter(s, data, policy)))
            && (!r.targets.failed && !r.channels.failed ==> (r.links.failed <==> !LinksEnter(s, data, policy)))
  {
    hide Run, Passes, DistinctIds, DistinctKeys, KnownUsers, KnownTargets, KnownChannels;
    KeysAreDistinct(ctx, data);
    KeysMetAreKnown(ctx, s, data, policy);
    var (owners, targets, channels) := KeysMet(ctx, s, data, policy);
    TargetsFailExactly(ctx, owners, s.targets, policy, data.targets);
    RunFailsExactly(ChannelKind(), ChannelGate(owners), s.channels, policy, data.channels, ChannelTest(owners));
    RunFailsExactly(WindowKind(), WindowGate(targets), s.windows, policy, data.windows, WindowTest(targets));
    RunFailsExactly(LinkKind(), LinkGate(targets, channels), s.links, policy, data.links,
                    LinkTest(targets, channels));
  }

  /** In a finished import every row enters. */
  lemma FinishedMeansEntered(ctx: Context, s: Store, data: Data, policy: Policy)
    requires DistinctIds(data) && Imported(ctx, s, data, policy).1.Ok?
    ensures TargetsEnter(ctx, s, data, policy) && ChannelsEnter(s, data, policy)
    ensures WindowsEnter(s, data, policy) && LinksEnter(s, data, policy)
  {
    hide StepsOf, Imported, Passes, DistinctIds;
    StepsSucceed(ctx, s, data, policy);
    LoopsFailExactly(ctx, s, data, policy);
  }

  lemma TagsParsed(ctx: Context, s: Store, data: Data, policy: Policy)
    requires DistinctIds(data) && Imported(ctx, s, data, policy).1.Ok?
    ensures Passes(TargetKind(ctx), s.targets, policy, data.targets, (r: Target) => TagsReadable(ctx, r))
  {
    hide Imported, DistinctIds, TargetFits, TagsReadable, KnownUsers;
    FinishedMeansEntered(ctx, s, data, policy);
  }
}
