/** Export, import into an empty store, export again. */
module MigrationRoundTrip {
  import opened Wrappers
  import opened Ordering
  import opened Upserts
  import opened Migration
  import opened MigrationFacts
  import opened MigrationRepeat
  import opened MigrationUsers
  import opened MigrationSchema
  import opened MigrationStops
  import Identity

  // ---- Export, as a relation between a store and a document ----

  ghost predicate Increasing<K>(keys: seq<K>, less: (K, K) -> bool) {
    forall i, j :: 0 <= i < j < |keys| ==> less(keys[i], keys[j])
  }

  function KeysOf<K, R>(rows: seq<R>, key: R -> K): seq<K> {
    seq(|rows|, i requires 0 <= i < |rows| => key(rows[i]))
  }

  /** The rows of a table in key order, each once, each as the table has it. */
  ghost predicate Lists<K(!new), V, R>(
    m: map<K, V>, rows: seq<R>, key: R -> K, less: (K, K) -> bool, shows: (V, R) -> bool)
  {
    && Increasing(KeysOf(rows, key), less)
    && (forall k :: k in m <==> k in KeysOf(rows, key))
    && (forall i :: 0 <= i < |rows| ==> key(rows[i]) in m && shows(m[key(rows[i])], rows[i]))
  }

  /** No tags are shown as nothing at all; otherwise the text parses to the tags, in any order. */
  predicate ShowsTags(parse: string -> Option<seq<string>>, tags: set<string>, text: Option<string>) {
    match text
    case None => tags == {}
    case Some(json) => parse(json).Some? && (set x | x in parse(json).value) == tags
  }

  predicate ShowsTarget(parse: string -> Option<seq<string>>, e: Entry, t: Target) {
    && t.settings == e.settings && t.ownerId == e.ownerId && t.createdAt == e.createdAt
    && t.createdBy == e.createdBy && t.updatedBy == e.updatedBy && ShowsTags(parse, e.tags, t.tags)
  }

  ghost predicate ListsTargets(parse: string -> Option<seq<string>>, m: map<string, Entry>, rows: seq<Target>) {
    Lists(m, rows, (t: Target) => t.id, StringLess, (e: Entry, t: Target) => ShowsTarget(parse, e, t))
  }

  ghost predicate ListsChannels(m: map<string, Channel>, rows: seq<Channel>) {
    Lists(m, rows, (c: Channel) => c.id, StringLess, (v: Channel, c: Channel) => v == c)
  }

  ghost predicate ListsWindows(m: map<string, Window>, rows: seq<Window>) {
    Lists(m, rows, (w: Window) => w.id, StringLess, (v: Window, w: Window) => v == w)
  }

  ghost predicate ListsUsers(m: map<string, User>, rows: seq<User>) {
    Lists(m, rows, (u: User) => u.id, StringLess, (v: User, u: User) => v == u)
  }

  ghost predicate ListsLinks(m: map<(string, string), Link>, rows: seq<Link>) {
    Lists(m, rows, (l: Link) => (l.targetId, l.channelId), PairLess, (v: Link, l: Link) => v == l)
  }

  /** `export_all` with the users included. */
  ghost predicate Exports(parse: string -> Option<seq<string>>, s: Store, d: Data) {
    && ListsTargets(parse, s.targets, d.targets)
    && ListsChannels(s.channels, d.channels)
    && ListsWindows(s.windows, d.windows)
    && ListsLinks(s.links, d.links)
    && d.users.Some? && ListsUsers(s.users, d.users.value)
  }

  // ---- Import into an empty store ----

  const EMPTY: Store := Store(map[], map[], map[], map[], map[])

  /** What a store keeps when it travels: not `sub`, nor a target's authors and state, nor `exclude_from_sla`. */
  function Carried(s: Store, caller: string): Store {
    Store(
      map id | id in s.users :: s.users[id].(sub := None),
      map id | id in s.targets ::
        s.targets[id].(createdBy := caller, updatedBy := caller, state := Some(NewState())),
      s.channels,
      map id | id in s.windows :: s.windows[id].(excludeFromSla := true),
      s.links)
  }

  ghost predicate NoEmptyTag(targets: map<string, Entry>) {
    forall id :: id in targets ==> "" !in targets[id].tags
  }

  lemma StringOrder()
    ensures forall a, b :: StringLess(a, b) ==> a != b && !StringLess(b, a)
    ensures forall a, b, c :: StringLess(a, b) && StringLess(b, c) ==> StringLess(a, c)
  {
    forall a, b | StringLess(a, b) ensures a != b && !StringLess(b, a) {
      StringLessTotal(a, b);
    }
    forall a, b, c | StringLess(a, b) && StringLess(b, c) ensures StringLess(a, c) {
      StringLessTransitive(a, b, c);
    }
  }

  lemma PairOrder()
    ensures forall a, b :: PairLess(a, b) ==> a != b && !PairLess(b, a)
    ensures forall a, b, c :: PairLess(a, b) && PairLess(b, c) ==> PairLess(a, c)
  {
    hide StringLess;
    StringOrder();
  }

  lemma ListedKeysDiffer<K(!new), V, R>(
    m: map<K, V>, rows: seq<R>, key: R -> K, less: (K, K) -> bool, shows: (V, R) -> bool)
    requires Lists(m, rows, key, less, shows) && forall a, b :: less(a, b) ==> a != b
    ensures forall i, j :: 0 <= i < j < |rows| ==> key(rows[i]) != key(rows[j])
  {
    var keys := KeysOf(rows, key);
    forall i, j | 0 <= i < j < |rows| ensures key(rows[i]) != key(rows[j]) {
      assert less(keys[i], keys[j]);
    }
  }

  lemma ExportIsDistinct(parse: string -> Option<seq<string>>, s: Store, d: Data)
    requires Exports(parse, s, d)
    ensures DistinctIds(d)
  {
    hide StringLess, PairLess, Lists, ShowsTarget;
    StringOrder();
    PairOrder();
    ListedKeysDiffer(s.targets, d.targets, (t: Target) => t.id, StringLess,
                     (e: Entry, t: Target) => ShowsTarget(parse, e, t));
    ListedKeysDiffer(s.channels, d.channels, (c: Channel) => c.id, StringLess, (v: Channel, c: Channel) => v == c);
    ListedKeysDiffer(s.windows, d.windows, (w: Window) => w.id, StringLess, (v: Window, w: Window) => v == w);
    ListedKeysDiffer(s.users, d.users.value, (u: User) => u.id, StringLess, (v: User, u: User) => v == u);
    ListedKeysDiffer(s.links, d.links, (l: Link) => (l.targetId, l.channelId), PairLess, (v: Link, l: Link) => v == l);
  }

  lemma ListedKeys<K(!new), V, R, W>(
    t: Kind<K, V, R>, rows: seq<R>, m: map<K, W>, key: R -> K, less: (K, K) -> bool, shows: (W, R) -> bool)
    requires Lists(m, rows, key, less, shows) && forall r :: r in rows ==> t.key(r) == key(r)
    ensures forall k :: k in m <==> HasKey(t, rows, k)
  {
    var keys := KeysOf(rows, key);
    forall k ensures k in keys <==> HasKey(t, rows, k) {
      if k in keys {
        var i :| 0 <= i < |keys| && keys[i] == k;
        assert rows[i] in rows && t.key(rows[i]) == k;
      }
      if HasKey(t, rows, k) {
        var i :| 0 <= i < |rows| && t.key(rows[i]) == k;
        assert rows[i] in rows && keys[i] == k;
      }
    }
  }

  lemma OnlyItsKeys<K(!new), V(!new), R(!new)>(t: Kind<K, V, R>, rows: seq<R>, after: map<K, V>)
    requires Untouched(t, map[], rows, after)
    ensures forall k :: k in after ==> HasKey(t, rows, k)
  {
    hide HasKey;
  }

  /** In an empty table a listed table's rows become what the kind makes of them, and nothing else does. */
  lemma SettledFromEmpty<K(!new), V(!new), R(!new)>(t: Kind<K, V, R>, policy: Policy, rows: seq<R>, after: map<K, V>)
    requires Settled(t, map[], policy, rows, after)
    ensures forall k :: k in after <==> HasKey(t, rows, k)
    ensures forall i :: 0 <= i < |rows| ==> t.key(rows[i]) in after && after[t.key(rows[i])] == t.make(rows[i])
  {
    OnlyItsKeys(t, rows, after);
    hide Untouched;
  }

  ghost predicate EmailsDiffer(rows: seq<User>) {
    forall i, j :: 0 <= i < j < |rows| ==> !Identity.SameEmail(rows[i].email, rows[j].email)
  }

  /** Users with known roles whose emails are all different enter an empty table without a refusal. */
  lemma UsersAdmitted(policy: Policy, rows: seq<User>)
    requires EmailsDiffer(rows) && forall u :: u in rows ==> u.role in ROLES
    ensures !SomeRefused(map[], policy, rows)
  {
    hide Identity.SameEmail, HasKey;
  }

  lemma ExportedEmailsDiffer(s: Store, rows: seq<User>)
    requires ListsUsers(s.users, rows) && UniqueEmails(s.users)
    ensures EmailsDiffer(rows)
  {
    hide StringLess, Identity.SameEmail;
    StringOrder();
    ListedKeysDiffer(s.users, rows, (u: User) => u.id, StringLess, (v: User, u: User) => v == u);
    forall i, j | 0 <= i < j < |rows| ensures !Identity.SameEmail(rows[i].email, rows[j].email) {
      assert s.users[rows[i].id] == rows[i] && s.users[rows[j].id] == rows[j];
    }
  }

  lemma EmptyCollidesNowhere(ctx: Context, d: Data)
    ensures Collisions(ctx, EMPTY, d) == []
  {
    hide Colliding;
    OverlapIsCollisions(ctx, EMPTY, d);
    CollidingIsEmpty(UserKind(), EMPTY.users, d.UserRows());
    CollidingIsEmpty(TargetKind(ctx), EMPTY.targets, d.targets);
    CollidingIsEmpty(ChannelKind(), EMPTY.channels, d.channels);
    CollidingIsEmpty(WindowKind(), EMPTY.windows, d.windows);
    CollidingIsEmpty(LinkKind(), EMPTY.links, d.links);
  }

  lemma ExportedTagsReadable(ctx: Context, s: Store, d: Data)
    requires ListsTargets(ctx.parse, s.targets, d.targets) && NoEmptyTag(s.targets)
    ensures forall i :: 0 <= i < |d.targets| ==>
      d.targets[i].id in s.targets && TagsOf(ctx.parse, d.targets[i].tags) == Some(s.targets[d.targets[i].id].tags)
  {
    forall i | 0 <= i < |d.targets|
      ensures d.targets[i].id in s.targets
      ensures TagsOf(ctx.parse, d.targets[i].tags) == Some(s.targets[d.targets[i].id].tags)
    {
      var e, t := s.targets[d.targets[i].id], d.targets[i];
      assert ShowsTarget(ctx.parse, e, t);
      if t.tags.Some? {
        assert TagSet(ctx.parse(t.tags.value).value) == e.tags;
      }
    }
  }

  lemma ListedIds<V, R>(
    m: map<string, V>, rows: seq<R>, id: R -> string, less: (string, string) -> bool, shows: (V, R) -> bool)
    requires Lists(m, rows, id, less, shows)
    ensures (set r | r in rows :: id(r)) == m.Keys
  {
    var keys := KeysOf(rows, id);
    forall k ensures k in m <==> exists r :: r in rows && id(r) == k {
      if k in m {
        var i :| 0 <= i < |keys| && keys[i] == k;
        assert rows[i] in rows && id(rows[i]) == k;
      }
      if r :| r in rows && id(r) == k {
        var i :| 0 <= i < |rows| && rows[i] == r;
      }
    }
  }

  /** An export names the rows of its store and no others. */
  lemma ExportKnows(parse: string -> Option<seq<string>>, s: Store, d: Data)
    requires Exports(parse, s, d)
    ensures KnownUsers(EMPTY, d) == s.users.Keys && KnownTargets(EMPTY, d) == s.targets.Keys
    ensures KnownChannels(EMPTY, d) == s.channels.Keys
  {
    hide Lists, StringLess, ShowsTarget;
    ListedIds(s.users, d.users.value, (u: User) => u.id, StringLess, (v: User, u: User) => v == u);
    ListedIds(s.targets, d.targets, (t: Target) => t.id, StringLess,
              (e: Entry, t: Target) => ShowsTarget(parse, e, t));
    ListedIds(s.channels, d.channels, (c: Channel) => c.id, StringLess, (v: Channel, c: Channel) => v == c);
  }

  /** Every exported row fits the schema of the store it comes from. */
  lemma ExportedRowsFit(ctx: Context, s: Store, d: Data)
    requires Exports(ctx.parse, s, d) && MeetsSchema(s) && NoEmptyTag(s.targets)
    ensures AllEnter(ctx, d, s)
  {
    hide ListsUsers, ListsChannels, ListsWindows, ListsLinks, SettingsFit, WindowFits, UniqueEmails;
    ExportedTargetsFit(ctx, s, d);
    UsersShown(s.users, d.users.value);
    ChannelsShown(s.channels, d.channels);
    WindowsShown(s.windows, d.windows);
    LinksShown(s.links, d.links);
  }

  lemma UsersShown(m: map<string, User>, rows: seq<User>)
    requires ListsUsers(m, rows)
    ensures forall u :: u in rows ==> u.id in m && m[u.id] == u
  {
    hide StringLess, Increasing;
  }

  lemma ChannelsShown(m: map<string, Channel>, rows: seq<Channel>)
    requires ListsChannels(m, rows)
    ensures forall c :: c in rows ==> c.id in m && m[c.id] == c
  {
    hide StringLess, Increasing;
  }

  lemma WindowsShown(m: map<string, Window>, rows: seq<Window>)
    requires ListsWindows(m, rows)
    ensures forall w :: w in rows ==> w.id in m && m[w.id] == w
  {
    hide StringLess, Increasing;
  }

  lemma LinksShown(m: map<(string, string), Link>, rows: seq<Link>)
    requires ListsLinks(m, rows)
    ensures forall l :: l in rows ==> (l.targetId, l.channelId) in m && m[(l.targetId, l.channelId)] == l
  {
    hide PairLess, Increasing;
  }

  lemma ExportedTargetsFit(ctx: Context, s: Store, d: Data)
    requires ListsTargets(ctx.parse, s.targets, d.targets) && NoEmptyTag(s.targets)
    requires All(s.targets, EntryTest(s.users.Keys))
    ensures forall t :: t in d.targets ==> TargetEnters(ctx, s.users.Keys, t)
  {
    hide StringLess, SettingsFit, TagsOf, NoEmptyTag;
    ExportedTagsReadable(ctx, s, d);
    forall t | t in d.targets ensures TargetEnters(ctx, s.users.Keys, t) {
      var i :| 0 <= i < |d.targets| && d.targets[i] == t;
      assert ShowsTarget(ctx.parse, s.targets[t.id], t);
    }
  }

  /** An export is admitted whole by an empty store, under any policy. */
  lemma ExportImports(ctx: Context, s: Store, d: Data, policy: Policy)
    requires Exports(ctx.parse, s, d) && MeetsSchema(s) && NoEmptyTag(s.targets)
    ensures Imported(ctx, EMPTY, d, policy).1.Ok?
  {
    hide Imported, DistinctIds, Exports, Collisions, Collides, AllEnter, EmailsDiffer, SomeRefused;
    ExportIsDistinct(ctx.parse, s, d);
    EmptyCollidesNowhere(ctx, d);
    TurnedIsCollision(ctx, EMPTY, d);
    ExportedRowsFit(ctx, s, d);
    ExportKnows(ctx.parse, s, d);
    ImportStopsExactly(ctx, EMPTY, d, policy);
    EmailsOfExport(ctx.parse, s, d);
    forall table ensures Enters(ctx, EMPTY, d, policy, table) {
      TableEnters(ctx, s, d, policy, table);
    }
  }

  lemma EmailsOfExport(parse: string -> Option<seq<string>>, s: Store, d: Data)
    requires Exports(parse, s, d) && UniqueEmails(s.users)
    ensures EmailsDiffer(d.UserRows())
  {
    hide ListsUsers, EmailsDiffer, UniqueEmails;
    ExportedEmailsDiffer(s, d.users.value);
  }

  lemma TableEnters(ctx: Context, s: Store, d: Data, policy: Policy, table: TableName)
    requires AllEnter(ctx, d, s) && EmailsDiffer(d.UserRows())
    requires KnownUsers(EMPTY, d) == s.users.Keys && KnownTargets(EMPTY, d) == s.targets.Keys
    requires KnownChannels(EMPTY, d) == s.channels.Keys
    ensures Enters(ctx, EMPTY, d, policy, table)
  {
    hide EmailsDiffer, SomeRefused, KnownUsers, KnownTargets, KnownChannels;
    hide TargetEnters, ChannelFits, WindowFits, LinkFits;
    UsersAdmitted(policy, d.UserRows());
  }

  /** Each row of a listed table arrives as what the table held, changed by `carry`. */
  lemma TableRestored<K(!new), V(!new), R(!new), W>(
    t: Kind<K, V, R>, policy: Policy, rows: seq<R>, after: map<K, V>,
    m: map<K, W>, key: R -> K, less: (K, K) -> bool, shows: (W, R) -> bool, carry: W -> V)
    requires Settled(t, map[], policy, rows, after) && Lists(m, rows, key, less, shows)
    requires forall r :: r in rows ==> t.key(r) == key(r)
    requires forall i :: 0 <= i < |rows| ==> t.make(rows[i]) == carry(m[key(rows[i])])
    ensures after.Keys == m.Keys && forall k :: k in m ==> after[k] == carry(m[k])
  {
    hide Settled, Lists;
    SettledFromEmpty(t, policy, rows, after);
    ListedKeys(t, rows, m, key, less, shows);
    forall k | k in m ensures k in after && after[k] == carry(m[k]) {
      var i :| 0 <= i < |rows| && t.key(rows[i]) == k;
      assert rows[i] in rows;
    }
  }

  lemma UsersRestored(ctx: Context, s: Store, d: Data, policy: Policy, after: map<string, User>)
    requires d.users.Some? && ListsUsers(s.users, d.users.value)
    requires Settled(UserKind(), map[], policy, d.users.value, after)
    ensures after == Carried(s, ctx.caller).users
  {
    hide Settled, StringLess;
    var carry := (v: User) => v.(sub := None);
    forall i | 0 <= i < |d.users.value|
      ensures UserKind().make(d.users.value[i]) == carry(s.users[d.users.value[i].id])
    {
    }
    TableRestored(UserKind(), policy, d.users.value, after, s.users, (u: User) => u.id, StringLess,
                  (v: User, u: User) => v == u, carry);
  }

  lemma TargetsRestored(ctx: Context, s: Store, d: Data, policy: Policy, after: map<string, Entry>)
    requires ListsTargets(ctx.parse, s.targets, d.targets) && NoEmptyTag(s.targets)
    requires Settled(TargetKind(ctx), map[], policy, d.targets, after)
    ensures after == Carried(s, ctx.caller).targets
  {
    hide Settled, StringLess;
    var carry := (v: Entry) => v.(createdBy := ctx.caller, updatedBy := ctx.caller, state := Some(NewState()));
    ExportedTagsReadable(ctx, s, d);
    forall i | 0 <= i < |d.targets| ensures TargetKind(ctx).make(d.targets[i]) == carry(s.targets[d.targets[i].id]) {
    }
    TableRestored(TargetKind(ctx), policy, d.targets, after, s.targets, (t: Target) => t.id, StringLess,
                  (e: Entry, t: Target) => ShowsTarget(ctx.parse, e, t), carry);
  }

  lemma ChannelsRestored(ctx: Context, s: Store, d: Data, policy: Policy, after: map<string, Channel>)
    requires ListsChannels(s.channels, d.channels)
    requires Settled(ChannelKind(), map[], policy, d.channels, after)
    ensures after == Carried(s, ctx.caller).channels
  {
    hide Settled, StringLess;
    var carry := (v: Channel) => v;
    forall i | 0 <= i < |d.channels| ensures ChannelKind().make(d.channels[i]) == carry(s.channels[d.channels[i].id]) {
    }
    TableRestored(ChannelKind(), policy, d.channels, after, s.channels, (c: Channel) => c.id, StringLess,
                  (v: Channel, c: Channel) => v == c, carry);
  }

  lemma WindowsRestored(ctx: Context, s: Store, d: Data, policy: Policy, after: map<string, Window>)
    requires ListsWindows(s.windows, d.windows)
    requires Settled(WindowKind(), map[], policy, d.windows, after)
    ensures after == Carried(s, ctx.caller).windows
  {
    hide Settled, StringLess;
    var carry := (v: Window) => v.(excludeFromSla := true);
    forall i | 0 <= i < |d.windows| ensures WindowKind().make(d.windows[i]) == carry(s.windows[d.windows[i].id]) {
    }
    TableRestored(WindowKind(), policy, d.windows, after, s.windows, (w: Window) => w.id, StringLess,
                  (v: Window, w: Window) => v == w, carry);
  }

  lemma LinksRestored(ctx: Context, s: Store, d: Data, policy: Policy, after: map<(string, string), Link>)
    requires ListsLinks(s.links, d.links)
    requires Settled(LinkKind(), map[], policy, d.links, after)
    ensures after == Carried(s, ctx.caller).links
  {
    hide Settled, PairLess;
    var carry := (v: Link) => v;
    forall i | 0 <= i < |d.links|
      ensures LinkKind().make(d.links[i]) == carry(s.links[(d.links[i].targetId, d.links[i].channelId)])
    {
    }
    TableRestored(LinkKind(), policy, d.links, after, s.links, (l: Link) => (l.targetId, l.channelId), PairLess,
                  (v: Link, l: Link) => v == l, carry);
  }

  lemma EmptyCounts(ctx: Context, d: Data, policy: Policy)
    requires DistinctIds(d)
    ensures var r := Imported(ctx, EMPTY, d, policy).1;
            r.Ok? ==> r.value == Counts(|d.targets|, |d.channels|, |d.links|, |d.windows|, |d.UserRows()|, 0, 0)
  {
    hide Run, Imported, DistinctIds, Colliding, Collisions;
    EmptyCollidesNowhere(ctx, d);
    OverlapIsCollisions(ctx, EMPTY, d);
    if Imported(ctx, EMPTY, d, policy).1.Ok? {
      ImportConserves(ctx, EMPTY, d, policy);
    }
  }

  /** Import of an export into an empty store rebuilds the store, but for what `Carried` leaves behind. */
  lemma ExportImportRestores(ctx: Context, s: Store, d: Data, policy: Policy)
    requires Exports(ctx.parse, s, d) && MeetsSchema(s) && NoEmptyTag(s.targets)
    ensures Imported(ctx, EMPTY, d, policy)
         == (Carried(s, ctx.caller),
             Ok(Counts(|d.targets|, |d.channels|, |d.links|, |d.windows|, |d.UserRows()|, 0, 0)))
  {
    hide StringLess, Imported, Settled, ListsUsers, ListsTargets, ListsChannels, ListsWindows, ListsLinks, DistinctIds;
    hide MeetsSchema;
    ExportIsDistinct(ctx.parse, s, d);
    ExportImports(ctx, s, d, policy);
    ImportSettles(ctx, EMPTY, d, policy);
    var after := Imported(ctx, EMPTY, d, policy).0;
    UsersRestored(ctx, s, d, policy, after.users);
    TargetsRestored(ctx, s, d, policy, after.targets);
    ChannelsRestored(ctx, s, d, policy, after.channels);
    WindowsRestored(ctx, s, d, policy, after.windows);
    LinksRestored(ctx, s, d, policy, after.links);
    EmptyCounts(ctx, d, policy);
  }

  // ---- The second export ----

  ghost predicate StrictOrder<K(!new)>(less: (K, K) -> bool) {
    && (forall a, b :: less(a, b) ==> a != b && !less(b, a))
    && (forall a, b, c :: less(a, b) && less(b, c) ==> less(a, c))
  }

  lemma {:induction false} IncreasingKeysAreUnique<K(!new)>(a: seq<K>, b: seq<K>, less: (K, K) -> bool)
    requires StrictOrder(less) && Increasing(a, less) && Increasing(b, less)
    requires forall k :: k in a <==> k in b
    ensures a == b
  {
    assert (a != [] ==> a[0] in b) && (b != [] ==> b[0] in a);
    if a == [] || b == [] {
    } else {
      var n, m := |a| - 1, |b| - 1;
      assert a[n] in b && b[m] in a;
      var i :| 0 <= i <= m && b[i] == a[n];
      var j :| 0 <= j <= n && a[j] == b[m];
      assert a[n] == b[m];
      forall k ensures k in a[..n] <==> k in b[..m] {
        InitMembers(a, less, k);
        InitMembers(b, less, k);
      }
      IncreasingKeysAreUnique(a[..n], b[..m], less);
      assert a == a[..n] + [a[n]] && b == b[..m] + [b[m]];
    }
  }

  lemma InitMembers<K(!new)>(a: seq<K>, less: (K, K) -> bool, k: K)
    requires StrictOrder(less) && Increasing(a, less) && a != []
    ensures k in a[..|a| - 1] <==> k in a && k != a[|a| - 1]
  {
    var n := |a| - 1;
    if k in a && k != a[n] {
      var i :| 0 <= i < |a| && a[i] == k;
      assert a[..n][i] == k;
    }
    if k in a[..n] {
      var i :| 0 <= i < n && a[..n][i] == k;
      assert a[i] == k && less(a[i], a[n]);
    }
  }

  /** Two listings of tables with the same keys have the same keys in the same places. */
  lemma ListingsAlign<K(!new), V, W, R>(
    m: map<K, V>, w: map<K, W>, a: seq<R>, b: seq<R>, key: R -> K, less: (K, K) -> bool,
    shows: (V, R) -> bool, shows2: (W, R) -> bool)
    requires Lists(m, a, key, less, shows) && Lists(w, b, key, less, shows2)
    requires m.Keys == w.Keys && StrictOrder(less)
    ensures |a| == |b| && forall i :: 0 <= i < |a| ==> key(a[i]) == key(b[i])
  {
    var ka, kb := KeysOf(a, key), KeysOf(b, key);
    forall k ensures k in ka <==> k in kb {
      assert k in m <==> k in w;
    }
    IncreasingKeysAreUnique(ka, kb, less);
    forall i | 0 <= i < |a| ensures key(a[i]) == key(b[i]) {
      assert ka[i] == kb[i];
    }
  }

  /** The rows both documents list agree, but for what does not travel. */
  ghost predicate SameExport(ctx: Context, d: Data, e: Data) {
    && |e.targets| == |d.targets|
    && (forall i :: 0 <= i < |d.targets| ==>
          && e.targets[i] == d.targets[i].(createdBy := ctx.caller, updatedBy := ctx.caller, tags := e.targets[i].tags)
          && TagsOf(ctx.parse, e.targets[i].tags) == TagsOf(ctx.parse, d.targets[i].tags))
    && e.channels == d.channels
    && e.links == d.links
    && |e.windows| == |d.windows|
    && (forall i :: 0 <= i < |d.windows| ==> e.windows[i] == d.windows[i].(excludeFromSla := true))
    && |e.UserRows()| == |d.UserRows()|
    && (forall i :: 0 <= i < |d.UserRows()| ==> e.UserRows()[i] == d.UserRows()[i].(sub := None))
  }

  lemma CarriedHasNoEmptyTag(s: Store, caller: string)
    requires NoEmptyTag(s.targets)
    ensures NoEmptyTag(Carried(s, caller).targets)
  {
  }

  lemma TargetsAlign(ctx: Context, s: Store, d: Data, e: Data)
    requires ListsTargets(ctx.parse, s.targets, d.targets)
    requires ListsTargets(ctx.parse, Carried(s, ctx.caller).targets, e.targets)
    ensures |e.targets| == |d.targets| && forall i :: 0 <= i < |d.targets| ==> e.targets[i].id == d.targets[i].id
  {
    hide StringLess, ShowsTarget, Lists;
    StringOrder();
    ListingsAlign(s.targets, Carried(s, ctx.caller).targets, d.targets, e.targets, (r: Target) => r.id, StringLess,
                  (x: Entry, r: Target) => ShowsTarget(ctx.parse, x, r),
                  (x: Entry, r: Target) => ShowsTarget(ctx.parse, x, r));
  }

  lemma TargetIsShown(parse: string -> Option<seq<string>>, m: map<string, Entry>, rows: seq<Target>, i: nat)
    requires ListsTargets(parse, m, rows) && i < |rows|
    ensures rows[i].id in m && ShowsTarget(parse, m[rows[i].id], rows[i])
  {
    hide StringLess, ShowsTarget, Increasing;
  }

  lemma SameTargets(ctx: Context, s: Store, d: Data, e: Data)
    requires ListsTargets(ctx.parse, s.targets, d.targets) && NoEmptyTag(s.targets)
    requires ListsTargets(ctx.parse, Carried(s, ctx.caller).targets, e.targets)
    ensures |e.targets| == |d.targets|
    ensures forall i :: 0 <= i < |d.targets| ==>
      && e.targets[i] == d.targets[i].(createdBy := ctx.caller, updatedBy := ctx.caller, tags := e.targets[i].tags)
      && TagsOf(ctx.parse, e.targets[i].tags) == TagsOf(ctx.parse, d.targets[i].tags)
  {
    hide ListsTargets, TagsOf, ShowsTags, NoEmptyTag;
    var t := Carried(s, ctx.caller);
    TargetsAlign(ctx, s, d, e);
    ExportedTagsReadable(ctx, s, d);
    CarriedHasNoEmptyTag(s, ctx.caller);
    ExportedTagsReadable(ctx, t, e);
    forall i | 0 <= i < |d.targets|
      ensures e.targets[i] == d.targets[i].(createdBy := ctx.caller, updatedBy := ctx.caller, tags := e.targets[i].tags)
    {
      TargetIsShown(ctx.parse, s.targets, d.targets, i);
      TargetIsShown(ctx.parse, t.targets, e.targets, i);
    }
  }

  lemma SameChannelsAndLinks(s: Store, caller: string, d: Data, e: Data)
    requires ListsChannels(s.channels, d.channels) && ListsLinks(s.links, d.links)
    requires ListsChannels(Carried(s, caller).channels, e.channels) && ListsLinks(Carried(s, caller).links, e.links)
    ensures e.channels == d.channels && e.links == d.links
  {
    hide StringLess, PairLess;
    StringOrder();
    PairOrder();
    ListingsAlign(s.channels, s.channels, d.channels, e.channels, (r: Channel) => r.id, StringLess,
                  (v: Channel, c: Channel) => v == c, (v: Channel, c: Channel) => v == c);
    ListingsAlign(s.links, s.links, d.links, e.links, (l: Link) => (l.targetId, l.channelId), PairLess,
                  (v: Link, l: Link) => v == l, (v: Link, l: Link) => v == l);
  }

  lemma SameWindows(s: Store, caller: string, d: Data, e: Data)
    requires ListsWindows(s.windows, d.windows) && ListsWindows(Carried(s, caller).windows, e.windows)
    ensures |e.windows| == |d.windows|
    ensures forall i :: 0 <= i < |d.windows| ==> e.windows[i] == d.windows[i].(excludeFromSla := true)
  {
    hide StringLess;
    StringOrder();
    ListingsAlign(s.windows, Carried(s, caller).windows, d.windows, e.windows, (w: Window) => w.id, StringLess,
                  (v: Window, w: Window) => v == w, (v: Window, w: Window) => v == w);
  }

  lemma SameUsers(s: Store, caller: string, d: Data, e: Data)
    requires d.users.Some? && ListsUsers(s.users, d.users.value)
    requires e.users.Some? && ListsUsers(Carried(s, caller).users, e.users.value)
    ensures |e.UserRows()| == |d.UserRows()|
    ensures forall i :: 0 <= i < |d.UserRows()| ==> e.UserRows()[i] == d.UserRows()[i].(sub := None)
  {
    hide StringLess;
    StringOrder();
    ListingsAlign(s.users, Carried(s, caller).users, d.users.value, e.users.value, (u: User) => u.id, StringLess,
                  (v: User, u: User) => v == u, (v: User, u: User) => v == u);
  }

  /**
    * Export, import into an empty store under any policy, export again: the second document is the
    * first, row for row in the same order, except for the columns an import does not carry.
    */
  lemma RoundTrip(ctx: Context, s: Store, d: Data, policy: Policy)
    requires Exports(ctx.parse, s, d) && MeetsSchema(s) && NoEmptyTag(s.targets)
    ensures forall e :: Exports(ctx.parse, Imported(ctx, EMPTY, d, policy).0, e) ==> SameExport(ctx, d, e)
  {
    hide Imported, ListsUsers, ListsTargets, ListsChannels, ListsWindows, ListsLinks, Carried, TagsOf, MeetsSchema;
    ExportImportRestores(ctx, s, d, policy);
    forall e | Exports(ctx.parse, Carried(s, ctx.caller), e) ensures SameExport(ctx, d, e) {
      SameTargets(ctx, s, d, e);
      SameChannelsAndLinks(s, ctx.caller, d, e);
      SameWindows(s, ctx.caller, d, e);
      SameUsers(s, ctx.caller, d, e);
    }
  }
}
