/** The checks, foreign keys and unique emails that the schema promises of every store. */
module MigrationSchema {
  import opened Wrappers
  import opened Ordering
  import opened Upserts
  import opened Migration
  import opened MigrationFacts
  import opened MigrationRepeat
  import Identity

  /** What the schema lets into the tables; the state rows are not part of it. */
  ghost predicate MeetsSchema(s: Store) {
    && UniqueEmails(s.users)
    && All(s.users, UserTest())
    && All(s.targets, EntryTest(s.users.Keys))
    && All(s.channels, StoredChannelTest(s.users.Keys))
    && All(s.windows, StoredWindowTest(s.targets.Keys))
    && All(s.links, StoredLinkTest(s.targets.Keys, s.channels.Keys))
  }

  function UserTest(): (string, User) -> bool {
    (id: string, u: User) => u.role in ROLES
  }

  function EntryTest(owners: set<string>): (string, Entry) -> bool {
    (id: string, e: Entry) => SettingsFit(e.settings) && e.ownerId in owners
  }

  function StoredChannelTest(owners: set<string>): (string, Channel) -> bool {
    (id: string, c: Channel) => ChannelFits(owners, c)
  }

  function StoredWindowTest(targets: set<string>): (string, Window) -> bool {
    (id: string, w: Window) => WindowFits(targets, w)
  }

  /** A link's own columns are its key. */
  function StoredLinkTest(targets: set<string>, channels: set<string>): ((string, string), Link) -> bool {
    (k: (string, string), l: Link) => LinkFits(targets, channels, l)
  }

  // ---- One loop at a time ----

  lemma UsersKeepSchema(s: Store, policy: Policy, rows: seq<User>)
    requires MeetsSchema(s)
    ensures MeetsSchema(s.(users := Run(UserKind(), UserGate(), s.users, policy, rows).table))
  {
    hide Run, EmailFree, UniqueEmails, SettingsFit, WindowFits;
    RunKeepsEmailsUnique(s.users, policy, rows);
    RunKeepsAll(UserKind(), UserGate(), s.users, policy, rows, UserTest());
    RunKeepsKeys(UserKind(), UserGate(), s.users, policy, rows);
  }

  lemma TargetsKeepSchema(ctx: Context, s: Store, policy: Policy, rows: seq<Target>)
    requires MeetsSchema(s)
    ensures MeetsSchema(
              s.(targets := Run(TargetKind(ctx), TargetGate(ctx, s.users.Keys), s.targets, policy, rows).table))
  {
    hide Run, SettingsFit, TagsReadable, UniqueEmails, TagsOrNone, NewState;
    RunKeepsAll(TargetKind(ctx), TargetGate(ctx, s.users.Keys), s.targets, policy, rows, EntryTest(s.users.Keys));
    RunKeepsKeys(TargetKind(ctx), TargetGate(ctx, s.users.Keys), s.targets, policy, rows);
  }

  lemma ChannelsKeepSchema(s: Store, policy: Policy, rows: seq<Channel>)
    requires MeetsSchema(s)
    ensures MeetsSchema(s.(channels := Run(ChannelKind(), ChannelGate(s.users.Keys), s.channels, policy, rows).table))
  {
    hide Run, UniqueEmails, SettingsFit, WindowFits;
    RunKeepsAll(ChannelKind(), ChannelGate(s.users.Keys), s.channels, policy, rows, StoredChannelTest(s.users.Keys));
    RunKeepsKeys(ChannelKind(), ChannelGate(s.users.Keys), s.channels, policy, rows);
  }

  lemma WindowsKeepSchema(s: Store, policy: Policy, rows: seq<Window>)
    requires MeetsSchema(s)
    ensures MeetsSchema(s.(windows := Run(WindowKind(), WindowGate(s.targets.Keys), s.windows, policy, rows).table))
  {
    hide Run, UniqueEmails, SettingsFit;
    RunKeepsAll(WindowKind(), WindowGate(s.targets.Keys), s.windows, policy, rows, StoredWindowTest(s.targets.Keys));
  }

  lemma LinksKeepSchema(s: Store, policy: Policy, rows: seq<Link>)
    requires MeetsSchema(s)
    ensures var g := LinkGate(s.targets.Keys, s.channels.Keys);
            MeetsSchema(s.(links := Run(LinkKind(), g, s.links, policy, rows).table))
  {
    hide Run, UniqueEmails, SettingsFit, WindowFits;
    RunKeepsAll(LinkKind(), LinkGate(s.targets.Keys, s.channels.Keys), s.links, policy, rows,
                StoredLinkTest(s.targets.Keys, s.channels.Keys));
  }

  /** Every import keeps the schema, wherever it stops. */
  lemma ImportKeepsSchema(ctx: Context, s: Store, data: Data, policy: Policy)
    requires MeetsSchema(s)
    ensures MeetsSchema(Imported(ctx, s, data, policy).0)
  {
    hide MeetsSchema, Run, Collisions, UserGate, TargetGate, ChannelGate, WindowGate, LinkGate;
    var r := StepsOf(ctx, s, data, policy);
    UsersKeepSchema(s, policy, data.UserRows());
    TargetsKeepSchema(ctx, s.(users := r.users.table), policy, data.targets);
    var s2 := s.(users := r.users.table, targets := r.targets.table);
    ChannelsKeepSchema(s2, policy, data.channels);
    WindowsKeepSchema(s2.(channels := r.channels.table), policy, data.windows);
    LinksKeepSchema(s2.(channels := r.channels.table, windows := r.windows.table), policy, data.links);
  }

  // ---- The checks one column at a time ----

  /** The settings of a stored target stay admissible under a change of one column exactly when the new value is in
      that column's range. */
  lemma SettingsByColumn(x: Settings)
    requires SettingsFit(x)
    ensures forall kind :: SettingsFit(x.(kind := kind)) <==>
              kind == "http" || kind == "https" || kind == "tcp" || kind == "smtp" || kind == "tls"
    ensures forall p: Option<int> :: SettingsFit(x.(port := p)) <==> p == None || 1 <= p.value <= 65535
    ensures forall c: Option<int> :: SettingsFit(x.(expectedStatus := c)) <==> c == None || 100 <= c.value <= 599
    ensures forall d: Option<int> ::
              SettingsFit(x.(tlsThresholdDays := d)) <==> d == None || 0 <= d.value <= 9007199254740992
    ensures forall n: int :: SettingsFit(x.(timeoutSec := n)) <==> 1 <= n <= 300
    ensures forall n: int :: SettingsFit(x.(retryCount := n)) <==> 0 <= n <= 10
    ensures forall n: int :: SettingsFit(x.(intervalMinutes := n)) <==> 1 <= n <= 1440
    ensures forall n: int :: SettingsFit(x.(successThreshold := n)) <==> 1 <= n <= 10
    ensures forall n: int :: SettingsFit(x.(failureThreshold := n)) <==> 1 <= n <= 10
  {
  }

  /** The remaining rows: which roles, channels, windows and links the store admits. */
  lemma RowsByColumn(users: map<string, User>, u: User, owners: set<string>, c: Channel, targets: set<string>,
                     w: Window, channels: set<string>, l: Link)
    ensures UserGate().admits(users, u) <==>
              && (u.role == "admin" || u.role == "member")
              && forall id :: id in users && id != u.id ==> !Identity.SameEmail(users[id].email, u.email)
    ensures ChannelFits(owners, c) <==>
              && (c.channelType == "webhook" || c.channelType == "slack" || c.channelType == "email")
              && c.ownerId in owners
    ensures WindowFits(targets, w) <==>
              && StringLess(w.startAt, w.endAt)
              && match (w.targetId, w.targetTag)
                 case (Some(id), None) => id in targets
                 case (Some(_), Some(_)) => false
                 case (None, _) => true
    ensures LinkFits(targets, channels, l) <==> l.targetId in targets && l.channelId in channels
  {
    hide Identity.SameEmail, StringLess;
  }

  // ---- Keys ----

  lemma UsersKeepKeys(s: Store, policy: Policy, rows: seq<User>)
    requires Keyed(s)
    ensures Keyed(s.(users := Run(UserKind(), UserGate(), s.users, policy, rows).table))
  {
    hide Run, EmailFree;
    RunKeepsAll(UserKind(), UserGate(), s.users, policy, rows, (id: string, x: User) => x.id == id);
  }

  lemma ChannelsKeepKeys(s: Store, owners: set<string>, policy: Policy, rows: seq<Channel>)
    requires Keyed(s)
    ensures Keyed(s.(channels := Run(ChannelKind(), ChannelGate(owners), s.channels, policy, rows).table))
  {
    hide Run, ChannelFits;
    RunKeepsAll(ChannelKind(), ChannelGate(owners), s.channels, policy, rows, (id: string, x: Channel) => x.id == id);
  }

  lemma WindowsKeepKeys(s: Store, targets: set<string>, policy: Policy, rows: seq<Window>)
    requires Keyed(s)
    ensures Keyed(s.(windows := Run(WindowKind(), WindowGate(targets), s.windows, policy, rows).table))
  {
    hide Run, WindowFits;
    RunKeepsAll(WindowKind(), WindowGate(targets), s.windows, policy, rows, (id: string, x: Window) => x.id == id);
  }

  lemma LinksKeepKeys(s: Store, targets: set<string>, channels: set<string>, policy: Policy, rows: seq<Link>)
    requires Keyed(s)
    ensures Keyed(s.(links := Run(LinkKind(), LinkGate(targets, channels), s.links, policy, rows).table))
  {
    hide Run, LinkFits;
    RunKeepsAll(LinkKind(), LinkGate(targets, channels), s.links, policy, rows,
                (k: (string, string), x: Link) => (x.targetId, x.channelId) == k);
  }

  lemma TargetsAreKeys(s: Store, targets: map<string, Entry>)
    ensures Keyed(s) ==> Keyed(s.(targets := targets))
  {
  }

  /** Every import stores each row under its own key, wherever it stops. */
  lemma ImportKeepsKeys(ctx: Context, s: Store, data: Data, policy: Policy)
    requires Keyed(s)
    ensures Keyed(Imported(ctx, s, data, policy).0)
  {
    hide Keyed, Run, Collisions, UserGate, TargetGate, ChannelGate, WindowGate, LinkGate;
    var r := StepsOf(ctx, s, data, policy);
    var (owners, targets, channels) := KeysMet(ctx, s, data, policy);
    UsersKeepKeys(s, policy, data.UserRows());
    TargetsAreKeys(s.(users := r.users.table), r.targets.table);
    var s2 := s.(users := r.users.table, targets := r.targets.table);
    ChannelsKeepKeys(s2, owners, policy, data.channels);
    WindowsKeepKeys(s2.(channels := r.channels.table), targets, policy, data.windows);
    LinksKeepKeys(s2.(channels := r.channels.table, windows := r.windows.table), targets, channels, policy, data.links);
  }
}
