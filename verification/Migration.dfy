/** Configuration import: the tables it writes, row by row, and the store that holds them. */
module Migration {
  import opened Wrappers
  import opened Ordering
  import opened Upserts
  import HealthStates
  import Identity
  import Incidents

  // ---- The payload ----

  /** The target columns that an import copies from the document as they are. */
  datatype Settings = Settings(
    name: string, kind: string, host: string, port: Option<int>, path: Option<string>,
    expectedStatus: Option<int>, bodyContains: Option<string>, tlsThresholdDays: Option<int>,
    timeoutSec: int, retryCount: int, intervalMinutes: int, isDisabled: bool, nextCheckAt: string,
    updatedAt: string, successThreshold: int, failureThreshold: int)

  datatype Target = Target(
    id: string, settings: Settings, ownerId: string, tags: Option<string>,
    createdAt: string, createdBy: string, updatedBy: string)

  datatype Channel = Channel(
    id: string, name: string, channelType: string, endpoint: string, isEnabled: bool,
    ownerId: string, createdAt: string)

  datatype Window = Window(
    id: string, name: string, startAt: string, endAt: string, targetTag: Option<string>,
    targetId: Option<string>, suppressNotify: bool, excludeFromSla: bool, isActive: bool,
    createdAt: string, createdBy: string, updatedBy: string)

  datatype User = User(
    id: string, email: string, name: string, role: string, isActive: bool,
    createdAt: string, updatedAt: string, sub: Option<string>)

  datatype Link = Link(targetId: string, channelId: string, onDown: bool, onUp: bool)

  datatype Data = Data(
    targets: seq<Target>, channels: seq<Channel>, links: seq<Link>, windows: seq<Window>,
    users: Option<seq<User>>)
  {
    function UserRows(): seq<User> {
      if users.Some? then users.value else []
    }

    function Size(): nat {
      |targets| + |channels| + |links| + |windows| + |UserRows()|
    }
  }

  // ---- The tables ----

  /**
    * A target with the rows that hang off it by foreign key: its tags, and its state row if it has
    * one.
    */
  datatype Entry = Entry(
    settings: Settings, ownerId: string, createdAt: string, createdBy: string, updatedBy: string,
    tags: set<string>, state: Option<Incidents.StateRow>)

  datatype Store = Store(
    users: map<string, User>, targets: map<string, Entry>, channels: map<string, Channel>,
    windows: map<string, Window>, links: map<(string, string), Link>)

  /** `parse` reads a JSON array of strings; `caller` is the importing operator's user id. */
  datatype Context = Context(parse: string -> Option<seq<string>>, caller: string)

  function NewState(): Incidents.StateRow {
    Incidents.StateRow(HealthStates.FRESH, None, None, None)
  }

  function TagSet(names: seq<string>): set<string> {
    set tag | tag in names && tag != ""
  }

  /** The tags a target gets from the document's text, unless the text is malformed. */
  function TagsOf(parse: string -> Option<seq<string>>, text: Option<string>): Option<set<string>> {
    match text
    case None => Some({})
    case Some(json) =>
      match parse(json)
      case None => None
      case Some(names) => Some(TagSet(names))
  }

  function TagsOrNone(parse: string -> Option<seq<string>>, text: Option<string>): set<string> {
    var tags := TagsOf(parse, text);
    if tags.Some? then tags.value else {}
  }

  function NewEntry(ctx: Context, t: Target): Entry {
    Entry(t.settings, t.ownerId, t.createdAt, ctx.caller, ctx.caller, TagsOrNone(ctx.parse, t.tags), Some(NewState()))
  }

  function Overwritten(ctx: Context, e: Entry, t: Target): Entry {
    e.(settings := t.settings, ownerId := t.ownerId, updatedBy := ctx.caller, tags := TagsOrNone(ctx.parse, t.tags))
  }

  function TargetKind(ctx: Context): Kind<string, Entry, Target> {
    Kind(
      (t: Target) => t.id,
      (t: Target) => NewEntry(ctx, t),
      (e: Entry, t: Target) => Overwritten(ctx, e, t))
  }

  /** An import never carries `sub`, and keeps the one a colliding row has. */
  function UserKind(): Kind<string, User, User> {
    Kind(
      (u: User) => u.id,
      (u: User) => u.(sub := None),
      (was: User, u: User) =>
        was.(email := u.email, name := u.name, role := u.role, isActive := u.isActive, updatedAt := u.updatedAt))
  }

  function ChannelKind(): Kind<string, Channel, Channel> {
    Kind(
      (c: Channel) => c.id,
      (c: Channel) => c,
      (was: Channel, c: Channel) =>
        was.(name := c.name, channelType := c.channelType, endpoint := c.endpoint, isEnabled := c.isEnabled,
             ownerId := c.ownerId))
  }

  /** `exclude_from_sla` is not bound: a new row gets the column's default. */
  function WindowKind(): Kind<string, Window, Window> {
    Kind(
      (w: Window) => w.id,
      (w: Window) => w.(excludeFromSla := true),
      (was: Window, w: Window) =>
        was.(name := w.name, startAt := w.startAt, endAt := w.endAt, targetTag := w.targetTag, targetId := w.targetId,
             suppressNotify := w.suppressNotify, isActive := w.isActive, updatedBy := w.updatedBy))
  }

  function LinkKind(): Kind<(string, string), Link, Link> {
    Kind(
      (l: Link) => (l.targetId, l.channelId),
      (l: Link) => l,
      (was: Link, l: Link) => was.(onDown := l.onDown, onUp := l.onUp))
  }

  // ---- The schema ----

  const ROLES: set<string> := {"admin", "member"}

  const TARGET_TYPES: set<string> := {"http", "https", "tcp", "smtp", "tls"}

  const CHANNEL_TYPES: set<string> := {"webhook", "slack", "email"}

  /** The largest magnitude of an integer that a bind parameter accepts. */
  const SAFE_INTEGER := 0x20_0000_0000_0000

  predicate Within(x: Option<int>, lo: int, hi: int) {
    x.Some? ==> lo <= x.value <= hi
  }

  predicate SettingsFit(x: Settings) {
    && x.kind in TARGET_TYPES
    && Within(x.port, 1, 65535) && Within(x.expectedStatus, 100, 599) && Within(x.tlsThresholdDays, 0, SAFE_INTEGER)
    && 1 <= x.timeoutSec <= 300 && 0 <= x.retryCount <= 10 && 1 <= x.intervalMinutes <= 1440
    && 1 <= x.successThreshold <= 10 && 1 <= x.failureThreshold <= 10
  }

  /** The checks and the foreign key of the target's own row. */
  predicate TargetFits(owners: set<string>, t: Target) {
    SettingsFit(t.settings) && t.ownerId in owners
  }

  predicate ChannelFits(owners: set<string>, c: Channel) {
    c.channelType in CHANNEL_TYPES && c.ownerId in owners
  }

  predicate WindowFits(targets: set<string>, w: Window) {
    && StringLess(w.startAt, w.endAt)
    && !(w.targetId.Some? && w.targetTag.Some?)
    && (w.targetId.Some? ==> w.targetId.value in targets)
  }

  predicate LinkFits(targets: set<string>, channels: set<string>, l: Link) {
    l.targetId in targets && l.channelId in channels
  }

  predicate EmailFree(users: map<string, User>, u: User) {
    forall id :: id in users && Identity.SameEmail(users[id].email, u.email) ==> id == u.id
  }

  predicate TagsReadable(ctx: Context, t: Target) {
    TagsOf(ctx.parse, t.tags).Some?
  }

  /** The target's statements all succeed. */
  predicate TargetEnters(ctx: Context, owners: set<string>, t: Target) {
    TargetFits(owners, t) && TagsReadable(ctx, t)
  }

  function UserGate(): Gate<string, User, User> {
    Gate(
      (m: map<string, User>, u: User) => u.role in ROLES && EmailFree(m, u),
      (m: map<string, User>, u: User) => m)
  }

  /** A row that breaks the schema is not written.  Malformed tags are met after the target's row is written
      and before its state row is. */
  function TargetGate(ctx: Context, owners: set<string>): Gate<string, Entry, Target> {
    Gate(
      (m: map<string, Entry>, t: Target) => TargetEnters(ctx, owners, t),
      (m: map<string, Entry>, t: Target) =>
        if !TargetFits(owners, t) then m
        else m[t.id := if t.id in m then Overwritten(ctx, m[t.id], t) else NewEntry(ctx, t).(state := None)])
  }

  function TargetTest(ctx: Context, owners: set<string>): Target -> bool {
    (t: Target) => TargetEnters(ctx, owners, t)
  }

  function ChannelTest(owners: set<string>): Channel -> bool {
    (c: Channel) => ChannelFits(owners, c)
  }

  function WindowTest(targets: set<string>): Window -> bool {
    (w: Window) => WindowFits(targets, w)
  }

  function LinkTest(targets: set<string>, channels: set<string>): Link -> bool {
    (l: Link) => LinkFits(targets, channels, l)
  }

  function ChannelGate(owners: set<string>): Gate<string, Channel, Channel> {
    RowGate(ChannelTest(owners))
  }

  function WindowGate(targets: set<string>): Gate<string, Window, Window> {
    RowGate(WindowTest(targets))
  }

  function LinkGate(targets: set<string>, channels: set<string>): Gate<(string, string), Link, Link> {
    RowGate(LinkTest(targets, channels))
  }

  // ---- A whole import ----

  datatype Counts = Counts(
    targets: nat, channels: nat, links: nat, windows: nat, users: nat, skipped: nat, replaced: nat)

  datatype TableName = Targets | Channels | Links | Windows | Users

  datatype Collision = Collision(table: TableName, key: (string, string))

  /** A refusal up front, or the table at one of whose rows a statement failed. */
  datatype Failure = Refused(collisions: seq<Collision>) | FailedAt(table: TableName)

  /** What the five loops do, each to its own table. */
  datatype Steps = Steps(
    users: Progress<string, User>, targets: Progress<string, Entry>, channels: Progress<string, Channel>,
    windows: Progress<string, Window>, links: Progress<(string, string), Link>)

  /** The foreign keys of a table refer to the tables that the loops before it have left. */
  function StepsOf(ctx: Context, s: Store, data: Data, policy: Policy): Steps {
    var users := Run(UserKind(), UserGate(), s.users, policy, data.UserRows());
    var owners := users.table.Keys;
    var targets := Run(TargetKind(ctx), TargetGate(ctx, owners), s.targets, policy, data.targets);
    var channels := Run(ChannelKind(), ChannelGate(owners), s.channels, policy, data.channels);
    var windows := Run(WindowKind(), WindowGate(targets.table.Keys), s.windows, policy, data.windows);
    var links := Run(LinkKind(), LinkGate(targets.table.Keys, channels.table.Keys), s.links, policy, data.links);
    Steps(users, targets, channels, windows, links)
  }

  function Written<K, V>(p: Progress<K, V>): nat {
    p.inserted + p.replaced
  }

  function Summary(r: Steps): Counts {
    Counts(
      Written(r.targets), Written(r.channels), Written(r.links), Written(r.windows), Written(r.users),
      r.users.skipped + r.targets.skipped + r.channels.skipped + r.windows.skipped + r.links.skipped,
      r.users.replaced + r.targets.replaced + r.channels.replaced + r.windows.replaced + r.links.replaced)
  }

  /** `bump_table`. */
  function Bump(c: Counts, table: TableName, n: nat): Counts {
    match table
    case Targets => c.(targets := c.targets + n)
    case Channels => c.(channels := c.channels + n)
    case Links => c.(links := c.links + n)
    case Windows => c.(windows := c.windows + n)
    case Users => c.(users := c.users + n)
  }

  function Tally(c: Counts, table: TableName, outcome: Outcome): Counts {
    match outcome
    case Skipped => c.(skipped := c.skipped + 1)
    case Replaced => Bump(c.(replaced := c.replaced + 1), table, 1)
    case Inserted => Bump(c, table, 1)
  }

  function Tallied<K, V>(c: Counts, table: TableName, p: Progress<K, V>): Counts {
    Bump(c.(skipped := c.skipped + p.skipped, replaced := c.replaced + p.replaced), table, Written(p))
  }

  lemma AdvanceTallies<K, V, R>(
    t: Kind<K, V, R>, g: Gate<K, V, R>, before: Counts, table: TableName, p: Progress<K, V>, policy: Policy, r: R)
    requires !p.failed
    ensures var (m, outcome) := Upsert(t, g, p.table, policy, r);
            var q := Advance(t, g, p, policy, r);
            && q.table == m && q.failed == outcome.None?
            && (outcome.Some? ==>
                  Tallied(before, table, q) == Tally(Tallied(before, table, p), table, outcome.value))
  {
    hide Upsert;
  }

  lemma Untallied<K, V>(c: Counts, table: TableName, p: Progress<K, V>)
    requires p.inserted == 0 && p.replaced == 0 && p.skipped == 0
    ensures Tallied(c, table, p) == c
  {
  }

  /** The keys of a table's colliding rows, in payload order. */
  function CollisionsIn<K, V, R>(
    t: Kind<K, V, R>, m: map<K, V>, rows: seq<R>, name: R -> Collision): seq<Collision>
  {
    if rows == [] then []
    else
      var r := rows[|rows| - 1];
      CollisionsIn(t, m, rows[..|rows| - 1], name) + if t.key(r) in m then [name(r)] else []
  }

  function Collisions(ctx: Context, s: Store, data: Data): seq<Collision> {
    CollisionsIn(TargetKind(ctx), s.targets, data.targets, (t: Target) => Collision(Targets, (t.id, "")))
    + CollisionsIn(ChannelKind(), s.channels, data.channels, (c: Channel) => Collision(Channels, (c.id, "")))
    + CollisionsIn(WindowKind(), s.windows, data.windows, (w: Window) => Collision(Windows, (w.id, "")))
    + CollisionsIn(UserKind(), s.users, data.UserRows(), (u: User) => Collision(Users, (u.id, "")))
    + CollisionsIn(LinkKind(), s.links, data.links, (l: Link) => Collision(Links, (l.targetId, l.channelId)))
  }

  /**
    * Users, targets, channels, windows, links, in that order.  A statement that fails ends the
    * import, and what was written before it stays.
    */
  function Imported(ctx: Context, s: Store, data: Data, policy: Policy): (Store, Result<Counts, Failure>) {
    if policy.Fail? && Collisions(ctx, s, data) != [] then (s, Err(Refused(Collisions(ctx, s, data))))
    else
      var r := StepsOf(ctx, s, data, policy);
      if r.users.failed then (s.(users := r.users.table), Err(FailedAt(Users)))
      else if r.targets.failed then (s.(users := r.users.table, targets := r.targets.table), Err(FailedAt(Targets)))
      else if r.channels.failed then
        (Store(r.users.table, r.targets.table, r.channels.table, s.windows, s.links), Err(FailedAt(Channels)))
      else if r.windows.failed then
        (Store(r.users.table, r.targets.table, r.channels.table, r.windows.table, s.links), Err(FailedAt(Windows)))
      else if r.links.failed then (Reached(r), Err(FailedAt(Links)))
      else (Reached(r), Ok(Summary(r)))
  }

  /** The store after all five loops. */
  function Reached(r: Steps): Store {
    Store(r.users.table, r.targets.table, r.channels.table, r.windows.table, r.links.table)
  }

  method Collect<K, V, R>(
    t: Kind<K, V, R>, m: map<K, V>, rows: seq<R>, name: R -> Collision, found: seq<Collision>)
    returns (all: seq<Collision>)
    ensures all == found + CollisionsIn(t, m, rows, name)
  {
    all := found;
    for n := 0 to |rows|
      invariant all == found + CollisionsIn(t, m, rows[..n], name)
    {
      assert rows[..n + 1][..n] == rows[..n];
      if t.key(rows[n]) in m {
        all := all + [name(rows[n])];
      }
    }
    assert rows[..|rows|] == rows;
  }

  lemma SummaryIsTally(r: Steps)
    ensures var c := Counts(0, 0, 0, 0, 0, 0, 0);
            Summary(r) == Tallied(Tallied(Tallied(Tallied(Tallied(
                            c, Users, r.users), Targets, r.targets), Channels, r.channels),
                            Windows, r.windows), Links, r.links)
  {
  }

  // ---- Owners ----

  datatype Ownerless = OwnerlessTarget(id: string, owner: string) | OwnerlessChannel(id: string, owner: string)

  ghost predicate Resolved(users: map<string, User>, data: Data, owner: string) {
    owner in users || exists u :: u in data.UserRows() && u.id == owner
  }

  lemma ResolvedByIds(users: map<string, User>, data: Data, owner: string, ids: set<string>)
    requires ids == set u | u in data.UserRows() :: u.id
    ensures Resolved(users, data, owner) <==> owner in ids || owner in users
  {
  }

  ghost function OwnerlessTargets(users: map<string, User>, data: Data, rows: seq<Target>): seq<Ownerless> {
    if rows == [] then []
    else
      var t := rows[|rows| - 1];
      OwnerlessTargets(users, data, rows[..|rows| - 1])
      + if !Resolved(users, data, t.ownerId) then [OwnerlessTarget(t.id, t.ownerId)] else []
  }

  ghost function OwnerlessChannels(users: map<string, User>, data: Data, rows: seq<Channel>): seq<Ownerless> {
    if rows == [] then []
    else
      var c := rows[|rows| - 1];
      OwnerlessChannels(users, data, rows[..|rows| - 1])
      + if !Resolved(users, data, c.ownerId) then [OwnerlessChannel(c.id, c.ownerId)] else []
  }

  ghost function Unresolvable(users: map<string, User>, data: Data): seq<Ownerless> {
    OwnerlessTargets(users, data, data.targets) + OwnerlessChannels(users, data, data.channels)
  }

  // ---- The store ----

  class Database {
    var users: map<string, User>
    var targets: map<string, Entry>
    var channels: map<string, Channel>
    var windows: map<string, Window>
    var links: map<(string, string), Link>

    function Contents(): Store
      reads this
    {
      Store(users, targets, channels, windows, links)
    }

    /** Delete the target's tags, then insert the parsed ones; false when the text is malformed. */
    method SetTags(ctx: Context, id: string, text: Option<string>) returns (ok: bool)
      requires id in targets
      modifies this`targets
      ensures ok <==> TagsOf(ctx.parse, text).Some?
      ensures targets == old(targets)[id := old(targets)[id].(tags := TagsOrNone(ctx.parse, text))]
    {
      targets := targets[id := targets[id].(tags := {})];
      if text.None? {
        return true;
      }
      var parsed := ctx.parse(text.value);
      if parsed.None? {
        return false;
      }
      var names := parsed.value;
      ghost var was := targets;
      assert TagSet(names[..0]) == {} && was[id].(tags := {}) == was[id];
      for n := 0 to |names|
        invariant targets == was[id := was[id].(tags := TagSet(names[..n]))]
      {
        assert names[..n + 1] == names[..n] + [names[n]];
        if names[n] != "" {
          targets := targets[id := targets[id].(tags := targets[id].tags + {names[n]})];
        }
        assert targets[id].tags == TagSet(names[..n + 1]);
      }
      assert names[..|names|] == names;
      return true;
    }

    method UpsertTarget(ctx: Context, t: Target, policy: Policy) returns (outcome: Option<Outcome>)
      modifies this`targets
      ensures (targets, outcome) == Upsert(TargetKind(ctx), TargetGate(ctx, users.Keys), old(targets), policy, t)
    {
      var present := t.id in targets;
      if present && policy.Skip? {
        return Some(Skipped);
      }
      if !TargetFits(users.Keys, t) {
        return None;
      }
      if present {
        targets := targets[t.id := targets[t.id].(
                             settings := t.settings, ownerId := t.ownerId, updatedBy := ctx.caller)];
      } else {
        targets := targets[t.id := Entry(t.settings, t.ownerId, t.createdAt, ctx.caller, ctx.caller, {}, None)];
      }
      ghost var row := targets[t.id];
      var ok := SetTags(ctx, t.id, t.tags);
      assert targets == old(targets)[t.id := row.(tags := TagsOrNone(ctx.parse, t.tags))];
      if !ok {
        return None;
      }
      if !present {
        targets := targets[t.id := targets[t.id].(state := Some(NewState()))];
        assert targets == old(targets)[t.id := NewEntry(ctx, t)];
      }
      return Some(if present then Replaced else Inserted);
    }

    method UpsertUser(u: User, policy: Policy) returns (outcome: Option<Outcome>)
      modifies this`users
      ensures (users, outcome) == Upsert(UserKind(), UserGate(), old(users), policy, u)
    {
      var present := u.id in users;
      if present && policy.Skip? {
        return Some(Skipped);
      }
      if u.role !in ROLES || !EmailFree(users, u) {
        return None;
      }
      if present {
        users := users[u.id := users[u.id].(
                         email := u.email, name := u.name, role := u.role, isActive := u.isActive,
                         updatedAt := u.updatedAt)];
      } else {
        users := users[u.id := User(u.id, u.email, u.name, u.role, u.isActive, u.createdAt, u.updatedAt, None)];
      }
      return Some(if present then Replaced else Inserted);
    }

    method UpsertChannel(c: Channel, policy: Policy) returns (outcome: Option<Outcome>)
      modifies this`channels
      ensures (channels, outcome) == Upsert(ChannelKind(), ChannelGate(users.Keys), old(channels), policy, c)
    {
      var present := c.id in channels;
      if present && policy.Skip? {
        return Some(Skipped);
      }
      if !ChannelFits(users.Keys, c) {
        return None;
      }
      if present {
        channels := channels[c.id := channels[c.id].(
                               name := c.name, channelType := c.channelType, endpoint := c.endpoint,
                               isEnabled := c.isEnabled, ownerId := c.ownerId)];
      } else {
        channels := channels[c.id := c];
      }
      return Some(if present then Replaced else Inserted);
    }

    method UpsertWindow(w: Window, policy: Policy) returns (outcome: Option<Outcome>)
      modifies this`windows
      ensures (windows, outcome) == Upsert(WindowKind(), WindowGate(targets.Keys), old(windows), policy, w)
    {
      var present := w.id in windows;
      if present && policy.Skip? {
        return Some(Skipped);
      }
      if !WindowFits(targets.Keys, w) {
        return None;
      }
      if present {
        windows := windows[w.id := windows[w.id].(
                             name := w.name, startAt := w.startAt, endAt := w.endAt, targetTag := w.targetTag,
                             targetId := w.targetId, suppressNotify := w.suppressNotify, isActive := w.isActive,
                             updatedBy := w.updatedBy)];
      } else {
        windows := windows[w.id := Window(w.id, w.name, w.startAt, w.endAt, w.targetTag, w.targetId,
                                          w.suppressNotify, true, w.isActive, w.createdAt, w.createdBy, w.updatedBy)];
      }
      return Some(if present then Replaced else Inserted);
    }

    method UpsertLink(l: Link, policy: Policy) returns (outcome: Option<Outcome>)
      modifies this`links
      ensures (links, outcome) == Upsert(LinkKind(), LinkGate(targets.Keys, channels.Keys), old(links), policy, l)
    {
      var key := (l.targetId, l.channelId);
      var present := key in links;
      if present && policy.Skip? {
        return Some(Skipped);
      }
      if !LinkFits(targets.Keys, channels.Keys, l) {
        return None;
      }
      links := links[key := if present then links[key].(onDown := l.onDown, onUp := l.onUp) else l];
      return Some(if present then Replaced else Inserted);
    }

    // ---- One loop per table ----

    method ImportUsers(rows: seq<User>, policy: Policy, before: Counts) returns (counts: Counts, ok: bool)
      modifies this`users
      ensures var p := Run(UserKind(), UserGate(), old(users), policy, rows);
              users == p.table && ok == !p.failed && (ok ==> counts == Tallied(before, Users, p))
    {
      hide Upsert, Advance, Tally, Tallied, UserKind, UserGate;
      ghost var t, g := UserKind(), UserGate();
      counts := before;
      Untallied(before, Users, Run(t, g, old(users), policy, rows[..0]));
      for n := 0 to |rows|
        invariant !Run(t, g, old(users), policy, rows[..n]).failed
        invariant users == Run(t, g, old(users), policy, rows[..n]).table
        invariant counts == Tallied(before, Users, Run(t, g, old(users), policy, rows[..n]))
      {
        RunSnoc(t, g, old(users), policy, rows, n);
        AdvanceTallies(t, g, before, Users, Run(t, g, old(users), policy, rows[..n]), policy, rows[n]);
        var outcome := UpsertUser(rows[n], policy);
        if outcome.None? {
          RunStaysFailed(t, g, old(users), policy, rows, n + 1);
          return counts, false;
        }
        counts := Tally(counts, Users, outcome.value);
      }
      assert rows[..|rows|] == rows;
      ok := true;
    }

    method ImportTargets(ctx: Context, rows: seq<Target>, policy: Policy, before: Counts)
      returns (counts: Counts, ok: bool)
      modifies this`targets
      ensures var p := Run(TargetKind(ctx), TargetGate(ctx, users.Keys), old(targets), policy, rows);
              targets == p.table && ok == !p.failed && (ok ==> counts == Tallied(before, Targets, p))
    {
      hide Upsert, Advance, Tally, Tallied, TargetKind, TargetGate;
      ghost var t, g := TargetKind(ctx), TargetGate(ctx, users.Keys);
      counts := before;
      Untallied(before, Targets, Run(t, g, old(targets), policy, rows[..0]));
      for n := 0 to |rows|
        invariant !Run(t, g, old(targets), policy, rows[..n]).failed
        invariant targets == Run(t, g, old(targets), policy, rows[..n]).table
        invariant counts == Tallied(before, Targets, Run(t, g, old(targets), policy, rows[..n]))
      {
        RunSnoc(t, g, old(targets), policy, rows, n);
        AdvanceTallies(t, g, before, Targets, Run(t, g, old(targets), policy, rows[..n]), policy, rows[n]);
        var outcome := UpsertTarget(ctx, rows[n], policy);
        if outcome.None? {
          RunStaysFailed(t, g, old(targets), policy, rows, n + 1);
          return counts, false;
        }
        counts := Tally(counts, Targets, outcome.value);
      }
      assert rows[..|rows|] == rows;
      ok := true;
    }

    method ImportChannels(rows: seq<Channel>, policy: Policy, before: Counts) returns (counts: Counts, ok: bool)
      modifies this`channels
      ensures var p := Run(ChannelKind(), ChannelGate(users.Keys), old(channels), policy, rows);
              channels == p.table && ok == !p.failed && (ok ==> counts == Tallied(before, Channels, p))
    {
      hide Upsert, Advance, Tally, Tallied, ChannelKind, ChannelGate;
      ghost var t, g := ChannelKind(), ChannelGate(users.Keys);
      counts := before;
      Untallied(before, Channels, Run(t, g, old(channels), policy, rows[..0]));
      for n := 0 to |rows|
        invariant !Run(t, g, old(channels), policy, rows[..n]).failed
        invariant channels == Run(t, g, old(channels), policy, rows[..n]).table
        invariant counts == Tallied(before, Channels, Run(t, g, old(channels), policy, rows[..n]))
      {
        RunSnoc(t, g, old(channels), policy, rows, n);
        AdvanceTallies(t, g, before, Channels, Run(t, g, old(channels), policy, rows[..n]), policy, rows[n]);
        var outcome := UpsertChannel(rows[n], policy);
        if outcome.None? {
          RunStaysFailed(t, g, old(channels), policy, rows, n + 1);
          return counts, false;
        }
        counts := Tally(counts, Channels, outcome.value);
      }
      assert rows[..|rows|] == rows;
      ok := true;
    }

    method ImportWindows(rows: seq<Window>, policy: Policy, before: Counts) returns (counts: Counts, ok: bool)
      modifies this`windows
      ensures var p := Run(WindowKind(), WindowGate(targets.Keys), old(windows), policy, rows);
              windows == p.table && ok == !p.failed && (ok ==> counts == Tallied(before, Windows, p))
    {
      hide Upsert, Advance, Tally, Tallied, WindowKind, WindowGate;
      ghost var t, g := WindowKind(), WindowGate(targets.Keys);
      counts := before;
      Untallied(before, Windows, Run(t, g, old(windows), policy, rows[..0]));
      for n := 0 to |rows|
        invariant !Run(t, g, old(windows), policy, rows[..n]).failed
        invariant windows == Run(t, g, old(windows), policy, rows[..n]).table
        invariant counts == Tallied(before, Windows, Run(t, g, old(windows), policy, rows[..n]))
      {
        RunSnoc(t, g, old(windows), policy, rows, n);
        AdvanceTallies(t, g, before, Windows, Run(t, g, old(windows), policy, rows[..n]), policy, rows[n]);
        var outcome := UpsertWindow(rows[n], policy);
        if outcome.None? {
          RunStaysFailed(t, g, old(windows), policy, rows, n + 1);
          return counts, false;
        }
        counts := Tally(counts, Windows, outcome.value);
      }
      assert rows[..|rows|] == rows;
      ok := true;
    }

    method ImportLinks(rows: seq<Link>, policy: Policy, before: Counts) returns (counts: Counts, ok: bool)
      modifies this`links
      ensures var p := Run(LinkKind(), LinkGate(targets.Keys, channels.Keys), old(links), policy, rows);
              links == p.table && ok == !p.failed && (ok ==> counts == Tallied(before, Links, p))
    {
      hide Upsert, Advance, Tally, Tallied, LinkKind, LinkGate;
      ghost var t, g := LinkKind(), LinkGate(targets.Keys, channels.Keys);
      counts := before;
      Untallied(before, Links, Run(t, g, old(links), policy, rows[..0]));
      for n := 0 to |rows|
        invariant !Run(t, g, old(links), policy, rows[..n]).failed
        invariant links == Run(t, g, old(links), policy, rows[..n]).table
        invariant counts == Tallied(before, Links, Run(t, g, old(links), policy, rows[..n]))
      {
        RunSnoc(t, g, old(links), policy, rows, n);
        AdvanceTallies(t, g, before, Links, Run(t, g, old(links), policy, rows[..n]), policy, rows[n]);
        var outcome := UpsertLink(rows[n], policy);
        if outcome.None? {
          RunStaysFailed(t, g, old(links), policy, rows, n + 1);
          return counts, false;
        }
        counts := Tally(counts, Links, outcome.value);
      }
      assert rows[..|rows|] == rows;
      ok := true;
    }

    method CollectCollisions(ctx: Context, data: Data) returns (found: seq<Collision>)
      ensures found == Collisions(ctx, Contents(), data)
    {
      hide CollisionsIn;
      found := Collect(TargetKind(ctx), targets, data.targets, (t: Target) => Collision(Targets, (t.id, "")), []);
      found := Collect(ChannelKind(), channels, data.channels, (c: Channel) => Collision(Channels, (c.id, "")), found);
      found := Collect(WindowKind(), windows, data.windows, (w: Window) => Collision(Windows, (w.id, "")), found);
      found := Collect(UserKind(), users, data.UserRows(), (u: User) => Collision(Users, (u.id, "")), found);
      found := Collect(LinkKind(), links, data.links, (l: Link) => Collision(Links, (l.targetId, l.channelId)), found);
    }

    method ImportAll(ctx: Context, data: Data, policy: Policy) returns (r: Result<Counts, Failure>)
      modifies this
      ensures (Contents(), r) == Imported(ctx, old(Contents()), data, policy)
    {
      hide Run, Tallied, UserKind, TargetKind, ChannelKind, WindowKind, LinkKind, Collisions;
      hide UserGate, TargetGate, ChannelGate, WindowGate, LinkGate;
      if policy.Fail? {
        var collisions := CollectCollisions(ctx, data);
        if collisions != [] {
          return Err(Refused(collisions));
        }
      }
      var counts := Counts(0, 0, 0, 0, 0, 0, 0);
      var ok;
      counts, ok := ImportUsers(data.UserRows(), policy, counts);
      if !ok {
        return Err(FailedAt(Users));
      }
      counts, ok := ImportTargets(ctx, data.targets, policy, counts);
      if !ok {
        return Err(FailedAt(Targets));
      }
      counts, ok := ImportChannels(data.channels, policy, counts);
      if !ok {
        return Err(FailedAt(Channels));
      }
      counts, ok := ImportWindows(data.windows, policy, counts);
      if !ok {
        return Err(FailedAt(Windows));
      }
      counts, ok := ImportLinks(data.links, policy, counts);
      if !ok {
        return Err(FailedAt(Links));
      }
      SummaryIsTally(StepsOf(ctx, old(Contents()), data, policy));
      return Ok(counts);
    }

    /** Every owner that neither the payload's users nor the store's can resolve. */
    method FindUnresolvableOwners(data: Data) returns (unresolved: seq<Ownerless>)
      ensures unresolved == Unresolvable(users, data)
    {
      hide Resolved;
      var payloadIds := set u | u in data.UserRows() :: u.id;
      forall owner ensures Resolved(users, data, owner) <==> owner in payloadIds || owner in users {
        ResolvedByIds(users, data, owner, payloadIds);
      }
      unresolved := [];
      for n := 0 to |data.targets|
        invariant unresolved == OwnerlessTargets(users, data, data.targets[..n])
      {
        var t := data.targets[n];
        assert data.targets[..n + 1][..n] == data.targets[..n];
        if t.ownerId in payloadIds {
          continue;
        }
        if t.ownerId !in users {
          unresolved := unresolved + [OwnerlessTarget(t.id, t.ownerId)];
        }
      }
      assert data.targets[..|data.targets|] == data.targets;
      ghost var first := unresolved;
      for n := 0 to |data.channels|
        invariant unresolved == first + OwnerlessChannels(users, data, data.channels[..n])
      {
        var c := data.channels[n];
        assert data.channels[..n + 1][..n] == data.channels[..n];
        if c.ownerId in payloadIds {
          continue;
        }
        if c.ownerId !in users {
          unresolved := unresolved + [OwnerlessChannel(c.id, c.ownerId)];
        }
      }
      assert data.channels[..|data.channels|] == data.channels;
    }
  }
}
