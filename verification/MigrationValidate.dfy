/** Structural validation of an import payload, and the import endpoint built on it. */
module MigrationValidate {
  import opened Wrappers
  import opened Ordering
  import opened Upserts
  import opened Migration
  import opened MigrationFacts
  import opened MigrationRepeat

  const SCHEMA_VERSION: nat := 1

  datatype Payload = Payload(schemaVersion: nat, data: Data)

  datatype Problem =
    | SchemaMismatch
    | DuplicateTargetIds | DuplicateChannelIds | DuplicateWindowIds | DuplicateUserIds
    | UnknownTarget(id: string) | UnknownChannel(id: string) | DuplicateLink(target: string, channel: string)
    | EmptyTargetId | EmptyName(id: string) | EmptyHost(id: string)
    | EmptyChannelId | UnknownChannelType(id: string, kind: string)

  datatype Validation = Accepted(usersMissing: bool) | Rejected(errors: seq<Problem>)

  /** `trim().is_empty()`, for whatever characters count as white space. */
  predicate Blank(white: char -> bool, s: string) {
    forall c :: c in s ==> white(c)
  }

  function Ids<R>(rows: seq<R>, id: R -> string): seq<string> {
    seq(|rows|, i requires 0 <= i < |rows| => id(rows[i]))
  }

  function Pairs(links: seq<Link>): seq<(string, string)> {
    seq(|links|, i requires 0 <= i < |links| => (links[i].targetId, links[i].channelId))
  }

  function TargetIds(data: Data): seq<string> { Ids(data.targets, (t: Target) => t.id) }

  function ChannelIds(data: Data): seq<string> { Ids(data.channels, (c: Channel) => c.id) }

  function WindowIds(data: Data): seq<string> { Ids(data.windows, (w: Window) => w.id) }

  function UserIds(data: Data): seq<string> { Ids(data.UserRows(), (u: User) => u.id) }

  ghost predicate HasLinkProblem(targetIds: seq<string>, channelIds: seq<string>, links: seq<Link>, p: Problem) {
    match p
    case UnknownTarget(id) => id !in targetIds && exists l :: l in links && l.targetId == id
    case UnknownChannel(id) => id !in channelIds && exists l :: l in links && l.channelId == id
    case DuplicateLink(t, c) => multiset(Pairs(links))[(t, c)] > 1
    case _ => false
  }

  /** What is wrong with a payload, problem by problem. */
  ghost predicate Has(white: char -> bool, data: Data, p: Problem) {
    || HasIdProblem(data, p)
    || HasLinkProblem(TargetIds(data), ChannelIds(data), data.links, p)
    || HasTargetProblem(white, data.targets, p)
    || HasChannelProblem(data.channels, p)
  }

  ghost predicate HasIdProblem(data: Data, p: Problem) {
    match p
    case DuplicateTargetIds => !NoRepeats(TargetIds(data))
    case DuplicateChannelIds => !NoRepeats(ChannelIds(data))
    case DuplicateWindowIds => !NoRepeats(WindowIds(data))
    case DuplicateUserIds => !NoRepeats(UserIds(data))
    case _ => false
  }

  method HasDuplicates(ids: seq<string>) returns (r: bool)
    ensures r <==> !NoRepeats(ids)
  {
    var distinct := set x | x in ids;
    ElementsCount(ids);
    assert distinct == Elements(ids);
    r := |distinct| != |ids|;
  }

  method CheckIds(data: Data) returns (errors: seq<Problem>)
    ensures forall p :: p in errors <==> HasIdProblem(data, p)
  {
    hide NoRepeats, TargetIds, ChannelIds, WindowIds, UserIds;
    errors := [];
    var twice := HasDuplicates(TargetIds(data));
    if twice { errors := errors + [DuplicateTargetIds]; }
    twice := HasDuplicates(ChannelIds(data));
    if twice { errors := errors + [DuplicateChannelIds]; }
    twice := HasDuplicates(WindowIds(data));
    if twice { errors := errors + [DuplicateWindowIds]; }
    twice := HasDuplicates(UserIds(data));
    if twice { errors := errors + [DuplicateUserIds]; }
  }

  method CheckLinks(data: Data) returns (errors: seq<Problem>)
    ensures forall p :: p in errors <==> HasLinkProblem(TargetIds(data), ChannelIds(data), data.links, p)
  {
    hide TargetIds, ChannelIds, HasLinkProblem, Pairs;
    var targetIds, channelIds := TargetIds(data), ChannelIds(data);
    var seen: set<(string, string)> := {};
    errors := [];
    NoLinks(targetIds, channelIds);
    assert data.links[..0] == [];
    for n := 0 to |data.links|
      invariant forall x :: x in seen <==> x in Pairs(data.links[..n])
      invariant forall p :: p in errors <==> HasLinkProblem(targetIds, channelIds, data.links[..n], p)
    {
      var l := data.links[n];
      ghost var was := errors;
      if l.targetId !in targetIds {
        errors := errors + [UnknownTarget(l.targetId)];
      }
      if l.channelId !in channelIds {
        errors := errors + [UnknownChannel(l.channelId)];
      }
      if (l.targetId, l.channelId) in seen {
        errors := errors + [DuplicateLink(l.targetId, l.channelId)];
      }
      assert forall p :: p in errors <==> p in was || AddsProblem(targetIds, channelIds, data.links[..n], l, p);
      seen := seen + {(l.targetId, l.channelId)};
      assert data.links[..n + 1] == data.links[..n] + [l];
      PairsSnoc(data.links[..n], l);
      forall p ensures HasLinkProblem(targetIds, channelIds, data.links[..n + 1], p)
          <==> || HasLinkProblem(targetIds, channelIds, data.links[..n], p)
               || AddsProblem(targetIds, channelIds, data.links[..n], l, p) {
        LinkSnoc(targetIds, channelIds, data.links[..n], l, p);
      }
    }
    assert data.links[..|data.links|] == data.links;
  }

  lemma NoLinks(targetIds: seq<string>, channelIds: seq<string>)
    ensures Pairs([]) == [] && forall p :: !HasLinkProblem(targetIds, channelIds, [], p)
  {
  }

  lemma PairsSnoc(links: seq<Link>, l: Link)
    ensures Pairs(links + [l]) == Pairs(links) + [(l.targetId, l.channelId)]
  {
  }

  predicate AddsProblem(targetIds: seq<string>, channelIds: seq<string>, links: seq<Link>, l: Link, p: Problem) {
    || (p == UnknownTarget(l.targetId) && l.targetId !in targetIds)
    || (p == UnknownChannel(l.channelId) && l.channelId !in channelIds)
    || (p == DuplicateLink(l.targetId, l.channelId) && (l.targetId, l.channelId) in Pairs(links))
  }

  /** What one more link can add to the problems. */
  lemma LinkSnoc(targetIds: seq<string>, channelIds: seq<string>, links: seq<Link>, l: Link, p: Problem)
    ensures HasLinkProblem(targetIds, channelIds, links + [l], p)
       <==> HasLinkProblem(targetIds, channelIds, links, p) || AddsProblem(targetIds, channelIds, links, l, p)
  {
    PairsSnoc(links, l);
    assert forall x :: x in links + [l] <==> x in links || x == l;
    if p.UnknownTarget? && exists k :: k in links && k.targetId == p.id {
      var k :| k in links && k.targetId == p.id;
      assert k in links + [l];
    }
    if p.UnknownChannel? && exists k :: k in links && k.channelId == p.id {
      var k :| k in links && k.channelId == p.id;
      assert k in links + [l];
    }
    assert l in links + [l];
  }

  ghost predicate HasTargetProblem(white: char -> bool, targets: seq<Target>, p: Problem) {
    match p
    case EmptyTargetId => exists t :: t in targets && t.id == ""
    case EmptyName(id) => exists t :: t in targets && t.id == id && Blank(white, t.settings.name)
    case EmptyHost(id) => exists t :: t in targets && t.id == id && Blank(white, t.settings.host)
    case _ => false
  }

  ghost predicate HasChannelProblem(channels: seq<Channel>, p: Problem) {
    match p
    case EmptyChannelId => exists c :: c in channels && c.id == ""
    case UnknownChannelType(id, kind) =>
      kind !in CHANNEL_TYPES && exists c :: c in channels && c.id == id && c.channelType == kind
    case _ => false
  }

  method CheckTargets(white: char -> bool, targets: seq<Target>) returns (errors: seq<Problem>)
    ensures forall p :: p in errors <==> HasTargetProblem(white, targets, p)
  {
    errors := [];
    for n := 0 to |targets|
      invariant forall p :: p in errors <==> HasTargetProblem(white, targets[..n], p)
    {
      var t := targets[n];
      if t.id == "" {
        errors := errors + [EmptyTargetId];
      }
      if Blank(white, t.settings.name) {
        errors := errors + [EmptyName(t.id)];
      }
      if Blank(white, t.settings.host) {
        errors := errors + [EmptyHost(t.id)];
      }
      assert targets[..n + 1] == targets[..n] + [t];
      forall p ensures HasTargetProblem(white, targets[..n + 1], p)
          <==> HasTargetProblem(white, targets[..n], p) || HasTargetProblem(white, [t], p) {
        TargetProblemSplit(white, targets[..n], t, p);
      }
    }
    assert targets[..|targets|] == targets;
  }

  lemma TargetProblemSplit(white: char -> bool, targets: seq<Target>, t: Target, p: Problem)
    ensures HasTargetProblem(white, targets + [t], p)
       <==> HasTargetProblem(white, targets, p) || HasTargetProblem(white, [t], p)
  {
    hide Blank;
    assert forall x :: x in targets + [t] <==> x in targets || x in [t];
  }

  method CheckChannels(channels: seq<Channel>) returns (errors: seq<Problem>)
    ensures forall p :: p in errors <==> HasChannelProblem(channels, p)
  {
    errors := [];
    for n := 0 to |channels|
      invariant forall p :: p in errors <==> HasChannelProblem(channels[..n], p)
    {
      var c := channels[n];
      if c.id == "" {
        errors := errors + [EmptyChannelId];
      }
      if c.channelType !in CHANNEL_TYPES {
        errors := errors + [UnknownChannelType(c.id, c.channelType)];
      }
      assert channels[..n + 1] == channels[..n] + [c];
      forall p ensures HasChannelProblem(channels[..n + 1], p)
          <==> HasChannelProblem(channels[..n], p) || HasChannelProblem([c], p) {
        ChannelProblemSplit(channels[..n], c, p);
      }
    }
    assert channels[..|channels|] == channels;
  }

  lemma ChannelProblemSplit(channels: seq<Channel>, c: Channel, p: Problem)
    ensures HasChannelProblem(channels + [c], p) <==> HasChannelProblem(channels, p) || HasChannelProblem([c], p)
  {
    assert forall x :: x in channels + [c] <==> x in channels || x in [c];
  }

  // ---- Validation ----

  ghost predicate WellFormed(white: char -> bool, data: Data) {
    forall p :: !Has(white, data, p)
  }

  /** The errors are exactly the payload's problems, all of them, or the schema mismatch alone. */
  method Validate(white: char -> bool, payload: Payload) returns (r: Validation)
    ensures payload.schemaVersion != 1 ==> r == Rejected([SchemaMismatch])
    ensures r.Accepted? <==> payload.schemaVersion == 1 && WellFormed(white, payload.data)
    ensures r.Accepted? ==> r.usersMissing == payload.data.users.None?
    ensures r.Rejected? && payload.schemaVersion == 1 ==>
      r.errors != [] && forall p :: p in r.errors <==> Has(white, payload.data, p)
  {
    hide HasIdProblem, HasLinkProblem, HasTargetProblem, HasChannelProblem;
    if payload.schemaVersion != SCHEMA_VERSION {
      return Rejected([SchemaMismatch]);
    }
    var data := payload.data;
    var errors := CheckIds(data);
    var more := CheckLinks(data);
    errors := errors + more;
    var usersMissing := data.users.None?;
    more := CheckTargets(white, data.targets);
    errors := errors + more;
    more := CheckChannels(data.channels);
    errors := errors + more;
    assert forall p :: p in errors <==> Has(white, data, p);
    if errors == [] {
      return Accepted(usersMissing);
    }
    assert errors[0] in errors;
    return Rejected(errors);
  }

  lemma IdsRepeat<R>(rows: seq<R>, id: R -> string)
    requires NoRepeats(Ids(rows, id))
    ensures forall i, j :: 0 <= i < j < |rows| ==> id(rows[i]) != id(rows[j])
  {
    forall i, j | 0 <= i < j < |rows| ensures id(rows[i]) != id(rows[j]) {
      assert Ids(rows, id)[i] != Ids(rows, id)[j];
    }
  }

  lemma PairsDistinct(links: seq<Link>, i: nat, j: nat)
    requires i < j < |links| && Pairs(links)[i] == Pairs(links)[j]
    ensures multiset(Pairs(links))[Pairs(links)[i]] > 1
  {
    var s := Pairs(links);
    assert s == s[..j] + [s[j]] + s[j + 1..];
    assert s[..j][i] == s[i];
  }

  lemma IdInRows<R>(rows: seq<R>, id: R -> string, x: string)
    requires x in Ids(rows, id)
    ensures exists i :: 0 <= i < |rows| && id(rows[i]) == x
  {
    var i :| 0 <= i < |rows| && Ids(rows, id)[i] == x;
    assert id(rows[i]) == x;
  }

  /** What the importer relies on: no id twice in a table, and every link between rows of the payload. */
  lemma WellFormedMeans(white: char -> bool, data: Data)
    requires WellFormed(white, data)
    ensures DistinctIds(data) && LinksInside(data)
  {
    hide NoRepeats, HasTargetProblem, HasChannelProblem, Pairs;
    assert !Has(white, data, DuplicateTargetIds) && !Has(white, data, DuplicateChannelIds);
    assert !Has(white, data, DuplicateWindowIds) && !Has(white, data, DuplicateUserIds);
    IdsRepeat(data.targets, (t: Target) => t.id);
    IdsRepeat(data.channels, (c: Channel) => c.id);
    IdsRepeat(data.windows, (w: Window) => w.id);
    IdsRepeat(data.UserRows(), (u: User) => u.id);
    WellFormedLinks(white, data);
  }

  lemma WellFormedLinks(white: char -> bool, data: Data)
    requires WellFormed(white, data)
    ensures LinksInside(data)
    ensures forall i, j :: 0 <= i < j < |data.links| ==>
      (data.links[i].targetId, data.links[i].channelId) != (data.links[j].targetId, data.links[j].channelId)
  {
    hide HasIdProblem, HasTargetProblem, HasChannelProblem, TargetIds, ChannelIds;
    forall l | l in data.links ensures l.targetId in TargetIds(data) && l.channelId in ChannelIds(data) {
      assert !Has(white, data, UnknownTarget(l.targetId)) && !Has(white, data, UnknownChannel(l.channelId));
    }
    forall l | l in data.links
      ensures exists i :: 0 <= i < |data.targets| && data.targets[i].id == l.targetId
      ensures exists i :: 0 <= i < |data.channels| && data.channels[i].id == l.channelId
    {
      LinkEnds(data, l);
    }
    forall i, j | 0 <= i < j < |data.links|
      ensures (data.links[i].targetId, data.links[i].channelId) != (data.links[j].targetId, data.links[j].channelId)
    {
      assert !Has(white, data, DuplicateLink(data.links[i].targetId, data.links[i].channelId));
      if Pairs(data.links)[i] == Pairs(data.links)[j] {
        PairsDistinct(data.links, i, j);
      }
    }
  }

  lemma LinkEnds(data: Data, l: Link)
    requires l.targetId in TargetIds(data) && l.channelId in ChannelIds(data)
    ensures exists i :: 0 <= i < |data.targets| && data.targets[i].id == l.targetId
    ensures exists i :: 0 <= i < |data.channels| && data.channels[i].id == l.channelId
  {
    IdInRows(data.targets, (t: Target) => t.id, l.targetId);
    IdInRows(data.channels, (c: Channel) => c.id, l.channelId);
  }

  /** Exactly the payloads that validation accepts: no id or pair twice, every link between rows of the payload, every
      target with an id, a name and a host, every channel with an id and one of three types. */
  lemma WellFormedExactly(white: char -> bool, data: Data)
    ensures WellFormed(white, data) <==>
              && DistinctIds(data) && LinksInside(data)
              && (forall t :: t in data.targets ==>
                    && t.id != "" && (exists c :: c in t.settings.name && !white(c))
                    && (exists c :: c in t.settings.host && !white(c)))
              && (forall c :: c in data.channels ==>
                    c.id != ""
                    && (c.channelType == "webhook" || c.channelType == "slack" || c.channelType == "email"))
  {
    hide DistinctIds, LinksInside;
    if WellFormed(white, data) {
      WellFormedMeans(white, data);
      TargetsSane(white, data);
      ChannelsSane(white, data);
    } else {
      var p :| Has(white, data, p);
      if HasIdProblem(data, p) {
        IdProblemRepeats(data, p);
      } else if HasLinkProblem(TargetIds(data), ChannelIds(data), data.links, p) {
        LinkProblemBreaks(data, p);
      }
    }
  }

  lemma TargetsSane(white: char -> bool, data: Data)
    requires WellFormed(white, data)
    ensures forall t :: t in data.targets ==>
              && t.id != "" && (exists c :: c in t.settings.name && !white(c))
              && (exists c :: c in t.settings.host && !white(c))
  {
    hide HasIdProblem, HasLinkProblem, HasChannelProblem;
    forall t | t in data.targets
      ensures t.id != "" && (exists c :: c in t.settings.name && !white(c))
      ensures exists c :: c in t.settings.host && !white(c)
    {
      assert !Has(white, data, EmptyTargetId) && !Has(white, data, EmptyName(t.id));
      assert !Has(white, data, EmptyHost(t.id));
    }
  }

  lemma ChannelsSane(white: char -> bool, data: Data)
    requires WellFormed(white, data)
    ensures forall c :: c in data.channels ==>
              c.id != ""
              && (c.channelType == "webhook" || c.channelType == "slack" || c.channelType == "email")
  {
    hide HasIdProblem, HasLinkProblem, HasTargetProblem;
    forall c | c in data.channels
      ensures c.id != ""
      ensures c.channelType == "webhook" || c.channelType == "slack" || c.channelType == "email"
    {
      assert !Has(white, data, EmptyChannelId) && !Has(white, data, UnknownChannelType(c.id, c.channelType));
    }
  }

  lemma DistinctMeansNoRepeats<R>(rows: seq<R>, id: R -> string)
    requires forall i, j :: 0 <= i < j < |rows| ==> id(rows[i]) != id(rows[j])
    ensures NoRepeats(Ids(rows, id))
  {
  }

  lemma IdProblemRepeats(data: Data, p: Problem)
    requires HasIdProblem(data, p)
    ensures !DistinctIds(data)
  {
    hide NoRepeats;
    if DistinctIds(data) {
      DistinctMeansNoRepeats(data.targets, (t: Target) => t.id);
      DistinctMeansNoRepeats(data.channels, (c: Channel) => c.id);
      DistinctMeansNoRepeats(data.windows, (w: Window) => w.id);
      DistinctMeansNoRepeats(data.UserRows(), (u: User) => u.id);
      assert false;
    }
  }

  lemma LinkProblemBreaks(data: Data, p: Problem)
    requires HasLinkProblem(TargetIds(data), ChannelIds(data), data.links, p)
    ensures !DistinctIds(data) || !LinksInside(data)
  {
    if p.DuplicateLink? {
      RepeatedPair(data.links, (p.target, p.channel));
    } else if p.UnknownTarget? {
      var l :| l in data.links && l.targetId == p.id;
      forall i | 0 <= i < |data.targets| ensures data.targets[i].id != l.targetId {
        assert TargetIds(data)[i] == data.targets[i].id;
      }
    } else if p.UnknownChannel? {
      var l :| l in data.links && l.channelId == p.id;
      forall i | 0 <= i < |data.channels| ensures data.channels[i].id != l.channelId {
        assert ChannelIds(data)[i] == data.channels[i].id;
      }
    }
  }

  lemma RepeatedPair(links: seq<Link>, pair: (string, string))
    requires multiset(Pairs(links))[pair] > 1
    ensures exists i, j :: 0 <= i < j < |links|
              && (links[i].targetId, links[i].channelId) == (links[j].targetId, links[j].channelId)
  {
    if NoRepeats(Pairs(links)) {
      AtMostOnce(Pairs(links), pair);
      assert false;
    }
    var i, j :| 0 <= i < j < |Pairs(links)| && Pairs(links)[i] == Pairs(links)[j];
    assert (links[i].targetId, links[i].channelId) == Pairs(links)[i];
  }

  // ---- The endpoint ----

  datatype Reply =
    | Invalid(errors: seq<Problem>)
    | Orphans(unresolved: seq<Ownerless>)
    | DryRun(rows: Counts)
    | Applied(rows: Counts)
    | Stopped(failure: Failure)

  function Total(c: Counts): nat {
    c.targets + c.channels + c.links + c.windows + c.users + c.skipped
  }

  /**
    * Validate, resolve owners, stop there on a dry run, then write.  Nothing is written unless the
    * payload is well-formed, every owner resolves and the caller asked to apply it.
    */
  method Import(
    white: char -> bool, ctx: Context, db: Database, payload: Payload, policy: Policy, apply: bool)
    returns (reply: Reply)
    modifies db
    ensures var s, data := old(db.Contents()), payload.data;
            && (reply.Invalid? <==> !(payload.schemaVersion == 1 && WellFormed(white, data)))
            && (reply.Orphans? <==> !reply.Invalid? && !OwnersResolved(s.users, data))
            && (reply.DryRun? <==> !reply.Invalid? && !reply.Orphans? && !apply)
            && (reply.Invalid? || reply.Orphans? || reply.DryRun? ==> db.Contents() == s)
    ensures var s, data := old(db.Contents()), payload.data;
            match reply
            case Invalid(errors) =>
              if payload.schemaVersion == 1 then errors != [] && forall p :: p in errors <==> Has(white, data, p)
              else errors == [SchemaMismatch]
            case Orphans(unresolved) => unresolved == Unresolvable(s.users, data)
            case DryRun(rows) =>
              rows == Counts(|data.targets|, |data.channels|, |data.links|, |data.windows|, |data.UserRows()|, 0, 0)
            case _ => true
    ensures var s, data := old(db.Contents()), payload.data;
            reply.Applied? ==>
              && (db.Contents(), Ok(reply.rows)) == Imported(ctx, s, data, policy)
              && References(data, db.Contents())
              && (OneState(s.targets) ==> OneState(db.targets))
    ensures reply.Stopped? ==>
      (db.Contents(), Err(reply.failure)) == Imported(ctx, old(db.Contents()), payload.data, policy)
    ensures reply.Applied? || reply.DryRun? ==> Total(reply.rows) == payload.data.Size()
  {
    hide WellFormed, Has, Imported, OneState, References, OwnersResolved, Unresolvable;
    var validation := Validate(white, payload);
    if validation.Rejected? {
      return Invalid(validation.errors);
    }
    var data := payload.data;
    var unresolved := db.FindUnresolvableOwners(data);
    NothingUnresolvable(db.users, data);
    if unresolved != [] {
      return Orphans(unresolved);
    }
    if !apply {
      return DryRun(Counts(|data.targets|, |data.channels|, |data.links|, |data.windows|, |data.UserRows()|, 0, 0));
    }
    WellFormedMeans(white, data);
    ghost var s := db.Contents();
    var r := db.ImportAll(ctx, data, policy);
    if r.Err? {
      return Stopped(r.error);
    }
    ImportConserves(ctx, s, data, policy);
    ImportedReferencesExist(ctx, s, data, policy);
    if OneState(s.targets) {
      ImportKeepsOneState(ctx, s, data, policy);
    }
    return Applied(r.value);
  }

  /**
    * Validation does not look at tags: a well-formed payload with one new target whose tags are
    * malformed stops the import and leaves that target without a state row.
    */
  lemma ValidImportCanStrandATarget(
    white: char -> bool, ctx: Context, s: Store, t: Target, policy: Policy)
    requires t.id != "" && !Blank(white, t.settings.name) && !Blank(white, t.settings.host)
    requires TargetFits(s.users.Keys, t) && t.id !in s.targets && TagsOf(ctx.parse, t.tags).None?
    ensures var data := Data([t], [], [], [], None);
            && WellFormed(white, data) && OwnersResolved(s.users, data)
            && Imported(ctx, s, data, policy).1 == Err(FailedAt(Targets))
            && t.id in Imported(ctx, s, data, policy).0.targets
            && !OneState(Imported(ctx, s, data, policy).0.targets)
  {
    hide TagsOf, NewEntry, Overwritten, SettingsFit, WellFormed;
    var data := Data([t], [], [], [], None);
    FewRowsAreWellFormed(white, data);
    OneTargetStops(ctx, s.users.Keys, s.targets, policy, t);
    assert Colliding(TargetKind(ctx), s.targets, [t]) == [] by {
      assert [t][..0] == [];
    }
    OverlapIsCollisions(ctx, s, data);
    hide UserGate, TargetGate, TargetKind, Collisions;
    assert Run(UserKind(), UserGate(), s.users, policy, data.UserRows()) == Progress(s.users, 0, 0, 0, false);
  }

  lemma FewRowsAreWellFormed(white: char -> bool, data: Data)
    requires |data.targets| <= 1 && |data.windows| <= 1 && |data.UserRows()| <= 1
    requires data.channels == [] && data.links == []
    requires forall t :: t in data.targets ==>
      t.id != "" && !Blank(white, t.settings.name) && !Blank(white, t.settings.host)
    ensures WellFormed(white, data)
  {
    hide Blank;
  }

  lemma OneTargetStops(ctx: Context, owners: set<string>, m: map<string, Entry>, policy: Policy, t: Target)
    requires TargetFits(owners, t) && t.id !in m && TagsOf(ctx.parse, t.tags).None?
    ensures Run(TargetKind(ctx), TargetGate(ctx, owners), m, policy, [t])
         == Progress(m[t.id := NewEntry(ctx, t).(state := None)], 0, 0, 0, true)
  {
    hide TagsOf, NewEntry, Overwritten, SettingsFit;
    RunOfOneNew(TargetKind(ctx), TargetGate(ctx, owners), m, policy, t);
  }
}
