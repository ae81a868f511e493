/** Every store has an export. */
module MigrationExports {
  import opened Wrappers
  import opened Ordering
  import opened Migration
  import opened MigrationFacts
  import opened MigrationRoundTrip

  ghost predicate TotalOrder<K(!new)>(less: (K, K) -> bool) {
    StrictOrder(less) && forall a, b :: a == b || less(a, b) || less(b, a)
  }

  lemma {:induction false} InsertMembers<K(!new)>(s: seq<K>, k: K, less: (K, K) -> bool)
    ensures forall x :: x in Insert(s, k, less) <==> x == k || x in s
  {
    if s == [] || less(k, s[0]) {
    } else {
      InsertMembers(s[1..], k, less);
      assert s == [s[0]] + s[1..];
    }
  }

  lemma {:induction false} InsertIncreases<K(!new)>(s: seq<K>, k: K, less: (K, K) -> bool)
    requires TotalOrder(less) && Increasing(s, less) && k !in s
    ensures Increasing(Insert(s, k, less), less)
  {
    if s == [] {
    } else if less(k, s[0]) {
      forall j | 0 <= j < |s| ensures less(k, s[j]) {
        assert j > 0 ==> less(s[0], s[j]);
      }
    } else {
      var rest := Insert(s[1..], k, less);
      InsertIncreases(s[1..], k, less);
      InsertMembers(s[1..], k, less);
      forall j | 0 <= j < |rest| ensures less(s[0], rest[j]) {
        assert rest[j] in rest;
        if rest[j] != k {
          var i :| 0 <= i < |s[1..]| && s[1..][i] == rest[j];
          assert less(s[0], s[i + 1]);
        }
      }
    }
  }

  /** A finite set of keys, in order. */
  lemma KeysInOrder<K(!new)>(keys: set<K>, less: (K, K) -> bool) returns (s: seq<K>)
    requires TotalOrder(less)
    ensures Increasing(s, less) && forall k :: k in s <==> k in keys
    decreases |keys|
  {
    if keys == {} {
      s := [];
    } else {
      var k :| k in keys;
      var rest := KeysInOrder(keys - {k}, less);
      InsertIncreases(rest, k, less);
      InsertMembers(rest, k, less);
      s := Insert(rest, k, less);
    }
  }

  /** Each table has a listing, given a row that shows each of its entries. */
  lemma TableIsListed<K(!new), V(!new), R>(
    m: map<K, V>, key: R -> K, less: (K, K) -> bool, shows: (V, R) -> bool, row: (K, V) -> R) returns (rows: seq<R>)
    requires TotalOrder(less)
    requires forall k :: k in m ==> key(row(k, m[k])) == k && shows(m[k], row(k, m[k]))
    ensures Lists(m, rows, key, less, shows)
  {
    var keys := KeysInOrder(m.Keys, less);
    assert forall i :: 0 <= i < |keys| ==> keys[i] in m;
    rows := seq(|keys|, i requires 0 <= i < |keys| && keys[i] in m => row(keys[i], m[keys[i]]));
    assert KeysOf(rows, key) == keys;
  }

  /** `json` writes every set of tags as a text that `parse` reads back. */
  ghost predicate WritesTags(parse: string -> Option<seq<string>>, json: set<string> -> string) {
    forall tags :: parse(json(tags)).Some? && (set x | x in parse(json(tags)).value) == tags
  }

  lemma StringsAreOrdered()
    ensures TotalOrder(StringLess)
  {
    StringOrder();
    forall a, b ensures a == b || StringLess(a, b) || StringLess(b, a) {
      StringLessTotal(a, b);
    }
  }

  lemma PairsAreOrdered()
    ensures TotalOrder(PairLess)
  {
    PairOrder();
    forall a, b ensures a == b || PairLess(a, b) || PairLess(b, a) {
      StringLessTotal(a.0, b.0);
      StringLessTotal(a.1, b.1);
    }
  }

  /** The document of a target, with a text for its tags. */
  function Shown(json: set<string> -> string, id: string, e: Entry): Target {
    Target(id, e.settings, e.ownerId, if e.tags == {} then None else Some(json(e.tags)),
           e.createdAt, e.createdBy, e.updatedBy)
  }

  lemma TargetsAreListed(parse: string -> Option<seq<string>>, json: set<string> -> string, m: map<string, Entry>)
    returns (rows: seq<Target>)
    requires WritesTags(parse, json)
    ensures ListsTargets(parse, m, rows)
  {
    hide StringLess;
    StringsAreOrdered();
    rows := TableIsListed(m, (t: Target) => t.id, StringLess, (e: Entry, t: Target) => ShowsTarget(parse, e, t),
                          (id: string, e: Entry) => Shown(json, id, e));
  }

  lemma RestIsListed(s: Store)
    returns (channels: seq<Channel>, windows: seq<Window>, links: seq<Link>, users: seq<User>)
    requires Keyed(s)
    ensures ListsChannels(s.channels, channels) && ListsWindows(s.windows, windows)
    ensures ListsLinks(s.links, links) && ListsUsers(s.users, users)
  {
    hide StringLess, PairLess, Lists, TotalOrder;
    StringsAreOrdered();
    PairsAreOrdered();
    channels := TableIsListed(s.channels, (c: Channel) => c.id, StringLess, (v: Channel, c: Channel) => v == c,
                              (id: string, c: Channel) => c);
    windows := TableIsListed(s.windows, (w: Window) => w.id, StringLess, (v: Window, w: Window) => v == w,
                             (id: string, w: Window) => w);
    links := TableIsListed(s.links, (l: Link) => (l.targetId, l.channelId), PairLess, (v: Link, l: Link) => v == l,
                           (k: (string, string), l: Link) => l);
    users := TableIsListed(s.users, (u: User) => u.id, StringLess, (v: User, u: User) => v == u,
                           (id: string, u: User) => u);
  }

  /** Every store has an export, as long as its tags can be written. */
  lemma EveryStoreExports(parse: string -> Option<seq<string>>, json: set<string> -> string, s: Store)
    requires Keyed(s) && WritesTags(parse, json)
    ensures exists d :: Exports(parse, s, d)
  {
    hide ListsTargets, ListsChannels, ListsWindows, ListsLinks, ListsUsers;
    var targets := TargetsAreListed(parse, json, s.targets);
    var channels, windows, links, users := RestIsListed(s);
    assert Exports(parse, s, Data(targets, channels, links, windows, Some(users)));
  }
}
