/** Fixed-window rate limits over an expiring key-value store. */
module RateLimit {

  datatype Scope = PerMinute | PerHour

  datatype Family = TestSend | Login

  datatype Decision = Allowed | Denied(scope: Scope, retryAfterSec: nat)

  const MIN_TTL_SEC: nat := 90
  const HOUR_TTL_SEC: nat := 4500

  function Width(scope: Scope): nat { if scope.PerMinute? then 60 else 3600 }

  function Ttl(scope: Scope): nat { if scope.PerMinute? then MIN_TTL_SEC else HOUR_TTL_SEC }

  /** The bucket a second belongs to. */
  function Bucket(now: nat, scope: Scope): nat { now / Width(scope) }

  // ---- Keys ----

  function PrefixOf(f: Family): string {
    if f.TestSend? then "ratelimit:test:" else "ratelimit:login:"
  }

  function ScopeChar(scope: Scope): string { if scope.PerMinute? then "m" else "h" }

  /** The calendar text of a bucket number, such as 202604271403. */
  type Labels = (Scope, nat) -> string

  /** What the calendar format guarantees: different buckets of one scope read differently, and no colons. */
  ghost predicate GoodLabels(labels: Labels) {
    forall s, b :: ':' !in labels(s, b) && forall c :: labels(s, b) == labels(s, c) ==> b == c
  }

  function KeyFor(labels: Labels, f: Family, subject: string, scope: Scope, bucket: nat): string {
    PrefixOf(f) + subject + ":" + ScopeChar(scope) + ":" + labels(scope, bucket)
  }

  /** The text after the last colon can be read back. */
  lemma SuffixRecovered(a: string, x: string, b: string, y: string)
    requires ':' !in x && ':' !in y && a + ":" + x == b + ":" + y
    ensures a == b && x == y
  {
    var s, t := a + ":" + x, b + ":" + y;
    assert s[|a|] == ':' && t[|b|] == ':';
    assert forall k :: |a| < k < |s| ==> s[k] == x[k - |a| - 1];
    assert forall k :: |b| < k < |t| ==> t[k] == y[k - |b| - 1];
    assert |a| == |b|;
    assert a == s[..|a|] && b == t[..|b|];
    assert x == s[|a| + 1..] && y == t[|b| + 1..];
  }

  /** No two counters share a key, whatever the subjects contain. */
  lemma KeysDistinct(labels: Labels, f: Family, s: string, scope: Scope, b: nat,
                     f': Family, s': string, scope': Scope, b': nat)
    requires GoodLabels(labels)
    requires KeyFor(labels, f, s, scope, b) == KeyFor(labels, f', s', scope', b')
    ensures f == f' && s == s' && scope == scope' && b == b'
  {
    var p, p' := PrefixOf(f) + s, PrefixOf(f') + s';
    assert p + ":" + ScopeChar(scope) + ":" + labels(scope, b) ==
        p' + ":" + ScopeChar(scope') + ":" + labels(scope', b');
    SuffixRecovered(p + ":" + ScopeChar(scope), labels(scope, b), p' + ":" + ScopeChar(scope'), labels(scope', b'));
    SuffixRecovered(p, ScopeChar(scope), p', ScopeChar(scope'));
    assert p[10] == PrefixOf(f)[10] && p'[10] == PrefixOf(f')[10];
    assert s == p[|PrefixOf(f)|..] && s' == p'[|PrefixOf(f')|..];
  }

  /** Colons in an address become underscores. */
  function IpForKey(ip: string): (r: string)
    ensures |r| == |ip|
    ensures forall k :: 0 <= k < |ip| ==> r[k] == if ip[k] == ':' then '_' else ip[k]
  {
    if ip == [] then [] else IpForKey(ip[..|ip| - 1]) + [if ip[|ip| - 1] == ':' then '_' else ip[|ip| - 1]]
  }

  /** Addresses, which have no underscores, keep separate counters. */
  lemma IpForKeyInjective(a: string, b: string)
    requires '_' !in a && '_' !in b && IpForKey(a) == IpForKey(b)
    ensures a == b
  {
    assert |a| == |IpForKey(a)| == |b|;
    forall k | 0 <= k < |a| ensures a[k] == b[k] {
      assert IpForKey(a)[k] == IpForKey(b)[k];
      assert a[k] in a && b[k] in b;
    }
  }

  // ---- Deciding ----

  /** Seconds to the start of the next bucket, never zero. */
  function SecondsUntilNext(now: nat, scope: Scope): (r: nat)
    ensures 1 <= r <= Width(scope)
  {
    var secs := if Width(scope) >= now % Width(scope) then Width(scope) - now % Width(scope) else 0;
    if secs > 1 then secs else 1
  }

  /** The minute limit is looked at first, so its shorter wait is reported when both are reached. */
  function Decide(now: nat, minuteCount: nat, hourCount: nat, perMin: nat, perHour: nat): Decision {
    if minuteCount >= perMin then Denied(PerMinute, SecondsUntilNext(now, PerMinute))
    else if hourCount >= perHour then Denied(PerHour, SecondsUntilNext(now, PerHour))
    else Allowed
  }

  /** Waiting the reported time lands exactly at the start of the next bucket, and waiting less does not. */
  lemma WaitingReachesNextBucket(now: nat, scope: Scope, less: nat)
    ensures Bucket(now + SecondsUntilNext(now, scope), scope) == Bucket(now, scope) + 1
    ensures (now + SecondsUntilNext(now, scope)) % Width(scope) == 0
    ensures less < SecondsUntilNext(now, scope) ==> Bucket(now + less, scope) == Bucket(now, scope)
  {
    if scope.PerMinute? {
      var q := now / 60;
      assert now == 60 * q + now % 60;
      assert now + SecondsUntilNext(now, scope) == 60 * (q + 1);
    } else {
      var q := now / 3600;
      assert now == 3600 * q + now % 3600;
      assert now + SecondsUntilNext(now, scope) == 3600 * (q + 1);
    }
  }

  // ---- The store ----

  datatype Entry = Entry(value: nat, expires: nat)

  type Store = map<string, Entry>

  /** Missing or expired keys read as zero. */
  function Read(kv: Store, key: string, now: nat): nat {
    if key in kv && now < kv[key].expires then kv[key].value else 0
  }

  function Put(kv: Store, key: string, value: nat, ttl: nat, now: nat): Store {
    kv[key := Entry(value, now + ttl)]
  }

  datatype Limits = Limits(perMin: nat, perHour: nat)

  datatype Request = Request(family: Family, subject: string, now: nat)

  function CountOf(labels: Labels, kv: Store, r: Request, scope: Scope): nat {
    Read(kv, KeyFor(labels, r.family, r.subject, scope, Bucket(r.now, scope)), r.now)
  }

  function Answer(labels: Labels, kv: Store, r: Request, limits: Limits): Decision {
    Decide(r.now, CountOf(labels, kv, r, PerMinute), CountOf(labels, kv, r, PerHour), limits.perMin, limits.perHour)
  }

  /** Both counters go up when the request is allowed; a denial touches nothing. */
  function Consumed(labels: Labels, kv: Store, r: Request, limits: Limits): Store {
    if Answer(labels, kv, r, limits) != Allowed then kv
    else
      var minKey := KeyFor(labels, r.family, r.subject, PerMinute, Bucket(r.now, PerMinute));
      var hourKey := KeyFor(labels, r.family, r.subject, PerHour, Bucket(r.now, PerHour));
      var kv1 := Put(kv, minKey, CountOf(labels, kv, r, PerMinute) + 1, MIN_TTL_SEC, r.now);
      Put(kv1, hourKey, CountOf(labels, kv, r, PerHour) + 1, HOUR_TTL_SEC, r.now)
  }

  // ---- One request, in terms of the stored texts and numbers ----

  /** The text under which a counter is stored. */
  function StoredUnder(labels: Labels, r: Request, scope: Scope): string {
    (if r.family.TestSend? then "ratelimit:test:" else "ratelimit:login:") + r.subject
    + if scope.PerMinute? then ":m:" + labels(PerMinute, r.now / 60) else ":h:" + labels(PerHour, r.now / 3600)
  }

  function CountUnder(kv: Store, key: string, now: nat): nat {
    if key in kv && now < kv[key].expires then kv[key].value else 0
  }

  /** The minute counter at its limit denies until the next full minute, else the hour counter at its limit until the
      next full hour; an allowed request raises both, for 90 and 4500 seconds from now. */
  ghost predicate Consumes(labels: Labels, kv: Store, r: Request, limits: Limits, decision: Decision, kv': Store) {
    var (m, h) := (StoredUnder(labels, r, PerMinute), StoredUnder(labels, r, PerHour));
    var (minuteCount, hourCount) := (CountUnder(kv, m, r.now), CountUnder(kv, h, r.now));
    if minuteCount >= limits.perMin then decision == Denied(PerMinute, 60 - r.now % 60) && kv' == kv
    else if hourCount >= limits.perHour then decision == Denied(PerHour, 3600 - r.now % 3600) && kv' == kv
    else decision == Allowed
         && kv' == kv[m := Entry(minuteCount + 1, r.now + 90)][h := Entry(hourCount + 1, r.now + 4500)]
  }

  lemma KeysAreTexts(labels: Labels, r: Request)
    ensures KeyFor(labels, r.family, r.subject, PerMinute, Bucket(r.now, PerMinute))
         == StoredUnder(labels, r, PerMinute)
    ensures KeyFor(labels, r.family, r.subject, PerHour, Bucket(r.now, PerHour))
         == StoredUnder(labels, r, PerHour)
  {
    var p := PrefixOf(r.family) + r.subject;
    var (m, h) := (labels(PerMinute, r.now / 60), labels(PerHour, r.now / 3600));
    assert p + ":" + "m" + ":" + m == p + (":m:" + m);
    assert p + ":" + "h" + ":" + h == p + (":h:" + h);
  }

  lemma AnswerConsumes(labels: Labels, kv: Store, r: Request, limits: Limits)
    ensures Consumes(labels, kv, r, limits, Answer(labels, kv, r, limits), Consumed(labels, kv, r, limits))
  {
    KeysAreTexts(labels, r);
    hide KeyFor, StoredUnder;
  }

  class Limiter {
    const labels: Labels
    var kv: Store

    constructor (labels: Labels)
      ensures this.labels == labels && kv == map[]
    {
      this.labels, kv := labels, map[];
    }

    method CheckAndConsume(f: Family, subject: string, now: nat, limits: Limits) returns (decision: Decision)
      modifies this
      ensures decision == Answer(labels, old(kv), Request(f, subject, now), limits)
      ensures kv == Consumed(labels, old(kv), Request(f, subject, now), limits)
      ensures Consumes(labels, old(kv), Request(f, subject, now), limits, decision, kv)
    {
      AnswerConsumes(labels, kv, Request(f, subject, now), limits);
      hide Consumes;
      var minKey := KeyFor(labels, f, subject, PerMinute, Bucket(now, PerMinute));
      var hourKey := KeyFor(labels, f, subject, PerHour, Bucket(now, PerHour));
      var minuteCount := Read(kv, minKey, now);
      var hourCount := Read(kv, hourKey, now);
      decision := Decide(now, minuteCount, hourCount, limits.perMin, limits.perHour);
      if decision == Allowed {
        kv := Put(kv, minKey, minuteCount + 1, MIN_TTL_SEC, now);
        kv := Put(kv, hourKey, hourCount + 1, HOUR_TTL_SEC, now);
      }
    }

    method CheckAndConsumeLogin(clientIp: string, now: nat, limits: Limits) returns (decision: Decision)
      modifies this
      ensures decision == Answer(labels, old(kv), Request(Login, IpForKey(clientIp), now), limits)
      ensures kv == Consumed(labels, old(kv), Request(Login, IpForKey(clientIp), now), limits)
      ensures Consumes(labels, old(kv), Request(Login, IpForKey(clientIp), now), limits, decision, kv)
    {
      decision := CheckAndConsume(Login, IpForKey(clientIp), now, limits);
    }
  }

  // ---- Whole runs ----

  /** The store after a run, starting empty. */
  ghost function StoreAfter(labels: Labels, requests: seq<Request>, limits: Limits): Store {
    if requests == [] then map[]
    else Consumed(labels, StoreAfter(labels, requests[..|requests| - 1], limits), requests[|requests| - 1], limits)
  }

  /** The requests of a run that were allowed. */
  ghost function AllowedOf(labels: Labels, requests: seq<Request>, limits: Limits): seq<Request> {
    if requests == [] then []
    else
      var init, r := requests[..|requests| - 1], requests[|requests| - 1];
      AllowedOf(labels, init, limits)
      + if Answer(labels, StoreAfter(labels, init, limits), r, limits) == Allowed then [r] else []
  }

  ghost predicate InBucket(r: Request, f: Family, s: string, scope: Scope, b: nat) {
    r.family == f && r.subject == s && Bucket(r.now, scope) == b
  }

  /** How many of the requests fall into one bucket. */
  ghost function Tally(requests: seq<Request>, f: Family, s: string, scope: Scope, b: nat): nat {
    if requests == [] then 0
    else Tally(requests[..|requests| - 1], f, s, scope, b)
         + if InBucket(requests[|requests| - 1], f, s, scope, b) then 1 else 0
  }

  /** The entry holds the bucket's tally and outlives the bucket. */
  ghost predicate EntryExact(
    labels: Labels, kv: Store, done: seq<Request>, f: Family, s: string, scope: Scope, b: nat)
  {
    var (key, n) := (KeyFor(labels, f, s, scope, b), Tally(done, f, s, scope, b));
    if n == 0 then key !in kv
    else key in kv && kv[key].value == n && kv[key].expires >= (b + 1) * Width(scope)
  }

  ghost predicate Exact(labels: Labels, kv: Store, done: seq<Request>) {
    forall f, s, scope, b :: EntryExact(labels, kv, done, f, s, scope, b)
  }

  lemma BucketEnds(now: nat, scope: Scope)
    ensures Bucket(now, scope) * Width(scope) <= now < (Bucket(now, scope) + 1) * Width(scope)
    ensures now + Ttl(scope) >= (Bucket(now, scope) + 1) * Width(scope)
  {
    if scope.PerMinute? { assert now == 60 * (now / 60) + now % 60; }
    else { assert now == 3600 * (now / 3600) + now % 3600; }
  }

  lemma ReadIsTally(labels: Labels, kv: Store, done: seq<Request>, r: Request, scope: Scope)
    requires Exact(labels, kv, done)
    ensures CountOf(labels, kv, r, scope) == Tally(done, r.family, r.subject, scope, Bucket(r.now, scope))
  {
    assert EntryExact(labels, kv, done, r.family, r.subject, scope, Bucket(r.now, scope));
    BucketEnds(r.now, scope);
  }

  lemma TallySnoc(done: seq<Request>, r: Request, f: Family, s: string, scope: Scope, b: nat)
    ensures Tally(done + [r], f, s, scope, b)
         == Tally(done, f, s, scope, b) + if InBucket(r, f, s, scope, b) then 1 else 0
  {
    assert (done + [r])[..|done|] == done;
  }

  lemma AllowedKeepsExact(labels: Labels, kv: Store, done: seq<Request>, r: Request, limits: Limits)
    requires GoodLabels(labels) && Exact(labels, kv, done) && Answer(labels, kv, r, limits) == Allowed
    ensures Exact(labels, Consumed(labels, kv, r, limits), done + [r])
  {
    var kv' := Consumed(labels, kv, r, limits);
    forall f, s, scope, b ensures EntryExact(labels, kv', done + [r], f, s, scope, b) {
      assert EntryExact(labels, kv, done, f, s, scope, b);
      TallySnoc(done, r, f, s, scope, b);
      var key := KeyFor(labels, f, s, scope, b);
      UntouchedKey(labels, r, f, s, scope, b, PerMinute);
      UntouchedKey(labels, r, f, s, scope, b, PerHour);
      UntouchedKey(labels, r, r.family, r.subject, PerMinute, Bucket(r.now, PerMinute), PerHour);
      ReadIsTally(labels, kv, done, r, scope);
      BucketEnds(r.now, scope);
    }
  }

  /** A counter's key is written for `r` only when `r` belongs to its bucket. */
  lemma UntouchedKey(labels: Labels, r: Request, f: Family, s: string, scope: Scope, b: nat, written: Scope)
    requires GoodLabels(labels)
    ensures KeyFor(labels, f, s, scope, b) == KeyFor(labels, r.family, r.subject, written, Bucket(r.now, written)) <==>
              scope == written && InBucket(r, f, s, scope, b)
  {
    if KeyFor(labels, f, s, scope, b) == KeyFor(labels, r.family, r.subject, written, Bucket(r.now, written)) {
      KeysDistinct(labels, f, s, scope, b, r.family, r.subject, written, Bucket(r.now, written));
    }
  }

  /** After any run the stored counters are exact, expiry included. */
  lemma {:induction false} CountersAreExact(labels: Labels, requests: seq<Request>, limits: Limits)
    requires GoodLabels(labels)
    ensures Exact(labels, StoreAfter(labels, requests, limits), AllowedOf(labels, requests, limits))
  {
    if requests == [] {
    } else {
      var init, r := requests[..|requests| - 1], requests[|requests| - 1];
      CountersAreExact(labels, init, limits);
      var kv, done := StoreAfter(labels, init, limits), AllowedOf(labels, init, limits);
      if Answer(labels, kv, r, limits) == Allowed {
        AllowedKeepsExact(labels, kv, done, r, limits);
      } else {
        assert AllowedOf(labels, requests, limits) == done;
      }
    }
  }

  /** A request is allowed exactly when both of its buckets have room. */
  lemma AllowedExactlyBelowLimits(labels: Labels, requests: seq<Request>, r: Request, limits: Limits)
    requires GoodLabels(labels)
    ensures var done := AllowedOf(labels, requests, limits);
            Answer(labels, StoreAfter(labels, requests, limits), r, limits) == Allowed <==>
              && Tally(done, r.family, r.subject, PerMinute, Bucket(r.now, PerMinute)) < limits.perMin
              && Tally(done, r.family, r.subject, PerHour, Bucket(r.now, PerHour)) < limits.perHour
  {
    CountersAreExact(labels, requests, limits);
    ReadIsTally(labels, StoreAfter(labels, requests, limits), AllowedOf(labels, requests, limits), r, PerMinute);
    ReadIsTally(labels, StoreAfter(labels, requests, limits), AllowedOf(labels, requests, limits), r, PerHour);
  }

  ghost function LimitOf(limits: Limits, scope: Scope): nat {
    if scope.PerMinute? then limits.perMin else limits.perHour
  }

  /** Neither limit is ever exceeded in any bucket. */
  lemma {:induction false} LimitsHold(labels: Labels, requests: seq<Request>, limits: Limits,
                                      f: Family, s: string, scope: Scope, b: nat)
    requires GoodLabels(labels)
    ensures Tally(AllowedOf(labels, requests, limits), f, s, scope, b) <= LimitOf(limits, scope)
  {
    if requests == [] {
    } else {
      var init, r := requests[..|requests| - 1], requests[|requests| - 1];
      LimitsHold(labels, init, limits, f, s, scope, b);
      AllowedExactlyBelowLimits(labels, init, r, limits);
      TallySnoc(AllowedOf(labels, init, limits), r, f, s, scope, b);
      if Answer(labels, StoreAfter(labels, init, limits), r, limits) != Allowed {
        assert AllowedOf(labels, requests, limits) == AllowedOf(labels, init, limits);
      }
    }
  }

  /** How many of the requests fall into the seconds `[from, from + 60)`. */
  ghost function TallySpan(requests: seq<Request>, f: Family, s: string, from: nat): nat {
    if requests == [] then 0
    else
      var r := requests[|requests| - 1];
      TallySpan(requests[..|requests| - 1], f, s, from)
      + if r.family == f && r.subject == s && from <= r.now < from + 60 then 1 else 0
  }

  lemma {:induction false} SpanMeetsTwoBuckets(requests: seq<Request>, f: Family, s: string, from: nat)
    ensures TallySpan(requests, f, s, from) <=
              Tally(requests, f, s, PerMinute, from / 60) + Tally(requests, f, s, PerMinute, from / 60 + 1)
  {
    if requests == [] {
    } else {
      SpanMeetsTwoBuckets(requests[..|requests| - 1], f, s, from);
    }
  }

  /** Any sixty consecutive seconds allow at most twice the minute limit. */
  lemma AtMostTwiceInAnyMinute(labels: Labels, requests: seq<Request>, limits: Limits, f: Family, s: string, from: nat)
    requires GoodLabels(labels)
    ensures TallySpan(AllowedOf(labels, requests, limits), f, s, from) <= 2 * limits.perMin
  {
    SpanMeetsTwoBuckets(AllowedOf(labels, requests, limits), f, s, from);
    LimitsHold(labels, requests, limits, f, s, PerMinute, from / 60);
    LimitsHold(labels, requests, limits, f, s, PerMinute, from / 60 + 1);
  }

  /** In a bucket later than every request so far the counter reads zero. */
  lemma LaterBucketIsEmpty(labels: Labels, requests: seq<Request>, limits: Limits, r: Request, now: nat, scope: Scope)
    requires GoodLabels(labels) && forall i :: 0 <= i < |requests| ==> requests[i].now <= now
    requires Bucket(r.now, scope) > Bucket(now, scope)
    ensures CountOf(labels, StoreAfter(labels, requests, limits), r, scope) == 0
  {
    var kv, done := StoreAfter(labels, requests, limits), AllowedOf(labels, requests, limits);
    hide KeyFor, StoreAfter, AllowedOf;
    CountersAreExact(labels, requests, limits);
    AllowedAreEarlier(labels, requests, limits, now);
    TallyAfter(done, r.family, r.subject, scope, now, Bucket(r.now, scope));
    ReadIsTally(labels, kv, done, r, scope);
  }

  /** After the reported wait, with no requests in between, the scope that denied the request no longer does;
      and once the hour has passed the request is allowed. */
  lemma WaitingClearsTheScope(labels: Labels, requests: seq<Request>, r: Request, limits: Limits)
    requires GoodLabels(labels) && limits.perMin > 0 && limits.perHour > 0
    requires forall i :: 0 <= i < |requests| ==> requests[i].now <= r.now
    requires Answer(labels, StoreAfter(labels, requests, limits), r, limits).Denied?
    ensures var kv := StoreAfter(labels, requests, limits);
            var a := Answer(labels, kv, r, limits);
            var later := Answer(labels, kv, r.(now := r.now + a.retryAfterSec), limits);
            later == Allowed || (a.scope == PerMinute && later.scope == PerHour)
  {
    hide CountOf, StoreAfter, SecondsUntilNext, Bucket;
    var a := Answer(labels, StoreAfter(labels, requests, limits), r, limits);
    var r' := r.(now := r.now + a.retryAfterSec);
    WaitingReachesNextBucket(r.now, a.scope, 0);
    LaterBucketIsEmpty(labels, requests, limits, r', r.now, a.scope);
    if a.scope == PerHour {
      HourStartsAMinute(r.now);
      LaterBucketIsEmpty(labels, requests, limits, r', r.now, PerMinute);
    }
  }

  /** Retrying after the reported wait, with no requests in between, succeeds exactly when the hour was the
      reason, or the hour still has room, or the wait runs into the next hour. */
  lemma RetryAllowedExactly(labels: Labels, requests: seq<Request>, r: Request, limits: Limits)
    requires GoodLabels(labels) && limits.perMin > 0 && limits.perHour > 0
    requires forall i :: 0 <= i < |requests| ==> requests[i].now <= r.now
    requires Answer(labels, StoreAfter(labels, requests, limits), r, limits).Denied?
    ensures var kv := StoreAfter(labels, requests, limits);
            var a := Answer(labels, kv, r, limits);
            var retry := r.(now := r.now + a.retryAfterSec);
            Answer(labels, kv, retry, limits) == Allowed <==>
              || a.scope == PerHour
              || CountOf(labels, kv, r, PerHour) < limits.perHour
              || Bucket(retry.now, PerHour) > Bucket(r.now, PerHour)
  {
    hide CountOf, StoreAfter, SecondsUntilNext, Bucket, GoodLabels;
    var kv := StoreAfter(labels, requests, limits);
    var a := Answer(labels, kv, r, limits);
    var retry := r.(now := r.now + a.retryAfterSec);
    WaitingClearsTheScope(labels, requests, r, limits);
    if a.scope == PerMinute {
      WaitingReachesNextBucket(r.now, PerMinute, 0);
      LaterBucketIsEmpty(labels, requests, limits, retry, r.now, PerMinute);
      if Bucket(retry.now, PerHour) > Bucket(r.now, PerHour) {
        LaterBucketIsEmpty(labels, requests, limits, retry, r.now, PerHour);
      } else {
        BucketMonotone(r.now, retry.now, PerHour);
        SameBucketSameCount(labels, requests, limits, r, retry, PerHour);
      }
    }
  }

  /** A counter reads the same throughout its bucket: no entry expires before its bucket ends. */
  lemma SameBucketSameCount(
    labels: Labels, requests: seq<Request>, limits: Limits, r: Request, q: Request, scope: Scope)
    requires GoodLabels(labels) && q == r.(now := q.now) && Bucket(q.now, scope) == Bucket(r.now, scope)
    ensures var kv := StoreAfter(labels, requests, limits);
            CountOf(labels, kv, q, scope) == CountOf(labels, kv, r, scope)
  {
    hide CountOf, StoreAfter, Bucket, GoodLabels;
    var kv, done := StoreAfter(labels, requests, limits), AllowedOf(labels, requests, limits);
    CountersAreExact(labels, requests, limits);
    ReadIsTally(labels, kv, done, r, scope);
    ReadIsTally(labels, kv, done, q, scope);
  }

  function Max(a: nat, b: nat): nat { if a > b then a else b }

  /** With both limits reached the longer of the two waits is reported only in the last minute of the hour,
      when they are the same. */
  lemma LongerWaitReportedExactly(now: nat, minuteCount: nat, hourCount: nat, perMin: nat, perHour: nat)
    requires minuteCount >= perMin && hourCount >= perHour
    ensures Decide(now, minuteCount, hourCount, perMin, perHour).retryAfterSec
            == Max(SecondsUntilNext(now, PerMinute), SecondsUntilNext(now, PerHour))
       <==> now % 3600 >= 3540
  {
    assert now % 3600 % 60 == now % 60 by {
      assert now == 3600 * (now / 3600) + now % 3600;
      assert now == 60 * (60 * (now / 3600)) + now % 3600;
    }
  }

  lemma FirstIsAllowed(labels: Labels, r: Request, limits: Limits)
    requires limits.perMin > 0 && limits.perHour > 0
    ensures AllowedOf(labels, [r], limits) == [r]
  {
    var one := [r];
    assert one[..|one| - 1] == [];
    assert AllowedOf(labels, [], limits) == [] && StoreAfter(labels, [], limits) == map[];
    assert Answer(labels, map[], r, limits) == Allowed;
  }

  /** One request is allowed, the next finds both counters at their limits, waits the minute it is told to
      wait, and is refused again. */
  lemma RetryCanBeRefused(labels: Labels, f: Family, s: string)
    requires GoodLabels(labels)
    ensures var (r, limits) := (Request(f, s, 0), Limits(1, 1));
            var kv := StoreAfter(labels, [r], limits);
            && CountOf(labels, kv, r, PerMinute) == limits.perMin && CountOf(labels, kv, r, PerHour) == limits.perHour
            && Answer(labels, kv, r, limits) == Denied(PerMinute, 60)
            && Answer(labels, kv, r.(now := 60), limits) == Denied(PerHour, 3540)
  {
    var (r, limits) := (Request(f, s, 0), Limits(1, 1));
    var later := r.(now := 60);
    var kv := StoreAfter(labels, [r], limits);
    FirstIsAllowed(labels, r, limits);
    var done := AllowedOf(labels, [r], limits);
    TallySnoc([], r, f, s, PerMinute, 0);
    TallySnoc([], r, f, s, PerHour, 0);
    assert [] + [r] == [r];
    hide CountOf, StoreAfter, GoodLabels;
    CountersAreExact(labels, [r], limits);
    ReadIsTally(labels, kv, done, r, PerMinute);
    ReadIsTally(labels, kv, done, r, PerHour);
    SameBucketSameCount(labels, [r], limits, r, later, PerHour);
    LaterBucketIsEmpty(labels, [r], limits, later, 0, PerMinute);
  }

  lemma HourStartsAMinute(now: nat)
    ensures Bucket(now + SecondsUntilNext(now, PerHour), PerMinute) > Bucket(now, PerMinute)
  {
    var q := now / 3600;
    assert now == 3600 * q + now % 3600;
    assert now + SecondsUntilNext(now, PerHour) == 60 * (60 * (q + 1));
  }

  lemma {:induction false} AllowedAreEarlier(labels: Labels, requests: seq<Request>, limits: Limits, now: nat)
    requires forall i :: 0 <= i < |requests| ==> requests[i].now <= now
    ensures forall r :: r in AllowedOf(labels, requests, limits) ==> r.now <= now
  {
    if requests == [] {
    } else {
      AllowedAreEarlier(labels, requests[..|requests| - 1], limits, now);
    }
  }

  lemma {:induction false} TallyAfter(done: seq<Request>, f: Family, s: string, scope: Scope, now: nat, b: nat)
    requires (forall r :: r in done ==> r.now <= now) && b > Bucket(now, scope)
    ensures Tally(done, f, s, scope, b) == 0
  {
    if done == [] {
    } else {
      var r := done[|done| - 1];
      TallyAfter(done[..|done| - 1], f, s, scope, now, b);
      assert r in done && r.now <= now;
      BucketMonotone(r.now, now, scope);
    }
  }

  lemma BucketMonotone(a: nat, b: nat, scope: Scope)
    requires a <= b
    ensures Bucket(a, scope) <= Bucket(b, scope)
  {
  }
}
