/** First-login identity resolution, step by step and under any interleaving. */
module Identity {
  import opened Wrappers

  type UserId = string

  datatype User = User(email: string, name: string, role: string, isActive: bool, sub: Option<string>)

  type Users = map<UserId, User>

  /** The collation of the email column ignores ASCII case. */
  function FoldCase(s: string): (r: string)
    ensures |r| == |s|
  {
    if s == [] then []
    else
      var c := s[|s| - 1];
      FoldCase(s[..|s| - 1]) + [if 'A' <= c <= 'Z' then (c as int + 32) as char else c]
  }

  predicate SameEmail(a: string, b: string) { FoldCase(a) == FoldCase(b) }

  lemma {:induction false} FoldAt(s: string, k: nat)
    requires k < |s|
    ensures FoldCase(s)[k] == if 'A' <= s[k] <= 'Z' then (s[k] as int + 32) as char else s[k]
  {
    if k == |s| - 1 {
    } else {
      FoldAt(s[..|s| - 1], k);
    }
  }

  /** The same character, or the same letter from A to Z in either case. */
  ghost predicate SameLetter(c: char, d: char) {
    || c == d
    || ('A' <= c <= 'Z' && d as int == c as int + 32)
    || ('A' <= d <= 'Z' && c as int == d as int + 32)
  }

  /** Two emails are the same exactly when they agree character by character, up to the case of A to Z. */
  lemma SameEmailMeans(a: string, b: string)
    ensures SameEmail(a, b) <==> |a| == |b| && forall k :: 0 <= k < |a| ==> SameLetter(a[k], b[k])
  {
    forall k: nat | k < |a| && k < |b| ensures FoldCase(a)[k] == FoldCase(b)[k] <==> SameLetter(a[k], b[k]) {
      FoldAt(a, k);
      FoldAt(b, k);
    }
  }

  /** Primary key, unique email, unique `sub` (NULLs are all distinct). */
  ghost predicate Constraints(users: Users) {
    && (forall a, b :: a in users && b in users && SameEmail(users[a].email, users[b].email) ==> a == b)
    && (forall a, b :: a in users && b in users && users[a].sub.Some? && users[a].sub == users[b].sub ==> a == b)
  }

  ghost predicate HasSub(users: Users, id: UserId, sub: string) {
    id in users && users[id].sub == Some(sub)
  }

  ghost predicate HasEmail(users: Users, id: UserId, email: string) {
    id in users && SameEmail(users[id].email, email)
  }

  ghost predicate SubTaken(users: Users, sub: string) { exists id :: HasSub(users, id, sub) }

  ghost predicate EmailTaken(users: Users, email: string, except: UserId) {
    exists id :: id != except && HasEmail(users, id, email)
  }

  // ---- Logins as processes ----

  datatype Outcome = Granted(id: UserId) | Refused | ConstraintError

  /** Where a login stands between its four store operations. */
  datatype Login =
    | Starting(sub: string, email: string)
    | SubMissed(sub: string, email: string)
    | Candidate(sub: string, id: UserId)
    | Claimed(sub: string)
    | Finished(sub: string, outcome: Outcome)

  type Pid = nat

  datatype State = State(users: Users, logins: map<Pid, Login>)

  datatype Action =
    | Begin(p: Pid, sub: string, email: string)
    | Step(p: Pid, hit: UserId)
    | AdminUpdate(id: UserId, name: string, role: string, isActive: bool)
    | Write(id: UserId, email: string, name: string, role: string, isActive: bool)

  /** A read names the row it found; when no row matches, `hit` is ignored. */
  ghost predicate Enabled(s: State, a: Action) {
    match a
    case Begin(p, sub, email) => p !in s.logins
    case Step(p, hit) =>
      && p in s.logins && !s.logins[p].Finished?
      && var l := s.logins[p];
         && ((l.Starting? || l.Claimed?) && SubTaken(s.users, l.sub) ==> HasSub(s.users, hit, l.sub))
         && (l.SubMissed? && (exists id :: HasEmail(s.users, id, l.email)) ==> HasEmail(s.users, hit, l.email))
    case AdminUpdate(id, name, role, isActive) => true
    case Write(id, email, name, role, isActive) => true
  }

  ghost function Stepped(s: State, p: Pid, hit: UserId): State
    requires Enabled(s, Step(p, hit))
  {
    match s.logins[p]
    case Starting(sub, email) =>
      s.(logins := s.logins[p := if SubTaken(s.users, sub) then Finished(sub, Granted(hit)) else SubMissed(sub, email)])
    case SubMissed(sub, email) =>
      var found := HasEmail(s.users, hit, email);
      s.(logins := s.logins[p :=
           if found && s.users[hit].sub.None? then Candidate(sub, hit) else Finished(sub, Refused)])
    case Candidate(sub, id) =>
      if id in s.users && s.users[id].sub.None? then
        if SubTaken(s.users, sub) then s.(logins := s.logins[p := Finished(sub, ConstraintError)])
        else State(s.users[id := s.users[id].(sub := Some(sub))], s.logins[p := Claimed(sub)])
      else s.(logins := s.logins[p := Claimed(sub)])
    case Claimed(sub) =>
      s.(logins := s.logins[p := Finished(sub, if SubTaken(s.users, sub) then Granted(hit) else Refused)])
    case Finished(sub, outcome) => s
  }

  /** The update arm of `upsert`. */
  ghost function Updated(users: Users, id: UserId, name: string, role: string, isActive: bool): Users {
    if id in users then users[id := users[id].(name := name, role := role, isActive := isActive)] else users
  }

  /** Inserts by `upsert`, and rows written by an import: never a `sub`, and nothing at all when
      another row has the email. */
  ghost function Written(users: Users, id: UserId, email: string, name: string, role: string, isActive: bool): Users {
    if EmailTaken(users, email, id) then users
    else users[id := User(email, name, role, isActive, if id in users then users[id].sub else None)]
  }

  ghost function Next(s: State, a: Action): State
    requires Enabled(s, a)
  {
    match a
    case Begin(p, sub, email) => s.(logins := s.logins[p := Starting(sub, email)])
    case Step(p, hit) => Stepped(s, p, hit)
    case AdminUpdate(id, name, role, isActive) => s.(users := Updated(s.users, id, name, role, isActive))
    case Write(id, email, name, role, isActive) => s.(users := Written(s.users, id, email, name, role, isActive))
  }

  ghost predicate Runs(s: State, actions: seq<Action>, t: State)
    decreases |actions|
  {
    if actions == [] then s == t
    else Enabled(s, actions[0]) && Runs(Next(s, actions[0]), actions[1..], t)
  }

  // ---- Safety ----

  /** Every granted login was granted the row that carries its own `sub`. */
  ghost predicate Inv(s: State) {
    && Constraints(s.users)
    && forall p :: p in s.logins && s.logins[p].Finished? && s.logins[p].outcome.Granted? ==>
         HasSub(s.users, s.logins[p].outcome.id, s.logins[p].sub)
  }

  /** `sub` values once set stay set, on the same row. */
  ghost predicate KeepsSubs(before: Users, after: Users) {
    forall id, sub :: HasSub(before, id, sub) ==> HasSub(after, id, sub)
  }

  lemma StepKeepsInv(s: State, a: Action)
    requires Inv(s) && Enabled(s, a)
    ensures Inv(Next(s, a)) && KeepsSubs(s.users, Next(s, a).users)
  {
    hide FoldCase;
    match a
    case Begin(p, sub, email) =>
    case Step(p, hit) =>
      if s.logins[p].Candidate? {
        ClaimKeepsConstraints(s.users, s.logins[p].id, s.logins[p].sub);
      }
    case AdminUpdate(id, name, role, isActive) =>
    case Write(id, email, name, role, isActive) =>
      WriteKeepsConstraints(s.users, id, email, name, role, isActive);
  }

  lemma ClaimKeepsConstraints(users: Users, id: UserId, sub: string)
    requires Constraints(users)
    ensures id in users && users[id].sub.None? && !SubTaken(users, sub) ==>
              var after := users[id := users[id].(sub := Some(sub))];
              Constraints(after) && KeepsSubs(users, after)
  {
    hide FoldCase;
    if id in users && users[id].sub.None? && !SubTaken(users, sub) {
      var after := users[id := users[id].(sub := Some(sub))];
      forall a, b | a in after && b in after && after[a].sub.Some? && after[a].sub == after[b].sub ensures a == b {
        assert !HasSub(users, a, sub) && !HasSub(users, b, sub);
      }
    }
  }

  lemma WriteKeepsConstraints(users: Users, id: UserId, email: string, name: string, role: string, isActive: bool)
    requires Constraints(users)
    ensures Constraints(Written(users, id, email, name, role, isActive))
    ensures KeepsSubs(users, Written(users, id, email, name, role, isActive))
  {
    hide FoldCase;
    if !EmailTaken(users, email, id) {
      forall a | a in users && a != id ensures !SameEmail(users[a].email, email) {
        assert !HasEmail(users, a, email);
      }
    }
  }

  /** Under every interleaving of logins, administration and imports: a set `sub` never changes, and
      every login ever granted was granted the one row carrying its own `sub`. */
  lemma {:induction false} LoginsAreSafe(s: State, actions: seq<Action>, t: State)
    requires Inv(s) && Runs(s, actions, t)
    ensures Inv(t) && KeepsSubs(s.users, t.users)
    decreases |actions|
  {
    if actions == [] {
    } else {
      StepKeepsInv(s, actions[0]);
      hide Inv, KeepsSubs;
      LoginsAreSafe(Next(s, actions[0]), actions[1..], t);
    }
  }

  /** Two granted logins got the same row exactly when they presented the same `sub`. */
  lemma GrantsMatchSubjects(s: State, actions: seq<Action>, t: State, p: Pid, q: Pid)
    requires Constraints(s.users) && s.logins == map[] && Runs(s, actions, t)
    requires p in t.logins && t.logins[p].Finished? && t.logins[p].outcome.Granted?
    requires q in t.logins && t.logins[q].Finished? && t.logins[q].outcome.Granted?
    ensures t.logins[p].sub == t.logins[q].sub <==> t.logins[p].outcome.id == t.logins[q].outcome.id
  {
    LoginsAreSafe(s, actions, t);
    assert HasSub(t.users, t.logins[p].outcome.id, t.logins[p].sub);
    assert HasSub(t.users, t.logins[q].outcome.id, t.logins[q].sub);
  }

  // ---- When a login sees a constraint error ----

  /** Each `sub` goes with one email, `emailOf`, and the action changes no stored email. */
  ghost predicate Steady(s: State, a: Action, emailOf: string -> string) {
    match a
    case Begin(p, sub, email) => SameEmail(email, emailOf(sub))
    case Write(id, email, name, role, isActive) => id in s.users ==> SameEmail(s.users[id].email, email)
    case _ => true
  }

  ghost predicate SteadyRun(s: State, actions: seq<Action>, emailOf: string -> string)
    decreases |actions|
  {
    actions != [] ==>
      && Enabled(s, actions[0]) && Steady(s, actions[0], emailOf)
      && SteadyRun(Next(s, actions[0]), actions[1..], emailOf)
  }

  /** The row that carries `sub`, if any, has the email that goes with it. */
  ghost predicate CarrierHas(users: Users, sub: string, email: string) {
    forall id :: HasSub(users, id, sub) ==> HasEmail(users, id, email)
  }

  ghost predicate OnCourse(users: Users, l: Login, email: string) {
    match l
    case Starting(sub, presented) => SameEmail(presented, email)
    case SubMissed(sub, presented) => SameEmail(presented, email) && CarrierHas(users, sub, email)
    case Candidate(sub, id) => HasEmail(users, id, email) && CarrierHas(users, sub, email)
    case Claimed(sub) => true
    case Finished(sub, outcome) => !outcome.ConstraintError?
  }

  ghost predicate AllOnCourse(s: State, emailOf: string -> string) {
    forall p :: p in s.logins ==> OnCourse(s.users, s.logins[p], emailOf(s.logins[p].sub))
  }

  /** Rows stay, emails stay, and a row that newly carries a `sub` has the email that goes with it. */
  ghost predicate Undisturbed(before: Users, after: Users, emailOf: string -> string) {
    && (forall id, email :: HasEmail(before, id, email) ==> HasEmail(after, id, email))
    && (forall id, sub :: HasSub(after, id, sub) ==> HasSub(before, id, sub) || HasEmail(after, id, emailOf(sub)))
  }

  lemma StepLeavesUndisturbed(s: State, a: Action, emailOf: string -> string)
    requires Constraints(s.users) && AllOnCourse(s, emailOf) && Enabled(s, a) && Steady(s, a, emailOf)
    ensures Undisturbed(s.users, Next(s, a).users, emailOf)
  {
    hide FoldCase, Constraints, CarrierHas;
    if a.Step? {
      assert OnCourse(s.users, s.logins[a.p], emailOf(s.logins[a.p].sub));
    }
  }

  lemma StaysOnCourse(before: Users, after: Users, l: Login, emailOf: string -> string)
    requires OnCourse(before, l, emailOf(l.sub)) && Undisturbed(before, after, emailOf)
    ensures OnCourse(after, l, emailOf(l.sub))
  {
    hide SameEmail, HasEmail;
  }

  /** A claim meets no other row with its `sub`: that row would have the candidate's own email. */
  lemma LoginStaysOnCourse(s: State, p: Pid, hit: UserId, emailOf: string -> string)
    requires Constraints(s.users) && Enabled(s, Step(p, hit))
    requires OnCourse(s.users, s.logins[p], emailOf(s.logins[p].sub))
    requires Undisturbed(s.users, Stepped(s, p, hit).users, emailOf)
    ensures OnCourse(Stepped(s, p, hit).users, Stepped(s, p, hit).logins[p], emailOf(s.logins[p].sub))
  {
    hide FoldCase, Undisturbed;
    var l := s.logins[p];
    if l.Candidate? {
      if other :| HasSub(s.users, other, l.sub) {
        OneHolder(s.users, other, l.id, emailOf(l.sub));
      }
    }
  }

  lemma OneHolder(users: Users, a: UserId, b: UserId, email: string)
    requires Constraints(users) && HasEmail(users, a, email) && HasEmail(users, b, email)
    ensures a == b
  {
    hide FoldCase;
  }

  lemma StepStaysOnCourse(s: State, a: Action, emailOf: string -> string)
    requires Constraints(s.users) && AllOnCourse(s, emailOf) && Enabled(s, a) && Steady(s, a, emailOf)
    ensures AllOnCourse(Next(s, a), emailOf)
  {
    var t := Next(s, a);
    StepLeavesUndisturbed(s, a, emailOf);
    OnlyOneMoves(s, a);
    if a.Step? {
      LoginStaysOnCourse(s, a.p, a.hit, emailOf);
    }
    hide Next, Enabled, Steady, OnCourse, SameEmail, Constraints, Undisturbed;
    forall q | q in t.logins ensures OnCourse(t.users, t.logins[q], emailOf(t.logins[q].sub)) {
      if a.Begin? && q == a.p {
        StartsOnCourse(s, a, emailOf);
      } else if !(a.Step? && q == a.p) {
        StaysOnCourse(s.users, t.users, s.logins[q], emailOf);
      }
    }
  }

  lemma OnlyOneMoves(s: State, a: Action)
    requires Enabled(s, a)
    ensures var t := Next(s, a);
            && (forall q :: q in t.logins && !((a.Begin? || a.Step?) && q == a.p) ==>
                  q in s.logins && t.logins[q] == s.logins[q])
            && (a.Step? ==> t == Stepped(s, a.p, a.hit) && t.logins[a.p].sub == s.logins[a.p].sub)
  {
    hide SubTaken, HasEmail, HasSub;
  }

  lemma StartsOnCourse(s: State, a: Action, emailOf: string -> string)
    requires a.Begin? && Enabled(s, a) && Steady(s, a, emailOf)
    ensures a.p in Next(s, a).logins
    ensures OnCourse(Next(s, a).users, Next(s, a).logins[a.p], emailOf(Next(s, a).logins[a.p].sub))
  {
    hide SameEmail;
  }

  lemma {:induction false} SteadyRunStaysOnCourse(
    s: State, actions: seq<Action>, t: State, emailOf: string -> string)
    requires Inv(s) && AllOnCourse(s, emailOf) && Runs(s, actions, t) && SteadyRun(s, actions, emailOf)
    ensures AllOnCourse(t, emailOf)
    decreases |actions|
  {
    if actions == [] {
    } else {
      StepKeepsInv(s, actions[0]);
      StepStaysOnCourse(s, actions[0], emailOf);
      hide Inv, AllOnCourse, Next, Steady, Enabled;
      SteadyRunStaysOnCourse(Next(s, actions[0]), actions[1..], t, emailOf);
    }
  }

  /** Under every interleaving in which each `sub` comes with one email and no write changes a stored email,
      no login ends in a constraint error. */
  lemma SteadyLoginsMeetNoError(s: State, actions: seq<Action>, t: State, emailOf: string -> string, p: Pid)
    requires Constraints(s.users) && s.logins == map[]
    requires Runs(s, actions, t) && SteadyRun(s, actions, emailOf) && p in t.logins
    ensures t.logins[p] != Finished(t.logins[p].sub, ConstraintError)
  {
    hide Runs, SteadyRun, Constraints;
    SteadyRunStaysOnCourse(s, actions, t, emailOf);
  }

  /** Nobody carries `sub`, and the rows `a` and `b` have never been logged into. */
  ghost predicate BothUnclaimed(users: Users, a: UserId, b: UserId, sub: string) {
    a in users && b in users && a != b && users[a].sub.None? && users[b].sub.None? && !SubTaken(users, sub)
  }

  function Both(users: Users, l: Login, k: Login): State {
    State(users, map[0 := l, 1 := k])
  }

  /** Two first logins with one `sub` and the emails of two unclaimed rows: both pick their row, one claims it,
      and the claim of the other meets the unique index. */
  lemma TwoEmailsCanMeetTheError(users: Users, a: UserId, b: UserId, sub: string)
    requires BothUnclaimed(users, a, b, sub)
    ensures Runs(State(users, map[]),
                 [Begin(0, sub, users[a].email), Begin(1, sub, users[b].email), Step(0, a), Step(1, b),
                  Step(0, a), Step(1, b), Step(0, a), Step(1, b)],
                 Both(users[a := users[a].(sub := Some(sub))], Claimed(sub), Finished(sub, ConstraintError)))
  {
    var x, y := users[a].email, users[b].email;
    var t := Both(users[a := users[a].(sub := Some(sub))], Claimed(sub), Finished(sub, ConstraintError));
    BothStart(users, sub, x, y);
    BothMiss(users, a, b, sub, x, y);
    BothPick(users, a, b, sub);
    OneClaims(users, a, b, sub);
    hide Next, Enabled, Runs, BothUnclaimed;
    Stay(t);
    assert [Step(0, a), Step(1, b)] + [] == [Step(0, a), Step(1, b)];
    BothStep(Both(users, Candidate(sub, a), Candidate(sub, b)), Step(0, a), Step(1, b), [], t);
    BothStep(Both(users, SubMissed(sub, x), SubMissed(sub, y)), Step(0, a), Step(1, b), [Step(0, a), Step(1, b)], t);
    BothStep(Both(users, Starting(sub, x), Starting(sub, y)), Step(0, a), Step(1, b),
             [Step(0, a), Step(1, b), Step(0, a), Step(1, b)], t);
    BothStep(State(users, map[]), Begin(0, sub, x), Begin(1, sub, y),
             [Step(0, a), Step(1, b), Step(0, a), Step(1, b), Step(0, a), Step(1, b)], t);
  }

  lemma BothStart(users: Users, sub: string, x: string, y: string)
    ensures Goes(State(users, map[]), Begin(0, sub, x), Begin(1, sub, y),
                 Both(users, Starting(sub, x), Starting(sub, y)))
  {
  }

  lemma BothMiss(users: Users, a: UserId, b: UserId, sub: string, x: string, y: string)
    requires BothUnclaimed(users, a, b, sub)
    ensures Goes(Both(users, Starting(sub, x), Starting(sub, y)), Step(0, a), Step(1, b),
                 Both(users, SubMissed(sub, x), SubMissed(sub, y)))
  {
    hide HasEmail, SubTaken;
  }

  lemma BothPick(users: Users, a: UserId, b: UserId, sub: string)
    requires BothUnclaimed(users, a, b, sub)
    ensures Goes(Both(users, SubMissed(sub, users[a].email), SubMissed(sub, users[b].email)), Step(0, a), Step(1, b),
                 Both(users, Candidate(sub, a), Candidate(sub, b)))
  {
    hide FoldCase, HasSub, SubTaken;
  }

  lemma OneClaims(users: Users, a: UserId, b: UserId, sub: string)
    requires BothUnclaimed(users, a, b, sub)
    ensures Goes(Both(users, Candidate(sub, a), Candidate(sub, b)), Step(0, a), Step(1, b),
                 Both(users[a := users[a].(sub := Some(sub))], Claimed(sub), Finished(sub, ConstraintError)))
  {
    hide HasEmail;
    assert HasSub(users[a := users[a].(sub := Some(sub))], a, sub);
  }

  /** The two actions lead from one state to the other. */
  ghost predicate Goes(s: State, a: Action, b: Action, t: State) {
    Enabled(s, a) && Enabled(Next(s, a), b) && Next(Next(s, a), b) == t
  }

  lemma Stay(s: State)
    ensures Runs(s, [], s)
  {
  }

  lemma BothStep(s: State, a: Action, b: Action, rest: seq<Action>, t: State)
    requires Enabled(s, a) && Enabled(Next(s, a), b) && Runs(Next(Next(s, a), b), rest, t)
    ensures Runs(s, [a, b] + rest, t)
  {
    hide Enabled, Next;
    var all := [a, b] + rest;
    assert all[1..] == [b] + rest && all[1..][1..] == rest;
  }

  // ---- Who is refused ----

  /** A login that has looked for its `sub` and missed it, or was refused. */
  predicate MissedOrRefused(l: Login) {
    l.SubMissed? || (l.Finished? && l.outcome.Refused?)
  }

  lemma CarriedStep(s: State, a: Action, p: Pid)
    requires Enabled(s, a) && KeepsSubs(s.users, Next(s, a).users) && p in s.logins
    requires SubTaken(s.users, s.logins[p].sub) && !MissedOrRefused(s.logins[p])
    ensures var t := Next(s, a);
            && p in t.logins && t.logins[p].sub == s.logins[p].sub && !MissedOrRefused(t.logins[p])
            && SubTaken(t.users, s.logins[p].sub)
  {
    OnlyOneMoves(s, a);
    var id :| HasSub(s.users, id, s.logins[p].sub);
    hide HasSub, HasEmail, Written, Updated;
    assert HasSub(Next(s, a).users, id, s.logins[p].sub);
  }

  /** A login whose `sub` a row carries is not refused, whatever the other logins do, unless it has missed that row
      already. */
  lemma {:induction false} CarriedIsNotRefused(s: State, actions: seq<Action>, t: State, p: Pid)
    requires Inv(s) && Runs(s, actions, t) && p in s.logins
    requires SubTaken(s.users, s.logins[p].sub) && !MissedOrRefused(s.logins[p])
    ensures p in t.logins && t.logins[p].sub == s.logins[p].sub && !MissedOrRefused(t.logins[p])
    decreases |actions|
  {
    if actions == [] {
    } else {
      RunsOn(s, actions, t);
      StepKeepsInv(s, actions[0]);
      CarriedStep(s, actions[0], p);
      hide Inv, Next, Runs, Enabled, SubTaken;
      CarriedIsNotRefused(Next(s, actions[0]), actions[1..], t, p);
    }
  }

  lemma RunsOn(s: State, actions: seq<Action>, t: State)
    requires actions != [] && Runs(s, actions, t)
    ensures Enabled(s, actions[0]) && Runs(Next(s, actions[0]), actions[1..], t)
  {
    hide Next;
  }

  /** The row with this email has never been logged into. */
  ghost predicate Claimable(users: Users, email: string) {
    exists id :: ClaimableRow(users, id, email)
  }

  ghost predicate ClaimableRow(users: Users, id: UserId, email: string) {
    HasEmail(users, id, email) && users[id].sub.None?
  }

  /** Row `id`, which nobody claimed, now carries `sub`, which nobody carried. */
  ghost predicate ClaimedBy(before: Users, id: UserId, sub: string, email: string, after: Users) {
    && !SubTaken(before, sub) && ClaimableRow(before, id, email)
    && after == before[id := before[id].(sub := Some(sub))]
  }

  /** How far a login has come since the table was `before`, when no one else acts. */
  ghost predicate AloneAt(before: Users, sub: string, email: string, l: Login, users: Users) {
    match l
    case Starting(x, presented) => x == sub && presented == email && users == before
    case SubMissed(x, presented) => x == sub && presented == email && users == before && !SubTaken(before, sub)
    case Candidate(x, id) => x == sub && users == before && !SubTaken(before, sub) && ClaimableRow(before, id, email)
    case Claimed(x) => x == sub && exists id :: ClaimedBy(before, id, sub, email, users)
    case Finished(x, outcome) => x == sub && Resolution(before, sub, email, outcome, users)
  }

  /** The carrier of `sub` is granted, else the unclaimed row with the email, which then carries it. */
  ghost predicate Resolution(before: Users, sub: string, email: string, outcome: Outcome, after: Users) {
    match outcome
    case Granted(id) => (HasSub(before, id, sub) && after == before) || ClaimedBy(before, id, sub, email, after)
    case Refused => !SubTaken(before, sub) && !Claimable(before, email) && after == before
    case ConstraintError => false
  }

  lemma StepAlone(before: Users, sub: string, email: string, s: State, p: Pid, hit: UserId)
    requires Constraints(before) && Enabled(s, Step(p, hit)) && AloneAt(before, sub, email, s.logins[p], s.users)
    ensures var t := Stepped(s, p, hit);
            AloneAt(before, sub, email, t.logins[p], t.users)
  {
    hide SameEmail;
    match s.logins[p]
    case Starting(_, _) =>
    case SubMissed(_, _) =>
      if Claimable(before, email) {
        var id :| ClaimableRow(before, id, email);
        OneHolder(before, id, hit, email);
      }
    case Candidate(_, id) =>
      assert ClaimedBy(before, id, sub, email, Stepped(s, p, hit).users);
    case Claimed(_) =>
      var id :| ClaimedBy(before, id, sub, email, s.users);
      assert HasSub(s.users, id, sub) && !HasSub(before, hit, sub);
  }

  /** A login that nothing interferes with is resolved as `resolve_by_identity` resolves it. */
  lemma {:induction false} AloneIsResolved(before: Users, sub: string, email: string, s: State, p: Pid,
                                           actions: seq<Action>, t: State)
    requires Constraints(before) && p in s.logins && AloneAt(before, sub, email, s.logins[p], s.users)
    requires Runs(s, actions, t) && forall a :: a in actions ==> a.Step? && a.p == p
    ensures p in t.logins && AloneAt(before, sub, email, t.logins[p], t.users)
    decreases |actions|
  {
    if actions == [] {
    } else {
      RunsOn(s, actions, t);
      assert actions[0] in actions;
      StepAlone(before, sub, email, s, p, actions[0].hit);
      hide Runs, Enabled, AloneAt, Constraints;
      AloneIsResolved(before, sub, email, Next(s, actions[0]), p, actions[1..], t);
    }
  }

  // ---- The store when nothing interferes ----

  class UserStore {
    var users: Users

    constructor ()
      ensures users == map[]
    {
      users := map[];
    }

    method GetBySub(sub: string) returns (found: Option<UserId>)
      ensures found.Some? ==> HasSub(users, found.value, sub)
      ensures found.None? ==> !SubTaken(users, sub)
    {
      found := None;
      var rest := users.Keys;
      while rest != {}
        invariant rest <= users.Keys
        invariant forall id :: HasSub(users, id, sub) ==> id in rest
      {
        var id :| id in rest;
        if users[id].sub == Some(sub) {
          return Some(id);
        }
        rest := rest - {id};
      }
    }

    method GetByEmail(email: string) returns (found: Option<UserId>)
      ensures found.Some? ==> HasEmail(users, found.value, email)
      ensures found.None? ==> forall id :: !HasEmail(users, id, email)
    {
      found := None;
      var rest := users.Keys;
      while rest != {}
        invariant rest <= users.Keys
        invariant forall id :: HasEmail(users, id, email) ==> id in rest
      {
        var id :| id in rest;
        if SameEmail(users[id].email, email) {
          return Some(id);
        }
        rest := rest - {id};
      }
    }

    /** `resolve_by_identity`: by `sub`, else claim the unclaimed row with this email. */
    method ResolveByIdentity(sub: string, email: string) returns (found: Option<UserId>)
      requires Constraints(users)
      modifies this
      ensures Constraints(users) && KeepsSubs(old(users), users)
      ensures Resolution(old(users), sub, email, if found.Some? then Granted(found.value) else Refused, users)
      ensures found.Some? ==> HasSub(users, found.value, sub)
      ensures found.None? ==> users == old(users)
      ensures found.Some? <==> (SubTaken(old(users), sub) || Claimable(old(users), email))
      ensures found.Some? && !SubTaken(old(users), sub) ==>
                && HasEmail(old(users), found.value, email)
                && users == old(users)[found.value := old(users)[found.value].(sub := Some(sub))]
      ensures SubTaken(old(users), sub) ==> users == old(users)
    {
      found := GetBySub(sub);
      if found.Some? {
        return;
      }
      var candidate := GetByEmail(email);
      if candidate.None? || users[candidate.value].sub.Some? {
        return None;
      }
      ClaimKeepsConstraints(users, candidate.value, sub);
      users := users[candidate.value := users[candidate.value].(sub := Some(sub))];
      assert HasSub(users, candidate.value, sub);
      found := GetBySub(sub);
    }

    /** `upsert`, with `id` the identifier a new row would get. */
    method Upsert(id: UserId, email: string, name: string, role: string, isActive: bool) returns (written: UserId)
      requires Constraints(users) && id !in users
      modifies this
      ensures Constraints(users) && KeepsSubs(old(users), users)
      ensures HasEmail(users, written, email)
      ensures (exists u :: HasEmail(old(users), u, email)) ==>
                && written in old(users)
                && users == Updated(old(users), written, name, role, isActive)
                && users == old(users)[written := User(old(users)[written].email, name, role, isActive,
                                                       old(users)[written].sub)]
                && State(users, map[]) == Next(State(old(users), map[]), AdminUpdate(written, name, role, isActive))
      ensures (forall u :: !HasEmail(old(users), u, email)) ==>
                && written == id && users == old(users)[id := User(email, name, role, isActive, None)]
                && users == Written(old(users), id, email, name, role, isActive)
                && State(users, map[]) == Next(State(old(users), map[]), Write(id, email, name, role, isActive))
    {
      var existing := GetByEmail(email);
      if existing.Some? {
        var u := existing.value;
        users := users[u := users[u].(name := name, role := role, isActive := isActive)];
        written := u;
      } else {
        assert !EmailTaken(users, email, id);
        WriteKeepsConstraints(users, id, email, name, role, isActive);
        users := users[id := User(email, name, role, isActive, None)];
        written := id;
      }
    }
  }
}
