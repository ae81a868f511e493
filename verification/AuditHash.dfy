/** Canonical encoding of an audit row and the row hash built on it. */
module AuditHash {
  import opened Wrappers

  /** The eleven hashed columns of an `audit_logs` row. */
  datatype Fields = Fields(
    id: string, actionTime: string, actorId: string, actorEmail: Option<string>,
    resourceType: string, resourceId: Option<string>, actionType: string,
    previousValue: Option<string>, newValue: Option<string>,
    result: string, ipAddress: Option<string>)

  const SEPARATOR: char := '\U{1F}'
  const FORMAT_VERSION: string := "v1"
  const GENESIS: string := Zeros(64)

  function Zeros(n: nat): string {
    if n == 0 then "" else "0" + Zeros(n - 1)
  }

  /** NULL is encoded as the empty string. */
  function Text(o: Option<string>): string {
    if o.Some? then o.value else ""
  }

  function Parts(f: Fields): seq<string> {
    [f.id, f.actionTime, f.actorId, Text(f.actorEmail), f.resourceType, Text(f.resourceId),
     f.actionType, Text(f.previousValue), Text(f.newValue), f.result, Text(f.ipAddress)]
  }

  /** Every part preceded by the separator. */
  function Join(parts: seq<string>): string {
    if parts == [] then [] else [SEPARATOR] + parts[0] + Join(parts[1..])
  }

  function CanonicalRow(f: Fields): string {
    FORMAT_VERSION + Join(Parts(f))
  }

  function RowHash(sha: string -> string, prev: string, f: Fields): string {
    sha(prev + CanonicalRow(f))
  }

  /** What the chain needs of the digest: no collisions, and outputs that are
      never the genesis value and never contain the separator (they are hex). */
  ghost predicate CollisionFree(sha: string -> string) {
    && (forall a, b :: sha(a) == sha(b) ==> a == b)
    && (forall a :: sha(a) != GENESIS && SEPARATOR !in sha(a))
  }

  ghost predicate SeparatorFree(parts: seq<string>) {
    forall i :: 0 <= i < |parts| ==> SEPARATOR !in parts[i]
  }

  /** A separator-free prefix can be read back unambiguously. */
  lemma PrefixRecovered(a: string, x: string, b: string, y: string)
    requires SEPARATOR !in a && SEPARATOR !in b
    requires a + [SEPARATOR] + x == b + [SEPARATOR] + y
    ensures a == b && x == y
  {
    var s, t := a + [SEPARATOR] + x, b + [SEPARATOR] + y;
    assert s[|a|] == SEPARATOR && t[|b|] == SEPARATOR;
    assert forall k :: 0 <= k < |a| ==> s[k] == a[k] != SEPARATOR;
    assert forall k :: 0 <= k < |b| ==> t[k] == b[k] != SEPARATOR;
    assert |a| == |b|;
    assert a == s[..|a|] && b == t[..|b|];
    assert x == s[|a| + 1..] && y == t[|b| + 1..];
  }

  lemma {:induction false} JoinInjective(p: seq<string>, q: seq<string>)
    requires |p| == |q| && SeparatorFree(p) && SeparatorFree(q)
    requires Join(p) == Join(q)
    ensures p == q
  {
    if |p| == 0 {
    } else if |p| == 1 {
      assert Join(p)[1..] == p[0] && Join(q)[1..] == q[0];
    } else {
      var (x, y) := (Join(p[1..])[1..], Join(q[1..])[1..]);
      assert Join(p[1..]) == [SEPARATOR] + x && Join(q[1..]) == [SEPARATOR] + y;
      assert Join(p)[1..] == p[0] + [SEPARATOR] + x;
      assert Join(q)[1..] == q[0] + [SEPARATOR] + y;
      PrefixRecovered(p[0], x, q[0], y);
      JoinInjective(p[1..], q[1..]);
      assert p == [p[0]] + p[1..] && q == [q[0]] + q[1..];
    }
  }

  /** The encoding starts with the version tag and the row id. */
  lemma CanonicalHead(f: Fields) returns (rest: string)
    ensures CanonicalRow(f) == FORMAT_VERSION + [SEPARATOR] + (f.id + [SEPARATOR] + rest)
  {
    var tail := Join(Parts(f)[1..]);
    assert Join(Parts(f)) == [SEPARATOR] + f.id + tail;
    assert Parts(f)[1..] != [];
    rest := tail[1..];
    assert tail == [SEPARATOR] + rest;
  }

  /** A row hash pins the previous hash and the row id, whatever the other columns contain. */
  lemma RowHashPinsPrevAndId(sha: string -> string, p: string, f: Fields, q: string, g: Fields)
    requires CollisionFree(sha)
    requires SEPARATOR !in p && SEPARATOR !in q && SEPARATOR !in f.id && SEPARATOR !in g.id
    requires RowHash(sha, p, f) == RowHash(sha, q, g)
    ensures p == q && f.id == g.id
  {
    hide CanonicalRow, Join, Parts;
    var x := CanonicalHead(f);
    var y := CanonicalHead(g);
    var x', y' := f.id + [SEPARATOR] + x, g.id + [SEPARATOR] + y;
    assert p + CanonicalRow(f) == (p + FORMAT_VERSION) + [SEPARATOR] + x';
    assert q + CanonicalRow(g) == (q + FORMAT_VERSION) + [SEPARATOR] + y';
    PrefixRecovered(p + FORMAT_VERSION, x', q + FORMAT_VERSION, y');
    assert p == (p + FORMAT_VERSION)[..|p|] && q == (q + FORMAT_VERSION)[..|q|];
    PrefixRecovered(f.id, x, g.id, y);
  }

  // ---- When the encoding identifies the row ----

  ghost function Separators(s: string): nat {
    multiset(s)[SEPARATOR]
  }

  /** One separator in front of each part, and those inside the parts. */
  lemma {:induction false} JoinSeparators(p: seq<string>)
    ensures Separators(Join(p)) >= |p|
    ensures Separators(Join(p)) == |p| <==> SeparatorFree(p)
  {
    if p == [] {
    } else {
      JoinSeparators(p[1..]);
      assert SeparatorFree(p) <==> SEPARATOR !in p[0] && SeparatorFree(p[1..]) by {
        assert forall i :: 0 < i < |p| ==> p[i] == p[1..][i - 1];
      }
    }
  }

  /** A row whose columns hold no separator shares its encoding with no other row, whatever that row's
      columns hold, up to NULL versus empty text. */
  lemma CanonicalRowFaithful(f: Fields, g: Fields)
    requires SeparatorFree(Parts(f))
    ensures CanonicalRow(f) == CanonicalRow(g) <==> Parts(f) == Parts(g)
  {
    if CanonicalRow(f) == CanonicalRow(g) {
      var p, q := Parts(f), Parts(g);
      assert |p| == |q|;
      assert CanonicalRow(f)[2..] == Join(p) && CanonicalRow(g)[2..] == Join(q);
      hide Join, Parts;
      JoinSeparators(p);
      JoinSeparators(q);
      JoinInjective(p, q);
    }
  }

  lemma {:induction false} JoinAppend(p: seq<string>, q: seq<string>)
    ensures Join(p + q) == Join(p) + Join(q)
  {
    if p == [] {
      assert p + q == q;
    } else {
      assert (p + q)[1..] == p[1..] + q;
      JoinAppend(p[1..], q);
    }
  }

  /** `p` with the columns `i` and `i + 1` replaced. */
  function Recut(p: seq<string>, i: nat, x: string, y: string): (q: seq<string>)
    requires i + 1 < |p|
    ensures |q| == |p|
  {
    p[..i] + ([x, y] + p[i + 2..])
  }

  lemma RecutIsInvisible(p: seq<string>, i: nat, x: string, y: string)
    requires i + 1 < |p| && Join([x, y]) == Join([p[i], p[i + 1]])
    ensures Join(Recut(p, i, x, y)) == Join(p)
  {
    hide Join;
    assert p[..i] + ([p[i], p[i + 1]] + p[i + 2..]) == p;
    SameMiddle(p[..i], [x, y], [p[i], p[i + 1]], p[i + 2..]);
  }

  /** A separator inside one of two columns and the separator between them look the same. */
  lemma PairsLookAlike(a: string, b: string, c: string)
    ensures Join([a, b + [SEPARATOR] + c]) == Join([a + [SEPARATOR] + b, c])
  {
    JoinPair(a, b + [SEPARATOR] + c);
    JoinPair(a + [SEPARATOR] + b, c);
    hide Join;
    assert [SEPARATOR] + a + [SEPARATOR] + (b + [SEPARATOR] + c)
        == [SEPARATOR] + (a + [SEPARATOR] + b) + [SEPARATOR] + c;
  }

  lemma SameMiddle(pre: seq<string>, m: seq<string>, n: seq<string>, post: seq<string>)
    requires Join(m) == Join(n)
    ensures Join(pre + (m + post)) == Join(pre + (n + post))
  {
    hide Join;
    JoinMiddle(pre, m, post);
    JoinMiddle(pre, n, post);
  }

  /** The separator in column `i` moves to a neighbour: to the next column, or from the last to the one before. */
  lemma SeparatorShifts(p: seq<string>, i: nat) returns (q: seq<string>)
    requires |p| > 1 && i < |p| && SEPARATOR in p[i]
    ensures |q| == |p| && q != p && Join(q) == Join(p)
  {
    var k :| 0 <= k < |p[i]| && p[i][k] == SEPARATOR;
    var a, b := p[i][..k], p[i][k + 1..];
    assert p[i] == a + [SEPARATOR] + b;
    hide Join;
    if i + 1 < |p| {
      PairsLookAlike(a, b, p[i + 1]);
      q := Recut(p, i, a, b + [SEPARATOR] + p[i + 1]);
      RecutIsInvisible(p, i, a, b + [SEPARATOR] + p[i + 1]);
      assert |q[i]| != |p[i]|;
    } else {
      PairsLookAlike(p[i - 1], a, b);
      q := Recut(p, i - 1, p[i - 1] + [SEPARATOR] + a, b);
      RecutIsInvisible(p, i - 1, p[i - 1] + [SEPARATOR] + a, b);
      assert |q[i - 1]| != |p[i - 1]|;
    }
  }

  /** Some row with the given column texts. */
  function FromParts(p: seq<string>): (f: Fields)
    requires |p| == 11
    ensures Parts(f) == p
  {
    Fields(p[0], p[1], p[2], Some(p[3]), p[4], Some(p[5]), p[6], Some(p[7]), Some(p[8]), p[9], Some(p[10]))
  }

  /** A separator in any column makes the encoding ambiguous: it is not escaped. */
  lemma SeparatorInAColumnIsAmbiguous(f: Fields) returns (g: Fields)
    requires !SeparatorFree(Parts(f))
    ensures CanonicalRow(g) == CanonicalRow(f) && Parts(g) != Parts(f)
  {
    var i :| 0 <= i < |Parts(f)| && SEPARATOR in Parts(f)[i];
    var p := Parts(f);
    assert |p| == 11;
    hide Parts;
    var q := SeparatorShifts(p, i);
    g := FromParts(q);
  }

  /** The encoding tells a row from every other row exactly when no column of it holds the separator. */
  lemma EncodingIdentifiesExactly(f: Fields)
    ensures (forall g :: CanonicalRow(g) == CanonicalRow(f) ==> Parts(g) == Parts(f)) <==> SeparatorFree(Parts(f))
  {
    hide Parts, CanonicalRow;
    if SeparatorFree(Parts(f)) {
      forall g | CanonicalRow(g) == CanonicalRow(f) ensures Parts(g) == Parts(f) {
        CanonicalRowFaithful(f, g);
      }
    } else {
      var g := SeparatorInAColumnIsAmbiguous(f);
    }
  }

  lemma JoinMiddle(pre: seq<string>, mid: seq<string>, post: seq<string>)
    ensures Join(pre + (mid + post)) == Join(pre) + (Join(mid) + Join(post))
  {
    JoinAppend(pre, mid + post);
    JoinAppend(mid, post);
  }

  lemma JoinPair(a: string, b: string)
    ensures Join([a, b]) == [SEPARATOR] + a + [SEPARATOR] + b
  {
    assert Join([b]) == [SEPARATOR] + b by { assert [b][1..] == []; }
    assert [a, b][1..] == [b];
    assert [SEPARATOR] + a + [SEPARATOR] + b == [SEPARATOR] + a + ([SEPARATOR] + b);
  }

  // ---- Reading the encoding back ----

  /** The parts of a text between the occurrences of `c`. */
  function Split(s: string, c: char): (parts: seq<string>)
    ensures |parts| > 0
  {
    if s == "" then [""]
    else
      var rest := Split(s[1..], c);
      if s[0] == c then [""] + rest else [[s[0]] + rest[0]] + rest[1..]
  }

  lemma {:induction false} SplitFirst(a: string, rest: string, c: char)
    requires c !in a
    ensures Split(a + [c] + rest, c) == [a] + Split(rest, c)
    ensures Split(a, c) == [a]
  {
    if a == "" {
      assert (a + [c] + rest)[1..] == rest;
    } else {
      SplitFirst(a[1..], rest, c);
      assert (a + [c] + rest)[1..] == a[1..] + [c] + rest;
      assert a == [a[0]] + a[1..];
    }
  }

  lemma {:induction false} SplitJoin(head: string, parts: seq<string>)
    requires SEPARATOR !in head && SeparatorFree(parts)
    ensures Split(head + Join(parts), SEPARATOR) == [head] + parts
    decreases |parts|
  {
    if parts == [] {
      assert head + Join(parts) == head;
      SplitFirst(head, "", SEPARATOR);
    } else {
      SplitJoin(parts[0], parts[1..]);
      assert head + Join(parts) == head + [SEPARATOR] + (parts[0] + Join(parts[1..]));
      SplitFirst(head, parts[0] + Join(parts[1..]), SEPARATOR);
    }
  }

  /** Cut at the unit separators, the encoding of a row without separators is the version tag and the eleven
      columns in the schema's order, NULL as the empty text. */
  lemma ColumnsReadBack(f: Fields)
    requires SeparatorFree(Parts(f))
    ensures Split(CanonicalRow(f), '\U{1F}')
         == ["v1", f.id, f.actionTime, f.actorId, if f.actorEmail.Some? then f.actorEmail.value else "",
             f.resourceType, if f.resourceId.Some? then f.resourceId.value else "", f.actionType,
             if f.previousValue.Some? then f.previousValue.value else "",
             if f.newValue.Some? then f.newValue.value else "", f.result,
             if f.ipAddress.Some? then f.ipAddress.value else ""]
  {
    hide Split, Join;
    SplitJoin(FORMAT_VERSION, Parts(f));
  }

  lemma {:induction false} ZerosAreZeros(n: nat)
    ensures |Zeros(n)| == n && forall k :: 0 <= k < n ==> Zeros(n)[k] == '0'
  {
    if n == 0 {
    } else {
      ZerosAreZeros(n - 1);
    }
  }
}
