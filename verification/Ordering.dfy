/** Lexicographic string order and the stable sort the Rust code gets from `sort_by`. */
module Ordering {

  /** Strict order on strings, character by character (code point order is UTF-8 byte order). */
  predicate StringLess(a: string, b: string) {
    if b == [] then false
    else if a == [] then true
    else a[0] < b[0] || (a[0] == b[0] && StringLess(a[1..], b[1..]))
  }

  lemma {:induction false} StringLessTotal(a: string, b: string)
    ensures StringLess(a, b) || StringLess(b, a) || a == b
    ensures !(StringLess(a, b) && StringLess(b, a))
    ensures !StringLess(a, a)
  {
    if a == [] {
    } else {
      StringLessTotal(a[1..], a[1..]);
      if b != [] {
        StringLessTotal(a[1..], b[1..]);
        assert a == [a[0]] + a[1..] && b == [b[0]] + b[1..];
      }
    }
  }

  lemma {:induction false} StringLessTransitive(a: string, b: string, c: string)
    requires StringLess(a, b) && StringLess(b, c)
    ensures StringLess(a, c)
  {
    if a == [] || a[0] != b[0] || b[0] != c[0] {
    } else {
      StringLessTransitive(a[1..], b[1..], c[1..]);
    }
  }

  /** The strings agree up to place `k`, where the first one ends or has the lesser character. */
  ghost predicate LessFrom(a: string, b: string, k: nat) {
    && k <= |a| && k < |b| && (forall j :: 0 <= j < k ==> a[j] == b[j])
    && (k < |a| ==> a[k] < b[k])
  }

  /** One string is below another exactly when it is a proper prefix or has the lesser character at the first place
      where they differ. */
  lemma {:induction false} StringLessMeans(a: string, b: string)
    ensures StringLess(a, b) <==> exists k: nat :: LessFrom(a, b, k)
  {
    if a == [] || b == [] || a[0] != b[0] {
      assert a != [] && b != [] ==> forall k: nat :: k > 0 ==> !LessFrom(a, b, k);
      assert StringLess(a, b) ==> LessFrom(a, b, 0);
    } else {
      StringLessMeans(a[1..], b[1..]);
      assert !LessFrom(a, b, 0);
      if k: nat :| LessFrom(a, b, k) {
        assert LessFrom(a[1..], b[1..], k - 1);
      }
      if k: nat :| LessFrom(a[1..], b[1..], k) {
        assert LessFrom(a, b, k + 1);
      }
    }
  }

  /** Strict order on pairs of strings. */
  predicate PairLess(a: (string, string), b: (string, string)) {
    StringLess(a.0, b.0) || (a.0 == b.0 && StringLess(a.1, b.1))
  }

  lemma PairLessTotal(a: (string, string), b: (string, string))
    ensures PairLess(a, b) || PairLess(b, a) || a == b
    ensures !(PairLess(a, b) && PairLess(b, a))
  {
    StringLessTotal(a.0, b.0);
    StringLessTotal(a.1, b.1);
  }

  lemma PairLessTransitive(a: (string, string), b: (string, string), c: (string, string))
    ensures PairLess(a, b) && PairLess(b, c) ==> PairLess(a, c)
  {
    if StringLess(a.0, b.0) && StringLess(b.0, c.0) { StringLessTransitive(a.0, b.0, c.0); }
    if StringLess(a.1, b.1) && StringLess(b.1, c.1) { StringLessTransitive(a.1, b.1, c.1); }
  }

  /** Put `x` in front of the first element it is strictly below. */
  function Insert<T>(s: seq<T>, x: T, less: (T, T) -> bool): seq<T> {
    if s == [] then [x]
    else if less(x, s[0]) then [x] + s
    else [s[0]] + Insert(s[1..], x, less)
  }

  /** Stable insertion sort, taking the elements from left to right. */
  function Sort<T>(s: seq<T>, less: (T, T) -> bool): seq<T> {
    if s == [] then [] else Insert(Sort(s[..|s| - 1], less), s[|s| - 1], less)
  }

  lemma {:induction false} InsertPermutes<T>(s: seq<T>, x: T, less: (T, T) -> bool)
    ensures multiset(Insert(s, x, less)) == multiset(s) + multiset{x}
  {
    if s == [] || less(x, s[0]) {
    } else {
      InsertPermutes(s[1..], x, less);
      assert s == [s[0]] + s[1..];
    }
  }

  lemma {:induction false} SortPermutes<T>(s: seq<T>, less: (T, T) -> bool)
    ensures multiset(Sort(s, less)) == multiset(s)
    ensures |Sort(s, less)| == |s|
    ensures forall x :: x in Sort(s, less) <==> x in s
  {
    if s == [] {
    } else {
      SortPermutes(s[..|s| - 1], less);
      InsertPermutes(Sort(s[..|s| - 1], less), s[|s| - 1], less);
      assert s == s[..|s| - 1] + [s[|s| - 1]];
    }
    var t := Sort(s, less);
    assert |t| == |multiset(t)| == |multiset(s)| == |s|;
    assert forall x :: (x in t <==> x in multiset(t)) && (x in s <==> x in multiset(s));
  }

  ghost predicate StrictWeakOrder<T(!new)>(less: (T, T) -> bool) {
    && (forall a, b :: less(a, b) ==> !less(b, a))
    && (forall a, b, c :: !less(b, a) && !less(c, b) ==> !less(c, a))
  }

  ghost predicate Sorted<T>(s: seq<T>, less: (T, T) -> bool) {
    forall i, j :: 0 <= i < j < |s| ==> !less(s[j], s[i])
  }

  lemma {:induction false} InsertSorted<T(!new)>(s: seq<T>, x: T, less: (T, T) -> bool)
    requires StrictWeakOrder(less) && Sorted(s, less)
    ensures Sorted(Insert(s, x, less), less)
  {
    if s == [] || less(x, s[0]) {
    } else {
      InsertSorted(s[1..], x, less);
      InsertPermutes(s[1..], x, less);
      var t := Insert(s[1..], x, less);
      forall y | y in t ensures !less(y, s[0]) {
        assert y in multiset(t);
        assert y in multiset(s[1..]) || y == x;
      }
    }
  }

  /** The sort really sorts; with `Sort`'s own contract it is a sorted permutation. */
  lemma {:induction false} SortSorted<T(!new)>(s: seq<T>, less: (T, T) -> bool)
    requires StrictWeakOrder(less)
    ensures Sorted(Sort(s, less), less)
  {
    if s == [] {
    } else {
      SortSorted(s[..|s| - 1], less);
      InsertSorted(Sort(s[..|s| - 1], less), s[|s| - 1], less);
    }
  }

  /** Keep the elements satisfying `p`, in order. */
  function Filter<T>(s: seq<T>, p: T -> bool): (r: seq<T>)
    ensures forall x | x in r :: x in s && p(x)
    ensures forall x | x in s :: p(x) ==> x in r
  {
    if s == [] then []
    else Filter(s[..|s| - 1], p) + if p(s[|s| - 1]) then [s[|s| - 1]] else []
  }

  /** Which elements survive a filter, and how often, does not depend on their order. */
  lemma {:induction false} FilterMultiset<T>(s: seq<T>, p: T -> bool, x: T)
    ensures multiset(Filter(s, p))[x] == if p(x) then multiset(s)[x] else 0
  {
    if s == [] {
    } else {
      FilterMultiset(s[..|s| - 1], p, x);
      assert s == s[..|s| - 1] + [s[|s| - 1]];
    }
  }

  lemma FilterPermutation<T>(s: seq<T>, t: seq<T>, p: T -> bool)
    requires multiset(s) == multiset(t)
    ensures multiset(Filter(s, p)) == multiset(Filter(t, p))
    ensures |Filter(s, p)| == |Filter(t, p)|
  {
    var a, b := multiset(Filter(s, p)), multiset(Filter(t, p));
    forall x | x in a + b ensures a[x] == b[x] {
      FilterMultiset(s, p, x);
      FilterMultiset(t, p, x);
    }
    assert forall x :: a[x] == b[x];
    assert a == b;
    assert |a| == |b|;
  }

  function Map<T, U>(s: seq<T>, f: T -> U): (r: seq<U>)
    ensures |r| == |s|
    ensures forall i :: 0 <= i < |s| ==> r[i] == f(s[i])
  {
    if s == [] then [] else Map(s[..|s| - 1], f) + [f(s[|s| - 1])]
  }

  function Hits<T, U(==)>(f: T -> U, y: U): T -> bool {
    x => f(x) == y
  }

  lemma {:induction false} MapCount<T, U>(s: seq<T>, f: T -> U, y: U)
    ensures multiset(Map(s, f))[y] == |Filter(s, Hits(f, y))|
  {
    if s == [] {
    } else {
      MapCount(s[..|s| - 1], f, y);
    }
  }

  lemma MapPermutation<T, U>(s: seq<T>, t: seq<T>, f: T -> U)
    requires multiset(s) == multiset(t)
    ensures multiset(Map(s, f)) == multiset(Map(t, f))
  {
    var a, b := multiset(Map(s, f)), multiset(Map(t, f));
    forall y | y in a + b ensures a[y] == b[y] {
      MapCount(s, f, y);
      MapCount(t, f, y);
      FilterPermutation(s, t, Hits(f, y));
    }
    assert forall y :: a[y] == b[y];
  }

  lemma FilterEmpty<T>(p: T -> bool)
    ensures Filter([], p) == []
  {
  }

  lemma FilterSnoc<T>(s: seq<T>, x: T, p: T -> bool)
    ensures Filter(s + [x], p) == Filter(s, p) + if p(x) then [x] else []
  {
    assert (s + [x])[..|s|] == s;
  }

  lemma MapSnoc<T, U>(s: seq<T>, x: T, f: T -> U)
    ensures Map(s + [x], f) == Map(s, f) + [f(x)]
  {
    assert (s + [x])[..|s|] == s;
  }

  ghost predicate NoRepeats<T>(s: seq<T>) {
    forall i, j :: 0 <= i < j < |s| ==> s[i] != s[j]
  }

  ghost function Elements<T>(s: seq<T>): set<T> {
    set x | x in s
  }

  /** A sequence has as many elements as positions exactly when none repeats. */
  lemma {:induction false} ElementsCount<T>(s: seq<T>)
    ensures |Elements(s)| <= |s|
    ensures |Elements(s)| == |s| <==> NoRepeats(s)
  {
    if s == [] {
    } else {
      var n := |s| - 1;
      ElementsCount(s[..n]);
      assert forall i :: 0 <= i < n ==> s[..n][i] == s[i];
      assert Elements(s) == Elements(s[..n]) + {s[n]};
      if s[n] in s[..n] {
        var i :| 0 <= i < n && s[..n][i] == s[n];
        assert s[i] == s[n];
        assert Elements(s) == Elements(s[..n]);
      } else {
        assert NoRepeats(s[..n]) ==> NoRepeats(s);
        assert NoRepeats(s) ==> NoRepeats(s[..n]);
      }
    }
  }

  lemma {:induction false} AtMostOnce<T>(s: seq<T>, x: T)
    requires NoRepeats(s)
    ensures multiset(s)[x] <= 1
  {
    if s == [] {
    } else {
      var n := |s| - 1;
      AtMostOnce(s[..n], x);
      assert s == s[..n] + [s[n]];
    }
  }

  lemma RepeatCounts<T>(s: seq<T>, i: nat, j: nat)
    requires i < j < |s| && s[i] == s[j]
    ensures multiset(s)[s[i]] >= 2
  {
    assert s == s[..j] + [s[j]] + s[j + 1..];
    assert s[i] in s[..j];
  }

  lemma PermutedNoRepeats<T>(s: seq<T>, t: seq<T>)
    requires NoRepeats(s) && multiset(s) == multiset(t)
    ensures NoRepeats(t)
  {
    forall i, j | 0 <= i < j < |t| ensures t[i] != t[j] {
      if t[i] == t[j] {
        RepeatCounts(t, i, j);
        AtMostOnce(s, t[i]);
      }
    }
  }
}
