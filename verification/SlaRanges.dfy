/** Half-open ranges of seconds: merging, subtracting and measuring them. */
module SlaRanges {
  import opened Wrappers
  import opened Ordering

  datatype Range = Range(start: int, end: int) {
    function Len(): int { if end - start > 0 then end - start else 0 }

    function Intersect(other: Range): (r: Option<Range>)
      ensures forall x :: In(x) && other.In(x) <==> r.Some? && r.value.In(x)
      ensures r.Some? ==> r.value.start < r.value.end
    {
      var s := if start > other.start then start else other.start;
      var e := if end < other.end then end else other.end;
      if s < e then Some(Range(s, e)) else None
    }

    predicate In(x: int) { start <= x < end }
  }

  predicate Covers(rs: seq<Range>, x: int) {
    exists i :: 0 <= i < |rs| && rs[i].In(x)
  }

  ghost predicate NonEmpty(rs: seq<Range>) {
    forall i :: 0 <= i < |rs| ==> rs[i].start < rs[i].end
  }

  /** Ascending, non-empty, and with a gap between neighbours. */
  ghost predicate Separated(rs: seq<Range>) {
    NonEmpty(rs) && forall i, j :: 0 <= i < j < |rs| ==> rs[i].end < rs[j].start
  }

  predicate StartsEarlier(a: Range, b: Range) { a.start < b.start }

  lemma CoversSnoc(rs: seq<Range>, r: Range, x: int)
    ensures Covers(rs + [r], x) <==> Covers(rs, x) || r.In(x)
  {
    if i :| 0 <= i < |rs| && rs[i].In(x) { assert (rs + [r])[i].In(x); }
    if r.In(x) { assert (rs + [r])[|rs|].In(x); }
  }

  lemma CoversPermutation(a: seq<Range>, b: seq<Range>, x: int)
    requires forall r :: r in a <==> r in b
    ensures Covers(a, x) <==> Covers(b, x)
  {
    if i :| 0 <= i < |a| && a[i].In(x) { assert a[i] in b; }
    if i :| 0 <= i < |b| && b[i].In(x) { assert b[i] in a; }
  }

  /** Extending the last range of `out` up to `e`. */
  function Stretch(out: seq<Range>, e: int): seq<Range>
    requires out != []
  {
    out[|out| - 1 := out[|out| - 1].(end := e)]
  }

  /** One step of the merge. */
  ghost function Merged(out: seq<Range>, r: Range): seq<Range> {
    if out == [] || r.start > out[|out| - 1].end then out + [r]
    else if r.end > out[|out| - 1].end then Stretch(out, r.end)
    else out
  }

  lemma MergedCovers(out: seq<Range>, r: Range, x: int)
    requires out != [] ==> out[|out| - 1].start <= r.start
    ensures Covers(Merged(out, r), x) <==> Covers(out, x) || r.In(x)
  {
    if out == [] || r.start > out[|out| - 1].end {
      CoversSnoc(out, r, x);
    } else {
      var n, out' := |out| - 1, Merged(out, r);
      assert out == out[..n] + [out[n]] && out' == out[..n] + [out'[n]];
      CoversSnoc(out[..n], out[n], x);
      CoversSnoc(out[..n], out'[n], x);
    }
  }

  /** The merge after the first `k` sorted ranges. */
  ghost predicate MergeState(sorted: seq<Range>, k: nat, out: seq<Range>)
    requires k <= |sorted|
  {
    && (forall x :: Covers(out, x) <==> Covers(sorted[..k], x))
    && (k < |sorted| && out != [] ==> out[|out| - 1].start <= sorted[k].start)
    && (NonEmpty(sorted) ==> Separated(out))
  }

  lemma MergeAdvances(sorted: seq<Range>, k: nat, out: seq<Range>)
    requires k < |sorted| && Ordering.Sorted(sorted, StartsEarlier) && MergeState(sorted, k, out)
    ensures MergeState(sorted, k + 1, Merged(out, sorted[k]))
  {
    var r := sorted[k];
    assert sorted[..k + 1] == sorted[..k] + [r];
    forall x ensures Covers(Merged(out, r), x) <==> Covers(sorted[..k + 1], x) {
      CoversSnoc(sorted[..k], r, x);
      MergedCovers(out, r, x);
    }
    assert k + 1 < |sorted| ==> !StartsEarlier(sorted[k + 1], sorted[k]);
  }

  /** `union`: sort by start, then merge neighbours that touch or overlap. */
  method Union(ranges: seq<Range>) returns (out: seq<Range>)
    ensures forall x :: Covers(out, x) <==> Covers(ranges, x)
    ensures NonEmpty(ranges) ==> Separated(out)
  {
    if ranges == [] {
      return ranges;
    }
    var sorted := Sort(ranges, StartsEarlier);
    SortPermutes(ranges, StartsEarlier);
    SortSorted(ranges, StartsEarlier);
    out := [];
    for k := 0 to |sorted|
      invariant MergeState(sorted, k, out)
    {
      MergeAdvances(sorted, k, out);
      var r := sorted[k];
      if out != [] && r.start <= out[|out| - 1].end {
        if r.end > out[|out| - 1].end {
          out := Stretch(out, r.end);
        }
      } else {
        out := out + [r];
      }
    }
    assert sorted[..|sorted|] == sorted;
    forall x ensures Covers(sorted, x) <==> Covers(ranges, x) { CoversPermutation(sorted, ranges, x); }
    if NonEmpty(ranges) {
      forall i | 0 <= i < |sorted| ensures sorted[i].start < sorted[i].end { assert sorted[i] in ranges; }
    }
  }

  /** A separated list is the only one with its coverage, so `Union` has exactly one right answer. */
  lemma {:induction false} SeparatedIsCanonical(a: seq<Range>, b: seq<Range>)
    requires Separated(a) && Separated(b) && forall x :: Covers(a, x) <==> Covers(b, x)
    ensures a == b
  {
    if a == [] || b == [] {
      if a != [] { assert a[0].In(a[0].start); assert Covers(a, a[0].start); }
      if b != [] { assert b[0].In(b[0].start); assert Covers(b, b[0].start); }
    } else {
      FirstRangeAgrees(a, b);
      FirstRangeAgrees(b, a);
      assert a == [a[0]] + a[1..] && b == [b[0]] + b[1..];
      forall x ensures Covers(a[1..], x) <==> Covers(b[1..], x) {
        CoversTail(a, x);
        CoversTail(b, x);
      }
      SeparatedIsCanonical(a[1..], b[1..]);
    }
  }

  lemma CoversTail(a: seq<Range>, x: int)
    requires Separated(a) && a != []
    ensures Covers(a[1..], x) <==> Covers(a, x) && x >= a[0].end
  {
    if i :| 0 <= i < |a| && a[i].In(x) && x >= a[0].end { assert a[1..][i - 1].In(x); }
    if i :| 0 <= i < |a[1..]| && a[1..][i].In(x) { assert a[i + 1].In(x); }
  }

  lemma GapAfterFirst(a: seq<Range>)
    requires Separated(a) && a != []
    ensures !Covers(a, a[0].end) && Covers(a, a[0].start)
    ensures forall x :: Covers(a, x) ==> a[0].start <= x
  {
    assert a[0].In(a[0].start);
  }

  lemma FirstRangeAgrees(a: seq<Range>, b: seq<Range>)
    requires Separated(a) && Separated(b) && a != [] && b != []
    requires forall x :: Covers(a, x) <==> Covers(b, x)
    ensures a[0].start <= b[0].start && a[0].end >= b[0].end
  {
    GapAfterFirst(a);
    GapAfterFirst(b);
    assert Covers(b, a[0].start) && Covers(a, b[0].start);
    assert !b[0].In(a[0].end) by { assert !Covers(b, a[0].end); }
  }

  // ---- Subtraction ----

  /** Everything in `done` lies strictly before `at`. */
  ghost predicate EndsBefore(done: seq<Range>, at: int) {
    forall i :: 0 <= i < |done| ==> done[i].end < at
  }

  /** The inner loop: `m` has been handled up to `at`, and the first `j` subtrahends are behind. */
  ghost predicate CarveState(before: seq<Range>, m: Range, subtrahend: seq<Range>, j: nat, at: int, result: seq<Range>)
    requires j <= |subtrahend|
  {
    && m.start <= at
    && Separated(result) && EndsBefore(result, at)
    && (forall i :: 0 <= i < j ==> subtrahend[i].end <= at)
    && forall x :: Covers(result, x) <==>
         Covers(before, x) || (m.In(x) && x < at && !Covers(subtrahend, x))
  }

  /** No subtrahend meets the seconds between the ones behind and the next one. */
  lemma Untouched(subtrahend: seq<Range>, j: nat, at: int, hi: int, x: int)
    requires Separated(subtrahend) && j <= |subtrahend|
    requires forall i :: 0 <= i < j ==> subtrahend[i].end <= at
    requires j < |subtrahend| ==> subtrahend[j].start >= hi
    ensures at <= x < hi ==> !Covers(subtrahend, x)
  {
    forall i | 0 <= i < |subtrahend| && at <= x < hi ensures !subtrahend[i].In(x) {
      if i > j { assert subtrahend[j].end < subtrahend[i].start; }
    }
  }

  lemma CarveAdvances(before: seq<Range>, m: Range, subtrahend: seq<Range>, j: nat, at: int, result: seq<Range>)
    requires Separated(subtrahend) && j < |subtrahend| && CarveState(before, m, subtrahend, j, at, result)
    requires at < m.end && subtrahend[j].end > at && subtrahend[j].start < m.end
    ensures var s := subtrahend[j];
            CarveState(before, m, subtrahend, j + 1, s.end,
                       if s.start > at then result + [Range(at, s.start)] else result)
  {
    var s := subtrahend[j];
    var result' := if s.start > at then result + [Range(at, s.start)] else result;
    forall x ensures Covers(result', x) <==> Covers(before, x) || (m.In(x) && x < s.end && !Covers(subtrahend, x)) {
      if s.start > at { CoversSnoc(result, Range(at, s.start), x); }
      if s.In(x) { assert Covers(subtrahend, x); }
      Untouched(subtrahend, j, at, s.start, x);
    }
  }

  /** What is left of `m` after `at`, when no later subtrahend touches it. */
  lemma CarveEnds(before: seq<Range>, m: Range, subtrahend: seq<Range>, j: nat, at: int, result: seq<Range>)
    requires Separated(subtrahend) && j <= |subtrahend| && CarveState(before, m, subtrahend, j, at, result)
    requires j < |subtrahend| ==> at >= m.end || subtrahend[j].start >= m.end
    ensures var result' := if at < m.end then result + [Range(at, m.end)] else result;
            && Separated(result')
            && forall x :: Covers(result', x) <==> Covers(before, x) || (m.In(x) && !Covers(subtrahend, x))
  {
    var result' := if at < m.end then result + [Range(at, m.end)] else result;
    forall x ensures Covers(result', x) <==> Covers(before, x) || (m.In(x) && !Covers(subtrahend, x)) {
      if at < m.end {
        CoversSnoc(result, Range(at, m.end), x);
        Untouched(subtrahend, j, at, m.end, x);
      }
    }
  }

  /** The outer loop after `i` minuends. */
  ghost predicate SubtractState(minuend: seq<Range>, subtrahend: seq<Range>, i: nat, result: seq<Range>)
    requires i <= |minuend|
  {
    && Separated(result)
    && (i < |minuend| ==> EndsBefore(result, minuend[i].start))
    && forall x :: Covers(result, x) <==> Covers(minuend[..i], x) && !Covers(subtrahend, x)
  }

  lemma SubtractAdvances(minuend: seq<Range>, subtrahend: seq<Range>, i: nat, before: seq<Range>, result: seq<Range>)
    requires Separated(minuend) && i < |minuend| && SubtractState(minuend, subtrahend, i, before)
    requires Separated(result) && forall x :: Covers(result, x) <==>
               Covers(before, x) || (minuend[i].In(x) && !Covers(subtrahend, x))
    ensures SubtractState(minuend, subtrahend, i + 1, result)
  {
    assert minuend[..i + 1] == minuend[..i] + [minuend[i]];
    forall x ensures Covers(result, x) <==> Covers(minuend[..i + 1], x) && !Covers(subtrahend, x) {
      CoversSnoc(minuend[..i], minuend[i], x);
    }
    forall k | 0 <= k < |result| && i + 1 < |minuend| ensures result[k].end < minuend[i + 1].start {
      assert result[k].In(result[k].end - 1);
      assert Covers(result, result[k].end - 1);
      var q :| 0 <= q < |minuend[..i + 1]| && minuend[..i + 1][q].In(result[k].end - 1);
      assert minuend[q].end < minuend[i + 1].start;
    }
  }

  /** The inner loop: what is left of one minuend. */
  method Carve(m: Range, subtrahend: seq<Range>, before: seq<Range>) returns (result: seq<Range>)
    requires m.start < m.end && Separated(subtrahend) && Separated(before) && EndsBefore(before, m.start)
    ensures Separated(result)
    ensures forall x :: Covers(result, x) <==> Covers(before, x) || (m.In(x) && !Covers(subtrahend, x))
  {
    result := before;
    var currentStart := m.start;
    var j := 0;
    while j < |subtrahend|
      invariant j <= |subtrahend| && CarveState(before, m, subtrahend, j, currentStart, result)
      invariant currentStart < m.end
    {
      var s := subtrahend[j];
      if s.end <= currentStart {
        j := j + 1;
        continue;
      }
      if s.start >= m.end {
        break;
      }
      CarveAdvances(before, m, subtrahend, j, currentStart, result);
      if s.start > currentStart {
        result := result + [Range(currentStart, if s.start < m.end then s.start else m.end)];
      }
      currentStart := if s.end > currentStart then s.end else currentStart;
      j := j + 1;
      if currentStart >= m.end {
        break;
      }
    }
    CarveEnds(before, m, subtrahend, j, currentStart, result);
    if currentStart < m.end {
      result := result + [Range(currentStart, m.end)];
    }
  }

  /** `subtract`: walk each minuend past the subtrahends that meet it. */
  method Subtract(minuend: seq<Range>, subtrahend: seq<Range>) returns (result: seq<Range>)
    requires Separated(minuend) && Separated(subtrahend)
    ensures Separated(result)
    ensures forall x :: Covers(result, x) <==> Covers(minuend, x) && !Covers(subtrahend, x)
  {
    result := [];
    for i := 0 to |minuend|
      invariant SubtractState(minuend, subtrahend, i, result)
    {
      ghost var before := result;
      result := Carve(minuend[i], subtrahend, result);
      SubtractAdvances(minuend, subtrahend, i, before, result);
    }
    assert minuend[..|minuend|] == minuend;
  }

  // ---- Measuring ----

  /** The number of seconds of `[lo, hi)` that satisfy `p`. */
  ghost function Count(lo: int, hi: int, p: int -> bool): nat
    decreases hi - lo
  {
    if hi <= lo then 0 else Count(lo, hi - 1, p) + if p(hi - 1) then 1 else 0
  }

  /** `Count` is the size of the finite set of those seconds. */
  lemma {:induction false} CountIsCardinality(lo: int, hi: int, p: int -> bool)
    ensures |set x | lo <= x < hi && p(x)| == Count(lo, hi, p)
    decreases hi - lo
  {
    var s := set x | lo <= x < hi && p(x);
    if hi <= lo {
      assert s == {};
    } else {
      CountIsCardinality(lo, hi - 1, p);
      var t := set x | lo <= x < hi - 1 && p(x);
      assert s == if p(hi - 1) then t + {hi - 1} else t;
    }
  }

  lemma {:induction false} CountSame(lo: int, hi: int, p: int -> bool, q: int -> bool)
    requires forall x :: lo <= x < hi ==> p(x) == q(x)
    ensures Count(lo, hi, p) == Count(lo, hi, q)
    decreases hi - lo
  {
    if hi <= lo {
    } else {
      CountSame(lo, hi - 1, p, q);
    }
  }

  lemma {:induction false} CountSplits(lo: int, mid: int, hi: int, p: int -> bool)
    requires lo <= mid <= hi
    ensures Count(lo, hi, p) == Count(lo, mid, p) + Count(mid, hi, p)
    decreases hi - mid
  {
    if hi <= mid {
    } else {
      CountSplits(lo, mid, hi - 1, p);
    }
  }

  lemma {:induction false} CountWithin(lo: int, hi: int, p: int -> bool)
    requires lo <= hi
    ensures Count(lo, hi, p) <= hi - lo
    ensures Count(lo, hi, p) == hi - lo <==> forall x :: lo <= x < hi ==> p(x)
    decreases hi - lo
  {
    if hi <= lo {
    } else {
      CountWithin(lo, hi - 1, p);
    }
  }

  ghost function Both(p: int -> bool, q: int -> bool): int -> bool { x => p(x) && q(x) }

  ghost function Outside(p: int -> bool, q: int -> bool): int -> bool { x => p(x) && !q(x) }

  /** Counting one property inside and outside another. */
  lemma {:induction false} CountCases(lo: int, hi: int, p: int -> bool, q: int -> bool)
    ensures Count(lo, hi, p) == Count(lo, hi, Both(p, q)) + Count(lo, hi, Outside(p, q))
    decreases hi - lo
  {
    if hi <= lo {
    } else {
      CountCases(lo, hi - 1, p, q);
    }
  }

  function TotalSeconds(rs: seq<Range>): int {
    if rs == [] then 0 else TotalSeconds(rs[..|rs| - 1]) + rs[|rs| - 1].Len()
  }

  function CoveredBy(rs: seq<Range>): int -> bool { x => Covers(rs, x) }

  /** The lengths of separated ranges add up to the number of seconds they cover. */
  lemma {:induction false} TotalIsCount(rs: seq<Range>, lo: int, hi: int)
    requires Separated(rs) && lo <= hi && forall i :: 0 <= i < |rs| ==> lo <= rs[i].start && rs[i].end <= hi
    ensures TotalSeconds(rs) == Count(lo, hi, CoveredBy(rs))
  {
    if rs == [] {
      CountNone(lo, hi, CoveredBy(rs));
    } else {
      var n := |rs| - 1;
      var (init, r) := (rs[..n], rs[n]);
      assert rs == init + [r];
      TotalIsCount(init, lo, hi);
      forall x ensures Covers(rs, x) <==> Covers(init, x) || r.In(x) { CoversSnoc(init, r, x); }
      forall x | x >= r.start ensures !Covers(init, x) {}
      CountSplits(lo, r.start, hi, CoveredBy(rs));
      CountSplits(lo, r.start, hi, CoveredBy(init));
      CountSplits(r.start, r.end, hi, CoveredBy(rs));
      CountSame(lo, r.start, CoveredBy(rs), CoveredBy(init));
      CountNone(r.start, hi, CoveredBy(init));
      CountNone(r.end, hi, CoveredBy(rs));
      CountWithin(r.start, r.end, CoveredBy(rs));
    }
  }

  lemma {:induction false} CountNone(lo: int, hi: int, p: int -> bool)
    requires forall x :: lo <= x < hi ==> !p(x)
    ensures Count(lo, hi, p) == 0
    decreases hi - lo
  {
    if hi <= lo {
    } else {
      CountNone(lo, hi - 1, p);
    }
  }
}
