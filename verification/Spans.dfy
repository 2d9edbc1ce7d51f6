/** Half-open spans of integers, as sets of points. */
module Spans {
  import opened Sorting

  datatype Span = Span(start: int, end: int) {
    predicate Has(x: int) {
      start <= x < end
    }
  }

  function Min(a: int, b: int): int { if a < b then a else b }

  function Max(a: int, b: int): int { if a < b then b else a }

  /** The integers lo..hi-1. */
  ghost function Interval(lo: int, hi: int): (s: set<int>)
    ensures forall x :: x in s <==> lo <= x < hi
    ensures |s| == Max(0, hi - lo)
    decreases hi - lo
  {
    if hi <= lo then {} else Interval(lo, hi - 1) + {hi - 1}
  }

  predicate Covered(spans: seq<Span>, x: int) {
    exists s | s in spans :: s.Has(x)
  }

  lemma CoveredStep(spans: seq<Span>)
    requires spans != []
    ensures forall x :: Covered(spans, x) <==> Covered(spans[..|spans| - 1], x) || spans[|spans| - 1].Has(x)
  {
    var rest, last := spans[..|spans| - 1], spans[|spans| - 1];
    assert spans == rest + [last];
    forall x ensures Covered(spans, x) <==> Covered(rest, x) || last.Has(x) {
      assert last in spans;
    }
  }

  /** The union of the spans. */
  ghost function Points(spans: seq<Span>): (p: set<int>)
    ensures forall x :: x in p <==> Covered(spans, x)
  {
    if spans == [] then {}
    else
      var last := spans[|spans| - 1];
      CoveredStep(spans);
      Points(spans[..|spans| - 1]) + Interval(last.start, last.end)
  }

  function Width(spans: seq<Span>): int {
    if spans == [] then 0
    else Width(spans[..|spans| - 1]) + spans[|spans| - 1].end - spans[|spans| - 1].start
  }

  predicate Apart(a: Span, b: Span) {
    a.end <= b.start || b.end <= a.start
  }

  /** No two entries share a point, and none is reversed. */
  ghost predicate Disjoint(spans: seq<Span>) {
    && (forall i | 0 <= i < |spans| :: spans[i].start <= spans[i].end)
    && forall i, j | 0 <= i < j < |spans| :: Apart(spans[i], spans[j])
  }

  /** The last of disjoint spans adds only new points. */
  lemma LastIsNew(spans: seq<Span>)
    requires spans != [] && Disjoint(spans)
    ensures var rest, last := spans[..|spans| - 1], spans[|spans| - 1];
            && Points(spans) == Points(rest) + Interval(last.start, last.end)
            && Points(rest) !! Interval(last.start, last.end)
            && Disjoint(rest) && last.start <= last.end
  {
    var rest, last := spans[..|spans| - 1], spans[|spans| - 1];
    PointsUnfold(spans);
    LastIsApart(spans);
    hide Points, Interval, Disjoint, Covered;
    forall x | x in Points(rest) ensures !last.Has(x) {
      CoveredApart(rest, last, x);
    }
  }

  lemma PointsUnfold(spans: seq<Span>)
    requires spans != []
    ensures Points(spans) == Points(spans[..|spans| - 1]) + Interval(spans[|spans| - 1].start, spans[|spans| - 1].end)
  {
  }

  lemma LastIsApart(spans: seq<Span>)
    requires spans != [] && Disjoint(spans)
    ensures var rest, last := spans[..|spans| - 1], spans[|spans| - 1];
            Disjoint(rest) && last.start <= last.end && forall s | s in rest :: Apart(s, last)
  {
  }

  lemma CoveredApart(spans: seq<Span>, last: Span, x: int)
    requires Covered(spans, x) && forall s | s in spans :: Apart(s, last)
    ensures !last.Has(x)
  {
  }

  lemma NoPoints(spans: seq<Span>)
    requires spans == []
    ensures Points(spans) == {}
  {
  }

  lemma {:induction false} WidthIsSize(spans: seq<Span>)
    requires Disjoint(spans)
    ensures |Points(spans)| == Width(spans)
  {
    hide Points, Covered, Interval, Disjoint;
    if spans == [] {
      NoPoints(spans);
    } else {
      LastIsNew(spans);
      WidthIsSize(spans[..|spans| - 1]);
    }
  }

  lemma SamePoints(a: seq<Span>, b: seq<Span>)
    requires forall s :: s in a <==> s in b
    ensures Points(a) == Points(b)
  {
  }

  // ----- Sorting spans by start, then end

  predicate Before(a: Span, b: Span) {
    a.start < b.start || (a.start == b.start && a.end <= b.end)
  }

  function Sorted(spans: seq<Span>): (r: seq<Span>)
    ensures |r| == |spans|
    ensures forall s :: s in r <==> s in spans
    ensures multiset(r) == multiset(spans)
    ensures Ordered(r, Before)
  {
    SortKeeps(spans, Before);
    SortOrdered(spans, Before);
    Sort(spans, Before)
  }
}
