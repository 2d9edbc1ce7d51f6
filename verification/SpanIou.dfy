/** Intersection over union of interrupted spans, as pure arithmetic on endpoints, and the
    point sets it measures. */
module SpanIou {
  import opened Fractions
  import opened SetFacts
  import opened Spans

  function Shared(a: Span, b: Span): nat {
    Max(0, Min(a.end, b.end) - Max(a.start, b.start))
  }

  function SharedWithAll(a: Span, right: seq<Span>): nat {
    if right == [] then 0 else SharedWithAll(a, right[..|right| - 1]) + Shared(a, right[|right| - 1])
  }

  function Intersection(left: seq<Span>, right: seq<Span>): nat {
    if left == [] then 0
    else Intersection(left[..|left| - 1], right) + SharedWithAll(left[|left| - 1], right)
  }

  function Union(left: seq<Span>, right: seq<Span>): int {
    Width(left) + Width(right) - Intersection(left, right)
  }

  function Iou(left: seq<Span>, right: seq<Span>): real {
    if Union(left, right) == 0 then 0.0
    else Intersection(left, right) as real / Union(left, right) as real
  }

  /** Two intervals share an interval. */
  lemma SharedIsSize(a: Span, b: Span)
    ensures |Interval(a.start, a.end) * Interval(b.start, b.end)| == Shared(a, b)
  {
    assert Interval(a.start, a.end) * Interval(b.start, b.end)
        == Interval(Max(a.start, b.start), Min(a.end, b.end));
  }

  lemma {:induction false} SharedWithAllIsSize(a: Span, right: seq<Span>)
    requires Disjoint(right)
    ensures SharedWithAll(a, right) == |Interval(a.start, a.end) * Points(right)|
  {
    hide Points, Covered, Interval, Shared, Disjoint;
    if right == [] {
      NoPoints(right);
    } else {
      var rest, last := right[..|right| - 1], right[|right| - 1];
      LastIsNew(right);
      SharedWithAllIsSize(a, rest);
      SharedIsSize(a, last);
      SizeOfSplit(Interval(a.start, a.end), Points(rest), Interval(last.start, last.end));
    }
  }

  lemma SizeOfSplit<T>(s: set<T>, a: set<T>, b: set<T>)
    requires a !! b
    ensures |s * (a + b)| == |s * a| + |s * b|
  {
    assert s * (a + b) == s * a + s * b;
  }

  lemma {:induction false} IntersectionIsSize(left: seq<Span>, right: seq<Span>)
    requires Disjoint(left) && Disjoint(right)
    ensures Intersection(left, right) == |Points(left) * Points(right)|
  {
    hide Points, Covered, Interval, SharedWithAll, Disjoint;
    if left == [] {
      NoPoints(left);
    } else {
      var rest, last := left[..|left| - 1], left[|left| - 1];
      LastIsNew(left);
      IntersectionIsSize(rest, right);
      SharedWithAllIsSize(last, right);
      var own, p := Interval(last.start, last.end), Points(right);
      SizeOfSplit(p, Points(rest), own);
      Commute(p, Points(rest));
      Commute(p, own);
      Commute(p, Points(left));
    }
  }

  lemma Commute<T>(a: set<T>, b: set<T>)
    ensures a * b == b * a
  {
  }

  lemma SizeOfUnion<T>(p: set<T>, q: set<T>)
    ensures |p + q| == |p| + |q| - |p * q|
  {
    assert p + q == p + (q - p);
    assert q == (q - p) + p * q;
  }

  lemma UnionIsSize(left: seq<Span>, right: seq<Span>)
    requires Disjoint(left) && Disjoint(right)
    ensures Union(left, right) == |Points(left) + Points(right)|
  {
    hide Points, Covered, Width, Intersection, Disjoint;
    WidthIsSize(left);
    WidthIsSize(right);
    IntersectionIsSize(left, right);
    SizeOfUnion(Points(left), Points(right));
  }

  /** The arithmetic form is the Jaccard index of the two point sets. */
  lemma IouIsJaccard(left: seq<Span>, right: seq<Span>)
    requires Disjoint(left) && Disjoint(right)
    ensures var shared, all := |Points(left) * Points(right)|, |Points(left) + Points(right)|;
            Iou(left, right) == if all == 0 then 0.0 else shared as real / all as real
  {
    IntersectionIsSize(left, right);
    UnionIsSize(left, right);
  }

  lemma IouRange(left: seq<Span>, right: seq<Span>)
    requires Disjoint(left) && Disjoint(right)
    ensures 0.0 <= Iou(left, right) <= 1.0
    ensures Iou(left, right) == Iou(right, left)
    ensures Iou(left, right) == 1.0 <==> Points(left) == Points(right) != {}
    ensures Iou(left, right) == 0.0 <==> Points(left) * Points(right) == {}
  {
    IouIsJaccard(left, right);
    IouIsJaccard(right, left);
    JaccardRange(Points(left), Points(right));
  }

  ghost function Jaccard<T>(p: set<T>, q: set<T>): real {
    if |p + q| == 0 then 0.0 else |p * q| as real / |p + q| as real
  }

  lemma JaccardRange<T>(p: set<T>, q: set<T>)
    ensures 0.0 <= Jaccard(p, q) <= 1.0
    ensures Jaccard(p, q) == Jaccard(q, p)
    ensures Jaccard(p, q) == 1.0 <==> p == q != {}
    ensures Jaccard(p, q) == 0.0 <==> p * q == {}
  {
    assert p + q == q + p && p * q == q * p;
    SubsetSize(p * q, p + q);
    if p + q != {} {
      Ratio(|p * q|, |p + q|);
      assert p * q == p + q <==> p == q;
      assert |p * q| == 0 <==> p * q == {};
    } else {
      assert p == {};
    }
  }
}
