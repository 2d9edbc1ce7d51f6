/** Coverage-weighted recall: how much of a highlight the located claims cover. */
module Coverage {
  import opened Fractions
  import opened SetFacts
  import opened Sorting
  import opened Spans

  /** The points of `span` that some entry of `spans` covers. */
  ghost function CoveredPart(span: Span, spans: seq<Span>): set<int> {
    set x | x in Interval(span.start, span.end) && Covered(spans, x)
  }

  datatype Run = NoRun | Run(start: int, end: int)

  /** The sweep so far: `closed` points are counted, and the open run lies after them. */
  ghost predicate Swept(span: Span, done: seq<Span>, closed: set<int>, cov: int, run: Run) {
    match run
    case NoRun => cov == 0 && closed == {} && CoveredPart(span, done) == {}
    case Run(start, end) =>
      && span.start <= start < end <= span.end
      && cov == |closed| && (forall x | x in closed :: x < start)
      && CoveredPart(span, done) == closed + Interval(start, end)
  }

  lemma CoveredPartStep(span: Span, done: seq<Span>, s: Span)
    ensures CoveredPart(span, done + [s]) == CoveredPart(span, done)
              + Interval(Max(s.start, span.start), Min(s.end, span.end))
  {
    forall x ensures Covered(done + [s], x) <==> Covered(done, x) || s.Has(x) {
      assert s in done + [s];
    }
  }

  /** A claim span clipped to the highlight. */
  function Clip(span: Span, s: Span): Span {
    Span(Max(s.start, span.start), Min(s.end, span.end))
  }

  function RunLength(run: Run): int {
    if run.NoRun? then 0 else run.end - run.start
  }

  /** Sets described by their points alone: the step cases below only need membership. */
  lemma SweepStart(span: Span, done: seq<Span>, next: Span, closed: set<int>, cov: int, run: Run)
    requires Swept(span, done, closed, cov, run)
    requires Clip(span, next).start < Clip(span, next).end
    requires run.Run? ==> run.end < Clip(span, next).start
    ensures var closed' := if run.NoRun? then closed else closed + Interval(run.start, run.end);
            Swept(span, done + [next], closed', cov + RunLength(run), Run(Clip(span, next).start, Clip(span, next).end))
  {
    CoveredPartStep(span, done, next);
    hide CoveredPart, Interval;
  }

  lemma SweepExtend(span: Span, done: seq<Span>, next: Span, closed: set<int>, cov: int, run: Run)
    requires Swept(span, done, closed, cov, run) && run.Run?
    requires Clip(span, next).start < Clip(span, next).end
    requires run.start <= Clip(span, next).start <= run.end
    ensures Swept(span, done + [next], closed, cov, Run(run.start, Max(run.end, Clip(span, next).end)))
  {
    CoveredPartStep(span, done, next);
    hide CoveredPart, Interval;
    var c := Clip(span, next);
    assert Interval(run.start, run.end) + Interval(c.start, c.end) == Interval(run.start, Max(run.end, c.end));
  }

  lemma SweepSkip(span: Span, done: seq<Span>, next: Span, closed: set<int>, cov: int, run: Run)
    requires Swept(span, done, closed, cov, run)
    requires Clip(span, next).start >= Clip(span, next).end
    ensures Swept(span, done + [next], closed, cov, run)
  {
    CoveredPartStep(span, done, next);
    hide CoveredPart, Interval;
    assert Interval(Clip(span, next).start, Clip(span, next).end) == {};
  }

  /** The counted points and the open run are all that is covered. */
  lemma SweptTotal(span: Span, done: seq<Span>, closed: set<int>, cov: int, run: Run)
    requires Swept(span, done, closed, cov, run)
    ensures cov + RunLength(run) == |CoveredPart(span, done)|
  {
    hide CoveredPart, Interval;
    if run.Run? {
      assert closed !! Interval(run.start, run.end);
    }
  }

  /** Clipping keeps the order of the sorted spans, so no later span starts before this one. */
  lemma ClipsInOrder(span: Span, ordered: seq<Span>, i: nat)
    requires Ordered(ordered, Before) && i < |ordered|
    ensures RestStartAfter(span, ordered, i + 1, Clip(span, ordered[i]).start)
  {
    forall j | i + 1 <= j < |ordered| ensures Clip(span, ordered[i]).start <= Clip(span, ordered[j]).start {
      assert Before(ordered[i], ordered[j]);
    }
  }

  ghost predicate RestStartAfter(span: Span, ordered: seq<Span>, i: nat, start: int) {
    forall j | i <= j < |ordered| :: start <= Clip(span, ordered[j]).start
  }

  lemma RestStartStep(span: Span, ordered: seq<Span>, i: nat, start: int)
    requires RestStartAfter(span, ordered, i, start) && i < |ordered|
    ensures RestStartAfter(span, ordered, i + 1, start) && start <= Clip(span, ordered[i]).start
  {
  }

  /** The sweep's state before span i: no later span starts before the open run. */
  ghost predicate SweptTo(span: Span, ordered: seq<Span>, i: nat, closed: set<int>, total: int, run: Run) {
    && i <= |ordered| && Ordered(ordered, Before)
    && Swept(span, ordered[..i], closed, total, run)
    && (run.Run? ==> RestStartAfter(span, ordered, i, run.start))
  }

  /** One span more: left out if clipped away, a new run behind a gap, or a longer run. */
  lemma SweepNext(span: Span, ordered: seq<Span>, i: nat, closed: set<int>, total: int, run: Run)
    requires i < |ordered| && SweptTo(span, ordered, i, closed, total, run)
    ensures var c := Clip(span, ordered[i]);
            if c.start >= c.end then SweptTo(span, ordered, i + 1, closed, total, run)
            else if run.NoRun? then SweptTo(span, ordered, i + 1, closed, total, Run(c.start, c.end))
            else if c.start > run.end then
              SweptTo(span, ordered, i + 1, closed + Interval(run.start, run.end), total + run.end - run.start,
                      Run(c.start, c.end))
            else SweptTo(span, ordered, i + 1, closed, total, Run(run.start, Max(run.end, c.end)))
  {
    var c := Clip(span, ordered[i]);
    OneMore(ordered, i);
    ClipsInOrder(span, ordered, i);
    if run.Run? {
      RestStartStep(span, ordered, i, run.start);
    }
    hide Swept, RestStartAfter, Clip, Interval, Ordered;
    if c.start >= c.end {
      SweepSkip(span, ordered[..i], ordered[i], closed, total, run);
    } else if run.NoRun? || c.start > run.end {
      SweepStart(span, ordered[..i], ordered[i], closed, total, run);
    } else {
      SweepExtend(span, ordered[..i], ordered[i], closed, total, run);
    }
  }

  lemma OneMore<T>(s: seq<T>, i: nat)
    requires i < |s|
    ensures s[..i] + [s[i]] == s[..i + 1]
  {
  }

  lemma SweptAll(span: Span, ordered: seq<Span>, closed: set<int>, total: int, run: Run)
    requires SweptTo(span, ordered, |ordered|, closed, total, run)
    ensures total + (if run.Run? then run.end - run.start else 0) == |CoveredPart(span, ordered)|
  {
    assert ordered[..|ordered|] == ordered;
    SweptTotal(span, ordered, closed, total, run);
  }

  /** Characters of `span` covered by the union of `spans`, in one sweep over sorted spans. */
  method Overlap(span: Span, spans: seq<Span>) returns (cov: nat)
    ensures cov == |CoveredPart(span, spans)|
  {
    var ordered := Sorted(spans);
    var total, run := 0, NoRun;
    ghost var closed: set<int> := {};
    NothingSwept(span, ordered);
    SameCover(span, ordered, spans);
    hide *;
    for i := 0 to |ordered|
      invariant SweptTo(span, ordered, i, closed, total, run)
    {
      var c := Clip(span, ordered[i]);
      SweepNext(span, ordered, i, closed, total, run);
      if c.start >= c.end {
        continue;
      }
      if run.NoRun? || c.start > run.end {
        if run.Run? {
          closed := closed + Interval(run.start, run.end);
          total := total + run.end - run.start;
        }
        run := Run(c.start, c.end);
      } else {
        run := Run(run.start, Max(run.end, c.end));
      }
    }
    SweptAll(span, ordered, closed, total, run);
    if run.Run? {
      total := total + run.end - run.start;
    }
    cov := total;
  }

  lemma NothingSwept(span: Span, ordered: seq<Span>)
    requires Ordered(ordered, Before)
    ensures SweptTo(span, ordered, 0, {}, 0, NoRun)
  {
    assert ordered[..0] == [];
  }

  lemma SameCover(span: Span, a: seq<Span>, b: seq<Span>)
    requires forall s :: s in a <==> s in b
    ensures CoveredPart(span, a) == CoveredPart(span, b)
  {
    SamePoints(a, b);
    forall x ensures Covered(a, x) <==> Covered(b, x) {
      assert x in Points(a) <==> Covered(a, x);
      assert x in Points(b) <==> Covered(b, x);
    }
  }

  // ----- Recall

  /** Covered characters of a unit's parts, part by part. */
  ghost function CoveredChars(unit: seq<Span>, claims: seq<Span>): nat {
    if unit == [] then 0
    else CoveredChars(unit[..|unit| - 1], claims) + |CoveredPart(unit[|unit| - 1], claims)|
  }

  ghost function Fraction(unit: seq<Span>, claims: seq<Span>): real {
    CoveredChars(unit, claims) as real / Max(1, Width(unit)) as real
  }

  ghost function FractionSum(units: seq<seq<Span>>, claims: seq<Span>): real {
    if units == [] then 0.0
    else FractionSum(units[..|units| - 1], claims) + Fraction(units[|units| - 1], claims)
  }

  datatype Recall = NoGold | Recall(mean: real)

  method UnitFraction(unit: seq<Span>, claims: seq<Span>) returns (fraction: real)
    ensures fraction == Fraction(unit, claims)
  {
    var extent, covered := 0, 0;
    for j := 0 to |unit|
      invariant extent == Width(unit[..j]) && covered == CoveredChars(unit[..j], claims)
    {
      assert unit[..j + 1][..j] == unit[..j];
      var part := Overlap(unit[j], claims);
      extent := extent + unit[j].end - unit[j].start;
      covered := covered + part;
    }
    assert unit[..|unit|] == unit;
    fraction := covered as real / Max(1, extent) as real;
  }

  /** Mean covered fraction of the units, and the units under the threshold. */
  method GradeRecall(units: seq<seq<Span>>, claims: seq<Span>, threshold: real) returns (recall: Recall, missed: seq<nat>)
    ensures recall == if units == [] then NoGold else Recall(FractionSum(units, claims) / |units| as real)
    ensures forall k: nat :: k in missed <==> k < |units| && Fraction(units[k], claims) < threshold
    ensures Ascending(missed)
  {
    hide Fraction;
    var sum := 0.0;
    missed := [];
    for i := 0 to |units|
      invariant sum == FractionSum(units[..i], claims)
      invariant forall k: nat :: k in missed <==> k < i && Fraction(units[k], claims) < threshold
      invariant Ascending(missed) && forall j | 0 <= j < |missed| :: missed[j] < i
    {
      var fraction := UnitFraction(units[i], claims);
      assert units[..i + 1][..i] == units[..i];
      sum := sum + fraction;
      if fraction < threshold {
        missed := missed + [i];
      }
    }
    assert units[..|units|] == units;
    recall := if |units| == 0 then NoGold else Recall(sum / |units| as real);
  }

  /** Every part of every unit runs forwards. */
  ghost predicate Forward(unit: seq<Span>) {
    forall i | 0 <= i < |unit| :: unit[i].start <= unit[i].end
  }

  lemma PartAtMostWhole(span: Span, claims: seq<Span>)
    ensures |CoveredPart(span, claims)| <= Max(0, span.end - span.start)
  {
    SubsetSize(CoveredPart(span, claims), Interval(span.start, span.end));
  }

  lemma {:induction false} CoveredAtMostExtent(unit: seq<Span>, claims: seq<Span>)
    requires Forward(unit)
    ensures CoveredChars(unit, claims) <= Width(unit)
  {
    if unit != [] {
      CoveredAtMostExtent(unit[..|unit| - 1], claims);
      PartAtMostWhole(unit[|unit| - 1], claims);
    }
  }

  lemma FractionInUnit(unit: seq<Span>, claims: seq<Span>)
    requires Forward(unit)
    ensures 0.0 <= Fraction(unit, claims) <= 1.0
  {
    CoveredAtMostExtent(unit, claims);
    Ratio(CoveredChars(unit, claims), Max(1, Width(unit)));
  }

  /** Recall is a genuine proportion however many claims cover the same sentence. */
  lemma {:induction false} RecallInUnit(units: seq<seq<Span>>, claims: seq<Span>)
    requires forall k | 0 <= k < |units| :: Forward(units[k])
    ensures 0.0 <= FractionSum(units, claims) <= |units| as real
    ensures units != [] ==> 0.0 <= FractionSum(units, claims) / |units| as real <= 1.0
  {
    if units != [] {
      RecallInUnit(units[..|units| - 1], claims);
      FractionInUnit(units[|units| - 1], claims);
      RealRatio(FractionSum(units, claims), |units|);
    }
  }

  // ----- More claims never lower recall; repeated claims never raise it

  lemma {:induction false} CoveredCharsMonotone(unit: seq<Span>, fewer: seq<Span>, more: seq<Span>)
    requires forall s | s in fewer :: s in more
    ensures CoveredChars(unit, fewer) <= CoveredChars(unit, more)
  {
    if unit != [] {
      CoveredCharsMonotone(unit[..|unit| - 1], fewer, more);
      SubsetSize(CoveredPart(unit[|unit| - 1], fewer), CoveredPart(unit[|unit| - 1], more));
    }
  }

  lemma {:induction false} RecallMonotone(units: seq<seq<Span>>, fewer: seq<Span>, more: seq<Span>)
    requires forall s | s in fewer :: s in more
    ensures FractionSum(units, fewer) <= FractionSum(units, more)
  {
    if units != [] {
      var unit := units[|units| - 1];
      RecallMonotone(units[..|units| - 1], fewer, more);
      CoveredCharsMonotone(unit, fewer, more);
      RatioMonotone(CoveredChars(unit, fewer), CoveredChars(unit, more), Max(1, Width(unit)));
    }
  }

  /** Quoting a sentence again, or listing claims in another order, changes nothing. */
  lemma RepeatsDoNotCount(units: seq<seq<Span>>, claims: seq<Span>, repeated: seq<Span>)
    requires forall s :: s in claims <==> s in repeated
    ensures FractionSum(units, claims) == FractionSum(units, repeated)
  {
    RecallMonotone(units, claims, repeated);
    RecallMonotone(units, repeated, claims);
  }

  /** A unit scores 1 exactly when every one of its characters is covered. */
  lemma FullFraction(unit: seq<Span>, claims: seq<Span>)
    requires Forward(unit) && Width(unit) >= 1
    ensures Fraction(unit, claims) == 1.0 <==> forall x | x in Points(unit) :: Covered(claims, x)
  {
    FullCount(unit, claims);
    CoveredAtMostExtent(unit, claims);
    assert AllCovered(unit, claims) <==> forall x | x in Points(unit) :: Covered(claims, x);
    hide CoveredChars, Width, Covered, Points, AllCovered;
    Ratio(CoveredChars(unit, claims), Width(unit));
  }

  ghost predicate PartCovered(part: Span, claims: seq<Span>) {
    forall x | part.Has(x) :: Covered(claims, x)
  }

  /** A part is fully covered exactly when each of its points is. */
  lemma FullPart(part: Span, claims: seq<Span>)
    requires part.start <= part.end
    ensures |CoveredPart(part, claims)| <= part.end - part.start
    ensures |CoveredPart(part, claims)| == part.end - part.start <==> PartCovered(part, claims)
  {
    hide Covered, Interval;
    SubsetSize(CoveredPart(part, claims), Interval(part.start, part.end));
    if PartCovered(part, claims) {
      assert CoveredPart(part, claims) == Interval(part.start, part.end);
    } else {
      var x :| part.Has(x) && !Covered(claims, x);
      assert x in Interval(part.start, part.end) && x !in CoveredPart(part, claims);
    }
  }

  ghost predicate AllCovered(unit: seq<Span>, claims: seq<Span>) {
    forall x | x in Points(unit) :: Covered(claims, x)
  }

  lemma NoneToCover(unit: seq<Span>, claims: seq<Span>)
    requires unit == []
    ensures AllCovered(unit, claims)
  {
    NoPoints(unit);
  }

  lemma AllCoveredStep(unit: seq<Span>, claims: seq<Span>)
    requires unit != []
    ensures AllCovered(unit, claims) <==>
            AllCovered(unit[..|unit| - 1], claims) && PartCovered(unit[|unit| - 1], claims)
  {
    PointsUnfold(unit);
    hide Points, Covered;
    var last := unit[|unit| - 1];
    assert forall x :: x in Points(unit) <==> x in Points(unit[..|unit| - 1]) || last.Has(x);
  }

  lemma {:induction false} FullCount(unit: seq<Span>, claims: seq<Span>)
    requires Forward(unit)
    ensures CoveredChars(unit, claims) == Width(unit) <==> AllCovered(unit, claims)
  {
    hide CoveredPart, Points, Covered, AllCovered, PartCovered;
    if unit == [] {
      NoneToCover(unit, claims);
    } else {
      var rest, last := unit[..|unit| - 1], unit[|unit| - 1];
      FullCount(rest, claims);
      CoveredAtMostExtent(rest, claims);
      AllCoveredStep(unit, claims);
      FullPart(last, claims);
    }
  }

  // ----- Off-target claims

  ghost predicate Untouched(claim: seq<Span>, gold: seq<Span>) {
    forall x | Covered(claim, x) :: !Covered(gold, x)
  }

  lemma UntouchedIff(claim: seq<Span>, gold: seq<Span>)
    ensures Untouched(claim, gold) <==> forall i | 0 <= i < |claim| :: |CoveredPart(claim[i], gold)| == 0
  {
    if Untouched(claim, gold) {
      forall i | 0 <= i < |claim| ensures CoveredPart(claim[i], gold) == {} {
        assert forall x | claim[i].Has(x) :: Covered(claim, x);
      }
    }
    if forall i | 0 <= i < |claim| :: |CoveredPart(claim[i], gold)| == 0 {
      forall x | Covered(claim, x) ensures !Covered(gold, x) {
        var i :| 0 <= i < |claim| && claim[i].Has(x);
        assert x !in CoveredPart(claim[i], gold);
      }
    }
  }

  /** Whether no span of a claim shares a character with the gold. */
  method TouchesNone(claim: seq<Span>, gold: seq<Span>) returns (none: bool)
    ensures none <==> Untouched(claim, gold)
  {
    none := true;
    for j := 0 to |claim|
      invariant none <==> forall i | 0 <= i < j :: |CoveredPart(claim[i], gold)| == 0
    {
      var shared := Overlap(claim[j], gold);
      none := none && shared == 0;
    }
    UntouchedIff(claim, gold);
  }

  /** Located claims that share no character with the gold. */
  method OffTarget(located: seq<seq<Span>>, gold: seq<Span>) returns (off: seq<nat>)
    ensures forall k: nat :: k in off <==> k < |located| && Untouched(located[k], gold)
    ensures Ascending(off)
  {
    hide Untouched;
    off := [];
    for k := 0 to |located|
      invariant forall i: nat :: i in off <==> i < k && Untouched(located[i], gold)
      invariant Ascending(off) && forall j | 0 <= j < |off| :: off[j] < k
    {
      var none := TouchesNone(located[k], gold);
      if none {
        off := off + [k];
      }
    }
  }
}
