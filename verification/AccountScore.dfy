/** The account scorer: candidate pairs from titles, subjects and line ranges, matched by
    AccountMatching, reported as matches, misses and extras. */
module AccountScore {
  import opened Fractions
  import opened SetFacts
  import opened AccountMatching
  import Spans

  datatype Range = NoRange | Lines(first: int, last: int) {
    predicate Has(line: int) {
      Lines? && first <= line <= last
    }
  }

  /** An account as the scorer sees it: token sets and a well-formed line range if it has one. */
  datatype Account = Account(title: set<string>, subject: set<string>, lines: Range) {
    ghost predicate Valid() {
      lines.Lines? ==> lines.first <= lines.last
    }
  }

  function Max(a: real, b: real): real {
    if a < b then b else a
  }

  /** Twice the shared part is at most both sizes together, and as much only for equal sets. */
  lemma SharedSize<T>(a: set<T>, b: set<T>)
    ensures 2 * |a * b| <= |a| + |b|
    ensures 2 * |a * b| == |a| + |b| <==> a == b
    ensures |a * b| == 0 <==> a * b == {}
  {
    SubsetSize(a * b, a);
    SubsetSize(a * b, b);
    if a == b {
      assert a * b == a;
    }
  }

  /** A quotient is 0 or 1 only where its parts say so. */
  lemma Quotient(part: nat, whole: nat)
    requires part <= whole && whole > 0
    ensures 0.0 <= part as real / whole as real <= 1.0
    ensures part as real / whole as real == 1.0 <==> part == whole
    ensures part as real / whole as real == 0.0 <==> part == 0
  {
    Ratio(part, whole);
  }

  /** Dice overlap of two token sets. */
  function Overlap(a: set<string>, b: set<string>): (r: real)
    ensures 0.0 <= r <= 1.0
    ensures r == 1.0 <==> a == b != {}
    ensures r == 0.0 <==> a * b == {}
    ensures r * (|a| + |b|) as real == (2 * |a * b|) as real
  {
    SharedSize(a, b);
    if a != {} && b != {} then
      Quotient(2 * |a * b|, |a| + |b|);
      (2 * |a * b|) as real / (|a| + |b|) as real
    else 0.0
  }

  /** The lines from first to last. */
  ghost function LineSet(first: int, last: int): (s: set<int>)
    ensures |s| == Spans.Max(0, last + 1 - first)
    ensures forall line :: line in s <==> first <= line <= last
  {
    Spans.Interval(first, last + 1)
  }

  /** Lines in both ranges. */
  ghost function SharedLines(gold: Range, predicted: Range): set<int>
    requires gold.Lines? && predicted.Lines?
  {
    LineSet(gold.first, gold.last) * LineSet(predicted.first, predicted.last)
  }

  /** Lines from the first of either range to the last of either. */
  ghost function HullLines(gold: Range, predicted: Range): set<int>
    requires gold.Lines? && predicted.Lines?
  {
    LineSet(Spans.Min(gold.first, predicted.first), Spans.Max(gold.last, predicted.last))
  }

  datatype Boundary = NoBoundary | Boundary(intersection: int, iou: real)

  /** Shared lines over the hull of the two ranges; only where both ranges are known. */
  function BoundaryEvidence(gold: Range, predicted: Range): (b: Boundary)
    requires gold.Lines? ==> gold.first <= gold.last
    requires predicted.Lines? ==> predicted.first <= predicted.last
    ensures b.Boundary? <==> gold.Lines? && predicted.Lines?
    ensures b.Boundary? ==> 0.0 <= b.iou <= 1.0 && (b.iou == 1.0 <==> gold == predicted)
    ensures b.Boundary? ==>
              (b.intersection > 0 <==> exists line :: gold.Has(line) && predicted.Has(line))
  {
    if gold.NoRange? || predicted.NoRange? then NoBoundary
    else
      var from := Spans.Max(gold.first, predicted.first);
      var upto := Spans.Min(gold.last, predicted.last);
      var intersection := Spans.Max(0, upto - from + 1);
      var hull := Spans.Max(gold.last, predicted.last) - Spans.Min(gold.first, predicted.first) + 1;
      Ratio(intersection, hull);
      assert intersection > 0 ==> gold.Has(from) && predicted.Has(from);
      Boundary(intersection, intersection as real / hull as real)
  }

  /** The arithmetic on the ends counts lines. */
  lemma BoundaryCounts(gold: Range, predicted: Range)
    requires gold.Lines? && gold.first <= gold.last
    requires predicted.Lines? && predicted.first <= predicted.last
    ensures var b := BoundaryEvidence(gold, predicted);
            && b.Boundary? && b.intersection == |SharedLines(gold, predicted)|
            && |HullLines(gold, predicted)| > 0
            && b.iou == |SharedLines(gold, predicted)| as real / |HullLines(gold, predicted)| as real
  {
    SharedBetween(gold, predicted);
    hide SharedLines;
  }

  lemma SharedBetween(gold: Range, predicted: Range)
    requires gold.Lines? && predicted.Lines?
    ensures |SharedLines(gold, predicted)|
         == Spans.Max(0, Spans.Min(gold.last, predicted.last) - Spans.Max(gold.first, predicted.first) + 1)
  {
    assert SharedLines(gold, predicted)
        == LineSet(Spans.Max(gold.first, predicted.first), Spans.Min(gold.last, predicted.last));
  }

  function Semantic(gold: Account, predicted: Account): (r: real)
  {
    var title := Overlap(gold.title, predicted.title);
    var subject := Overlap(gold.subject, predicted.subject);
    Max(Max(0.7 * title + 0.3 * subject, title), subject)
  }

  /** The weighted mix never exceeds the better field, so the weights decide nothing. */
  lemma SemanticIsBetterField(gold: Account, predicted: Account)
    ensures Semantic(gold, predicted)
         == Max(Overlap(gold.title, predicted.title), Overlap(gold.subject, predicted.subject))
    ensures 0.0 <= Semantic(gold, predicted) <= 1.0
  {
  }

  function CandidateFor(g: nat, p: nat, gold: Account, predicted: Account, threshold: real): Candidate
    requires gold.lines.Lines? ==> gold.lines.first <= gold.lines.last
    requires predicted.lines.Lines? ==> predicted.lines.first <= predicted.lines.last
  {
    var semantic := Semantic(gold, predicted);
    var boundary := BoundaryEvidence(gold.lines, predicted.lines);
    Candidate(g, p, semantic + if boundary.Boundary? then boundary.iou else 0.0,
              semantic >= threshold && (boundary.Boundary? ==> boundary.intersection > 0))
  }

  // ----- The scorer

  datatype Report = Report(matches: seq<Candidate>, missed: seq<nat>, extra: seq<nat>)

  /** Indices below n outside `used`, in order. */
  function Outside(n: nat, used: set<nat>): (s: seq<nat>)
    ensures forall i: nat :: i in s <==> i < n && i !in used
    ensures Ascending(s)
    ensures (forall i | i in used :: i < n) ==> |s| + |used| == n
  {
    if n == 0 then []
    else
      assert n - 1 in used ==> |used - {n - 1}| == |used| - 1;
      var rest := Outside(n - 1, used - {n - 1});
      assert forall j | 0 <= j < |rest| :: rest[j] in rest;
      if n - 1 in used then rest else rest + [n - 1]
  }

  /** Every account carries a range that is empty or in order. */
  ghost predicate AllValid(accounts: seq<Account>) {
    forall i | 0 <= i < |accounts| :: accounts[i].Valid()
  }

  /** The candidate of pair (p, g). */
  function At(gold: seq<Account>, predicted: seq<Account>, threshold: real, g: nat, p: nat): Candidate
    requires AllValid(gold) && AllValid(predicted) && g < |gold| && p < |predicted|
  {
    CandidateFor(g, p, gold[g], predicted[p], threshold)
  }

  /** The whole candidate grid of two account lists, keyed (predicted, gold). */
  ghost predicate IsGrid(grid: Grid, gold: seq<Account>, predicted: seq<Account>, threshold: real)
    requires AllValid(gold) && AllValid(predicted)
  {
    && (forall key :: key in grid <==> key.0 < |predicted| && key.1 < |gold|)
    && forall key | key in grid ::
         && grid[key].goldIndex == key.1 && grid[key].predictedIndex == key.0
         && Weighs(grid[key], gold[key.1], predicted[key.0], threshold)
  }

  /** A candidate's score is the better field's overlap and the share of common lines; it is
      eligible where a field reaches the threshold and no two known ranges lie apart. */
  ghost predicate Weighs(c: Candidate, gold: Account, predicted: Account, threshold: real)
    requires gold.Valid() && predicted.Valid()
  {
    && c.score == Max(Overlap(gold.title, predicted.title), Overlap(gold.subject, predicted.subject))
                  + CommonShare(gold.lines, predicted.lines)
    && (c.eligible <==>
          && (Overlap(gold.title, predicted.title) >= threshold || Overlap(gold.subject, predicted.subject) >= threshold)
          && Meets(gold.lines, predicted.lines))
  }

  ghost function CommonShare(gold: Range, predicted: Range): real
    requires gold.Lines? ==> gold.first <= gold.last
    requires predicted.Lines? ==> predicted.first <= predicted.last
  {
    if gold.Lines? && predicted.Lines?
    then |SharedLines(gold, predicted)| as real / |HullLines(gold, predicted)| as real else 0.0
  }

  /** Two known ranges have a line in common. */
  ghost predicate Meets(gold: Range, predicted: Range) {
    gold.Lines? && predicted.Lines? ==> exists line :: gold.Has(line) && predicted.Has(line)
  }

  lemma CandidateWeighs(g: nat, p: nat, gold: Account, predicted: Account, threshold: real)
    requires gold.Valid() && predicted.Valid()
    ensures Weighs(CandidateFor(g, p, gold, predicted, threshold), gold, predicted, threshold)
  {
    SemanticIsBetterField(gold, predicted);
    hide Semantic, BoundaryEvidence, Overlap, SharedLines, HullLines;
    if gold.lines.Lines? && predicted.lines.Lines? {
      BoundaryCounts(gold.lines, predicted.lines);
    }
  }

  ghost function GridOf(gold: seq<Account>, predicted: seq<Account>, threshold: real): (grid: Grid)
    requires AllValid(gold) && AllValid(predicted)
    ensures IsGrid(grid, gold, predicted, threshold)
    ensures forall key | key in grid :: grid[key] == At(gold, predicted, threshold, key.1, key.0)
  {
    assert forall g: nat, p: nat | g < |gold| && p < |predicted| ::
        Weighs(At(gold, predicted, threshold, g, p), gold[g], predicted[p], threshold) by {
      forall g: nat, p: nat | g < |gold| && p < |predicted|
        ensures Weighs(At(gold, predicted, threshold, g, p), gold[g], predicted[p], threshold)
      {
        CandidateWeighs(g, p, gold[g], predicted[p], threshold);
      }
    }
    map p: nat, g: nat | p < |predicted| && g < |gold| :: (p, g) := At(gold, predicted, threshold, g, p)
  }

  lemma GridFacts(grid: Grid, gold: seq<Account>, predicted: seq<Account>, threshold: real)
    requires AllValid(gold) && AllValid(predicted) && IsGrid(grid, gold, predicted, threshold)
    ensures Keyed(grid) && Full(grid, |gold|, |predicted|) && InRange(grid, |gold|, |predicted|)
  {
  }

  /** Every pair's candidate, gold account by gold account. */
  method BuildCandidates(gold: seq<Account>, predicted: seq<Account>, threshold: real)
    returns (candidates: seq<Candidate>)
    requires AllValid(gold) && AllValid(predicted)
    ensures IsGrid(ByPair(candidates), gold, predicted, threshold)
    ensures CellsListed(candidates, GridOf(gold, predicted, threshold), |gold|, |predicted|, |gold|, 0)
  {
    hide CellsListed, ByPair, Full, InRange, Keyed;
    candidates := [];
    ghost var grid := GridOf(gold, predicted, threshold);
    GridFacts(grid, gold, predicted, threshold);
    NothingListed(grid, |gold|, |predicted|);
    for gi := 0 to |gold|
      invariant CellsListed(candidates, grid, |gold|, |predicted|, gi, 0)
    {
      for pi := 0 to |predicted|
        invariant CellsListed(candidates, grid, |gold|, |predicted|, gi, pi)
      {
        var c := At(gold, predicted, threshold, gi, pi);
        assert (pi, gi) in grid && grid[(pi, gi)] == c;
        ListingNext(candidates, grid, |gold|, |predicted|, gi, pi, c);
        candidates := candidates + [c];
      }
      ListingRow(candidates, grid, |gold|, |predicted|, gi);
    }
    ListingAll(candidates, grid, |gold|, |predicted|);
  }

  /** An eligible score is a semantic score plus a boundary overlap: at most 2. */
  lemma ScoresAtMostTwo(grid: Grid, gold: seq<Account>, predicted: seq<Account>, threshold: real)
    requires AllValid(gold) && AllValid(predicted) && IsGrid(grid, gold, predicted, threshold)
    ensures Bounded(grid, 2.0)
  {
    forall key | key in grid ensures 0.0 <= grid[key].score <= 2.0 {
      ShareInUnit(gold[key.1].lines, predicted[key.0].lines);
    }
  }

  lemma ShareInUnit(gold: Range, predicted: Range)
    requires gold.Lines? ==> gold.first <= gold.last
    requires predicted.Lines? ==> predicted.first <= predicted.last
    ensures 0.0 <= CommonShare(gold, predicted) <= 1.0
  {
    if gold.Lines? && predicted.Lines? {
      SubsetSize(SharedLines(gold, predicted), HullLines(gold, predicted));
      Ratio(|SharedLines(gold, predicted)|, |HullLines(gold, predicted)|);
    }
  }

  /** Gold accounts and predictions are each either matched once or reported, never both; the
      matching is heaviest, and so the documented best while 2 x (n - 1) is below the bonus. */
  method Score(gold: seq<Account>, predicted: seq<Account>, threshold: real)
    returns (report: Report, ghost grid: Grid)
    requires AllValid(gold) && AllValid(predicted)
    ensures IsGrid(grid, gold, predicted, threshold)
    ensures Listed(grid, report.matches)
    ensures Heaviest(grid, Pairs(report.matches), |gold|, |predicted|)
    ensures Min(|gold|, |predicted|) <= 500 ==> Best(grid, Pairs(report.matches), |gold|, |predicted|)
    ensures forall g: nat :: g in report.missed <==> g < |gold| && forall c | c in report.matches :: c.goldIndex != g
    ensures forall p: nat ::
              p in report.extra <==> p < |predicted| && forall c | c in report.matches :: c.predictedIndex != p
    ensures forall c | c in report.matches ::
              && c.goldIndex < |gold| && c.predictedIndex < |predicted|
              && Deserves(c, gold[c.goldIndex], predicted[c.predictedIndex], threshold)
    ensures Ascending(report.missed) && Ascending(report.extra)
    ensures |report.matches| + |report.missed| == |gold|
    ensures |report.matches| + |report.extra| == |predicted|
  {
    var candidates := BuildCandidates(gold, predicted, threshold);
    grid := ByPair(candidates);
    GridFacts(grid, gold, predicted, threshold);
    var selected := OptimalMatches(candidates, |gold|, |predicted|);
    UsedCount(grid, gold, predicted, threshold, selected);
    hide Heaviest, Best, Listed, ByPair, IsGrid, GoldIndices, PredictedIndices, Outside;
    report := Report(selected, Outside(|gold|, GoldIndices(selected)), Outside(|predicted|, PredictedIndices(selected)));
    IndicesAre(selected);
    SelectedDeserve(grid, gold, predicted, threshold, selected);
    if Min(|gold|, |predicted|) <= 500 {
      ScoresAtMostTwo(grid, gold, predicted, threshold);
      HeaviestIsBest(grid, Pairs(selected), |gold|, |predicted|, 2.0);
    }
  }

  /** A matched pair's reported score and what made it a match. */
  ghost predicate Deserves(c: Candidate, gold: Account, predicted: Account, threshold: real)
    requires gold.Valid() && predicted.Valid()
  {
    && (Overlap(gold.title, predicted.title) >= threshold || Overlap(gold.subject, predicted.subject) >= threshold)
    && Meets(gold.lines, predicted.lines)
    && c.score == Max(Overlap(gold.title, predicted.title), Overlap(gold.subject, predicted.subject))
                  + CommonShare(gold.lines, predicted.lines)
  }

  lemma SelectedDeserve(grid: Grid, gold: seq<Account>, predicted: seq<Account>, threshold: real,
                        selected: seq<Candidate>)
    requires AllValid(gold) && AllValid(predicted) && IsGrid(grid, gold, predicted, threshold)
    requires Listed(grid, selected)
    ensures forall c | c in selected ::
              && c.goldIndex < |gold| && c.predictedIndex < |predicted|
              && Deserves(c, gold[c.goldIndex], predicted[c.predictedIndex], threshold)
  {
    hide Overlap, Meets, CommonShare;
    forall c | c in selected
      ensures c.goldIndex < |gold| && c.predictedIndex < |predicted|
      ensures Deserves(c, gold[c.goldIndex], predicted[c.predictedIndex], threshold)
    {
      var key: (nat, nat) := (c.predictedIndex, c.goldIndex);
      assert Eligible(grid, c.predictedIndex, c.goldIndex) && key in grid && grid[key] == c;
      assert Weighs(c, gold[key.1], predicted[key.0], threshold);
    }
  }

  lemma IndicesAre(selected: seq<Candidate>)
    ensures forall g: nat :: g in GoldIndices(selected) <==> exists c :: c in selected && c.goldIndex == g
    ensures forall p: nat :: p in PredictedIndices(selected) <==> exists c :: c in selected && c.predictedIndex == p
  {
  }

  function GoldIndices(selected: seq<Candidate>): set<nat> {
    set c | c in selected :: c.goldIndex
  }

  function PredictedIndices(selected: seq<Candidate>): set<nat> {
    set c | c in selected :: c.predictedIndex
  }

  lemma {:induction false} IndexCounts(grid: Grid, selected: seq<Candidate>)
    requires Listed(grid, selected)
    ensures |GoldIndices(selected)| == |PredictedIndices(selected)| == |selected|
  {
    hide Listed;
    if selected != [] {
      var rest, last := selected[..|selected| - 1], selected[|selected| - 1];
      assert selected == rest + [last];
      LastIsNew(grid, rest, last);
      IndexCounts(grid, rest);
      OneMoreIndex(rest, last);
    }
  }

  lemma LastIsNew(grid: Grid, rest: seq<Candidate>, last: Candidate)
    requires Listed(grid, rest + [last])
    ensures Listed(grid, rest)
    ensures forall c | c in rest :: c.goldIndex != last.goldIndex && c.predictedIndex != last.predictedIndex
  {
    hide Eligible;
    var s := rest + [last];
    assert s[|rest|] == last && forall k | 0 <= k < |rest| :: s[k] == rest[k];
  }

  lemma OneMoreIndex(rest: seq<Candidate>, last: Candidate)
    requires forall c | c in rest :: c.goldIndex != last.goldIndex && c.predictedIndex != last.predictedIndex
    ensures |GoldIndices(rest + [last])| == |GoldIndices(rest)| + 1
    ensures |PredictedIndices(rest + [last])| == |PredictedIndices(rest)| + 1
  {
    forall c ensures c in rest + [last] <==> c in rest || c == last {
    }
    assert GoldIndices(rest + [last]) == GoldIndices(rest) + {last.goldIndex};
    assert PredictedIndices(rest + [last]) == PredictedIndices(rest) + {last.predictedIndex};
  }

  lemma UsedCount(grid: Grid, gold: seq<Account>, predicted: seq<Account>, threshold: real, selected: seq<Candidate>)
    requires AllValid(gold) && AllValid(predicted) && IsGrid(grid, gold, predicted, threshold)
    requires Listed(grid, selected)
    ensures |GoldIndices(selected)| == |PredictedIndices(selected)| == |selected|
    ensures forall g | g in GoldIndices(selected) :: g < |gold|
    ensures forall p | p in PredictedIndices(selected) :: p < |predicted|
  {
    IndexCounts(grid, selected);
    forall c | c in selected ensures c.goldIndex < |gold| && c.predictedIndex < |predicted| {
      assert Eligible(grid, c.predictedIndex, c.goldIndex);
    }
  }
}
