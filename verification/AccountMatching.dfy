/** One-to-one matching of predicted accounts to gold accounts: as many pairs as possible
    first, then as much score as possible. */
module AccountMatching {
  import opened SetFacts
  import opened Assignment

  datatype Candidate = Candidate(goldIndex: nat, predictedIndex: nat, score: real, eligible: bool)

  /** Candidates by (predicted, gold). */
  type Grid = map<(nat, nat), Candidate>

  /** What one more eligible pair is worth against any amount of score. */
  const BONUS := 1000.0

  lemma BonusIs()
    ensures BONUS == 1000.0
  {
  }

  /** A later candidate for the same pair replaces an earlier one. */
  function ByPair(candidates: seq<Candidate>): (grid: Grid)
    ensures forall key | key in grid ::
              grid[key] in candidates && key == (grid[key].predictedIndex, grid[key].goldIndex)
    ensures forall c | c in candidates :: (c.predictedIndex, c.goldIndex) in grid
  {
    if candidates == [] then map[]
    else
      var c := candidates[|candidates| - 1];
      ByPair(candidates[..|candidates| - 1])[(c.predictedIndex, c.goldIndex) := c]
  }

  /** No later candidate is about the same two accounts. */
  ghost predicate LastOfPair(candidates: seq<Candidate>, i: nat)
    requires i < |candidates|
  {
    forall j | i < j < |candidates| ::
      candidates[j].goldIndex != candidates[i].goldIndex || candidates[j].predictedIndex != candidates[i].predictedIndex
  }

  /** Of the candidates about two accounts the last one given counts. */
  lemma {:induction false} LastGivenCounts(candidates: seq<Candidate>, i: nat)
    requires i < |candidates| && LastOfPair(candidates, i)
    ensures ByPair(candidates)[(candidates[i].predictedIndex, candidates[i].goldIndex)] == candidates[i]
  {
    var init := candidates[..|candidates| - 1];
    if i < |init| {
      assert init[i] == candidates[i] && init[i] in init;
      assert LastOfPair(init, i);
      LastGivenCounts(init, i);
    }
  }

  ghost predicate Full(grid: Grid, gold: nat, predicted: nat) {
    forall p: nat, g: nat | p < predicted && g < gold :: (p, g) in grid
  }

  /** Every candidate sits under its own indices. */
  ghost predicate Keyed(grid: Grid) {
    forall key | key in grid :: key == (grid[key].predictedIndex, grid[key].goldIndex)
  }

  ghost predicate OnCell(grid: Grid, c: Candidate) {
    (c.predictedIndex, c.goldIndex) in grid && grid[(c.predictedIndex, c.goldIndex)] == c
  }

  /** The cells before (g, p), gold account by gold account, are listed, and only cells are. */
  ghost predicate CellsListed(candidates: seq<Candidate>, grid: Grid, gold: nat, predicted: nat, g: nat, p: nat) {
    && Full(grid, gold, predicted) && (forall c | c in candidates :: OnCell(grid, c))
    && forall key | key in grid && (key.1 < g || (key.1 == g && key.0 < p)) :: grid[key] in candidates
  }

  lemma NothingListed(grid: Grid, gold: nat, predicted: nat)
    requires Full(grid, gold, predicted)
    ensures CellsListed([], grid, gold, predicted, 0, 0)
  {
  }

  lemma ListingNext(candidates: seq<Candidate>, grid: Grid, gold: nat, predicted: nat, g: nat, p: nat, c: Candidate)
    requires CellsListed(candidates, grid, gold, predicted, g, p) && OnCell(grid, c)
    requires c.goldIndex == g && c.predictedIndex == p
    ensures CellsListed(candidates + [c], grid, gold, predicted, g, p + 1)
  {
  }

  lemma ListingRow(candidates: seq<Candidate>, grid: Grid, gold: nat, predicted: nat, g: nat)
    requires CellsListed(candidates, grid, gold, predicted, g, predicted) && InRange(grid, gold, predicted)
    ensures CellsListed(candidates, grid, gold, predicted, g + 1, 0)
  {
  }

  /** Once every cell is listed, the list by pair is the grid. */
  lemma ListingAll(candidates: seq<Candidate>, grid: Grid, gold: nat, predicted: nat)
    requires CellsListed(candidates, grid, gold, predicted, gold, 0) && InRange(grid, gold, predicted) && Keyed(grid)
    ensures ByPair(candidates) == grid
  {
    hide ByPair;
    forall key | key in grid ensures key in ByPair(candidates) {
      assert grid[key] in candidates;
    }
  }

  predicate Eligible(grid: Grid, p: nat, g: nat) {
    (p, g) in grid && grid[(p, g)].eligible
  }

  // ----- Partial matchings and their worth

  /** Predicted index to gold index: eligible pairs, no gold account taken twice. */
  ghost predicate IsMatching(grid: Grid, m: map<nat, nat>, gold: nat, predicted: nat) {
    && (forall p | p in m :: p < predicted && m[p] < gold && Eligible(grid, p, m[p]))
    && forall p, q | p in m && q in m && p != q :: m[p] != m[q]
  }

  ghost function Score(grid: Grid, m: map<nat, nat>, n: nat): real
    requires forall p | p in m :: (p, m[p]) in grid
  {
    if n == 0 then 0.0
    else Score(grid, m, n - 1) + if n - 1 in m then grid[(n - 1, m[n - 1])].score else 0.0
  }

  ghost function Weight(grid: Grid, m: map<nat, nat>, predicted: nat): real
    requires forall p | p in m :: (p, m[p]) in grid
  {
    Times(1000.0, |m|) + Score(grid, m, predicted)
  }

  /** No eligible matching is heavier. */
  ghost predicate Heaviest(grid: Grid, m: map<nat, nat>, gold: nat, predicted: nat) {
    && IsMatching(grid, m, gold, predicted)
    && forall other | IsMatching(grid, other, gold, predicted) ::
         Weight(grid, other, predicted) <= Weight(grid, m, predicted)
  }

  /** The documented promise: most pairs first, then most score among those. */
  ghost predicate Best(grid: Grid, m: map<nat, nat>, gold: nat, predicted: nat) {
    && IsMatching(grid, m, gold, predicted)
    && forall other | IsMatching(grid, other, gold, predicted) ::
         && |other| <= |m|
         && (|other| == |m| ==> Score(grid, other, predicted) <= Score(grid, m, predicted))
  }

  // ----- Costs

  /** Cost of giving column g to row p; columns past the gold accounts are unmatched slots. */
  function Cost(grid: Grid, p: nat, g: nat): real {
    if Eligible(grid, p, g) then -(BONUS + grid[(p, g)].score) else 0.0
  }

  ghost predicate IsCostTable(costs: Costs, grid: Grid, predicted: nat, columns: nat) {
    && IsTable(costs, predicted, columns)
    && forall p, g | 0 <= p < predicted && 0 <= g < columns :: costs[p][g] == Cost(grid, p, g)
  }

  method BuildCosts(grid: Grid, predicted: nat, columns: nat) returns (costs: Costs)
    ensures IsCostTable(costs, grid, predicted, columns)
  {
    costs := [];
    for p := 0 to predicted
      invariant IsCostTable(costs, grid, p, columns)
    {
      var row := [];
      for g := 0 to columns
        invariant |row| == g && forall k | 0 <= k < g :: row[k] == Cost(grid, p, k)
      {
        row := row + [Cost(grid, p, g)];
      }
      costs := costs + [row];
    }
  }

  // ----- Partial matchings as full assignments, and back

  /** An unmatched prediction takes its own slot past the gold columns. */
  ghost function Extended(m: map<nat, nat>, gold: nat, predicted: nat): seq<nat> {
    seq(predicted, p requires 0 <= p < predicted => if p in m then m[p] else gold + p)
  }

  /** The eligible pairs of a full assignment. */
  ghost function Kept(grid: Grid, a: seq<nat>, gold: nat): map<nat, nat> {
    map p: nat | p < |a| && a[p] < gold && Eligible(grid, p, a[p]) :: a[p]
  }

  /** Number of matched predictions below n. */
  ghost function Matched(m: map<nat, nat>, n: nat): set<nat> {
    set p: nat | p < n && p in m
  }

  /** An assignment that pays exactly for the pairs of m costs minus m's weight. */
  lemma {:induction false} CostIsWeight(costs: Costs, a: seq<nat>, grid: Grid, m: map<nat, nat>, n: nat)
    requires n <= |a| && n <= |costs|
    requires forall p | 0 <= p < n :: a[p] < |costs[p]|
    requires forall p | p in m :: (p, m[p]) in grid
    requires forall p: nat | p < n ::
               costs[p][a[p]] == if p in m then -(BONUS + grid[(p, m[p])].score) else 0.0
    ensures TotalCost(costs, a, n) == -(Times(BONUS, |Matched(m, n)|) + Score(grid, m, n))
  {
    if n == 0 {
      assert Matched(m, 0) == {};
    } else {
      CostIsWeight(costs, a, grid, m, n - 1);
      if n - 1 in m {
        assert Matched(m, n) == Matched(m, n - 1) + {n - 1};
      } else {
        assert Matched(m, n) == Matched(m, n - 1);
      }
    }
  }

  lemma MatchingCost(costs: Costs, a: seq<nat>, grid: Grid, m: map<nat, nat>, gold: nat, predicted: nat)
    requires IsCostTable(costs, grid, predicted, gold + predicted)
    requires IsMatching(grid, m, gold, predicted)
    requires |a| == predicted
    requires forall p: nat | p < predicted :: a[p] < gold + predicted
    requires forall p: nat | p < predicted ::
               if p in m then a[p] == m[p] else !Eligible(grid, p, a[p])
    ensures TotalCost(costs, a, predicted) == -Weight(grid, m, predicted)
  {
    CostIsWeight(costs, a, grid, m, predicted);
    assert Matched(m, predicted) == m.Keys;
    assert |m.Keys| == |m|;
  }

  /** Indices lie on the grid. */
  ghost predicate InRange(grid: Grid, gold: nat, predicted: nat) {
    forall key | key in grid :: key.0 < predicted && key.1 < gold
  }

  /** The cheapest assignment keeps a heaviest matching: any rival matching, filled up with
      unmatched slots, is an assignment too. */
  lemma CheapestIsHeaviest(costs: Costs, grid: Grid, best: seq<nat>, gold: nat, predicted: nat)
    requires IsCostTable(costs, grid, predicted, gold + predicted) && InRange(grid, gold, predicted)
    requires IsAssignment(best, predicted, gold + predicted)
    requires forall a | IsAssignment(a, predicted, gold + predicted) ::
               TotalCost(costs, best, predicted) <= TotalCost(costs, a, predicted)
    ensures Heaviest(grid, Kept(grid, best, gold), gold, predicted)
  {
    var m := Kept(grid, best, gold);
    MatchingCost(costs, best, grid, m, gold, predicted);
    forall other | IsMatching(grid, other, gold, predicted)
      ensures Weight(grid, other, predicted) <= Weight(grid, m, predicted)
    {
      var a := Extended(other, gold, predicted);
      assert IsAssignment(a, predicted, gold + predicted);
      MatchingCost(costs, a, grid, other, gold, predicted);
    }
  }

  // ----- The matcher

  /** The pairs of a list of selected candidates. */
  ghost function Pairs(selected: seq<Candidate>): map<nat, nat> {
    if selected == [] then map[]
    else
      var c := selected[|selected| - 1];
      Pairs(selected[..|selected| - 1])[c.predictedIndex := c.goldIndex]
  }

  /** The list is one-to-one, in order of gold index, and drawn from the grid. */
  ghost predicate Listed(grid: Grid, selected: seq<Candidate>) {
    && (forall k | 0 <= k < |selected| ::
          var c := selected[k];
          Eligible(grid, c.predictedIndex, c.goldIndex) && grid[(c.predictedIndex, c.goldIndex)] == c)
    && (forall k, l | 0 <= k < l < |selected| ::
          selected[k].goldIndex < selected[l].goldIndex && selected[k].predictedIndex != selected[l].predictedIndex)
  }

  /** The pairs of m whose gold index is below n. */
  ghost function Upto(m: map<nat, nat>, n: nat): map<nat, nat> {
    map p | p in m && m[p] < n :: m[p]
  }

  /** Column `column` of the solved matching holds a kept pair, or nothing worth keeping. */
  lemma NextPair(grid: Grid, matchedRow: seq<nat>, slot: seq<int>, gold: nat, predicted: nat, column: nat)
    requires |matchedRow| == gold + predicted + 1 && |slot| == predicted + 1
    requires Inverse(matchedRow, slot, predicted, 0)
    requires forall i | 1 <= i <= predicted :: slot[i] >= 1
    requires 1 <= column <= gold
    ensures var m := Kept(grid, Chosen(slot, predicted), gold);
            var row := matchedRow[column];
            Upto(m, column) == if row != 0 && Eligible(grid, row - 1, column - 1)
                               then Upto(m, column - 1)[row - 1 := column - 1] else Upto(m, column - 1)
    ensures matchedRow[column] <= predicted
    ensures matchedRow[column] != 0 ==>
              matchedRow[column] - 1 !in Upto(Kept(grid, Chosen(slot, predicted), gold), column - 1)
  {
    var best := Chosen(slot, predicted);
    forall p: nat | p < predicted ensures best[p] == column - 1 <==> matchedRow[column] == p + 1 {
      assert matchedRow[slot[p + 1]] == p + 1;
    }
  }

  /** What the closing loop has gathered: a list of the pairs m, all below gold index n. */
  ghost predicate Gathered(grid: Grid, selected: seq<Candidate>, m: map<nat, nat>, n: nat) {
    && Listed(grid, selected)
    && Pairs(selected) == m && |m| == |selected|
    && forall k | 0 <= k < |selected| :: selected[k].goldIndex < n && selected[k].predictedIndex in m
  }

  lemma Gather(grid: Grid, selected: seq<Candidate>, m: map<nat, nat>, c: Candidate)
    requires Gathered(grid, selected, m, c.goldIndex) && c.predictedIndex !in m
    requires Eligible(grid, c.predictedIndex, c.goldIndex) && grid[(c.predictedIndex, c.goldIndex)] == c
    ensures Gathered(grid, selected + [c], m[c.predictedIndex := c.goldIndex], c.goldIndex + 1)
  {
    assert (selected + [c])[..|selected|] == selected;
  }

  lemma GatherNone(grid: Grid, selected: seq<Candidate>, m: map<nat, nat>, n: nat)
    requires Gathered(grid, selected, m, n)
    ensures Gathered(grid, selected, m, n + 1)
  {
  }

  lemma OnGrid(grid: Grid, gold: nat, predicted: nat, p: nat, g: nat)
    requires Keyed(grid) && Full(grid, gold, predicted) && p < predicted && g < gold
    ensures (p, g) in grid && grid[(p, g)].predictedIndex == p && grid[(p, g)].goldIndex == g
    ensures Eligible(grid, p, g) <==> grid[(p, g)].eligible
  {
  }

  lemma GatherNext(grid: Grid, matchedRow: seq<nat>, slot: seq<int>, gold: nat, predicted: nat, column: nat,
                   selected: seq<Candidate>)
    requires Keyed(grid) && Full(grid, gold, predicted)
    requires |matchedRow| == gold + predicted + 1 && |slot| == predicted + 1
    requires Inverse(matchedRow, slot, predicted, 0)
    requires forall i | 1 <= i <= predicted :: slot[i] >= 1
    requires 1 <= column <= gold
    requires Gathered(grid, selected, Upto(Kept(grid, Chosen(slot, predicted), gold), column - 1), column - 1)
    ensures var row, m := matchedRow[column], Kept(grid, Chosen(slot, predicted), gold);
            && (row != 0 ==> (row - 1, column - 1) in grid)
            && Gathered(grid, if row != 0 && grid[(row - 1, column - 1)].eligible
                              then selected + [grid[(row - 1, column - 1)]] else selected, Upto(m, column), column)
  {
    hide *;
    var m := Kept(grid, Chosen(slot, predicted), gold);
    NextPair(grid, matchedRow, slot, gold, predicted, column);
    GatherNone(grid, selected, Upto(m, column - 1), column - 1);
    if matchedRow[column] != 0 {
      OnGrid(grid, gold, predicted, matchedRow[column] - 1, column - 1);
      var candidate := grid[(matchedRow[column] - 1, column - 1)];
      if candidate.eligible {
        Gather(grid, selected, Upto(m, column - 1), candidate);
      }
    }
  }

  /** The closing loop: read the eligible pairs off the solved matching in column order. */
  method Select(grid: Grid, matchedRow: seq<nat>, ghost slot: seq<int>, gold: nat, predicted: nat)
    returns (selected: seq<Candidate>)
    requires Keyed(grid) && Full(grid, gold, predicted)
    requires |matchedRow| == gold + predicted + 1 && |slot| == predicted + 1
    requires Inverse(matchedRow, slot, predicted, 0)
    requires forall i | 1 <= i <= predicted :: slot[i] >= 1
    ensures Gathered(grid, selected, Kept(grid, Chosen(slot, predicted), gold), gold)
  {
    ghost var m := Kept(grid, Chosen(slot, predicted), gold);
    UptoAll(grid, Chosen(slot, predicted), gold);
    hide *;
    selected := [];
    for column := 1 to gold + 1
      invariant Gathered(grid, selected, Upto(m, column - 1), column - 1)
    {
      GatherNext(grid, matchedRow, slot, gold, predicted, column, selected);
      if matchedRow[column] != 0 {
        var candidate := grid[(matchedRow[column] - 1, column - 1)];
        if candidate.eligible {
          selected := selected + [candidate];
        }
      }
    }
  }

  lemma UptoAll(grid: Grid, a: seq<nat>, gold: nat)
    ensures Upto(Kept(grid, a, gold), gold) == Kept(grid, a, gold)
    ensures Gathered(grid, [], Upto(Kept(grid, a, gold), 0), 0)
  {
    assert Upto(Kept(grid, a, gold), 0) == map[];
  }

  /** The pairs kept of a whole run of the solver on the grid's costs. */
  ghost predicate ReturnedBy(grid: Grid, gold: nat, predicted: nat, m: map<nat, nat>, costs: Costs,
                             matchedRow: seq<nat>, slot: seq<int>)
  {
    && IsCostTable(costs, grid, predicted, gold + predicted)
    && Solved(costs, predicted, gold + predicted, matchedRow, slot)
    && |slot| == predicted + 1 && (forall i | 1 <= i <= predicted :: slot[i] >= 1)
    && m == Kept(grid, Chosen(slot, predicted), gold)
  }

  /** The matcher's own answer on the grid, among all heaviest ones. */
  ghost predicate Returned(grid: Grid, gold: nat, predicted: nat, m: map<nat, nat>) {
    if gold == 0 || predicted == 0 then m == map[]
    else exists costs, matchedRow, slot :: ReturnedBy(grid, gold, predicted, m, costs, matchedRow, slot)
  }

  lemma ReturnedIsHeaviest(grid: Grid, gold: nat, predicted: nat, m: map<nat, nat>)
    requires Returned(grid, gold, predicted, m) && InRange(grid, gold, predicted)
    ensures Heaviest(grid, m, gold, predicted)
  {
    if gold == 0 || predicted == 0 {
      NothingToMatch(grid, gold, predicted);
    } else {
      var costs, matchedRow, slot := RunReturned(grid, gold, predicted, m);
      hide *;
      var d := SolvedEnd(costs, predicted, gold + predicted, matchedRow, slot);
      SettledIsHeaviest(costs, grid, gold, predicted, d);
    }
  }

  lemma RunReturned(grid: Grid, gold: nat, predicted: nat, m: map<nat, nat>)
    returns (costs: Costs, matchedRow: seq<nat>, slot: seq<int>)
    requires Returned(grid, gold, predicted, m) && gold != 0 && predicted != 0
    ensures IsCostTable(costs, grid, predicted, gold + predicted)
    ensures Solved(costs, predicted, gold + predicted, matchedRow, slot)
    ensures |slot| == predicted + 1 && (forall i | 1 <= i <= predicted :: slot[i] >= 1)
    ensures m == Kept(grid, Chosen(slot, predicted), gold)
  {
    costs, matchedRow, slot :| ReturnedBy(grid, gold, predicted, m, costs, matchedRow, slot);
    hide Kept, Solved, IsCostTable;
  }

  lemma SettledIsHeaviest(costs: Costs, grid: Grid, gold: nat, predicted: nat, d: State)
    requires Settled(costs, predicted, gold + predicted, d.u, d.v, d.p, d.slot, predicted)
    requires IsCostTable(costs, grid, predicted, gold + predicted) && InRange(grid, gold, predicted)
    ensures |d.slot| == predicted + 1 && forall i | 1 <= i <= predicted :: d.slot[i] >= 1
    ensures Heaviest(grid, Kept(grid, Chosen(d.slot, predicted), gold), gold, predicted)
  {
    SettledInverse(costs, predicted, gold + predicted, d);
    ChosenIsAssignment(d.p, d.slot, predicted, gold + predicted);
    hide Settled, Heaviest, Kept, InRange, Inverse, IsAssignment;
    forall a | IsAssignment(a, predicted, gold + predicted)
      ensures TotalCost(costs, Chosen(d.slot, predicted), predicted) <= TotalCost(costs, a, predicted)
    {
      SettledIsOptimal(costs, predicted, gold + predicted, d.u, d.v, d.p, d.slot, a);
    }
    CheapestIsHeaviest(costs, grid, Chosen(d.slot, predicted), gold, predicted);
  }

  lemma SettledInverse(c: Costs, rows: nat, columns: nat, d: State)
    requires Settled(c, rows, columns, d.u, d.v, d.p, d.slot, rows)
    ensures |d.p| == columns + 1 && |d.slot| == rows + 1 && Inverse(d.p, d.slot, rows, 0)
  {
  }

  lemma SolvedEnd(c: Costs, rows: nat, columns: nat, matchedRow: seq<nat>, slot: seq<int>) returns (d: State)
    requires Solved(c, rows, columns, matchedRow, slot)
    ensures Settled(c, rows, columns, d.u, d.v, d.p, d.slot, rows) && d.p == matchedRow && d.slot == slot
  {
    var run: seq<State> :| SolvedBy(c, rows, columns, run) && |run| == rows + 1
                           && run[rows].p == matchedRow && run[rows].slot == slot;
    d := run[rows];
    hide Settled;
    assert SettledIn(c, rows, columns, run[rows], rows);
  }

  /** A one-to-one list from the grid, in gold order: the solver's own heaviest matching. */
  ghost predicate Answer(grid: Grid, gold: nat, predicted: nat, selected: seq<Candidate>) {
    && Listed(grid, selected) && |Pairs(selected)| == |selected|
    && Returned(grid, gold, predicted, Pairs(selected))
    && Heaviest(grid, Pairs(selected), gold, predicted)
  }

  /** Maximum-weight one-to-one selection; Heaviest implies Best under `HeaviestIsBest`. */
  method OptimalMatches(candidates: seq<Candidate>, gold: nat, predicted: nat) returns (selected: seq<Candidate>)
    requires Full(ByPair(candidates), gold, predicted) && InRange(ByPair(candidates), gold, predicted)
    ensures Answer(ByPair(candidates), gold, predicted, selected)
  {
    hide *;
    var grid := ByPair(candidates);
    if gold == 0 || predicted == 0 {
      NothingSelected(grid, gold, predicted);
      return [];
    }
    ByPairIsKeyed(candidates);
    var columns := gold + predicted;
    var costs := BuildCosts(grid, predicted, columns);
    var matchedRow, slot := Solve(costs, predicted, columns);
    selected := Select(grid, matchedRow, slot, gold, predicted);
    Answered(grid, gold, predicted, costs, matchedRow, slot, selected);
  }

  lemma ByPairIsKeyed(candidates: seq<Candidate>)
    ensures Keyed(ByPair(candidates))
  {
    hide ByPair;
  }

  lemma NothingSelected(grid: Grid, gold: nat, predicted: nat)
    requires gold == 0 || predicted == 0
    ensures Answer(grid, gold, predicted, [])
  {
    NothingToMatch(grid, gold, predicted);
  }

  /** What the closing loop gathers from the solved matching is the answer. */
  lemma Answered(grid: Grid, gold: nat, predicted: nat, costs: Costs, matchedRow: seq<nat>, slot: seq<int>,
                 selected: seq<Candidate>)
    requires gold != 0 && predicted != 0 && |slot| == predicted + 1 && forall i | 1 <= i <= predicted :: slot[i] >= 1
    requires IsCostTable(costs, grid, predicted, gold + predicted)
    requires Solved(costs, predicted, gold + predicted, matchedRow, slot)
    requires Gathered(grid, selected, Kept(grid, Chosen(slot, predicted), gold), gold)
    requires InRange(grid, gold, predicted)
    ensures Answer(grid, gold, predicted, selected)
  {
    var m := Kept(grid, Chosen(slot, predicted), gold);
    assert Pairs(selected) == m && |m| == |selected| && Listed(grid, selected);
    hide Kept, Gathered, Listed, Pairs, Solved, IsCostTable, Heaviest, InRange;
    assert ReturnedBy(grid, gold, predicted, m, costs, matchedRow, slot);
    hide ReturnedBy;
    ReturnedIsHeaviest(grid, gold, predicted, m);
  }

  lemma NothingToMatch(grid: Grid, gold: nat, predicted: nat)
    requires gold == 0 || predicted == 0
    ensures Heaviest(grid, map[], gold, predicted)
  {
    forall m: map<nat, nat> | IsMatching(grid, m, gold, predicted) ensures m == map[] {
    }
  }

  // ----- When a heaviest matching keeps the documented promise

  /** Every eligible score lies in [0, top]. */
  ghost predicate Bounded(grid: Grid, top: real) {
    forall key | key in grid && grid[key].eligible :: 0.0 <= grid[key].score <= top
  }

  function Min(a: nat, b: nat): nat {
    if a < b then a else b
  }

  /** x times n; kept behind lemmas because products of variables are slow to reason about. */
  ghost function Times(x: real, n: int): real {
    x * n as real
  }

  lemma TimesStep(x: real, n: int)
    ensures Times(x, n + 1) == Times(x, n) + x
    ensures Times(x, 0) == 0.0
  {
  }

  lemma TimesMonotone(x: real, a: int, b: int)
    requires x >= 0.0 && a <= b
    ensures Times(x, a) <= Times(x, b)
  {
    assert Times(x, b) - Times(x, a) == x * (b - a) as real;
  }

  lemma TimesSum(x: real, y: real, n: int)
    ensures Times(x + y, n) == Times(x, n) + Times(y, n)
  {
  }

  lemma {:induction false} ScoreBounds(grid: Grid, m: map<nat, nat>, gold: nat, predicted: nat, top: real, n: nat)
    requires IsMatching(grid, m, gold, predicted) && Bounded(grid, top)
    ensures 0.0 <= Score(grid, m, n) <= Times(top, |Matched(m, n)|)
  {
    forall p | p in m ensures (p, m[p]) in grid {
      assert Eligible(grid, p, m[p]);
    }
    MatchedGrows(m, n);
    hide Times, Matched, IsMatching;
    TimesStep(top, 0);
    if n > 0 {
      ScoreBounds(grid, m, gold, predicted, top, n - 1);
      TimesStep(top, |Matched(m, n - 1)|);
    }
  }

  lemma MatchedGrows(m: map<nat, nat>, n: nat)
    ensures |Matched(m, n)| == if n == 0 then 0 else |Matched(m, n - 1)| + if n - 1 in m then 1 else 0
  {
    if n > 0 {
      assert Matched(m, n) == if n - 1 in m then Matched(m, n - 1) + {n - 1} else Matched(m, n - 1);
    }
  }

  lemma WeightBounds(grid: Grid, m: map<nat, nat>, gold: nat, predicted: nat, top: real)
    requires IsMatching(grid, m, gold, predicted) && Bounded(grid, top)
    ensures Times(BONUS, |m|) <= Weight(grid, m, predicted) <= Times(BONUS + top, |m|)
  {
    ScoreBounds(grid, m, gold, predicted, top, predicted);
    TimesSum(BONUS, top, |m|);
    hide Times;
    assert Matched(m, predicted) == m.Keys;
    assert |m.Keys| == |m|;
  }

  lemma {:induction false} InjectiveSize(m: map<nat, nat>, keys: set<nat>)
    requires keys <= m.Keys
    requires forall p, q | p in m && q in m && p != q :: m[p] != m[q]
    ensures |set p | p in keys :: m[p]| == |keys|
  {
    if keys != {} {
      var p :| p in keys;
      InjectiveSize(m, keys - {p});
      assert (set q | q in keys :: m[q]) == (set q | q in keys - {p} :: m[q]) + {m[p]};
    }
  }

  lemma MatchingSize(grid: Grid, m: map<nat, nat>, gold: nat, predicted: nat)
    requires IsMatching(grid, m, gold, predicted)
    ensures |m| <= Min(gold, predicted)
  {
    hide IsMatching, Range;
    MatchingColumns(grid, m, gold, predicted);
    MatchingRows(grid, m, gold, predicted);
    assert |m.Keys| == |m|;
  }

  lemma MatchingColumns(grid: Grid, m: map<nat, nat>, gold: nat, predicted: nat)
    requires IsMatching(grid, m, gold, predicted)
    ensures |m.Keys| <= gold
  {
    InjectiveSize(m, m.Keys);
    SubsetSize(set p | p in m.Keys :: m[p] as int, Range(gold));
    assert (set p | p in m.Keys :: m[p] as int) == set p | p in m.Keys :: m[p];
  }

  lemma MatchingRows(grid: Grid, m: map<nat, nat>, gold: nat, predicted: nat)
    requires IsMatching(grid, m, gold, predicted)
    ensures |m.Keys| <= predicted
  {
    SubsetSize(set p | p in m.Keys :: p as int, Range(predicted));
    assert (set p | p in m.Keys :: p as int) == m.Keys;
  }

  lemma BonusWins(top: real, a: nat, b: nat, most: nat)
    requires top >= 0.0 && a < b <= most && Times(top, most - 1) < BONUS
    ensures Times(BONUS + top, a) < Times(BONUS, b)
  {
    hide Times;
    TimesMonotone(top, a, most - 1);
    TimesMonotone(BONUS, a + 1, b);
    TimesStep(BONUS, a);
    TimesSum(BONUS, top, a);
  }

  /** The bonus outweighs all the score the smaller matching could carry. */
  lemma HeaviestIsBest(grid: Grid, m: map<nat, nat>, gold: nat, predicted: nat, top: real)
    requires Bounded(grid, top) && top >= 0.0
    requires Times(top, Min(gold, predicted) - 1) < 1000.0
    requires Heaviest(grid, m, gold, predicted)
    ensures Best(grid, m, gold, predicted)
  {
    forall other: map<nat, nat> | IsMatching(grid, other, gold, predicted)
      ensures |other| <= |m| && (|other| == |m| ==> Score(grid, other, predicted) <= Score(grid, m, predicted))
    {
      assert Weight(grid, other, predicted) <= Weight(grid, m, predicted);
      WeightBounds(grid, m, gold, predicted, top);
      WeightBounds(grid, other, gold, predicted, top);
      MatchingSize(grid, other, gold, predicted);
      hide *;
      if |other| > |m| {
        BonusWins(top, |m|, |other|, Min(gold, predicted));
      }
    }
  }

  // ----- ... and that the bound cannot be relaxed

  /** Diagonal pairs score nothing; each prediction but the last may step one gold account
      further for `top`. */
  ghost function Staircase(gold: nat, predicted: nat, top: real): (grid: Grid)
    ensures Full(grid, gold, predicted) && (top >= 0.0 ==> Bounded(grid, top))
    ensures forall p: nat, g: nat {:trigger grid[(p, g)]} | (p, g) in grid ::
              grid[(p, g)].score == if g == p + 1 then top else 0.0
    ensures forall p: nat, g: nat {:trigger Eligible(grid, p, g)} ::
              Eligible(grid, p, g) <==>
              p < Min(gold, predicted) && g < Min(gold, predicted) && (g == p || g == p + 1)
  {
    map p: nat, g: nat | p < predicted && g < gold ::
      (p, g) := Candidate(g, p, if g == p + 1 then top else 0.0,
                          p < Min(gold, predicted) && g < Min(gold, predicted) && (g == p || g == p + 1))
  }

  /** Predictions 0..n-1, each to the gold account `shift` further on. */
  ghost function Diagonal(n: nat, shift: nat): (m: map<nat, nat>)
    ensures forall p: nat :: p in m <==> p < n
    ensures forall p: nat | p in m :: m[p] == p + shift
    ensures |m| == n
  {
    if n == 0 then map[] else Diagonal(n - 1, shift)[n - 1 := n - 1 + shift]
  }

  /** On the staircase only the diagonal matches everybody: the last prediction has nowhere
      else to go, so neither has the one before it, and so on down. */
  lemma {:induction false} PerfectIsDiagonal(m: map<nat, nat>, gold: nat, predicted: nat, top: real, p: nat)
    requires IsMatching(Staircase(gold, predicted, top), m, gold, predicted)
    requires p < Min(gold, predicted) && forall q: nat | q < Min(gold, predicted) :: q in m
    ensures m[p] == p
    decreases Min(gold, predicted) - p
  {
    assert Eligible(Staircase(gold, predicted, top), p, m[p]);
    if p + 1 < Min(gold, predicted) {
      PerfectIsDiagonal(m, gold, predicted, top, p + 1);
    }
  }

  lemma {:induction false} ZeroScore(grid: Grid, m: map<nat, nat>, n: nat)
    requires forall p | p in m :: (p, m[p]) in grid && grid[(p, m[p])].score == 0.0
    ensures Score(grid, m, n) == 0.0
  {
    if n > 0 {
      ZeroScore(grid, m, n - 1);
    }
  }

  lemma {:induction false} SteadyScore(grid: Grid, m: map<nat, nat>, top: real, k: nat, n: nat)
    requires forall p: nat :: p in m <==> p < k
    requires forall p | p in m :: (p, m[p]) in grid && grid[(p, m[p])].score == top
    ensures Score(grid, m, n) == Times(top, if n < k then n else k)
  {
    hide Times;
    TimesStep(top, 0);
    TimesStep(top, n - 1);
    if n > 0 {
      SteadyScore(grid, m, top, k, n - 1);
    }
  }

  lemma StaircasePerfect(m: map<nat, nat>, gold: nat, predicted: nat, top: real)
    requires IsMatching(Staircase(gold, predicted, top), m, gold, predicted)
    requires |m| == Min(gold, predicted)
    ensures Weight(Staircase(gold, predicted, top), m, predicted) == Times(BONUS, |m|)
  {
    var n, grid := Min(gold, predicted), Staircase(gold, predicted, top);
    hide Staircase, Weight, Times;
    assert forall p | p in m :: p < n && Eligible(grid, p, m[p]);
    EveryKey(m, n);
    forall p: nat | p < n ensures m[p] == p {
      PerfectIsDiagonal(m, gold, predicted, top, p);
    }
    ZeroScore(grid, m, predicted);
    assert Weight(grid, m, predicted) == Times(BONUS, |m|) + Score(grid, m, predicted) by {
      WeightIs(grid, m, predicted);
    }
  }

  lemma WeightIs(grid: Grid, m: map<nat, nat>, predicted: nat)
    requires forall p | p in m :: (p, m[p]) in grid
    ensures Weight(grid, m, predicted) == Times(BONUS, |m|) + Score(grid, m, predicted)
  {
  }

  lemma EveryKey(m: map<nat, nat>, n: nat)
    requires forall p | p in m :: p < n
    requires |m| == n
    ensures forall p: nat | p < n :: p in m
  {
    var keys := set p | p in m.Keys :: p as int;
    assert keys == m.Keys && |m.Keys| == |m|;
    SubsetSize(keys, Range(n));
    forall p: nat | p < n ensures p in m {
      assert p in Range(n);
    }
  }

  /** Once top x (n - 1) reaches the bonus, stepping aside is a heaviest matching of n - 1
      pairs although n pairs are possible. */
  lemma StaircaseBreaksPromise(gold: nat, predicted: nat, top: real)
    requires Min(gold, predicted) >= 1 && top >= 0.0
    requires Times(top, Min(gold, predicted) - 1) >= BONUS
    ensures Full(Staircase(gold, predicted, top), gold, predicted) && Bounded(Staircase(gold, predicted, top), top)
    ensures var m := Diagonal(Min(gold, predicted) - 1, 1);
            && Heaviest(Staircase(gold, predicted, top), m, gold, predicted)
            && !Best(Staircase(gold, predicted, top), m, gold, predicted)
  {
    var grid, m := Staircase(gold, predicted, top), Diagonal(Min(gold, predicted) - 1, 1);
    assert Heaviest(grid, m, gold, predicted) by {
      StaircaseHeaviest(gold, predicted, top);
    }
    assert !Best(grid, m, gold, predicted) by {
      StaircaseSteps(gold, predicted, top);
      hide Staircase, Diagonal, Weight, Bounded, Times, IsMatching, Heaviest;
      assert |Diagonal(Min(gold, predicted), 0)| > |m|;
    }
  }

  lemma StaircaseHeaviest(gold: nat, predicted: nat, top: real)
    requires Min(gold, predicted) >= 1 && top >= 0.0
    requires Times(top, Min(gold, predicted) - 1) >= BONUS
    ensures Heaviest(Staircase(gold, predicted, top), Diagonal(Min(gold, predicted) - 1, 1), gold, predicted)
  {
    var grid, m := Staircase(gold, predicted, top), Diagonal(Min(gold, predicted) - 1, 1);
    hide Staircase, Diagonal, Weight, Bounded, Times, IsMatching;
    StaircaseSteps(gold, predicted, top);
    forall other: map<nat, nat> | IsMatching(grid, other, gold, predicted)
      ensures Weight(grid, other, predicted) <= Weight(grid, m, predicted)
    {
      StaircaseRival(other, gold, predicted, top);
    }
  }

  lemma StaircaseSteps(gold: nat, predicted: nat, top: real)
    requires Min(gold, predicted) >= 1
    ensures IsMatching(Staircase(gold, predicted, top), Diagonal(Min(gold, predicted), 0), gold, predicted)
    ensures IsMatching(Staircase(gold, predicted, top), Diagonal(Min(gold, predicted) - 1, 1), gold, predicted)
    ensures Weight(Staircase(gold, predicted, top), Diagonal(Min(gold, predicted) - 1, 1), predicted)
         == Times(BONUS, Min(gold, predicted) - 1) + Times(top, Min(gold, predicted) - 1)
  {
    var n, grid := Min(gold, predicted), Staircase(gold, predicted, top);
    hide Staircase, Diagonal, Times, Score;
    var m := Diagonal(n - 1, 1);
    SteadyScore(grid, m, top, n - 1, predicted);
  }

  lemma StaircaseRival(m: map<nat, nat>, gold: nat, predicted: nat, top: real)
    requires IsMatching(Staircase(gold, predicted, top), m, gold, predicted)
    requires Min(gold, predicted) >= 1 && top >= 0.0
    requires Times(top, Min(gold, predicted) - 1) >= BONUS
    ensures Weight(Staircase(gold, predicted, top), m, predicted)
         <= Times(BONUS, Min(gold, predicted) - 1) + Times(top, Min(gold, predicted) - 1)
  {
    var n, grid := Min(gold, predicted), Staircase(gold, predicted, top);
    hide Staircase, Times, Weight;
    MatchingSize(grid, m, gold, predicted);
    if |m| == n {
      StaircasePerfect(m, gold, predicted, top);
      hide *;
      TimesStep(BONUS, n - 1);
    } else {
      WeightBounds(grid, m, gold, predicted, top);
      hide *;
      TimesMonotone(BONUS + top, |m|, n - 1);
      TimesSum(BONUS, top, n - 1);
    }
  }

  /** The promise holds for every grid of this size with scores in [0, top] exactly when
      top x (min(gold, predicted) - 1) stays below the bonus. */
  lemma PromiseIffBelowBonus(gold: nat, predicted: nat, top: real)
    requires Min(gold, predicted) >= 1 && top >= 0.0
    ensures Times(top, Min(gold, predicted) - 1) < 1000.0
            <==> forall grid, m: map<nat, nat> | Bounded(grid, top) && Heaviest(grid, m, gold, predicted) ::
                   Best(grid, m, gold, predicted)
  {
    if Times(top, Min(gold, predicted) - 1) < BONUS {
      forall grid, m: map<nat, nat> | Bounded(grid, top) && Heaviest(grid, m, gold, predicted)
        ensures Best(grid, m, gold, predicted)
      {
        HeaviestIsBest(grid, m, gold, predicted, top);
      }
    } else {
      StaircaseBreaksPromise(gold, predicted, top);
    }
  }

  /** Above the bonus no heaviest matching of the staircase is the documented best, so whichever
      the solver returns breaks the promise. */
  lemma AboveBonusBreaksPromise(gold: nat, predicted: nat, top: real, m: map<nat, nat>)
    requires Min(gold, predicted) >= 1 && top >= 0.0
    requires Times(top, Min(gold, predicted) - 1) > 1000.0
    requires Heaviest(Staircase(gold, predicted, top), m, gold, predicted)
    ensures !Best(Staircase(gold, predicted, top), m, gold, predicted)
  {
    var n, grid := Min(gold, predicted), Staircase(gold, predicted, top);
    StaircaseSteps(gold, predicted, top);
    hide Staircase, Diagonal, Weight, Bounded, Times, IsMatching;
    TimesStep(BONUS, n - 1);
    if |m| == n {
      StaircasePerfect(m, gold, predicted, top);
    }
    MatchingSize(grid, m, gold, predicted);
    assert |Diagonal(n, 0)| == n;
  }
}
