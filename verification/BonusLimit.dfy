/** The bonus at its limit: on the staircase whose scores add up to exactly one pair's bonus, the
    solver returns the matching that leaves a prediction out. */
module BonusLimit {
  import opened SetFacts
  import opened Assignment
  import opened SolverRun
  import opened AccountMatching

  /** Cost of row i in column j, counted from one, on a staircase of n steps. */
  function StairCost(n: nat, top: real, i: nat, j: nat): real {
    if i <= n && j <= n && j == i then -BONUS
    else if i <= n && j <= n && j == i + 1 then -(BONUS + top)
    else 0.0
  }

  ghost predicate Stairs(c: Costs, rows: nat, columns: nat, n: nat, top: real) {
    && IsTable(c, rows, columns) && 2 <= n <= rows && rows + n <= columns && top > 0.0 && Times(top, n - 1) == BONUS
    && forall i: nat, j: nat | 1 <= i <= rows && 1 <= j <= columns :: c[i - 1][j - 1] == StairCost(n, top, i, j)
  }

  ghost predicate StateSized(d: State, rows: nat, columns: nat) {
    |d.u| == rows + 1 && |d.v| == |d.p| == |d.way| == columns + 1
  }

  // ----- Every row but the last steps aside

  /** Rows 1..r hold the column behind their own, at its cost. */
  ghost predicate Climbed(d: State, rows: nat, columns: nat, top: real, r: nat) {
    && StateSized(d, rows, columns)
    && (forall j: nat | 1 <= j <= columns :: d.p[j] == (if 2 <= j <= r + 1 then j - 1 else 0) && d.v[j] == 0.0)
    && forall i: nat | 1 <= i <= rows :: d.u[i] == if i <= r then -(BONUS + top) else 0.0
  }

  lemma ClimbStep(c: Costs, rows: nat, columns: nat, n: nat, top: real, r: nat, d: State, s: Search)
    requires Stairs(c, rows, columns, n, top) && 1 <= r < n && Climbed(d, rows, columns, top, r - 1)
    requires Stepped(c, rows, columns, d.p[0 := r], Root(d, columns), s)
    ensures SearchSized(s, rows, columns) && s.column == r + 1 && s.way[r + 1] == 0
    ensures forall j | 1 <= j <= columns :: s.v[j] == 0.0
    ensures forall i: nat | 1 <= i <= rows :: s.u[i] == if i <= r then -(BONUS + top) else 0.0
  {
    hide Stepped, Root, Times;
    var delta := RootStep(c, rows, columns, r, d, s);
    assert forall j: nat | 1 <= j <= columns :: Reduced(c, d.u, d.v, r, j) == StairCost(n, top, r, j);
    hide Reduced;
    assert delta <= StairCost(n, top, r, r + 1);
  }

  lemma Climb(c: Costs, rows: nat, columns: nat, n: nat, top: real, r: nat, d: State, d': State, t: seq<Search>,
              path: seq<nat>)
    requires Stairs(c, rows, columns, n, top) && 1 <= r < n && Climbed(d, rows, columns, top, r - 1)
    requires PlacedBy(c, rows, columns, r, d, d', t, path)
    ensures Climbed(d', rows, columns, top, r)
  {
    hide PlacedBy, Stepped, Searched, Root, IsPath, Moved, Times;
    TraceOf(c, rows, columns, r, d, d', t, path);
    ClimbStep(c, rows, columns, n, top, r, d, t[1]);
    EndsAtFree(c, rows, columns, d.p[0 := r], t, 1);
    EndsDirectly(c, rows, columns, r, d, d', t, path);
  }

  // ----- The last row of the staircase

  /** After k steps the search has used the last k - 1 steps' columns and stands at the one before
      them; every other column is still reached best from the root, at what is left of the bonus. */
  ghost predicate Chained(s: Search, rows: nat, columns: nat, n: nat, top: real, k: nat) {
    && SearchSized(s, rows, columns) && 1 <= k <= n <= rows && n <= columns && s.column == n + 1 - k
    && (forall j: nat | 0 <= j <= columns :: s.used[j] <==> j == 0 || n + 2 - k <= j <= n)
    && (forall j: nat | 1 <= j <= columns && !s.used[j] :: s.v[j] == 0.0)
    && (forall j: nat | 1 <= j <= columns && !s.used[j] && j != s.column ::
          s.minimum[j] == Set(BONUS - Times(top, k - 1)) && s.way[j] == 0)
    && (forall i: nat | 1 <= i <= n - k :: s.u[i] == -(BONUS + top))
    && (forall i: nat | n < i <= rows :: s.u[i] == 0.0)
    && (k == n ==> s.way[1] == 0)
  }

  lemma ChainStart(c: Costs, rows: nat, columns: nat, n: nat, top: real, d: State, s: Search)
    requires Stairs(c, rows, columns, n, top) && Climbed(d, rows, columns, top, n - 1)
    requires Stepped(c, rows, columns, d.p[0 := n], Root(d, columns), s)
    ensures Chained(s, rows, columns, n, top, 1)
  {
    TimesStep(top, 0);
    hide Stepped, Root, Times;
    var delta := RootStep(c, rows, columns, n, d, s);
    assert forall j: nat | 1 <= j <= columns :: Reduced(c, d.u, d.v, n, j) == StairCost(n, top, n, j);
    hide Reduced;
    assert delta <= StairCost(n, top, n, n);
  }

  /** The score left on the staircase below: more than a step, or exactly one at the last. */
  lemma Left(top: real, n: nat, k: nat)
    requires n >= 2 && top > 0.0 && Times(top, n - 1) == BONUS && 1 <= k < n
    ensures Times(top, k) == Times(top, k - 1) + top && Times(top, k - 1) >= 0.0
    ensures if k == n - 1 then BONUS - Times(top, k - 1) == top else BONUS - Times(top, k - 1) > top
  {
    TimesStep(top, k - 1);
    TimesStep(top, k);
    TimesStep(top, 0);
    TimesMonotone(top, 0, k - 1);
    if k < n - 1 {
      TimesMonotone(top, k + 1, n - 1);
    }
    hide Times;
  }

  lemma ChainNow(c: Costs, rows: nat, columns: nat, n: nat, top: real, p: seq<nat>, s: Search, k: nat)
    requires Stairs(c, rows, columns, n, top) && Chained(s, rows, columns, n, top, k) && k < n
    requires |p| == columns + 1 && p[s.column] == n - k
    ensures s.minimum[n - k].Set?
    ensures forall j: nat | 1 <= j <= columns && !s.used[j] && j != s.column ::
              && Reduced(c, s.u, s.v, n - k, j) == (if j == n - k then top else BONUS + top)
              && Now(c, p, s, j) == if j == n - k then top else BONUS - Times(top, k - 1)
  {
    Left(top, n, k);
    hide Times;
    forall j: nat | 1 <= j <= columns && !s.used[j] && j != s.column
      ensures Reduced(c, s.u, s.v, n - k, j) == if j == n - k then top else BONUS + top
    {
      assert c[n - k - 1][j - 1] == StairCost(n, top, n - k, j);
    }
    hide Reduced, Stairs;
  }

  lemma ChainStep(c: Costs, rows: nat, columns: nat, n: nat, top: real, p: seq<nat>, s: Search, s': Search, k: nat)
    requires Stairs(c, rows, columns, n, top) && Chained(s, rows, columns, n, top, k) && k < n
    requires |p| == columns + 1 && p[0] == n && forall j: nat | 2 <= j <= n :: p[j] == j - 1
    requires Stepped(c, rows, columns, p, s, s')
    ensures Chained(s', rows, columns, n, top, k + 1)
  {
    Left(top, n, k);
    hide Stepped, Stairs, Times, Reduced, Now;
    var delta := StepFacts(c, rows, columns, p, s, s');
    ChainNow(c, rows, columns, n, top, p, s, k);
    ChainNearest(c, rows, columns, n, top, p, s, s', k, delta);
  }

  lemma ChainNearest(c: Costs, rows: nat, columns: nat, n: nat, top: real, p: seq<nat>, s: Search, s': Search, k: nat,
                     delta: real)
    requires Chained(s, rows, columns, n, top, k) && k < n && SearchSized(s', rows, columns)
    requires IsTable(c, rows, columns) && |p| == columns + 1 && 1 <= p[s.column] <= rows
    requires StepTells(c, rows, columns, p, s, s', delta)
    requires forall j: nat | 1 <= j <= columns && !s.used[j] && j != s.column ::
               Now(c, p, s, j) == if j == n - k then top else BONUS - Times(top, k - 1)
    requires if k == n - 1 then BONUS - Times(top, k - 1) == top else BONUS - Times(top, k - 1) > top
    ensures s'.column == n - k && delta == top
  {
    hide Times, Now, Reduced, RowUsed;
    assert !s'.used[n - k];
  }

  /** Rows 1..n - 1 keep stepping aside, and row n is left with the first column. */
  ghost predicate LeftOut(d: State, rows: nat, columns: nat, n: nat) {
    && StateSized(d, rows, columns) && 2 <= n <= rows && n <= columns && d.p[1] == n
    && (forall j: nat | 2 <= j <= n :: d.p[j] == j - 1)
    && forall i: nat | n < i <= rows :: d.u[i] == 0.0
  }

  lemma {:induction false} ChainTo(c: Costs, rows: nat, columns: nat, n: nat, top: real, d: State, t: seq<Search>, k: nat)
    requires Stairs(c, rows, columns, n, top) && Climbed(d, rows, columns, top, n - 1) && 1 <= k <= n
    requires Searched(c, rows, columns, d.p[0 := n], t) && t[0] == Root(d, columns)
    requires d.p[0 := n][t[|t| - 1].column] == 0
    ensures k < |t| && Chained(t[k], rows, columns, n, top, k)
  {
    var p := d.p[0 := n];
    hide Stepped, Root, Stairs;
    if k == 1 {
      GoesOn(c, rows, columns, p, t, 0);
      ChainStart(c, rows, columns, n, top, d, t[1]);
    } else {
      ChainTo(c, rows, columns, n, top, d, t, k - 1);
      GoesOn(c, rows, columns, p, t, k - 1);
      ChainStep(c, rows, columns, n, top, p, t[k - 1], t[k], k - 1);
    }
  }

  lemma LastStair(c: Costs, rows: nat, columns: nat, n: nat, top: real, d: State, d': State, t: seq<Search>,
                  path: seq<nat>)
    requires Stairs(c, rows, columns, n, top) && Climbed(d, rows, columns, top, n - 1)
    requires PlacedBy(c, rows, columns, n, d, d', t, path)
    ensures LeftOut(d', rows, columns, n)
  {
    hide PlacedBy, Stepped, Searched, Root, IsPath, Moved, Times;
    TraceOf(c, rows, columns, n, d, d', t, path);
    ChainTo(c, rows, columns, n, top, d, t, n);
    EndsAtFree(c, rows, columns, d.p[0 := n], t, n);
    EndsDirectly(c, rows, columns, n, d, d', t, path);
  }

  // ----- Rows with nothing to gain

  ghost predicate Idle(c: Costs, columns: nat, row: nat) {
    1 <= row <= |c| && |c[row - 1]| == columns && var costs := c[row - 1]; forall j | 0 <= j < columns :: costs[j] == 0.0
  }

  /** What such a row relies on: feasible rows before it, columns without a price above zero, the
      free ones at zero. */
  ghost predicate Rests(c: Costs, rows: nat, columns: nat, row: nat, d: State) {
    && StateSized(d, rows, columns) && IsTable(c, rows, columns) && 1 <= row <= rows && Idle(c, columns, row)
    && d.u[row] == 0.0
    && (forall i: nat, j: nat | 1 <= i < row && 1 <= j <= columns :: Reduced(c, d.u, d.v, i, j) >= 0.0)
    && (forall j: nat | 1 <= j <= columns :: d.p[j] < row && d.v[j] <= 0.0 && (d.p[j] == 0 ==> d.v[j] == 0.0))
    && exists j: nat :: 1 <= j <= columns && d.p[j] == 0
  }

  lemma SettledRests(c: Costs, rows: nat, columns: nat, row: nat, d: State)
    requires 1 <= row <= rows <= columns && SettledIn(c, rows, columns, d, row - 1)
    requires Idle(c, columns, row) && d.u[row] == 0.0
    ensures Rests(c, rows, columns, row, d)
  {
    forall i: nat, j: nat | 1 <= i < row && 1 <= j <= columns ensures Reduced(c, d.u, d.v, i, j) >= 0.0 {
      assert Feasible(c, rows, columns, d.u, d.v, i);
    }
    var p, slot := d.p[0 := row], d.slot[row := 0];
    assert Inverse(p, slot, row, -1);
    var taken := seq(columns + 1, j requires 0 <= j <= columns => p[j] != 0);
    SomeColumnUnused(rows, columns, p, slot, row, taken);
    var free: nat :| 1 <= free <= columns && !taken[free];
    assert d.p[free] == 0;
  }

  /** The duals stay, and every free column is reached from the root at no cost. */
  ghost predicate Resting(s: Search, rows: nat, columns: nat, d: State) {
    && StateSized(d, rows, columns) && SearchSized(s, rows, columns) && s.column != 0 && s.used[0]
    && (forall i: nat | 1 <= i <= rows :: s.u[i] == d.u[i])
    && (forall j: nat | 1 <= j <= columns :: s.v[j] == d.v[j] && (s.used[j] ==> d.p[j] != 0))
    && (forall j: nat | 1 <= j <= columns && !s.used[j] :: s.minimum[j].Set? && s.minimum[j].value >= 0.0)
    && forall j: nat | 1 <= j <= columns && d.p[j] == 0 :: s.minimum[j] == Set(0.0) && s.way[j] == 0
  }

  lemma RestStart(c: Costs, rows: nat, columns: nat, row: nat, d: State, s: Search)
    requires Rests(c, rows, columns, row, d) && Stepped(c, rows, columns, d.p[0 := row], Root(d, columns), s)
    ensures Resting(s, rows, columns, d)
  {
    hide Stepped, Root;
    var delta := RootStep(c, rows, columns, row, d, s);
    assert forall j: nat | 1 <= j <= columns :: Reduced(c, d.u, d.v, row, j) == -d.v[j];
    hide Reduced;
    assert delta == 0.0;
  }

  lemma RestStep(c: Costs, rows: nat, columns: nat, row: nat, d: State, s: Search, s': Search)
    requires Rests(c, rows, columns, row, d) && Resting(s, rows, columns, d) && d.p[0 := row][s.column] != 0
    requires Stepped(c, rows, columns, d.p[0 := row], s, s')
    ensures Resting(s', rows, columns, d)
  {
    var p := d.p[0 := row];
    var delta := StepFacts(c, rows, columns, p, s, s');
    forall j: nat | 1 <= j <= columns ensures Reduced(c, s.u, s.v, p[s.column], j) >= 0.0 {
      assert Reduced(c, d.u, d.v, p[s.column], j) >= 0.0;
    }
    hide Stepped, Reduced;
    assert forall j: nat | 1 <= j <= columns && d.p[j] == 0 :: Now(c, p, s, j) == 0.0 && !s'.used[j];
    assert delta == 0.0;
  }

  lemma {:induction false} RestTo(c: Costs, rows: nat, columns: nat, row: nat, d: State, t: seq<Search>, k: nat)
    requires Rests(c, rows, columns, row, d) && 1 <= k < |t|
    requires Searched(c, rows, columns, d.p[0 := row], t) && t[0] == Root(d, columns)
    ensures Resting(t[k], rows, columns, d)
  {
    var p := d.p[0 := row];
    hide Stepped, Root, Rests;
    assert p[t[k - 1].column] != 0 && Stepped(c, rows, columns, p, t[k - 1], t[k]);
    if k == 1 {
      RestStart(c, rows, columns, row, d, t[1]);
    } else {
      RestTo(c, rows, columns, row, d, t, k - 1);
      RestStep(c, rows, columns, row, d, t[k - 1], t[k]);
    }
  }

  /** A prediction with nothing eligible takes a free column and moves nobody. */
  lemma IdleRow(c: Costs, rows: nat, columns: nat, row: nat, d: State, d': State, t: seq<Search>, path: seq<nat>)
    requires Rests(c, rows, columns, row, d) && PlacedBy(c, rows, columns, row, d, d', t, path)
    ensures |d'.p| == columns + 1 && forall j: nat | 1 <= j <= columns && d.p[j] != 0 :: d'.p[j] == d.p[j]
    ensures |d'.u| == rows + 1 && forall i: nat | 1 <= i <= rows :: d'.u[i] == d.u[i]
    ensures |d'.v| == |d'.way| == columns + 1
  {
    assert row != 0;
    TraceOf(c, rows, columns, row, d, d', t, path);
    hide PlacedBy, Stepped, Searched, Root, IsPath, Moved, Rests;
    RestTo(c, rows, columns, row, d, t, |t| - 1);
    EndsDirectly(c, rows, columns, row, d, d', t, path);
  }

  // ----- The whole run

  lemma FreshIsClimbed(rows: nat, columns: nat, top: real)
    ensures Climbed(Fresh(rows, columns), rows, columns, top, 0)
  {
  }

  lemma IdleKeeps(c: Costs, rows: nat, columns: nat, n: nat, top: real, row: nat, d: State, d': State, t: seq<Search>,
                  path: seq<nat>)
    requires Stairs(c, rows, columns, n, top) && n < row <= rows && LeftOut(d, rows, columns, n)
    requires SettledIn(c, rows, columns, d, row - 1) && PlacedBy(c, rows, columns, row, d, d', t, path)
    ensures LeftOut(d', rows, columns, n)
  {
    hide SettledIn, PlacedBy, Times;
    StairsEnd(c, rows, columns, n, top, row);
    hide Stairs, Idle, Rests;
    SettledRests(c, rows, columns, row, d);
    IdleRow(c, rows, columns, row, d, d', t, path);
  }

  lemma StairsEnd(c: Costs, rows: nat, columns: nat, n: nat, top: real, row: nat)
    requires Stairs(c, rows, columns, n, top) && n < row <= rows
    ensures rows <= columns && Idle(c, columns, row)
  {
    hide Times;
    var costs := c[row - 1];
    forall j | 0 <= j < columns ensures costs[j] == 0.0 {
      assert c[row - 1][(j + 1) - 1] == StairCost(n, top, row, j + 1);
    }
  }

  lemma {:induction false} RunClimbs(c: Costs, rows: nat, columns: nat, n: nat, top: real, run: seq<State>, r: nat)
    requires Stairs(c, rows, columns, n, top) && SolvedBy(c, rows, columns, run) && r < |run| == rows + 1
    ensures if r < n then Climbed(run[r], rows, columns, top, r) else LeftOut(run[r], rows, columns, n)
  {
    assert n >= 2;
    hide SettledIn, PlacedBy, Stairs, Climbed, LeftOut, Fresh;
    FreshIsClimbed(rows, columns, top);
    if r > 0 {
      RunClimbs(c, rows, columns, n, top, run, r - 1);
      assert SettledIn(c, rows, columns, run[r - 1], r - 1) && Placed(c, rows, columns, r, run[r - 1], run[r]);
      var t, path :| PlacedBy(c, rows, columns, r, run[r - 1], run[r], t, path);
      hide SolvedBy;
      if r < n {
        Climb(c, rows, columns, n, top, r, run[r - 1], run[r], t, path);
      } else if r == n {
        LastStair(c, rows, columns, n, top, run[r - 1], run[r], t, path);
      } else {
        IdleKeeps(c, rows, columns, n, top, r, run[r - 1], run[r], t, path);
      }
    }
  }

  // ----- The promise at the bonus

  lemma StairsOf(gold: nat, predicted: nat, top: real, costs: Costs)
    requires Min(gold, predicted) >= 1 && top >= 0.0 && Times(top, Min(gold, predicted) - 1) == BONUS
    requires IsCostTable(costs, Staircase(gold, predicted, top), predicted, gold + predicted)
    ensures Stairs(costs, predicted, gold + predicted, Min(gold, predicted), top)
  {
    var n, grid := Min(gold, predicted), Staircase(gold, predicted, top);
    TimesStep(top, 0);
    assert n != 1 && top != 0.0;
    forall i: nat, j: nat | 1 <= i <= predicted && 1 <= j <= gold + predicted
      ensures costs[i - 1][j - 1] == StairCost(n, top, i, j)
    {
      assert costs[i - 1][j - 1] == Cost(grid, i - 1, j - 1);
      assert Eligible(grid, i - 1, j - 1) <==> i <= n && j <= n && (j == i || j == i + 1);
    }
  }

  /** With the scores at exactly the bonus the solver leaves the last step's prediction out. */
  lemma LeavesOne(gold: nat, predicted: nat, top: real, m: map<nat, nat>)
    requires Min(gold, predicted) >= 1 && top >= 0.0 && Times(top, Min(gold, predicted) - 1) == BONUS
    requires Returned(Staircase(gold, predicted, top), gold, predicted, m)
    ensures Min(gold, predicted) - 1 !in m
  {
    var n, grid := Min(gold, predicted), Staircase(gold, predicted, top);
    hide Staircase, Solved, Times, Kept, IsCostTable, Stairs;
    var costs, matchedRow, slot := RunReturned(grid, gold, predicted, m);
    StairsOf(gold, predicted, top, costs);
    LastIsFirst(costs, predicted, gold + predicted, n, top, matchedRow, slot);
    NotKept(gold, predicted, top, Chosen(slot, predicted));
  }

  lemma LastIsFirst(c: Costs, rows: nat, columns: nat, n: nat, top: real, matchedRow: seq<nat>, slot: seq<int>)
    requires Stairs(c, rows, columns, n, top) && Solved(c, rows, columns, matchedRow, slot)
    requires |slot| == rows + 1 && forall i | 1 <= i <= rows :: slot[i] >= 1
    ensures n <= rows && Chosen(slot, rows)[n - 1] == 0
  {
    var run := RunOf(c, rows, columns, matchedRow, slot);
    assert 2 <= n <= rows;
    hide Stairs, SettledIn, SolvedBy, Solved, LeftOut;
    RunClimbs(c, rows, columns, n, top, run, rows);
    SlotOfLast(c, rows, columns, n, run[rows]);
  }

  lemma RunOf(c: Costs, rows: nat, columns: nat, matchedRow: seq<nat>, slot: seq<int>) returns (run: seq<State>)
    requires Solved(c, rows, columns, matchedRow, slot)
    ensures SolvedBy(c, rows, columns, run) && |run| == rows + 1 && SettledIn(c, rows, columns, run[rows], rows)
    ensures run[rows].p == matchedRow && run[rows].slot == slot
  {
    hide SettledIn, Placed, Fresh;
    run :| SolvedBy(c, rows, columns, run) && |run| == rows + 1
           && run[rows].p == matchedRow && run[rows].slot == slot;
  }

  lemma SlotOfLast(c: Costs, rows: nat, columns: nat, n: nat, d: State)
    requires SettledIn(c, rows, columns, d, rows) && LeftOut(d, rows, columns, n)
    ensures d.slot[n] == 1
  {
    SettledInverse(c, rows, columns, d);
    hide SettledIn;
    assert d.p[1] == n;
  }

  lemma NotKept(gold: nat, predicted: nat, top: real, a: seq<nat>)
    requires 2 <= Min(gold, predicted) <= |a| && a[Min(gold, predicted) - 1] == 0
    ensures Min(gold, predicted) - 1 !in Kept(Staircase(gold, predicted, top), a, gold)
  {
    var n := Min(gold, predicted);
    assert !Eligible(Staircase(gold, predicted, top), n - 1, 0);
    hide Staircase, Eligible;
  }

  /** On the staircase the returned matching keeps the documented promise exactly below the bonus. */
  lemma ReturnedIsBestIff(gold: nat, predicted: nat, top: real, m: map<nat, nat>)
    requires Min(gold, predicted) >= 1 && top >= 0.0
    requires Returned(Staircase(gold, predicted, top), gold, predicted, m)
    ensures Best(Staircase(gold, predicted, top), m, gold, predicted)
            <==> Times(top, Min(gold, predicted) - 1) < 1000.0
  {
    hide *;
    BonusIs();
    if Times(top, Min(gold, predicted) - 1) < BONUS {
      StaircaseSized(gold, predicted, top);
      BelowBonusIsBest(Staircase(gold, predicted, top), gold, predicted, top, m);
    } else {
      FromBonusIsNotBest(gold, predicted, top, m);
    }
  }

  lemma BelowBonusIsBest(grid: Grid, gold: nat, predicted: nat, top: real, m: map<nat, nat>)
    requires InRange(grid, gold, predicted) && Bounded(grid, top) && top >= 0.0 && Min(gold, predicted) >= 1
    requires Times(top, Min(gold, predicted) - 1) < BONUS && Returned(grid, gold, predicted, m)
    ensures Best(grid, m, gold, predicted)
  {
    hide *;
    BonusIs();
    ReturnedIsHeaviest(grid, gold, predicted, m);
    HeaviestIsBest(grid, m, gold, predicted, top);
  }

  lemma FromBonusIsNotBest(gold: nat, predicted: nat, top: real, m: map<nat, nat>)
    requires Min(gold, predicted) >= 1 && top >= 0.0 && Times(top, Min(gold, predicted) - 1) >= BONUS
    requires Returned(Staircase(gold, predicted, top), gold, predicted, m)
    ensures !Best(Staircase(gold, predicted, top), m, gold, predicted)
  {
    hide *;
    BonusIs();
    StaircaseSized(gold, predicted, top);
    ReturnedIsHeaviest(Staircase(gold, predicted, top), gold, predicted, m);
    if Times(top, Min(gold, predicted) - 1) > BONUS {
      AboveBonusBreaksPromise(gold, predicted, top, m);
    } else {
      LeavesOne(gold, predicted, top, m);
      OneShort(gold, predicted, top, m);
    }
  }

  lemma StaircaseSized(gold: nat, predicted: nat, top: real)
    requires top >= 0.0
    ensures InRange(Staircase(gold, predicted, top), gold, predicted)
    ensures Bounded(Staircase(gold, predicted, top), top)
  {
  }

  lemma OneShort(gold: nat, predicted: nat, top: real, m: map<nat, nat>)
    requires Min(gold, predicted) >= 1 && Heaviest(Staircase(gold, predicted, top), m, gold, predicted)
    requires Min(gold, predicted) - 1 !in m
    ensures !Best(Staircase(gold, predicted, top), m, gold, predicted)
  {
    var n, grid := Min(gold, predicted), Staircase(gold, predicted, top);
    hide *;
    KeysInRange(gold, predicted, top, m);
    StaircaseSteps(gold, predicted, top);
    FewerKeys(m, n);
    LargerRival(grid, m, Diagonal(n, 0), gold, predicted);
  }

  lemma LargerRival(grid: Grid, m: map<nat, nat>, rival: map<nat, nat>, gold: nat, predicted: nat)
    requires IsMatching(grid, rival, gold, predicted) && |m| < |rival|
    ensures !Best(grid, m, gold, predicted)
  {
    hide IsMatching, Score;
  }

  lemma KeysInRange(gold: nat, predicted: nat, top: real, m: map<nat, nat>)
    requires Heaviest(Staircase(gold, predicted, top), m, gold, predicted)
    ensures forall p | p in m :: p < Min(gold, predicted)
  {
    assert forall p | p in m :: Eligible(Staircase(gold, predicted, top), p, m[p]);
    hide Staircase, Weight;
  }

  lemma FewerKeys(m: map<nat, nat>, n: nat)
    requires n >= 1 && forall p | p in m :: p < n && p != n - 1
    ensures |m| < n
  {
    var keys := set p | p in m.Keys :: p as int;
    assert keys == m.Keys && |m.Keys| == |m|;
    SubsetSize(keys, Range(n - 1));
  }

  /** So the answers keep the promise on every grid of a size with scores in [0, top] exactly
      when top x (size - 1) stays below the bonus. */
  lemma ReturnedPromiseIff(gold: nat, predicted: nat, top: real, m: map<nat, nat>)
    requires Min(gold, predicted) >= 1 && top >= 0.0
    requires Returned(Staircase(gold, predicted, top), gold, predicted, m)
    ensures Times(top, Min(gold, predicted) - 1) < 1000.0
            <==> forall grid, other: map<nat, nat> | InRange(grid, gold, predicted) && Bounded(grid, top)
                     && Returned(grid, gold, predicted, other) :: Best(grid, other, gold, predicted)
  {
    hide *;
    BonusIs();
    StaircaseSized(gold, predicted, top);
    ReturnedIsBestIff(gold, predicted, top, m);
    if Times(top, Min(gold, predicted) - 1) < BONUS {
      forall grid, other: map<nat, nat> | InRange(grid, gold, predicted) && Bounded(grid, top)
          && Returned(grid, gold, predicted, other)
        ensures Best(grid, other, gold, predicted)
      {
        BelowBonusIsBest(grid, gold, predicted, top, other);
      }
    }
  }

  /** The matcher on the staircase. */
  method MatchStaircase(candidates: seq<Candidate>, gold: nat, predicted: nat, ghost top: real)
    returns (selected: seq<Candidate>)
    requires Min(gold, predicted) >= 1 && top >= 0.0 && ByPair(candidates) == Staircase(gold, predicted, top)
    ensures Best(ByPair(candidates), Pairs(selected), gold, predicted)
            <==> Times(top, Min(gold, predicted) - 1) < 1000.0
  {
    assert InRange(Staircase(gold, predicted, top), gold, predicted);
    hide ByPair, Staircase, Best, Pairs, Returned, Heaviest, Times, Listed;
    selected := OptimalMatches(candidates, gold, predicted);
    ReturnedIsBestIff(gold, predicted, top, Pairs(selected));
  }
}
