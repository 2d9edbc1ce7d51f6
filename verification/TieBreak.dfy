/** Two predictions and two accounts: which matching the solver returns, ties included. */
module TieBreak {
  import opened Assignment
  import opened SolverRun
  import opened AccountMatching

  // ----- The solver on two rows

  /** Two rows of costs with two unmatched slots: x in column n, y in the other. */
  ghost predicate TwoRows(c: Costs, n: nat, x1: real, y1: real, x2: real, y2: real) {
    && IsTable(c, 2, 4) && 1 <= n <= 2
    && c[0][n - 1] == x1 && c[0][2 - n] == y1 && c[1][n - 1] == x2 && c[1][2 - n] == y2
    && c[0][2] == c[0][3] == c[1][2] == c[1][3] == 0.0
  }

  /** No cost is above zero, and column n is the first row's choice. */
  predicate Chooses(n: nat, x1: real, y1: real, x2: real, y2: real) {
    x1 <= y1 <= 0.0 && x2 <= 0.0 && y2 <= 0.0 && (n == 2 ==> x1 < y1)
  }

  /** Reduced costs of a row while the columns have no price. */
  ghost predicate Reduces(c: Costs, u: seq<real>, v: seq<real>, row: nat, n: nat, x: real, y: real)
    requires 1 <= row <= |c| && row < |u| && |v| == 5 && |c[row - 1]| == 4 && 1 <= n <= 2
  {
    && Reduced(c, u, v, row, n) == x - u[row] && Reduced(c, u, v, row, 3 - n) == y - u[row]
    && Reduced(c, u, v, row, 3) == Reduced(c, u, v, row, 4) == -u[row]
  }

  lemma ReducesTwo(c: Costs, u: seq<real>, v: seq<real>, n: nat, x1: real, y1: real, x2: real, y2: real)
    requires TwoRows(c, n, x1, y1, x2, y2) && |u| == 3 && |v| == 5 && v[1] == v[2] == v[3] == v[4] == 0.0
    ensures |c| == 2 && |c[0]| == |c[1]| == 4
    ensures Reduces(c, u, v, 1, n, x1, y1) && Reduces(c, u, v, 2, n, x2, y2)
  {
  }

  /** A state with nothing placed, or the first row alone, in column n. */
  ghost predicate NonePlaced(d: State) {
    && |d.u| == 3 && |d.v| == |d.p| == |d.way| == 5
    && d.u[1] == d.u[2] == 0.0 && d.v[1] == d.v[2] == d.v[3] == d.v[4] == 0.0
    && d.p[1] == d.p[2] == d.p[3] == d.p[4] == 0
  }

  ghost predicate OnePlaced(d: State, n: nat, x1: real) {
    && 1 <= n <= 2 && |d.u| == 3 && |d.v| == |d.p| == |d.way| == 5
    && d.u[1] == x1 && d.u[2] == 0.0 && d.v[1] == d.v[2] == d.v[3] == d.v[4] == 0.0
    && d.p[n] == 1 && d.p[3 - n] == d.p[3] == d.p[4] == 0
  }

  lemma FirstStep(c: Costs, n: nat, x1: real, y1: real, x2: real, y2: real, d: State, s: Search)
    requires TwoRows(c, n, x1, y1, x2, y2) && Chooses(n, x1, y1, x2, y2) && NonePlaced(d)
    requires Stepped(c, 2, 4, d.p[0 := 1], Root(d, 4), s)
    ensures SearchSized(s, 2, 4) && s.column == n && 1 <= n <= 2 && s.way[n] == 0
    ensures s.u[1] == x1 && s.u[2] == 0.0 && s.v[1] == s.v[2] == s.v[3] == s.v[4] == 0.0
  {
    ReducesTwo(c, d.u, d.v, n, x1, y1, x2, y2);
    hide TwoRows, Stepped, Reduced, Root;
    var delta := RootStep(c, 2, 4, 1, d, s);
    assert s.column == 1 || s.column == 2 || s.column == 3 || s.column == 4;
  }

  lemma FirstRow(c: Costs, n: nat, x1: real, y1: real, x2: real, y2: real, d: State, d': State, t: seq<Search>,
                 path: seq<nat>)
    requires TwoRows(c, n, x1, y1, x2, y2) && Chooses(n, x1, y1, x2, y2) && NonePlaced(d)
    requires PlacedBy(c, 2, 4, 1, d, d', t, path)
    ensures OnePlaced(d', n, x1)
  {
    hide TwoRows, PlacedBy, Stepped, Searched, Root, IsPath, Moved, Chooses;
    TraceOf(c, 2, 4, 1, d, d', t, path);
    FirstStep(c, n, x1, y1, x2, y2, d, t[1]);
    EndsAtFree(c, 2, 4, d.p[0 := 1], t, 1);
    EndsDirectly(c, 2, 4, 1, d, d', t, path);
  }

  /** The second row's first step is to the other column, or to the first row's with every column
      linked to the root. */
  lemma SecondStart(c: Costs, n: nat, x1: real, y1: real, x2: real, y2: real, d: State, s: Search)
    requires TwoRows(c, n, x1, y1, x2, y2) && Chooses(n, x1, y1, x2, y2) && OnePlaced(d, n, x1)
    requires Stepped(c, 2, 4, d.p[0 := 2], Root(d, 4), s)
    ensures SearchSized(s, 2, 4) && s.way[n] == s.way[3 - n] == 0 && (s.column == n || s.column == 3 - n)
    ensures s.column == 3 - n ==> y2 <= x2
    ensures s.column == n ==> Started(s, n, x1, x2, y2)
  {
    ReducesTwo(c, d.u, d.v, n, x1, y1, x2, y2);
    hide TwoRows, Stepped, Reduced, Root;
    var delta := RootStep(c, 2, 4, 2, d, s);
    assert s.column == 1 || s.column == 2 || s.column == 3 || s.column == 4;
  }

  ghost predicate Started(s: Search, n: nat, x1: real, x2: real, y2: real)
    requires SearchSized(s, 2, 4) && 1 <= n <= 2
  {
    && s.used == seq(5, _ => false)[0 := true]
    && s.minimum[3 - n] == Set(y2 - x2) && s.minimum[3] == s.minimum[4] == Set(-x2)
    && s.way[1] == s.way[2] == s.way[3] == s.way[4] == 0
    && s.v[1] == s.v[2] == s.v[3] == s.v[4] == 0.0 && s.u[1] == x1
  }

  /** From the first row's column the other one is next, by way of the first row if that is less. */
  lemma SecondStep(c: Costs, n: nat, x1: real, y1: real, x2: real, y2: real, p: seq<nat>, s: Search, s': Search)
    requires TwoRows(c, n, x1, y1, x2, y2) && Chooses(n, x1, y1, x2, y2)
    requires Stepped(c, 2, 4, p, s, s') && SearchSized(s, 2, 4) && s.column == n && Started(s, n, x1, x2, y2)
    requires |p| == 5 && p[n] == 1
    ensures SearchSized(s', 2, 4) && s'.column == 3 - n && s'.way[n] == 0
    ensures s'.way[3 - n] == if y1 - x1 < y2 - x2 then n else 0
  {
    ReducesTwo(c, s.u, s.v, n, x1, y1, x2, y2);
    var delta := StepFacts(c, 2, 4, p, s, s');
    hide TwoRows, Stepped, Reduced;
    var o := 3 - n;
    assert !s'.used[o] && !s'.used[3] && !s'.used[4];
    NowTwo(c, n, x1, y1, x2, y2, p, s);
    hide Now, StepsBy, RowUsed;
    assert s'.column == 1 || s'.column == 2 || s'.column == 3 || s'.column == 4;
  }

  lemma NowTwo(c: Costs, n: nat, x1: real, y1: real, x2: real, y2: real, p: seq<nat>, s: Search)
    requires IsTable(c, 2, 4) && SearchSized(s, 2, 4) && s.column == n && |p| == 5 && p[n] == 1 && 1 <= n <= 2
    requires Reduces(c, s.u, s.v, 1, n, x1, y1) && Started(s, n, x1, x2, y2)
    ensures Now(c, p, s, 3 - n) == if y1 - x1 < y2 - x2 then y1 - x1 else y2 - x2
    ensures Now(c, p, s, 3) == Now(c, p, s, 4) == if -x1 < -x2 then -x1 else -x2
  {
    hide Reduced;
  }

  /** The second row displaces the first exactly when that is strictly cheaper than the other
      column. */
  lemma SecondRow(c: Costs, n: nat, x1: real, y1: real, x2: real, y2: real, d: State, d': State, t: seq<Search>,
                  path: seq<nat>)
    requires TwoRows(c, n, x1, y1, x2, y2) && Chooses(n, x1, y1, x2, y2) && OnePlaced(d, n, x1)
    requires PlacedBy(c, 2, 4, 2, d, d', t, path)
    ensures |d'.p| == 5 && d'.p[n] == (if y1 - x1 < y2 - x2 then 2 else 1)
    ensures d'.p[3 - n] == if y1 - x1 < y2 - x2 then 1 else 2
  {
    OneIs(d, n, x1);
    hide *;
    var p := d.p[0 := 2];
    TraceOf(c, 2, 4, 2, d, d', t, path);
    SecondStart(c, n, x1, y1, x2, y2, d, t[1]);
    if t[1].column == 3 - n {
      SecondFree(c, n, d, d', t, path);
    } else {
      GoesOn(c, 2, 4, p, t, 1);
      SecondStep(c, n, x1, y1, x2, y2, p, t[1], t[2]);
      EndsAtFree(c, 2, 4, p, t, 2);
      SecondEnd(c, n, y1 - x1 < y2 - x2, d, d', t, path);
    }
  }

  lemma SecondFree(c: Costs, n: nat, d: State, d': State, t: seq<Search>, path: seq<nat>)
    requires |d.p| == 5 && 1 <= n <= 2 && d.p[n] == 1 && d.p[3 - n] == 0 && PlacedBy(c, 2, 4, 2, d, d', t, path)
    requires |t| > 1 && SearchSized(t[1], 2, 4) && t[1].column == 3 - n && t[1].way[3 - n] == 0
    ensures |d'.p| == 5 && d'.p[n] == 1 && d'.p[3 - n] == 2
  {
    TraceOf(c, 2, 4, 2, d, d', t, path);
    hide PlacedBy, Stepped, Searched, Root, IsPath, Moved;
    EndsAtFree(c, 2, 4, d.p[0 := 2], t, 1);
    EndsDirectly(c, 2, 4, 2, d, d', t, path);
  }

  lemma OneIs(d: State, n: nat, x1: real)
    requires OnePlaced(d, n, x1)
    ensures 1 <= n <= 2 && |d.p| == 5 && d.p[n] == 1 && d.p[3 - n] == 0
  {
  }

  lemma SecondEnd(c: Costs, n: nat, moves: bool, d: State, d': State, t: seq<Search>, path: seq<nat>)
    requires |d.p| == 5 && 1 <= n <= 2 && d.p[n] == 1 && PlacedBy(c, 2, 4, 2, d, d', t, path)
    requires |t| == 3 && SearchSized(t[2], 2, 4) && t[2].column == 3 - n
    requires t[2].way[n] == 0 && t[2].way[3 - n] == if moves then n else 0
    ensures |d'.p| == 5 && d'.p[n] == (if moves then 2 else 1) && d'.p[3 - n] == if moves then 1 else 2
  {
    TraceOf(c, 2, 4, 2, d, d', t, path);
    hide PlacedBy, Stepped, Searched, Root, IsPath, Moved;
    if moves {
      PathVia(t[2].way, path, 3 - n, n);
      ViaFirst(d.p[0 := 2], d'.p, 3 - n, n);
    } else {
      EndsDirectly(c, 2, 4, 2, d, d', t, path);
    }
  }

  lemma ViaFirst(p: seq<nat>, p': seq<nat>, o: nat, n: nat)
    requires |p| == 5 && 1 <= n <= 2 && o == 3 - n && p[0] == 2 && p[n] == 1 && Moved(p, [o, n, 0], p')
    ensures |p'| == 5 && p'[o] == 1 && p'[n] == 2
  {
    var path := [o, n, 0];
    assert p'[path[0]] == p[path[1]] && p'[path[1]] == p[path[2]];
  }

  lemma RunOfTwo(c: Costs, matchedRow: seq<nat>, slot: seq<int>)
    returns (d: State, t1: seq<Search>, path1: seq<nat>, d': State, t2: seq<Search>, path2: seq<nat>)
    requires Solved(c, 2, 4, matchedRow, slot)
    ensures NonePlaced(Fresh(2, 4))
    ensures PlacedBy(c, 2, 4, 1, Fresh(2, 4), d, t1, path1) && PlacedBy(c, 2, 4, 2, d, d', t2, path2)
    ensures d'.p == matchedRow
  {
    hide PlacedBy, SettledIn;
    var run: seq<State> :| SolvedBy(c, 2, 4, run) && |run| == 3 && run[2].p == matchedRow && run[2].slot == slot;
    d, d' := run[1], run[2];
    assert Placed(c, 2, 4, 1, run[0], run[1]) && Placed(c, 2, 4, 2, run[1], run[2]);
    t1, path1 :| PlacedBy(c, 2, 4, 1, run[0], d, t1, path1);
    t2, path2 :| PlacedBy(c, 2, 4, 2, d, d', t2, path2);
  }

  /** The solver crosses where that is cheaper, and on a tie exactly when the first row alone is
      nearer to the second column. */
  predicate Crosses(a1: real, b1: real, a2: real, b2: real) {
    b1 + a2 < a1 + b2 || (b1 + a2 == a1 + b2 && b1 < a1)
  }

  lemma SolvesTwo(c: Costs, a1: real, b1: real, a2: real, b2: real, matchedRow: seq<nat>, slot: seq<int>)
    requires TwoRows(c, 1, a1, b1, a2, b2) && Solved(c, 2, 4, matchedRow, slot)
    requires a1 <= 0.0 && b1 <= 0.0 && a2 <= 0.0 && b2 <= 0.0
    ensures |matchedRow| == 5
    ensures matchedRow[1] == (if Crosses(a1, b1, a2, b2) then 2 else 1)
    ensures matchedRow[2] == if Crosses(a1, b1, a2, b2) then 1 else 2
  {
    hide Solved, PlacedBy, OnePlaced, NonePlaced, Fresh;
    var d, t1, path1, d', t2, path2 := RunOfTwo(c, matchedRow, slot);
    if a1 <= b1 {
      FirstRow(c, 1, a1, b1, a2, b2, Fresh(2, 4), d, t1, path1);
      SecondRow(c, 1, a1, b1, a2, b2, d, d', t2, path2);
    } else {
      FirstRow(c, 2, b1, a1, b2, a2, Fresh(2, 4), d, t1, path1);
      SecondRow(c, 2, b1, a1, b2, a2, d, d', t2, path2);
    }
  }

  // ----- The documented order

  /** The account index of a prediction; none comes after all. */
  ghost function Place(m: map<nat, nat>, p: nat, gold: nat): nat {
    if p in m then m[p] else gold
  }

  /** The first prediction that the two place differently has the earlier account in m. */
  ghost predicate Earlier(m: map<nat, nat>, other: map<nat, nat>, gold: nat, predicted: nat) {
    exists p: nat :: EarlierAt(m, other, gold, predicted, p)
  }

  ghost predicate EarlierAt(m: map<nat, nat>, other: map<nat, nat>, gold: nat, predicted: nat, p: nat) {
    && p < predicted && Place(m, p, gold) < Place(other, p, gold)
    && forall q: nat | q < p :: Place(m, q, gold) == Place(other, q, gold)
  }

  /** Of all heaviest matchings, the first by prediction index, then account index. */
  ghost predicate FirstHeaviest(grid: Grid, m: map<nat, nat>, gold: nat, predicted: nat) {
    && Heaviest(grid, m, gold, predicted)
    && forall other: map<nat, nat> | Heaviest(grid, other, gold, predicted) && other != m ::
         Earlier(m, other, gold, predicted)
  }

  // ----- The matching returned on two by two

  /** Each prediction to the account of its own index, or crossed, as far as eligible. */
  ghost function Straight(grid: Grid): map<nat, nat> { Kept(grid, [0, 1], 2) }

  ghost function Crossed(grid: Grid): map<nat, nat> { Kept(grid, [1, 0], 2) }

  ghost predicate Two(grid: Grid, top: real) { Full(grid, 2, 2) && InRange(grid, 2, 2) && Bounded(grid, top) }

  ghost predicate CrossesOn(grid: Grid) {
    Crosses(Cost(grid, 0, 0), Cost(grid, 0, 1), Cost(grid, 1, 0), Cost(grid, 1, 1))
  }

  lemma TableOf(grid: Grid, top: real, costs: Costs)
    requires Two(grid, top) && IsCostTable(costs, grid, 2, 4)
    ensures TwoRows(costs, 1, Cost(grid, 0, 0), Cost(grid, 0, 1), Cost(grid, 1, 0), Cost(grid, 1, 1))
  {
    hide Eligible;
    assert forall p: nat, g: nat | g >= 2 :: Cost(grid, p, g) == 0.0 by { SlotsAreFree(grid, top); }
  }

  lemma SlotsAreFree(grid: Grid, top: real)
    requires Two(grid, top)
    ensures forall p: nat, g: nat | g >= 2 :: Cost(grid, p, g) == 0.0
    ensures forall p: nat, g: nat :: Cost(grid, p, g) <= 0.0
  {
  }

  /** The matcher's answer on any two-by-two grid. */
  lemma ReturnsTwo(grid: Grid, top: real, m: map<nat, nat>)
    requires Two(grid, top) && Returned(grid, 2, 2, m)
    ensures m == if CrossesOn(grid) then Crossed(grid) else Straight(grid)
  {
    hide Solved, IsCostTable, Cost, Two, Crosses, Kept, Settled, TwoRows, Inverse;
    var costs, matchedRow, slot := RunReturned(grid, 2, 2, m);
    var d := SolvedEnd(costs, 2, 4, matchedRow, slot);
    SettledInverse(costs, 2, 4, d);
    TableOf(grid, top, costs);
    SlotsAreFree(grid, top);
    SolvesTwo(costs, Cost(grid, 0, 0), Cost(grid, 0, 1), Cost(grid, 1, 0), Cost(grid, 1, 1), matchedRow, slot);
    SlotsOf(matchedRow, slot);
  }

  lemma SlotsOf(matchedRow: seq<nat>, slot: seq<int>)
    requires |matchedRow| == 5 && |slot| == 3 && Inverse(matchedRow, slot, 2, 0)
    requires (matchedRow[1] == 1 && matchedRow[2] == 2) || (matchedRow[1] == 2 && matchedRow[2] == 1)
    ensures forall i | 1 <= i <= 2 :: slot[i] >= 1
    ensures Chosen(slot, 2) == if matchedRow[1] == 1 then [0, 1] else [1, 0]
  {
    assert slot[matchedRow[1]] == 1 && slot[matchedRow[2]] == 2;
  }

  /** What the pair of prediction p in m costs. */
  ghost function Paid(grid: Grid, m: map<nat, nat>, p: nat): real {
    if p in m then Cost(grid, p, m[p]) else 0.0
  }

  lemma WeightTwo(grid: Grid, m: map<nat, nat>)
    requires IsMatching(grid, m, 2, 2)
    ensures Weight(grid, m, 2) == -(Paid(grid, m, 0) + Paid(grid, m, 1))
  {
    assert forall p | p in m :: Eligible(grid, p, m[p]);
    MatchedGrows(m, 1);
    MatchedGrows(m, 2);
    MatchedGrows(m, 0);
    assert Matched(m, 2) == m.Keys && |m.Keys| == |m|;
    hide IsMatching, Matched, Times;
    TimesTwo(|m|);
    assert Score(grid, m, 1) == Score(grid, m, 0) + if 0 in m then grid[(0, m[0])].score else 0.0;
    assert Score(grid, m, 2) == Score(grid, m, 1) + if 1 in m then grid[(1, m[1])].score else 0.0;
  }

  lemma TimesTwo(n: nat)
    requires n <= 2
    ensures Times(BONUS, n) == if n == 0 then 0.0 else if n == 1 then BONUS else BONUS + BONUS
  {
    hide Times;
    TimesStep(BONUS, 0);
    TimesStep(BONUS, 1);
  }

  ghost predicate Rounds(grid: Grid, straight: real, crossed: real) {
    && straight == Cost(grid, 0, 0) + Cost(grid, 1, 1) && crossed == Cost(grid, 0, 1) + Cost(grid, 1, 0)
  }

  lemma BothMatchings(grid: Grid, straight: real, crossed: real)
    requires Rounds(grid, straight, crossed)
    ensures IsMatching(grid, Straight(grid), 2, 2) && Weight(grid, Straight(grid), 2) == -straight
    ensures IsMatching(grid, Crossed(grid), 2, 2) && Weight(grid, Crossed(grid), 2) == -crossed
  {
    hide Weight;
    WeightTwo(grid, Straight(grid));
    WeightTwo(grid, Crossed(grid));
  }

  /** Every matching follows one of the two ways round, and falls short of it if it omits a pair. */
  lemma RivalOfTwo(grid: Grid, top: real, m: map<nat, nat>, straight: real, crossed: real)
    requires Two(grid, top) && IsMatching(grid, m, 2, 2) && Rounds(grid, straight, crossed)
    ensures var paid := -Weight(grid, m, 2);
            || (paid >= straight && (paid == straight ==> m == Straight(grid)))
            || (paid >= crossed && (paid == crossed ==> m == Crossed(grid)))
  {
    WeightTwo(grid, m);
    hide Weight;
    if (0 in m ==> m[0] == 0) && (1 in m ==> m[1] == 1) {
      Following(grid, top, m, [0, 1]);
    } else {
      assert (0 in m ==> m[0] == 1) && (1 in m ==> m[1] == 0);
      Following(grid, top, m, [1, 0]);
    }
  }

  lemma Following(grid: Grid, top: real, m: map<nat, nat>, a: seq<nat>)
    requires Bounded(grid, top) && IsMatching(grid, m, 2, 2) && |a| == 2 && a[0] < 2 && a[1] < 2
    requires forall p | p in m :: p < 2 && m[p] == a[p]
    ensures var paid, all := Paid(grid, m, 0) + Paid(grid, m, 1), Cost(grid, 0, a[0]) + Cost(grid, 1, a[1]);
            paid >= all && (paid == all ==> m == Kept(grid, a, 2))
  {
    assert forall p: nat | p < 2 :: Paid(grid, m, p) >= Cost(grid, p, a[p]);
    assert forall p: nat | p < 2 && p !in m && Eligible(grid, p, a[p]) :: Cost(grid, p, a[p]) <= -BONUS;
  }

  /** The heaviest matchings are the cheaper of the two ways round, both on a tie. */
  lemma HeaviestOfTwo(grid: Grid, top: real, m: map<nat, nat>, straight: real, crossed: real)
    requires Two(grid, top) && Rounds(grid, straight, crossed)
    ensures Heaviest(grid, m, 2, 2) <==>
            (m == Straight(grid) && straight <= crossed) || (m == Crossed(grid) && crossed <= straight)
  {
    BothMatchings(grid, straight, crossed);
    hide Straight, Crossed, Weight, IsMatching, Two, Rounds;
    forall other: map<nat, nat> | IsMatching(grid, other, 2, 2)
      ensures -Weight(grid, other, 2) >= straight || -Weight(grid, other, 2) >= crossed
    {
      RivalOfTwo(grid, top, other, straight, crossed);
    }
    if Heaviest(grid, m, 2, 2) {
      RivalOfTwo(grid, top, m, straight, crossed);
    }
  }

  lemma PlacesOfTwo(grid: Grid, top: real)
    requires Two(grid, top)
    ensures Place(Straight(grid), 0, 2) == if Cost(grid, 0, 0) < 0.0 then 0 else 2
    ensures Place(Straight(grid), 1, 2) == if Cost(grid, 1, 1) < 0.0 then 1 else 2
    ensures Place(Crossed(grid), 0, 2) == if Cost(grid, 0, 1) < 0.0 then 1 else 2
    ensures Place(Crossed(grid), 1, 2) == if Cost(grid, 1, 0) < 0.0 then 0 else 2
  {
  }

  lemma EarlierOfTwo(m: map<nat, nat>, other: map<nat, nat>)
    ensures Earlier(m, other, 2, 2) <==>
            || Place(m, 0, 2) < Place(other, 0, 2)
            || (Place(m, 0, 2) == Place(other, 0, 2) && Place(m, 1, 2) < Place(other, 1, 2))
  {
    hide Place;
    assert EarlierAt(m, other, 2, 2, 0) <==> Place(m, 0, 2) < Place(other, 0, 2);
    assert EarlierAt(m, other, 2, 2, 1) <==>
           Place(m, 0, 2) == Place(other, 0, 2) && Place(m, 1, 2) < Place(other, 1, 2);
  }

  lemma NothingOfTwo(grid: Grid, top: real)
    requires Two(grid, top)
    ensures Cost(grid, 0, 0) == Cost(grid, 0, 1) == Cost(grid, 1, 0) == Cost(grid, 1, 1) == 0.0 ==>
              Straight(grid) == Crossed(grid)
  {
  }

  lemma FirstOfTwo(grid: Grid, m: map<nat, nat>, rival: map<nat, nat>)
    requires forall other: map<nat, nat> | Heaviest(grid, other, 2, 2) :: other == m || other == rival
    requires Heaviest(grid, m, 2, 2)
    ensures FirstHeaviest(grid, m, 2, 2) <==>
            (m != rival && Heaviest(grid, rival, 2, 2) ==> Earlier(m, rival, 2, 2))
  {
    hide Heaviest, Earlier;
  }

  /** On a tie the documented order fails where the first prediction has the first account and
      is nearer to the second, or has neither and the second prediction is as near to both. */
  ghost predicate Misordered(grid: Grid) {
    var a1, b1, a2, b2 := Cost(grid, 0, 0), Cost(grid, 0, 1), Cost(grid, 1, 0), Cost(grid, 1, 1);
    && a1 + b2 == b1 + a2
    && ((b1 < a1 && a1 < 0.0) || (a1 == b1 == 0.0 && a2 == b2 && a2 < 0.0))
  }

  /** The answer on a two-by-two grid is the first of the heaviest by prediction index, then
      account index, exactly when the grid is not one of those. */
  lemma OrderKeptIff(grid: Grid, top: real, m: map<nat, nat>)
    requires Two(grid, top) && Returned(grid, 2, 2, m)
    ensures FirstHeaviest(grid, m, 2, 2) <==> !Misordered(grid)
  {
    hide Two, Returned, Heaviest, Straight, Crossed, Cost, Place, Earlier;
    var straight, crossed := Cost(grid, 0, 0) + Cost(grid, 1, 1), Cost(grid, 0, 1) + Cost(grid, 1, 0);
    ReturnsTwo(grid, top, m);
    forall other: map<nat, nat>
      ensures Heaviest(grid, other, 2, 2) <==>
              (other == Straight(grid) && straight <= crossed) || (other == Crossed(grid) && crossed <= straight)
    {
      HeaviestOfTwo(grid, top, other, straight, crossed);
    }
    PlacesOfTwo(grid, top);
    SlotsAreFree(grid, top);
    EarlierOfTwo(Straight(grid), Crossed(grid));
    EarlierOfTwo(Crossed(grid), Straight(grid));
    NothingOfTwo(grid, top);
    FirstOfTwo(grid, m, if m == Straight(grid) then Crossed(grid) else Straight(grid));
  }

  /** The matcher on two predictions and two accounts. */
  method MatchTwo(candidates: seq<Candidate>, ghost top: real) returns (selected: seq<Candidate>)
    requires Two(ByPair(candidates), top)
    ensures Listed(ByPair(candidates), selected)
    ensures Pairs(selected) ==
            if CrossesOn(ByPair(candidates)) then Crossed(ByPair(candidates)) else Straight(ByPair(candidates))
    ensures FirstHeaviest(ByPair(candidates), Pairs(selected), 2, 2) <==> !Misordered(ByPair(candidates))
  {
    hide ByPair, Listed, Pairs, Returned, Heaviest, CrossesOn, FirstHeaviest, Misordered;
    selected := OptimalMatches(candidates, 2, 2);
    ReturnsTwo(ByPair(candidates), top, Pairs(selected));
    OrderKeptIff(ByPair(candidates), top, Pairs(selected));
  }

  // ----- One grid of each failing kind

  /** Both predictions fit both accounts and are nearer to the second. */
  function Alike(): (candidates: seq<Candidate>) {
    [Candidate(0, 0, 0.0, true), Candidate(0, 1, 0.0, true), Candidate(1, 0, 1.0, true), Candidate(1, 1, 1.0, true)]
  }

  /** Only the second prediction fits, both accounts alike. */
  function Lone(): (candidates: seq<Candidate>) {
    [Candidate(0, 0, 0.0, false), Candidate(0, 1, 0.0, true), Candidate(1, 0, 0.0, false), Candidate(1, 1, 0.0, true)]
  }

  ghost predicate Cells(grid: Grid, c00: Candidate, c01: Candidate, c10: Candidate, c11: Candidate) {
    && (0, 0) in grid && grid[(0, 0)] == c00 && (1, 0) in grid && grid[(1, 0)] == c01
    && (0, 1) in grid && grid[(0, 1)] == c10 && (1, 1) in grid && grid[(1, 1)] == c11
    && forall key | key in grid :: key.0 < 2 && key.1 < 2
  }

  lemma CellsOfFour(c00: Candidate, c01: Candidate, c10: Candidate, c11: Candidate)
    requires c00.goldIndex == c01.goldIndex == 0 && c10.goldIndex == c11.goldIndex == 1
    requires c00.predictedIndex == c10.predictedIndex == 0 && c01.predictedIndex == c11.predictedIndex == 1
    ensures Cells(ByPair([c00, c01, c10, c11]), c00, c01, c10, c11)
  {
    hide *;
    var none: seq<Candidate> := [];
    FourInTurn(c00, c01, c10, c11);
    ByPairStep(none, c00);
    ByPairStep(none + [c00], c01);
    ByPairStep(none + [c00] + [c01], c10);
    ByPairStep(none + [c00] + [c01] + [c10], c11);
    FourCells(ByPair(none), c00, c01, c10, c11);
  }

  lemma FourInTurn(c00: Candidate, c01: Candidate, c10: Candidate, c11: Candidate)
    ensures var none: seq<Candidate> := []; none + [c00] + [c01] + [c10] + [c11] == [c00, c01, c10, c11]
    ensures ByPair([]) == map[]
  {
  }

  lemma FourCells(none: Grid, c00: Candidate, c01: Candidate, c10: Candidate, c11: Candidate)
    requires none == map[]
    requires c00.goldIndex == c01.goldIndex == 0 && c10.goldIndex == c11.goldIndex == 1
    requires c00.predictedIndex == c10.predictedIndex == 0 && c01.predictedIndex == c11.predictedIndex == 1
    ensures Cells(none[(c00.predictedIndex, c00.goldIndex) := c00][(c01.predictedIndex, c01.goldIndex) := c01]
                      [(c10.predictedIndex, c10.goldIndex) := c10][(c11.predictedIndex, c11.goldIndex) := c11],
                  c00, c01, c10, c11)
  {
  }

  lemma ByPairStep(candidates: seq<Candidate>, c: Candidate)
    ensures ByPair(candidates + [c]) == ByPair(candidates)[(c.predictedIndex, c.goldIndex) := c]
  {
    assert (candidates + [c])[..|candidates|] == candidates;
  }

  lemma CellFacts(grid: Grid, c00: Candidate, c01: Candidate, c10: Candidate, c11: Candidate, top: real)
    requires Cells(grid, c00, c01, c10, c11)
    requires 0.0 <= c00.score <= top && 0.0 <= c01.score <= top && 0.0 <= c10.score <= top && 0.0 <= c11.score <= top
    ensures Two(grid, top)
    ensures Cost(grid, 0, 0) == (if c00.eligible then -(BONUS + c00.score) else 0.0)
    ensures Cost(grid, 1, 0) == (if c01.eligible then -(BONUS + c01.score) else 0.0)
    ensures Cost(grid, 0, 1) == (if c10.eligible then -(BONUS + c10.score) else 0.0)
    ensures Cost(grid, 1, 1) == if c11.eligible then -(BONUS + c11.score) else 0.0
  {
    forall key | key in grid ensures 0.0 <= grid[key].score <= top {
      assert key == (0, 0) || key == (1, 0) || key == (0, 1) || key == (1, 1);
    }
  }

  /** On the first the first prediction is given the second account, on the second the second
      prediction is, although giving it the first account is worth the same. */
  lemma OrderFails()
    ensures Two(ByPair(Alike()), 1.0) && Misordered(ByPair(Alike())) && CrossesOn(ByPair(Alike()))
    ensures Two(ByPair(Lone()), 1.0) && Misordered(ByPair(Lone())) && !CrossesOn(ByPair(Lone()))
  {
    AlikeAndLone();
    hide ByPair, Two, Cost, Alike, Lone;
  }

  lemma AlikeAndLone()
    ensures var grid := ByPair(Alike());
            && Two(grid, 1.0) && Cost(grid, 0, 0) == Cost(grid, 1, 0) == -1000.0
            && Cost(grid, 0, 1) == Cost(grid, 1, 1) == -1001.0
    ensures var grid := ByPair(Lone());
            && Two(grid, 1.0) && Cost(grid, 0, 0) == Cost(grid, 0, 1) == 0.0
            && Cost(grid, 1, 0) == Cost(grid, 1, 1) == -1000.0
  {
    hide ByPair, Two, Cost, Cells;
    CellsOfFour(Alike()[0], Alike()[1], Alike()[2], Alike()[3]);
    CellFacts(ByPair(Alike()), Alike()[0], Alike()[1], Alike()[2], Alike()[3], 1.0);
    CellsOfFour(Lone()[0], Lone()[1], Lone()[2], Lone()[3]);
    CellFacts(ByPair(Lone()), Lone()[0], Lone()[1], Lone()[2], Lone()[3], 1.0);
  }
}
