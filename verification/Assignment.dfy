/** The rectangular Hungarian algorithm at the heart of account matching.

    Rows are numbered 1..rows and columns 1..columns, as in the source; index 0 of every
    buffer is the root of the alternating tree.  Costs are reals. */
module Assignment {
  import opened SetFacts

  type Costs = seq<seq<real>>

  /** A cell of `minimum`: unset stands for the source's float("inf"). */
  datatype Bound = Unset | Set(value: real)

  predicate Below(x: real, b: Bound) {
    b.Unset? || x < b.value
  }

  ghost predicate IsTable(c: Costs, rows: nat, columns: nat) {
    |c| == rows && forall i | 0 <= i < rows :: |c[i]| == columns
  }

  function Reduced(c: Costs, u: seq<real>, v: seq<real>, row: nat, column: nat): real
    requires 1 <= row <= |c| && row < |u|
    requires 1 <= column < |v| && column <= |c[row - 1]|
  {
    c[row - 1][column - 1] - u[row] - v[column]
  }

  // ----- What an assignment is, and what it costs

  /** Every row has its own column. */
  ghost predicate IsAssignment(a: seq<nat>, rows: nat, columns: nat) {
    && |a| == rows
    && (forall i | 0 <= i < rows :: a[i] < columns)
    && forall i, j | 0 <= i < j < rows :: a[i] != a[j]
  }

  ghost function TotalCost(c: Costs, a: seq<nat>, n: nat): real
    requires n <= |a| && n <= |c|
    requires forall i | 0 <= i < n :: a[i] < |c[i]|
  {
    if n == 0 then 0.0 else TotalCost(c, a, n - 1) + c[n - 1][a[n - 1]]
  }

  // ----- Invariants of the search

  ghost predicate Sized(c: Costs, rows: nat, columns: nat, u: seq<real>, v: seq<real>, p: seq<nat>) {
    IsTable(c, rows, columns) && |u| == rows + 1 && |v| == columns + 1 && |p| == columns + 1
  }

  /** `slot` inverts `p` on rows 1..done; the entry of `p` at `hole` is stale and ignored. */
  ghost predicate Inverse(p: seq<nat>, slot: seq<int>, done: nat, hole: int) {
    && done < |slot|
    && (forall i | 1 <= i <= done :: 0 <= slot[i] < |p| && slot[i] != hole && p[slot[i]] == i)
    && forall j | 0 <= j < |p| && j != hole && p[j] != 0 :: p[j] <= done && slot[p[j]] == j
  }

  ghost predicate Feasible(c: Costs, rows: nat, columns: nat, u: seq<real>, v: seq<real>, row: nat)
    requires IsTable(c, rows, columns) && |u| == rows + 1 && |v| == columns + 1
    requires 1 <= row <= rows
  {
    forall j | 1 <= j <= columns :: Reduced(c, u, v, row, j) >= 0.0
  }

  ghost predicate AllFeasible(c: Costs, rows: nat, columns: nat, u: seq<real>, v: seq<real>, done: nat)
    requires IsTable(c, rows, columns) && |u| == rows + 1 && |v| == columns + 1
    requires done <= rows
  {
    forall i | 1 <= i <= done :: Feasible(c, rows, columns, u, v, i)
  }

  /** Matched edges have no slack. */
  ghost predicate Tight(c: Costs, rows: nat, columns: nat, u: seq<real>, v: seq<real>, p: seq<nat>, hole: int)
    requires Sized(c, rows, columns, u, v, p)
    requires forall j | 0 <= j <= columns && j != hole :: p[j] <= rows
  {
    forall j | 1 <= j <= columns && j != hole && p[j] != 0 :: Reduced(c, u, v, p[j], j) == 0.0
  }

  /** Column prices never rise above zero and are zero while the column is free. */
  ghost predicate Priced(v: seq<real>, p: seq<nat>)
    requires |v| == |p|
  {
    forall j | 1 <= j < |v| :: v[j] <= 0.0 && (p[j] == 0 ==> v[j] == 0.0)
  }

  /** The state between two rows: rows 1..done matched optimally. */
  ghost predicate Settled(c: Costs, rows: nat, columns: nat, u: seq<real>, v: seq<real>, p: seq<nat>,
                          slot: seq<int>, done: nat)
  {
    && Sized(c, rows, columns, u, v, p) && |slot| == rows + 1 && done <= rows
    && Inverse(p, slot, done, 0)
    && AllFeasible(c, rows, columns, u, v, done)
    && Tight(c, rows, columns, u, v, p, 0)
    && Priced(v, p)
  }

  // ----- Weak duality

  ghost function RowSum(u: seq<real>, n: nat): real
    requires n < |u|
  {
    if n == 0 then 0.0 else RowSum(u, n - 1) + u[n]
  }

  /** Total price of the columns in `s` (0-based) among the first n. */
  ghost function ColumnSum(v: seq<real>, s: set<nat>, n: nat): real
    requires n < |v|
  {
    if n == 0 then 0.0 else ColumnSum(v, s, n - 1) + if n - 1 in s then v[n] else 0.0
  }

  ghost function Image(a: seq<nat>, n: nat): set<nat>
    requires n <= |a|
  {
    set i | 0 <= i < n :: a[i]
  }

  lemma {:induction false} AddColumn(v: seq<real>, s: set<nat>, x: nat, n: nat)
    requires n < |v| && x !in s
    ensures ColumnSum(v, s + {x}, n) == ColumnSum(v, s, n) + if x < n then v[x + 1] else 0.0
  {
    if n > 0 {
      AddColumn(v, s, x, n - 1);
    }
  }

  /** Any set of columns costs at least as much as one that misses only free columns. */
  lemma {:induction false} CheapestColumns(v: seq<real>, s: set<nat>, t: set<nat>, n: nat)
    requires n < |v|
    requires forall j | 1 <= j <= n :: v[j] <= 0.0 && (j - 1 !in t ==> v[j] == 0.0)
    ensures ColumnSum(v, t, n) <= ColumnSum(v, s, n)
  {
    if n > 0 {
      CheapestColumns(v, s, t, n - 1);
    }
  }

  ghost predicate Exact(c: Costs, u: seq<real>, v: seq<real>, a: seq<nat>, i: nat)
    requires i < |a| && i < |c| && i + 1 < |u| && a[i] + 1 < |v| && a[i] < |c[i]|
  {
    Reduced(c, u, v, i + 1, a[i] + 1) == 0.0
  }

  /** Reduced costs are non-negative, so an assignment costs at least its potentials;
      where every chosen cell is tight it costs exactly that. */
  lemma {:induction false} CostVersusPotentials(
    c: Costs, rows: nat, columns: nat, u: seq<real>, v: seq<real>, a: seq<nat>, n: nat)
    requires IsTable(c, rows, columns) && |u| == rows + 1 && |v| == columns + 1
    requires AllFeasible(c, rows, columns, u, v, rows)
    requires IsAssignment(a, rows, columns) && n <= rows
    ensures TotalCost(c, a, n) >= RowSum(u, n) + ColumnSum(v, Image(a, n), columns)
    ensures (forall i | 0 <= i < n :: Exact(c, u, v, a, i))
            ==> TotalCost(c, a, n) == RowSum(u, n) + ColumnSum(v, Image(a, n), columns)
  {
    if n == 0 {
      assert Image(a, n) == {};
      EmptyColumns(v, columns);
    } else {
      CostVersusPotentials(c, rows, columns, u, v, a, n - 1);
      assert Image(a, n) == Image(a, n - 1) + {a[n - 1]};
      AddColumn(v, Image(a, n - 1), a[n - 1], columns);
      assert Feasible(c, rows, columns, u, v, n);
      assert Reduced(c, u, v, n, a[n - 1] + 1) >= 0.0;
      if forall i | 0 <= i < n :: Exact(c, u, v, a, i) {
        assert Exact(c, u, v, a, n - 1);
      }
    }
  }

  lemma {:induction false} EmptyColumns(v: seq<real>, n: nat)
    requires n < |v|
    ensures ColumnSum(v, {}, n) == 0.0
  {
    if n > 0 {
      EmptyColumns(v, n - 1);
    }
  }

  /** The assignment read off a settled state, as 0-based columns. */
  ghost function Chosen(slot: seq<int>, rows: nat): seq<nat>
    requires |slot| == rows + 1
    requires forall i | 1 <= i <= rows :: slot[i] >= 1
  {
    seq(rows, i requires 0 <= i < rows => slot[i + 1] - 1)
  }

  /** Duality: a settled state holds a cheapest assignment. */
  lemma SettledIsOptimal(
    c: Costs, rows: nat, columns: nat, u: seq<real>, v: seq<real>, p: seq<nat>, slot: seq<int>, a: seq<nat>)
    requires Settled(c, rows, columns, u, v, p, slot, rows)
    requires IsAssignment(a, rows, columns)
    ensures forall i | 1 <= i <= rows :: slot[i] >= 1
    ensures IsAssignment(Chosen(slot, rows), rows, columns)
    ensures TotalCost(c, Chosen(slot, rows), rows) <= TotalCost(c, a, rows)
  {
    var best := Chosen(slot, rows);
    ChosenIsAssignment(p, slot, rows, columns);
    ChosenIsExact(c, rows, columns, u, v, p, slot);
    CostVersusPotentials(c, rows, columns, u, v, best, rows);
    CostVersusPotentials(c, rows, columns, u, v, a, rows);
    UnchosenAreFree(rows, columns, v, p, slot);
    CheapestColumns(v, Image(a, rows), Image(best, rows), columns);
  }

  lemma ChosenIsExact(c: Costs, rows: nat, columns: nat, u: seq<real>, v: seq<real>, p: seq<nat>, slot: seq<int>)
    requires Settled(c, rows, columns, u, v, p, slot, rows)
    requires forall i | 1 <= i <= rows :: slot[i] >= 1
    ensures forall i | 0 <= i < rows :: Exact(c, u, v, Chosen(slot, rows), i)
  {
    forall i | 0 <= i < rows ensures Exact(c, u, v, Chosen(slot, rows), i) {
      assert p[slot[i + 1]] == i + 1;
    }
  }

  lemma UnchosenAreFree(rows: nat, columns: nat, v: seq<real>, p: seq<nat>, slot: seq<int>)
    requires |p| == |v| == columns + 1 && |slot| == rows + 1 && Inverse(p, slot, rows, 0) && Priced(v, p)
    requires forall i | 1 <= i <= rows :: slot[i] >= 1
    ensures forall j | 1 <= j <= columns && j - 1 !in Image(Chosen(slot, rows), rows) :: v[j] == 0.0
  {
    var best := Chosen(slot, rows);
    forall j | 1 <= j <= columns && p[j] != 0 ensures j - 1 in Image(best, rows) {
      assert best[p[j] - 1] == j - 1;
    }
  }

  lemma ChosenIsAssignment(p: seq<nat>, slot: seq<int>, rows: nat, columns: nat)
    requires |p| == columns + 1 && |slot| == rows + 1 && Inverse(p, slot, rows, 0)
    ensures forall i | 1 <= i <= rows :: slot[i] >= 1
    ensures IsAssignment(Chosen(slot, rows), rows, columns)
  {
    var best := Chosen(slot, rows);
    forall i, j | 0 <= i < j < rows ensures best[i] != best[j] {
      assert p[slot[i + 1]] == i + 1 && p[slot[j + 1]] == j + 1;
    }
  }

  // ----- Growing the alternating tree of one row

  /** The search tree: `used` columns, the link `way` back towards column 0 (ordered by
      `rank`, so following links terminates), and `column`, the next one to enter. */
  datatype Tree = Tree(used: seq<bool>, way: seq<nat>, rank: seq<nat>, column: nat)

  ghost predicate TreeSized(t: Tree, columns: nat) {
    |t.used| == |t.way| == |t.rank| == columns + 1 && t.column <= columns
  }

  predicate InTree(t: Tree, j: nat)
    requires j < |t.used|
  {
    t.used[j] || j == t.column
  }

  /** Each tree column but the root hangs by a tight edge from an earlier used column. */
  ghost predicate Linked(c: Costs, rows: nat, columns: nat, u: seq<real>, v: seq<real>, p: seq<nat>, t: Tree, j: nat)
    requires Sized(c, rows, columns, u, v, p) && TreeSized(t, columns) && j <= columns
  {
    j != 0 && InTree(t, j) ==>
      && t.way[j] <= columns && t.used[t.way[j]] && t.rank[t.way[j]] < t.rank[j]
      && 1 <= p[t.way[j]] <= rows
      && Reduced(c, u, v, p[t.way[j]], j) == 0.0
  }

  /** `minimum[j]` is the least reduced cost from the used rows to column j, met at `way[j]`. */
  ghost predicate Reached(c: Costs, rows: nat, columns: nat, u: seq<real>, v: seq<real>, p: seq<nat>, t: Tree,
                          minimum: seq<Bound>, j: nat)
    requires Sized(c, rows, columns, u, v, p) && TreeSized(t, columns) && |minimum| == columns + 1
    requires 1 <= j <= columns
    requires forall k | 0 <= k <= columns && t.used[k] :: 1 <= p[k] <= rows
  {
    && minimum[j].Set? && t.way[j] <= columns && t.used[t.way[j]]
    && minimum[j].value == Reduced(c, u, v, p[t.way[j]], j)
    && forall k | 0 <= k <= columns && t.used[k] :: minimum[j].value <= Reduced(c, u, v, p[k], j)
  }

  /** The state inside row `row`'s search, which is at the root before its first step. */
  ghost predicate Growing(c: Costs, rows: nat, columns: nat, u: seq<real>, v: seq<real>, p: seq<nat>,
                          slot: seq<int>, row: nat, t: Tree, minimum: seq<Bound>)
  {
    && Sized(c, rows, columns, u, v, p) && TreeSized(t, columns) && |slot| == rows + 1 && |minimum| == columns + 1
    && 1 <= row <= rows && p[0] == row
    && Inverse(p, slot, row, -1)
    && Tight(c, rows, columns, u, v, p, -1)
    && Priced(v, p)
    && !t.used[t.column]
    && (forall j | 0 <= j <= columns && t.used[j] :: p[j] != 0 && t.rank[j] < t.rank[t.column])
    && (forall j | 0 <= j <= columns :: Linked(c, rows, columns, u, v, p, t, j))
    && if t.used[0] then
         && t.column != 0
         && AllFeasible(c, rows, columns, u, v, row)
         && forall j | 1 <= j <= columns && !t.used[j] :: Reached(c, rows, columns, u, v, p, t, minimum, j)
       else
         && t.column == 0
         && AllFeasible(c, rows, columns, u, v, row - 1)
         && (forall j | 0 <= j <= columns :: !t.used[j])
         && forall j | 0 <= j <= columns :: minimum[j].Unset?
  }

  /** The least minimum of the unused columns below n, and the first column that has it; none
      when all are used. */
  ghost predicate Nearest(used: seq<bool>, minimum: seq<Bound>, n: nat, delta: Bound, next: nat)
    requires n <= |used| == |minimum|
  {
    && (next == 0 <==> forall j | 1 <= j < n :: used[j])
    && (next == 0 <==> delta.Unset?)
    && (next != 0 ==> next < n && !used[next] && delta == minimum[next])
    && (forall j | 1 <= j < n && !used[j] ::
          minimum[j].Set? && delta.Set? && delta.value <= minimum[j].value)
    && (forall j | 1 <= j < next && j < n && !used[j] :: delta.Set? && delta.value < minimum[j].value)
  }

  lemma NearestStep(used: seq<bool>, before: seq<Bound>, minimum: seq<Bound>, n: nat, delta: Bound, next: nat)
    requires 1 <= n < |used| == |before| == |minimum|
    requires Nearest(used, before, n, delta, next)
    requires forall j | 0 <= j < n :: minimum[j] == before[j]
    requires used[n] || minimum[n].Set?
    ensures if !used[n] && (delta.Unset? || minimum[n].value < delta.value)
            then Nearest(used, minimum, n + 1, minimum[n], n)
            else Nearest(used, minimum, n + 1, delta, next)
  {
  }

  /** The minima and predecessors once the unused columns below n are scanned from `column`, whose
      row is `active`: each is lowered where the row reaches it at less, and nothing else moves. */
  ghost predicate ScannedTo(c: Costs, u: seq<real>, v: seq<real>, active: nat, column: nat, used: seq<bool>,
                            minimum: seq<Bound>, way: seq<nat>, n: nat, minimum': seq<Bound>, way': seq<nat>)
    requires n <= |v| == |used| == |minimum| == |way| == |minimum'| == |way'|
    requires 1 <= active <= |c| && active < |u| && n <= |c[active - 1]| + 1
  {
    && (forall j | 0 <= j < |v| && (j == 0 || used[j] || n <= j) :: minimum'[j] == minimum[j] && way'[j] == way[j])
    && forall j | 1 <= j < n && !used[j] ::
         var r := Reduced(c, u, v, active, j);
         && minimum'[j] == (if Below(r, minimum[j]) then Set(r) else minimum[j])
         && way'[j] == if Below(r, minimum[j]) then column else way[j]
  }

  lemma ScanStart(c: Costs, u: seq<real>, v: seq<real>, active: nat, column: nat, used: seq<bool>,
                  minimum: seq<Bound>, way: seq<nat>)
    requires 1 <= |v| == |used| == |minimum| == |way| && 1 <= active <= |c| && active < |u|
    ensures ScannedTo(c, u, v, active, column, used, minimum, way, 1, minimum, way)
    ensures Nearest(used, minimum, 1, Unset, 0)
  {
  }

  lemma ScanStep(c: Costs, u: seq<real>, v: seq<real>, active: nat, column: nat, used: seq<bool>,
                 minimum: seq<Bound>, way: seq<nat>, n: nat, minimum': seq<Bound>, way': seq<nat>)
    requires 1 <= n < |v| == |used| == |minimum| == |way| == |minimum'| == |way'|
    requires 1 <= active <= |c| && active < |u| && n <= |c[active - 1]|
    requires ScannedTo(c, u, v, active, column, used, minimum, way, n, minimum', way')
    ensures used[n] ==> ScannedTo(c, u, v, active, column, used, minimum, way, n + 1, minimum', way')
    ensures !used[n] ==>
              var r := c[active - 1][n - 1] - u[active] - v[n];
              if Below(r, minimum'[n])
              then ScannedTo(c, u, v, active, column, used, minimum, way, n + 1, minimum'[n := Set(r)], way'[n := column])
              else minimum'[n].Set? && ScannedTo(c, u, v, active, column, used, minimum, way, n + 1, minimum', way')
  {
  }

  /** One unused column of the scan: its minimum and predecessor, and the nearest so far. */
  method Offer(c: Costs, u: array<real>, v: array<real>, used: array<bool>, minimum: array<Bound>, way: array<nat>,
               active: nat, column: nat, j: nat, delta: Bound, next: nat,
               ghost minimum0: seq<Bound>, ghost way0: seq<nat>)
    returns (delta': Bound, next': nat)
    requires 1 <= j < v.Length == used.Length == minimum.Length == way.Length == |minimum0| == |way0|
    requires 1 <= active <= |c| && active < u.Length && j <= |c[active - 1]| && !used[j]
    requires ScannedTo(c, u[..], v[..], active, column, used[..], minimum0, way0, j, minimum[..], way[..])
    requires Nearest(used[..], minimum[..], j, delta, next)
    modifies minimum, way
    ensures ScannedTo(c, u[..], v[..], active, column, used[..], minimum0, way0, j + 1, minimum[..], way[..])
    ensures Nearest(used[..], minimum[..], j + 1, delta', next')
  {
    hide Nearest, ScannedTo, Below;
    ghost var us, vs, before, way1 := u[..], v[..], minimum[..], way[..];
    ScanStep(c, us, vs, active, column, used[..], minimum0, way0, j, before, way1);
    var reduced := c[active - 1][j - 1] - u[active] - v[j];
    if Below(reduced, minimum[j]) {
      minimum[j] := Set(reduced);
      way[j] := column;
      assert minimum[..] == before[j := Set(reduced)] && way[..] == way1[j := column];
    }
    NearestStep(used[..], before, minimum[..], j, delta, next);
    if delta.Unset? || minimum[j].value < delta.value {
      return minimum[j], j;
    } else {
      return delta, next;
    }
  }

  /** The scan of one used column's row over all unused columns. */
  method Scan(c: Costs, rows: nat, columns: nat, u: array<real>, v: array<real>, p: array<nat>, used: array<bool>,
              minimum: array<Bound>, way: array<nat>, column: nat)
    returns (delta: Bound, next: nat)
    requires IsTable(c, rows, columns) && u.Length == rows + 1
    requires v.Length == p.Length == used.Length == minimum.Length == way.Length == columns + 1
    requires column <= columns && 1 <= p[column] <= rows && p != way
    modifies minimum, way
    ensures ScannedTo(c, u[..], v[..], p[column], column, used[..], old(minimum[..]), old(way[..]), columns + 1,
                      minimum[..], way[..])
    ensures Nearest(used[..], minimum[..], columns + 1, delta, next)
  {
    var active := p[column];
    ghost var minimum0, way0 := minimum[..], way[..];
    delta, next := Unset, 0;
    hide Nearest, ScannedTo;
    ScanStart(c, u[..], v[..], active, column, used[..], minimum0, way0);
    for j := 1 to columns + 1
      invariant ScannedTo(c, u[..], v[..], active, column, used[..], minimum0, way0, j, minimum[..], way[..])
      invariant Nearest(used[..], minimum[..], j, delta, next)
    {
      if used[j] {
        ScanStep(c, u[..], v[..], active, column, used[..], minimum0, way0, j, minimum[..], way[..]);
        NearestStep(used[..], minimum[..], minimum[..], j, delta, next);
        continue;
      }
      delta, next := Offer(c, u, v, used, minimum, way, active, column, j, delta, next, minimum0, way0);
    }
  }

  ghost predicate RowUsed(p: seq<nat>, used: seq<bool>, i: nat)
    requires |p| == |used|
  {
    exists j | 0 <= j < |p| :: used[j] && p[j] == i
  }

  /** The dual update: rows and columns of the tree move against each other by `delta`. */
  method Shift(rows: nat, columns: nat, u: array<real>, v: array<real>, p: array<nat>, used: array<bool>,
               minimum: array<Bound>, delta: real)
    requires u.Length == rows + 1
    requires v.Length == p.Length == used.Length == minimum.Length == columns + 1
    requires u != v && used[0]
    requires forall j | 0 <= j <= columns && used[j] :: p[j] <= rows
    requires forall j, k | 0 <= j < k <= columns && used[j] && used[k] :: p[j] != p[k]
    requires forall j | 1 <= j <= columns && !used[j] :: minimum[j].Set?
    modifies u, v, minimum
    ensures forall i | 0 <= i <= rows ::
              u[i] == if RowUsed(p[..], used[..], i) then old(u[i]) + delta else old(u[i])
    ensures forall j | 0 <= j <= columns :: v[j] == if used[j] then old(v[j]) - delta else old(v[j])
    ensures forall j | 1 <= j <= columns && !used[j] :: minimum[j] == Set(old(minimum[j]).value - delta)
  {
    for j := 0 to columns + 1
      invariant forall i | 0 <= i <= rows ::
                  u[i] == if RowUsed(p[..j], used[..j], i) then old(u[i]) + delta else old(u[i])
      invariant forall k | 0 <= k <= columns ::
                  v[k] == if k < j && used[k] then old(v[k]) - delta else old(v[k])
      invariant forall k | 1 <= k <= columns && !used[k] ::
                  minimum[k] == if k < j then Set(old(minimum[k]).value - delta) else old(minimum[k])
    {
      ghost var before := u[..];
      if used[j] {
        u[p[j]] := u[p[j]] + delta;
        v[j] := v[j] - delta;
      } else {
        minimum[j] := Set(minimum[j].value - delta);
      }
      RowUsedStep(p[..], used[..], j);
    }
    assert p[..columns + 1] == p[..] && used[..columns + 1] == used[..];
  }

  lemma RowUsedStep(p: seq<nat>, used: seq<bool>, j: nat)
    requires j < |p| == |used|
    requires forall k | 0 <= k < j && used[k] && used[j] :: p[k] != p[j]
    ensures forall i: nat ::
              RowUsed(p[..j + 1], used[..j + 1], i) <==> RowUsed(p[..j], used[..j], i) || (used[j] && p[j] == i)
    ensures used[j] ==> !RowUsed(p[..j], used[..j], p[j])
  {
    forall i: nat
      ensures RowUsed(p[..j + 1], used[..j + 1], i) <==> RowUsed(p[..j], used[..j], i) || (used[j] && p[j] == i)
    {
      var ps, us := p[..j + 1], used[..j + 1];
      if RowUsed(p[..j], used[..j], i) {
        var k :| 0 <= k < j && used[..j][k] && p[..j][k] == i;
        assert us[k] && ps[k] == i;
      }
      if used[j] && p[j] == i {
        assert us[j] && ps[j] == i;
      }
    }
  }

  /** The state between a scan and the dual update: `t.column` has joined the used set. */
  ghost predicate Scanned(c: Costs, rows: nat, columns: nat, u: seq<real>, v: seq<real>, p: seq<nat>,
                          slot: seq<int>, row: nat, t: Tree, minimum: seq<Bound>)
  {
    && Sized(c, rows, columns, u, v, p) && TreeSized(t, columns) && |slot| == rows + 1 && |minimum| == columns + 1
    && 1 <= row <= rows && p[0] == row
    && Inverse(p, slot, row, -1)
    && Tight(c, rows, columns, u, v, p, -1)
    && Priced(v, p)
    && t.used[t.column] && t.used[0]
    && (forall j | 0 <= j <= columns && t.used[j] :: p[j] != 0 && t.rank[j] <= t.rank[t.column])
    && (forall j | 0 <= j <= columns :: Linked(c, rows, columns, u, v, p, t, j))
    && (forall j | 1 <= j <= columns && !t.used[j] :: Reached(c, rows, columns, u, v, p, t, minimum, j))
    && if t.column == 0 then
         && AllFeasible(c, rows, columns, u, v, row - 1)
         && forall j | 1 <= j <= columns :: !t.used[j]
       else
         AllFeasible(c, rows, columns, u, v, row)
  }

  lemma ScanKeeps(c: Costs, rows: nat, columns: nat, u: seq<real>, v: seq<real>, p: seq<nat>, slot: seq<int>,
                  row: nat, t: Tree, minimum: seq<Bound>, way': seq<nat>, minimum': seq<Bound>)
    requires Growing(c, rows, columns, u, v, p, slot, row, t, minimum)
    requires |way'| == |minimum'| == columns + 1 && p[t.column] != 0
    requires forall j | 0 <= j <= columns && (j == 0 || j == t.column || t.used[j]) :: way'[j] == t.way[j]
    requires forall j | 1 <= j <= columns && j != t.column && !t.used[j] ::
               var r := Reduced(c, u, v, p[t.column], j);
               && minimum'[j] == (if Below(r, minimum[j]) then Set(r) else minimum[j])
               && way'[j] == if Below(r, minimum[j]) then t.column else t.way[j]
    ensures Scanned(c, rows, columns, u, v, p, slot, row,
                    t.(used := t.used[t.column := true], way := way'), minimum')
  {
    var t' := t.(used := t.used[t.column := true], way := way');
    forall j | 0 <= j <= columns ensures Linked(c, rows, columns, u, v, p, t', j) {
      assert Linked(c, rows, columns, u, v, p, t, j);
    }
    forall j | 1 <= j <= columns && !t'.used[j]
      ensures Reached(c, rows, columns, u, v, p, t', minimum', j)
    {
      if t.used[0] {
        assert Reached(c, rows, columns, u, v, p, t, minimum, j);
      }
    }
  }

  /** What `Shift` did, on values. */
  ghost predicate Shifted(p: seq<nat>, used: seq<bool>, delta: real, u: seq<real>, v: seq<real>, minimum: seq<Bound>,
                          u': seq<real>, v': seq<real>, minimum': seq<Bound>)
    requires |p| == |used|
  {
    && |u'| == |u| && |v'| == |v| == |used| && |minimum'| == |minimum| == |used|
    && (forall i | 0 <= i < |u| :: u'[i] == if RowUsed(p, used, i) then u[i] + delta else u[i])
    && (forall j | 0 <= j < |v| :: v'[j] == if used[j] then v[j] - delta else v[j])
    && forall j | 1 <= j < |v| && !used[j] :: minimum[j].Set? && minimum'[j] == Set(minimum[j].value - delta)
  }

  /** The tree once `next` is the column to enter, ranked after everything used so far. */
  function Entering(t: Tree, next: nat): Tree
    requires next < |t.rank| && t.column < |t.rank|
  {
    t.(rank := t.rank[next := t.rank[t.column] + 1], column := next)
  }

  lemma ReducedAfterShift(c: Costs, rows: nat, columns: nat, u: seq<real>, v: seq<real>, p: seq<nat>, used: seq<bool>,
                          minimum: seq<Bound>, delta: real, u': seq<real>, v': seq<real>, minimum': seq<Bound>)
    requires Sized(c, rows, columns, u, v, p) && |used| == columns + 1
    requires Shifted(p, used, delta, u, v, minimum, u', v', minimum')
    ensures forall i, j | 1 <= i <= rows && 1 <= j <= columns ::
              Reduced(c, u', v', i, j) == Reduced(c, u, v, i, j)
                - (if RowUsed(p, used, i) then delta else 0.0) + if used[j] then delta else 0.0
  {
  }

  /** Each unused column keeps at least `delta` of slack to every tree row, so no edge goes
      negative; in the first step the new row becomes feasible. */
  lemma ShiftFeasible(c: Costs, rows: nat, columns: nat, u: seq<real>, v: seq<real>, p: seq<nat>, slot: seq<int>,
                      row: nat, t: Tree, minimum: seq<Bound>, delta: real,
                      u': seq<real>, v': seq<real>, minimum': seq<Bound>)
    requires Scanned(c, rows, columns, u, v, p, slot, row, t, minimum)
    requires t.column != 0 ==> delta >= 0.0
    requires forall j | 1 <= j <= columns && !t.used[j] :: delta <= minimum[j].value
    requires Shifted(p, t.used, delta, u, v, minimum, u', v', minimum')
    ensures AllFeasible(c, rows, columns, u', v', row)
  {
    ReducedAfterShift(c, rows, columns, u, v, p, t.used, minimum, delta, u', v', minimum');
    assert t.used[0] && p[0] == row;
    forall i | 1 <= i <= row ensures Feasible(c, rows, columns, u', v', i) {
      forall j | 1 <= j <= columns ensures Reduced(c, u', v', i, j) >= 0.0 {
        if RowUsed(p, t.used, i) && !t.used[j] {
          assert Reached(c, rows, columns, u, v, p, t, minimum, j);
        } else {
          assert t.column == 0 ==> !t.used[j] && i != row;
          assert Feasible(c, rows, columns, u, v, i);
        }
      }
    }
  }

  /** Matched and tree edges lie wholly inside or wholly outside the tree, so they stay tight. */
  lemma ShiftTight(c: Costs, rows: nat, columns: nat, u: seq<real>, v: seq<real>, p: seq<nat>, slot: seq<int>,
                   row: nat, t: Tree, minimum: seq<Bound>, delta: real, next: nat,
                   u': seq<real>, v': seq<real>, minimum': seq<Bound>)
    requires Scanned(c, rows, columns, u, v, p, slot, row, t, minimum)
    requires 1 <= next <= columns && !t.used[next] && minimum[next] == Set(delta)
    requires Shifted(p, t.used, delta, u, v, minimum, u', v', minimum')
    ensures Tight(c, rows, columns, u', v', p, -1)
    ensures forall j | 0 <= j <= columns ::
              Linked(c, rows, columns, u', v', p, Entering(t, next), j)
  {
    var t' := Entering(t, next);
    ReducedAfterShift(c, rows, columns, u, v, p, t.used, minimum, delta, u', v', minimum');
    assert Reached(c, rows, columns, u, v, p, t, minimum, next);
    hide AllFeasible;
    forall j | 1 <= j <= columns && p[j] != 0 ensures Reduced(c, u', v', p[j], j) == 0.0 {
      assert RowUsed(p, t.used, p[j]) <==> t.used[j];
    }
    forall j | 0 <= j <= columns ensures Linked(c, rows, columns, u', v', p, t', j) {
      assert Linked(c, rows, columns, u, v, p, t, j);
      if j != 0 && InTree(t', j) {
        assert RowUsed(p, t.used, p[t.way[j]]);
      }
    }
  }

  lemma ShiftReach(c: Costs, rows: nat, columns: nat, u: seq<real>, v: seq<real>, p: seq<nat>, slot: seq<int>,
                   row: nat, t: Tree, minimum: seq<Bound>, delta: real,
                   u': seq<real>, v': seq<real>, minimum': seq<Bound>, j: nat)
    requires Scanned(c, rows, columns, u, v, p, slot, row, t, minimum)
    requires Shifted(p, t.used, delta, u, v, minimum, u', v', minimum')
    requires 1 <= j <= columns && !t.used[j]
    ensures Reached(c, rows, columns, u', v', p, t, minimum', j)
  {
    assert Reached(c, rows, columns, u, v, p, t, minimum, j);
    forall k | 0 <= k <= columns && t.used[k]
      ensures 1 <= p[k] <= rows && Reduced(c, u', v', p[k], j) == Reduced(c, u, v, p[k], j) - delta
    {
      assert RowUsed(p, t.used, p[k]);
    }
  }

  /** The dual update leaves a tree that `next` may enter. */
  lemma ShiftKeeps(c: Costs, rows: nat, columns: nat, u: seq<real>, v: seq<real>, p: seq<nat>, slot: seq<int>,
                   row: nat, t: Tree, minimum: seq<Bound>, delta: real, next: nat,
                   u': seq<real>, v': seq<real>, minimum': seq<Bound>)
    requires Scanned(c, rows, columns, u, v, p, slot, row, t, minimum)
    requires 1 <= next <= columns && !t.used[next] && minimum[next] == Set(delta)
    requires forall j | 1 <= j <= columns && !t.used[j] :: delta <= minimum[j].value
    requires Shifted(p, t.used, delta, u, v, minimum, u', v', minimum')
    ensures Growing(c, rows, columns, u', v', p, slot, row,
                    Entering(t, next), minimum')
  {
    var t' := Entering(t, next);
    assert Reached(c, rows, columns, u, v, p, t, minimum, next);
    assert t.column != 0 ==> delta >= 0.0 by {
      if t.column != 0 {
        assert Feasible(c, rows, columns, u, v, p[t.way[next]]);
      }
    }
    hide AllFeasible, Linked, Tight, Reduced;
    ShiftFeasible(c, rows, columns, u, v, p, slot, row, t, minimum, delta, u', v', minimum');
    ShiftTight(c, rows, columns, u, v, p, slot, row, t, minimum, delta, next, u', v', minimum');
    forall j | 1 <= j <= columns && !t'.used[j]
      ensures Reached(c, rows, columns, u', v', p, t', minimum', j)
    {
      ShiftReach(c, rows, columns, u, v, p, slot, row, t, minimum, delta, u', v', minimum', j);
    }
  }

  // ----- Augmenting along the tree

  /** Columns the augmentation may still visit: the hole, and tree columns ranked below it. */
  ghost predicate OnPath(used: seq<bool>, rank: seq<nat>, hole: nat, j: nat)
    requires hole < |rank| && j < |rank| == |used|
  {
    j == hole || (used[j] && rank[j] < rank[hole])
  }

  /** While the free end of the path sits at `hole`, everything else is matched tightly and
      the rest of the path back to column 0 is intact. */
  ghost predicate Augmenting(c: Costs, rows: nat, columns: nat, u: seq<real>, v: seq<real>, p: seq<nat>, slot: seq<int>,
                             row: nat, used: seq<bool>, way: seq<nat>, rank: seq<nat>, hole: nat)
  {
    && Sized(c, rows, columns, u, v, p) && |slot| == rows + 1 && |way| == |rank| == |used| == columns + 1
    && 1 <= row <= rows && hole <= columns
    && Inverse(p, slot, row, hole)
    && Tight(c, rows, columns, u, v, p, hole)
    && Priced(v, p)
    && forall j | 1 <= j <= columns && OnPath(used, rank, hole, j) ::
         && way[j] <= columns && used[way[j]] && rank[way[j]] < rank[j]
         && 1 <= p[way[j]] <= rows && Reduced(c, u, v, p[way[j]], j) == 0.0
  }

  lemma AugmentStep(c: Costs, rows: nat, columns: nat, u: seq<real>, v: seq<real>, p: seq<nat>, slot: seq<int>,
                    row: nat, used: seq<bool>, way: seq<nat>, rank: seq<nat>, hole: nat)
    requires Augmenting(c, rows, columns, u, v, p, slot, row, used, way, rank, hole) && hole != 0
    ensures way[hole] <= columns && 1 <= p[way[hole]] <= rows && rank[way[hole]] < rank[hole]
    ensures var p' := p[hole := p[way[hole]]];
            var slot' := slot[p[way[hole]] := hole];
            Augmenting(c, rows, columns, u, v, p', slot', row, used, way, rank, way[hole])
  {
    assert OnPath(used, rank, hole, hole);
    var next := way[hole];
    var p' := p[hole := p[next]];
    forall j | 1 <= j <= columns && OnPath(used, rank, next, j)
      ensures way[j] <= columns && used[way[j]] && rank[way[j]] < rank[j]
              && 1 <= p'[way[j]] <= rows && Reduced(c, u, v, p'[way[j]], j) == 0.0
    {
      assert OnPath(used, rank, hole, j);
    }
  }

  /** Part of the way back to column 0, with lower and lower ranks. */
  ghost predicate Walked(p: seq<nat>, way: seq<nat>, rank: seq<nat>, path: seq<nat>, start: nat, p': seq<nat>) {
    && |way| == |rank| == |p| && Moved(p, path, p') && path[0] == start
    && forall i | 0 <= i < |path| - 1 ::
         path[i] != 0 && path[i + 1] == way[path[i]] && rank[path[|path| - 1]] < rank[path[i]]
  }

  lemma WalkStep(p: seq<nat>, way: seq<nat>, rank: seq<nat>, path: seq<nat>, start: nat, p': seq<nat>)
    requires Walked(p, way, rank, path, start, p')
    requires var j := path[|path| - 1]; j != 0 && way[j] < |p| && rank[way[j]] < rank[j]
    ensures var j := path[|path| - 1];
            Walked(p, way, rank, path + [way[j]], start, p'[j := p'[way[j]]])
  {
    var j := path[|path| - 1];
    assert way[j] !in path[..|path| - 1] && j !in path[..|path| - 1];
    MovedOn(p, path, p', way[j]);
    hide Moved;
  }

  lemma MovedOn(p: seq<nat>, path: seq<nat>, p': seq<nat>, next: nat)
    requires Moved(p, path, p') && next < |p| && next !in path[..|path| - 1] && path[|path| - 1] !in path[..|path| - 1]
    requires next != path[|path| - 1]
    ensures Moved(p, path + [next], p'[path[|path| - 1] := p'[next]])
  {
    var j := path[|path| - 1];
    var path', p'' := path + [next], p'[j := p'[next]];
    assert path'[..|path'| - 1] == path && path == path[..|path| - 1] + [j];
    forall i | 0 <= i < |path'| - 1 ensures p''[path'[i]] == p[path'[i + 1]] {
      assert i < |path| - 1 ==> path[i] in path[..|path| - 1];
    }
  }

  /** The final loop of a row: shift the matching along the path, from `start` to column 0. */
  method Augment(c: Costs, rows: nat, columns: nat, ghost u: seq<real>, ghost v: seq<real>, p: array<nat>,
                 way: array<nat>, start: nat, ghost slot: seq<int>, ghost row: nat,
                 ghost used: seq<bool>, ghost rank: seq<nat>)
    returns (ghost slot': seq<int>, ghost path: seq<nat>)
    requires p != way && p.Length == columns + 1
    requires Augmenting(c, rows, columns, u, v, p[..], slot, row, used, way[..], rank, start)
    modifies p
    ensures Augmenting(c, rows, columns, u, v, p[..], slot', row, used, way[..], rank, 0)
    ensures IsPath(way[..], path, start) && Moved(old(p[..]), path, p[..])
  {
    var column := start;
    slot', path := slot, [start];
    while column != 0
      invariant Augmenting(c, rows, columns, u, v, p[..], slot', row, used, way[..], rank, column)
      invariant Walked(old(p[..]), way[..], rank, path, start, p[..]) && path[|path| - 1] == column
      decreases rank[column]
    {
      WalkStep(old(p[..]), way[..], rank, path, start, p[..]);
      path := path + [way[column]];
      AugmentStep(c, rows, columns, u, v, p[..], slot', row, used, way[..], rank, column);
      var previous := way[column];
      ghost var before := p[..];
      p[column] := p[previous];
      slot' := slot'[p[column] := column];
      assert p[..] == before[column := before[previous]];
      column := previous;
    }
  }

  /** A grown tree that reached a free column is a path to augment along. */
  lemma GrownIsAugmenting(c: Costs, rows: nat, columns: nat, u: seq<real>, v: seq<real>, p: seq<nat>, slot: seq<int>,
                          row: nat, t: Tree, minimum: seq<Bound>)
    requires Growing(c, rows, columns, u, v, p, slot, row, t, minimum) && p[t.column] == 0
    ensures Augmenting(c, rows, columns, u, v, p, slot, row, t.used, t.way, t.rank, t.column)
    ensures AllFeasible(c, rows, columns, u, v, row)
  {
    forall j | 1 <= j <= columns && OnPath(t.used, t.rank, t.column, j)
      ensures t.way[j] <= columns && t.used[t.way[j]] && t.rank[t.way[j]] < t.rank[j]
              && 1 <= p[t.way[j]] <= rows && Reduced(c, u, v, p[t.way[j]], j) == 0.0
    {
      assert Linked(c, rows, columns, u, v, p, t, j);
    }
  }

  /** More columns than rows: the tree cannot swallow every column. */
  lemma SomeColumnUnused(rows: nat, columns: nat, p: seq<nat>, slot: seq<int>, row: nat, used: seq<bool>)
    requires |p| == |used| == columns + 1 && Inverse(p, slot, row, -1) && row <= rows <= columns
    requires forall j | 0 <= j <= columns && used[j] :: p[j] != 0
    requires used[0]
    ensures exists j | 1 <= j <= columns :: !used[j]
  {
    if forall j | 1 <= j <= columns :: used[j] {
      var held := set i | 1 <= i <= row :: slot[i];
      forall j | j in Range(columns + 1) ensures j in held {
        assert p[j] != 0 && slot[p[j]] == j;
      }
      ImageSize(slot, row, held);
      SubsetSize(Range(columns + 1), held);
      assert false;
    }
  }

  lemma {:induction false} ImageSize(slot: seq<int>, n: nat, s: set<int>)
    requires n < |slot| && s == set i | 1 <= i <= n :: slot[i]
    ensures |s| <= n
  {
    if n > 0 {
      var s' := set i | 1 <= i <= n - 1 :: slot[i];
      ImageSize(slot, n - 1, s');
      assert s == s' + {slot[n]};
    }
  }

  // ----- The run of the solver

  /** The search for one row: duals, used columns, minima, predecessors, the column to enter. */
  datatype Search = Search(u: seq<real>, v: seq<real>, used: seq<bool>, minimum: seq<Bound>, way: seq<nat>, column: nat)

  ghost predicate SearchSized(s: Search, rows: nat, columns: nat) {
    && |s.u| == rows + 1 && |s.v| == |s.used| == |s.minimum| == |s.way| == columns + 1 && s.column <= columns
  }

  /** One step: the column is used, its row scanned to these minima, the duals moved by delta. */
  ghost predicate StepsBy(c: Costs, rows: nat, columns: nat, p: seq<nat>, s: Search, s': Search,
                          minimum: seq<Bound>, delta: Bound)
  {
    && IsTable(c, rows, columns) && |p| == |minimum| == columns + 1
    && SearchSized(s, rows, columns) && SearchSized(s', rows, columns)
    && 1 <= p[s.column] <= rows && s'.used == s.used[s.column := true]
    && ScannedTo(c, s.u, s.v, p[s.column], s.column, s'.used, s.minimum, s.way, columns + 1, minimum, s'.way)
    && Nearest(s'.used, minimum, columns + 1, delta, s'.column) && s'.column != 0
    && Shifted(p, s'.used, delta.value, s.u, s.v, minimum, s'.u, s'.v, s'.minimum)
  }

  ghost predicate Stepped(c: Costs, rows: nat, columns: nat, p: seq<nat>, s: Search, s': Search) {
    exists minimum, delta :: StepsBy(c, rows, columns, p, s, s', minimum, delta)
  }

  /** A search: its states in order, each but the last at an occupied column. */
  ghost predicate Searched(c: Costs, rows: nat, columns: nat, p: seq<nat>, t: seq<Search>) {
    && |p| == columns + 1 && t != [] && (forall i | 0 <= i < |t| :: SearchSized(t[i], rows, columns))
    && forall i | 0 <= i < |t| - 1 :: p[t[i].column] != 0 && Stepped(c, rows, columns, p, t[i], t[i + 1])
  }

  lemma SearchedOn(c: Costs, rows: nat, columns: nat, p: seq<nat>, t: seq<Search>, s: Search)
    requires Searched(c, rows, columns, p, t) && p[t[|t| - 1].column] != 0
    requires Stepped(c, rows, columns, p, t[|t| - 1], s)
    ensures Searched(c, rows, columns, p, t + [s])
  {
    hide Stepped;
    assert SearchSized(s, rows, columns) by { SteppedSized(c, rows, columns, p, t[|t| - 1], s); }
  }

  lemma SteppedSized(c: Costs, rows: nat, columns: nat, p: seq<nat>, s: Search, s': Search)
    requires Stepped(c, rows, columns, p, s, s')
    ensures SearchSized(s, rows, columns) && SearchSized(s', rows, columns)
  {
  }

  /** The columns the augmentation visits, back to column 0. */
  ghost predicate IsPath(way: seq<nat>, path: seq<nat>, start: nat) {
    && path != [] && path[0] == start && path[|path| - 1] == 0
    && forall i | 0 <= i < |path| - 1 :: path[i] != 0 && path[i] < |way| && path[i + 1] == way[path[i]]
  }

  /** Every column of the path but the last takes the row of the next; no other row moves. */
  ghost predicate Moved(p: seq<nat>, path: seq<nat>, p': seq<nat>) {
    && path != [] && |p'| == |p| && (forall i | 0 <= i < |path| :: path[i] < |p|)
    && (forall i | 0 <= i < |path| - 1 :: p'[path[i]] == p[path[i + 1]])
    && forall j: nat | j < |p| && j !in path[..|path| - 1] :: p'[j] == p[j]
  }

  /** The solver between two rows. */
  datatype State = State(u: seq<real>, v: seq<real>, p: seq<nat>, way: seq<nat>, slot: seq<int>)

  ghost function Root(d: State, columns: nat): Search {
    Search(d.u, d.v, seq(columns + 1, _ => false), seq(columns + 1, _ => Unset), d.way, 0)
  }

  /** The row is placed by this search and this path. */
  ghost predicate PlacedBy(c: Costs, rows: nat, columns: nat, row: nat, d: State, d': State, t: seq<Search>, path: seq<nat>) {
    && |d.p| == columns + 1 && var p := d.p[0 := row];
    && Searched(c, rows, columns, p, t) && t[0] == Root(d, columns)
    && var end := t[|t| - 1];
    && p[end.column] == 0 && d'.u == end.u && d'.v == end.v && d'.way == end.way
    && IsPath(end.way, path, end.column) && Moved(p, path, d'.p)
  }

  ghost predicate Placed(c: Costs, rows: nat, columns: nat, row: nat, d: State, d': State) {
    exists t, path :: PlacedBy(c, rows, columns, row, d, d', t, path)
  }

  ghost predicate SettledIn(c: Costs, rows: nat, columns: nat, d: State, done: nat) {
    Settled(c, rows, columns, d.u, d.v, d.p, d.slot, done) && |d.way| == columns + 1
  }

  ghost function Fresh(rows: nat, columns: nat): State {
    State(seq(rows + 1, _ => 0.0), seq(columns + 1, _ => 0.0), seq(columns + 1, _ => 0), seq(columns + 1, _ => 0),
          seq(rows + 1, _ => 0))
  }

  /** The solver's states from the start: one more row placed in each. */
  ghost predicate SolvedBy(c: Costs, rows: nat, columns: nat, run: seq<State>) {
    && run != [] && run[0] == Fresh(rows, columns)
    && (forall i | 0 <= i < |run| :: SettledIn(c, rows, columns, run[i], i))
    && forall i | 0 <= i < |run| - 1 :: Placed(c, rows, columns, i + 1, run[i], run[i + 1])
  }

  /** A whole run of the solver on this table ends with this matching. */
  ghost predicate Solved(c: Costs, rows: nat, columns: nat, matchedRow: seq<nat>, slot: seq<int>) {
    exists run: seq<State> :: SolvedBy(c, rows, columns, run) && |run| == rows + 1
                  && run[rows].p == matchedRow && run[rows].slot == slot
  }

  lemma SolvedOn(c: Costs, rows: nat, columns: nat, run: seq<State>, d: State)
    requires SolvedBy(c, rows, columns, run) && SettledIn(c, rows, columns, d, |run|)
    requires Placed(c, rows, columns, |run|, run[|run| - 1], d)
    ensures SolvedBy(c, rows, columns, run + [d])
  {
    hide Placed, SettledIn, Fresh;
  }

  // ----- The algorithm

  ghost function Unused(used: seq<bool>): set<int> {
    set j | j in Range(|used|) && !used[j]
  }

  /** One step of the search, first half: `column` joins the tree and its row is scanned. */
  method Enter(c: Costs, rows: nat, columns: nat, u: array<real>, v: array<real>, p: array<nat>, used: array<bool>,
               minimum: array<Bound>, way: array<nat>, column: nat, ghost slot: seq<int>, ghost row: nat,
               ghost rank: seq<nat>)
    returns (delta: Bound, next: nat)
    requires p != way && u.Length == rows + 1
    requires v.Length == p.Length == used.Length == minimum.Length == way.Length == columns + 1
    requires column <= columns && p[column] != 0
    requires Growing(c, rows, columns, u[..], v[..], p[..], slot, row,
                     Tree(used[..], way[..], rank, column), minimum[..])
    modifies used, minimum, way
    ensures !old(used[column]) && used[..] == old(used[..])[column := true]
    ensures Scanned(c, rows, columns, u[..], v[..], p[..], slot, row, Tree(used[..], way[..], rank, column), minimum[..])
    ensures ScannedTo(c, u[..], v[..], p[column], column, used[..], old(minimum[..]), old(way[..]), columns + 1,
                      minimum[..], way[..])
    ensures Nearest(used[..], minimum[..], columns + 1, delta, next)
  {
    ghost var t, minimum0 := Tree(used[..], way[..], rank, column), minimum[..];
    used[column] := true;
    assert used[..] == t.used[column := true];
    delta, next := Scan(c, rows, columns, u, v, p, used, minimum, way, column);
    ScanKeeps(c, rows, columns, u[..], v[..], p[..], slot, row, t, minimum0, way[..], minimum[..]);
  }

  lemma ScannedFacts(c: Costs, rows: nat, columns: nat, u: seq<real>, v: seq<real>, p: seq<nat>, slot: seq<int>,
                     row: nat, t: Tree, minimum: seq<Bound>)
    requires Scanned(c, rows, columns, u, v, p, slot, row, t, minimum) && rows <= columns
    ensures t.used[0] && |t.rank| == columns + 1 && t.column <= columns
    ensures exists j | 1 <= j <= columns :: !t.used[j]
    ensures forall j | 1 <= j <= columns && !t.used[j] :: minimum[j].Set?
    ensures forall j | 0 <= j <= columns && t.used[j] :: p[j] <= rows
    ensures forall j, k | 0 <= j < k <= columns && t.used[j] && t.used[k] :: p[j] != p[k]
  {
    SomeColumnUnused(rows, columns, p, slot, row, t.used);
    forall j | 1 <= j <= columns && !t.used[j] ensures minimum[j].Set? {
      assert Reached(c, rows, columns, u, v, p, t, minimum, j);
    }
  }

  /** Second half: the duals move by `delta` and `next` becomes the column to enter. */
  method Advance(c: Costs, rows: nat, columns: nat, u: array<real>, v: array<real>, p: array<nat>, used: array<bool>,
                 minimum: array<Bound>, delta: Bound, next: nat, ghost slot: seq<int>, ghost row: nat, ghost t: Tree)
    requires u != v && u.Length == rows + 1
    requires v.Length == p.Length == used.Length == minimum.Length == columns + 1
    requires rows <= columns && t.used == used[..] && TreeSized(t, columns)
    requires Scanned(c, rows, columns, u[..], v[..], p[..], slot, row, t, minimum[..])
    requires Nearest(used[..], minimum[..], columns + 1, delta, next)
    modifies u, v, minimum
    ensures 1 <= next <= columns
    ensures Shifted(p[..], used[..], delta.value, old(u[..]), old(v[..]), old(minimum[..]), u[..], v[..], minimum[..])
    ensures Growing(c, rows, columns, u[..], v[..], p[..], slot, row,
                    Entering(t, next), minimum[..])
  {
    hide Linked, Reached, AllFeasible, Tight, Priced, Inverse, Scanned, Growing;
    ScannedFacts(c, rows, columns, u[..], v[..], p[..], slot, row, t, minimum[..]);
    assert used[0] by { assert t.used[0]; }
    ghost var u0, v0, minimum0 := u[..], v[..], minimum[..];
    Shift(rows, columns, u, v, p, used, minimum, delta.value);
    ShiftKeeps(c, rows, columns, u0, v0, p[..], slot, row, t, minimum0, delta.value, next, u[..], v[..], minimum[..]);
  }

  lemma EnteringIs(t: Tree, next: nat)
    requires next < |t.rank| && t.column < |t.rank|
    ensures Entering(t, next) == Tree(t.used, t.way, t.rank[next := t.rank[t.column] + 1], next)
  {
  }

  lemma StepTaken(c: Costs, rows: nat, columns: nat, p: seq<nat>, s: Search, s': Search, minimum: seq<Bound>, delta: Bound)
    requires StepsBy(c, rows, columns, p, s, s', minimum, delta)
    ensures Stepped(c, rows, columns, p, s, s')
  {
  }

  lemma GrowingSized(c: Costs, rows: nat, columns: nat, u: seq<real>, v: seq<real>, p: seq<nat>, slot: seq<int>,
                     row: nat, t: Tree, minimum: seq<Bound>)
    requires Growing(c, rows, columns, u, v, p, slot, row, t, minimum) && p[t.column] != 0
    ensures IsTable(c, rows, columns) && 1 <= p[t.column] <= rows
  {
  }

  /** One whole step of the search. */
  method Grow(c: Costs, rows: nat, columns: nat, u: array<real>, v: array<real>, p: array<nat>, used: array<bool>,
              minimum: array<Bound>, way: array<nat>, column: nat, ghost slot: seq<int>, ghost row: nat,
              ghost rank: seq<nat>)
    returns (next: nat)
    requires u != v && p != way && u.Length == rows + 1
    requires v.Length == p.Length == used.Length == minimum.Length == way.Length == columns + 1
    requires rows <= columns && column <= columns && |rank| == columns + 1 && p[column] != 0
    requires Growing(c, rows, columns, u[..], v[..], p[..], slot, row,
                     Tree(used[..], way[..], rank, column), minimum[..])
    modifies u, v, used, minimum, way
    ensures next <= columns && !old(used[column]) && used[..] == old(used[..])[column := true]
    ensures Growing(c, rows, columns, u[..], v[..], p[..], slot, row,
                    Tree(used[..], way[..], rank[next := rank[column] + 1], next), minimum[..])
    ensures Stepped(c, rows, columns, p[..], old(Search(u[..], v[..], used[..], minimum[..], way[..], column)),
                    Search(u[..], v[..], used[..], minimum[..], way[..], next))
  {
    hide *;
    ghost var s := Search(u[..], v[..], used[..], minimum[..], way[..], column);
    GrowingSized(c, rows, columns, u[..], v[..], p[..], slot, row, Tree(used[..], way[..], rank, column), minimum[..]);
    var delta;
    delta, next := Enter(c, rows, columns, u, v, p, used, minimum, way, column, slot, row, rank);
    ghost var t := Tree(used[..], way[..], rank, column);
    ghost var minimum1 := minimum[..];
    Advance(c, rows, columns, u, v, p, used, minimum, delta, next, slot, row, t);
    StepTaken(c, rows, columns, p[..], s, Search(u[..], v[..], used[..], minimum[..], way[..], next), minimum1, delta);
    EnteringIs(t, next);
  }

  /** The search for row `row`: grow the tree until it reaches a free column, then augment. */
  method PlaceRow(c: Costs, rows: nat, columns: nat, u: array<real>, v: array<real>, p: array<nat>, way: array<nat>,
                  row: nat, ghost slot: seq<int>)
    returns (ghost slot': seq<int>, ghost t: seq<Search>, ghost path: seq<nat>)
    requires u != v && p != way && way.Length == columns + 1 && u.Length == rows + 1
    requires v.Length == p.Length == columns + 1
    requires 1 <= row <= rows <= columns
    requires Settled(c, rows, columns, u[..], v[..], p[..], slot, row - 1)
    modifies u, v, p, way
    ensures Settled(c, rows, columns, u[..], v[..], p[..], slot', row)
    ensures PlacedBy(c, rows, columns, row, old(State(u[..], v[..], p[..], way[..], slot)),
                     State(u[..], v[..], p[..], way[..], slot'), t, path)
  {
    hide Linked, Reached, AllFeasible, Tight, Priced, Inverse, Scanned, Growing, Stepped, Searched, IsPath, Moved, PlacedBy;
    ghost var d := State(u[..], v[..], p[..], way[..], slot);
    ghost var p0 := p[..];
    p[0] := row;
    var minimum := new Bound[columns + 1](_ => Unset);
    var used := new bool[columns + 1](_ => false);
    var column := 0;
    ghost var rank := seq(columns + 1, _ => 0);
    slot' := slot[row := 0];
    assert p[..] == p0[0 := row];
    RootIsGrowing(c, rows, columns, u[..], v[..], p0, slot, row, Tree(used[..], way[..], rank, 0), minimum[..]);
    t := [Root(d, columns)];
    assert t[0] == Search(u[..], v[..], used[..], minimum[..], way[..], column);
    ghost var p1 := p[..];
    RootSearched(c, rows, columns, p1, t[0]);
    while true
      invariant fresh(minimum) && fresh(used) && used.Length == minimum.Length == columns + 1
      invariant column <= columns && p[column] != 0 && |rank| == columns + 1
      invariant Growing(c, rows, columns, u[..], v[..], p[..], slot', row,
                        Tree(used[..], way[..], rank, column), minimum[..])
      invariant p[..] == p1 && Searched(c, rows, columns, p1, t) && |t| >= 1 && t[0] == Root(d, columns)
      invariant t[|t| - 1] == Search(u[..], v[..], used[..], minimum[..], way[..], column)
      decreases Unused(used[..])
    {
      ghost var used0 := used[..];
      var next := Grow(c, rows, columns, u, v, p, used, minimum, way, column, slot', row, rank);
      assert column in Unused(used0) && column !in Unused(used[..]);
      rank := rank[next := rank[column] + 1];
      column := next;
      SearchedOn(c, rows, columns, p1, t, Search(u[..], v[..], used[..], minimum[..], way[..], column));
      t := t + [Search(u[..], v[..], used[..], minimum[..], way[..], column)];
      if p[column] == 0 {
        break;
      }
    }
    GrownIsAugmenting(c, rows, columns, u[..], v[..], p[..], slot', row,
                      Tree(used[..], way[..], rank, column), minimum[..]);
    slot', path := Augment(c, rows, columns, u[..], v[..], p, way, column, slot', row, used[..], rank);
    AugmentedIsSettled(c, rows, columns, u[..], v[..], p[..], slot', row, used[..], way[..], rank);
    PlacedFrom(c, rows, columns, row, d, State(u[..], v[..], p[..], way[..], slot'), t, path);
  }

  lemma PlacedFrom(c: Costs, rows: nat, columns: nat, row: nat, d: State, d': State, t: seq<Search>, path: seq<nat>)
    requires |d.p| == columns + 1 && Searched(c, rows, columns, d.p[0 := row], t) && t[0] == Root(d, columns)
    requires var end := t[|t| - 1]; d'.u == end.u && d'.v == end.v && d'.way == end.way
    requires var end := t[|t| - 1]; d.p[0 := row][end.column] == 0 && IsPath(end.way, path, end.column)
    requires Moved(d.p[0 := row], path, d'.p)
    ensures PlacedBy(c, rows, columns, row, d, d', t, path)
  {
  }

  lemma AugmentedIsSettled(c: Costs, rows: nat, columns: nat, u: seq<real>, v: seq<real>, p: seq<nat>, slot: seq<int>,
                           row: nat, used: seq<bool>, way: seq<nat>, rank: seq<nat>)
    requires Augmenting(c, rows, columns, u, v, p, slot, row, used, way, rank, 0)
    requires AllFeasible(c, rows, columns, u, v, row)
    ensures Settled(c, rows, columns, u, v, p, slot, row)
  {
  }

  lemma RootSearched(c: Costs, rows: nat, columns: nat, p: seq<nat>, s: Search)
    requires |p| == columns + 1 && SearchSized(s, rows, columns)
    ensures Searched(c, rows, columns, p, [s])
  {
  }

  lemma RootIsGrowing(c: Costs, rows: nat, columns: nat, u: seq<real>, v: seq<real>, p: seq<nat>, slot: seq<int>,
                      row: nat, t: Tree, minimum: seq<Bound>)
    requires 1 <= row <= rows && Settled(c, rows, columns, u, v, p, slot, row - 1)
    requires TreeSized(t, columns) && |minimum| == columns + 1 && t.column == 0
    requires forall j | 0 <= j <= columns :: !t.used[j] && minimum[j].Unset?
    ensures Growing(c, rows, columns, u, v, p[0 := row], slot[row := 0], row, t, minimum)
  {
  }

  lemma FreshStart(c: Costs, rows: nat, columns: nat, d: State)
    requires IsTable(c, rows, columns) && d == Fresh(rows, columns)
    ensures Settled(c, rows, columns, d.u, d.v, d.p, d.slot, 0) && SolvedBy(c, rows, columns, [d])
  {
  }

  lemma PlacedOn(c: Costs, rows: nat, columns: nat, run: seq<State>, d: State, t: seq<Search>, path: seq<nat>)
    requires SolvedBy(c, rows, columns, run) && |d.way| == columns + 1
    requires Settled(c, rows, columns, d.u, d.v, d.p, d.slot, |run|)
    requires PlacedBy(c, rows, columns, |run|, run[|run| - 1], d, t, path)
    ensures SolvedBy(c, rows, columns, run + [d])
  {
    var last := run[|run| - 1];
    hide PlacedBy, Settled, SolvedBy;
    assert Placed(c, rows, columns, |run|, last, d);
    SolvedOn(c, rows, columns, run, d);
  }

  /** Rows are placed one after another; the final matching is a cheapest assignment. */
  method Solve(c: Costs, rows: nat, columns: nat) returns (matchedRow: seq<nat>, ghost slot: seq<int>)
    requires IsTable(c, rows, columns) && rows <= columns
    ensures |matchedRow| == columns + 1 && |slot| == rows + 1
    ensures Inverse(matchedRow, slot, rows, 0)
    ensures forall i | 1 <= i <= rows :: slot[i] >= 1
    ensures IsAssignment(Chosen(slot, rows), rows, columns)
    ensures forall a | IsAssignment(a, rows, columns) ::
              TotalCost(c, Chosen(slot, rows), rows) <= TotalCost(c, a, rows)
    ensures Solved(c, rows, columns, matchedRow, slot)
  {
    var u := new real[rows + 1](_ => 0.0);
    var v := new real[columns + 1](_ => 0.0);
    var p := new nat[columns + 1](_ => 0);
    var predecessor := new nat[columns + 1](_ => 0);
    slot := seq(rows + 1, _ => 0);
    ghost var run := [State(u[..], v[..], p[..], predecessor[..], slot)];
    FreshStart(c, rows, columns, run[0]);
    hide SettledIn, SolvedBy, Placed;
    for row := 1 to rows + 1
      invariant Settled(c, rows, columns, u[..], v[..], p[..], slot, row - 1)
      invariant SolvedBy(c, rows, columns, run) && |run| == row
      invariant run[row - 1] == State(u[..], v[..], p[..], predecessor[..], slot)
    {
      ghost var t, path;
      slot, t, path := PlaceRow(c, rows, columns, u, v, p, predecessor, row, slot);
      ghost var d := State(u[..], v[..], p[..], predecessor[..], slot);
      PlacedOn(c, rows, columns, run, d, t, path);
      run := run + [d];
    }
    assert SolvedBy(c, rows, columns, run);
    matchedRow := p[..];
    ChosenIsAssignment(matchedRow, slot, rows, columns);
    forall a | IsAssignment(a, rows, columns)
      ensures TotalCost(c, Chosen(slot, rows), rows) <= TotalCost(c, a, rows)
    {
      SettledIsOptimal(c, rows, columns, u[..], v[..], matchedRow, slot, a);
    }
  }
}
