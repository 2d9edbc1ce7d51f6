/** Reading the run of the solver: what each step and each placed row leave behind. */
module SolverRun {
  import opened Assignment

  /** The minimum of column j once the row at the entering column is scanned. */
  function Now(c: Costs, p: seq<nat>, s: Search, j: nat): real
    requires s.column < |p| && 1 <= p[s.column] <= |c| && p[s.column] < |s.u|
    requires 1 <= j < |s.v| == |s.minimum| && j <= |c[p[s.column] - 1]|
  {
    var r := Reduced(c, s.u, s.v, p[s.column], j);
    if Below(r, s.minimum[j]) then r else s.minimum[j].value
  }

  /** One step in full: minima and links of the columns still unused, the nearest of them, and
      the duals. */
  ghost predicate StepTells(c: Costs, rows: nat, columns: nat, p: seq<nat>, s: Search, s': Search, delta: real)
    requires IsTable(c, rows, columns) && |p| == columns + 1
    requires SearchSized(s, rows, columns) && SearchSized(s', rows, columns) && 1 <= p[s.column] <= rows
  {
    && s'.used == s.used[s.column := true] && s'.column != 0 && !s'.used[s'.column]
    && Now(c, p, s, s'.column) == delta
    && (forall j | 1 <= j <= columns && !s'.used[j] :: delta <= Now(c, p, s, j))
    && (forall j | 1 <= j < s'.column && !s'.used[j] :: delta < Now(c, p, s, j))
    && (forall j | 1 <= j <= columns && !s'.used[j] ::
          && s'.minimum[j] == Set(Now(c, p, s, j) - delta)
          && s'.way[j] == if Below(Reduced(c, s.u, s.v, p[s.column], j), s.minimum[j]) then s.column else s.way[j])
    && (forall j | 0 <= j <= columns && (j == 0 || s'.used[j]) :: s'.way[j] == s.way[j])
    && (forall i | 0 <= i <= rows :: s'.u[i] == if RowUsed(p, s'.used, i) then s.u[i] + delta else s.u[i])
    && forall j | 0 <= j <= columns :: s'.v[j] == if s'.used[j] then s.v[j] - delta else s.v[j]
  }

  lemma StepFacts(c: Costs, rows: nat, columns: nat, p: seq<nat>, s: Search, s': Search) returns (delta: real)
    requires Stepped(c, rows, columns, p, s, s')
    ensures IsTable(c, rows, columns) && |p| == columns + 1
    ensures SearchSized(s, rows, columns) && SearchSized(s', rows, columns) && 1 <= p[s.column] <= rows
    ensures StepTells(c, rows, columns, p, s, s', delta)
  {
    var minimum, d :| StepsBy(c, rows, columns, p, s, s', minimum, d);
    delta := d.value;
  }

  /** The first step of a row: the row's own reduced costs, all linked to the root. */
  lemma RootStep(c: Costs, rows: nat, columns: nat, row: nat, d: State, s: Search) returns (delta: real)
    requires |d.p| == columns + 1 && Stepped(c, rows, columns, d.p[0 := row], Root(d, columns), s)
    ensures IsTable(c, rows, columns) && 1 <= row <= rows && |d.u| == rows + 1 && |d.v| == columns + 1
    ensures SearchSized(s, rows, columns) && s.column != 0
    ensures s.used == seq(columns + 1, _ => false)[0 := true]
    ensures Reduced(c, d.u, d.v, row, s.column) == delta
    ensures forall j | 1 <= j <= columns :: delta <= Reduced(c, d.u, d.v, row, j)
    ensures forall j | 1 <= j < s.column :: delta < Reduced(c, d.u, d.v, row, j)
    ensures forall j | 1 <= j <= columns ::
              s.minimum[j] == Set(Reduced(c, d.u, d.v, row, j) - delta) && s.way[j] == 0 && s.v[j] == d.v[j]
    ensures forall i | 0 <= i <= rows :: s.u[i] == if i == row then d.u[i] + delta else d.u[i]
  {
    var p, root := d.p[0 := row], Root(d, columns);
    delta := StepFacts(c, rows, columns, p, root, s);
    assert forall j | 1 <= j <= columns :: Now(c, p, root, j) == Reduced(c, d.u, d.v, row, j) && !s.used[j];
    assert forall i :: RowUsed(p, s.used, i) <==> i == row by {
      assert s.used[0] && p[0] == row;
    }
  }

  lemma PathDirect(way: seq<nat>, path: seq<nat>, start: nat)
    requires IsPath(way, path, start) && 0 < start < |way| && way[start] == 0
    ensures path == [start, 0]
  {
    assert path[1] == 0;
  }

  lemma PathVia(way: seq<nat>, path: seq<nat>, start: nat, k: nat)
    requires IsPath(way, path, start) && 0 < start < |way| && way[start] == k && 0 < k < |way| && way[k] == 0
    ensures path == [start, k, 0]
  {
    assert path[1] == k && path[2] == 0;
  }

  /** Where the search ends at a column linked to the root, the new row takes that column and no
      other row moves. */
  lemma EndsDirectly(c: Costs, rows: nat, columns: nat, row: nat, d: State, d': State, t: seq<Search>, path: seq<nat>)
    requires PlacedBy(c, rows, columns, row, d, d', t, path) && row != 0
    requires var end := t[|t| - 1]; end.column < |end.way| && end.way[end.column] == 0
    ensures |d'.p| == |d.p| && t[|t| - 1].column != 0 && d'.p[t[|t| - 1].column] == row
    ensures forall j: nat | 1 <= j < |d.p| && j != t[|t| - 1].column :: d'.p[j] == d.p[j]
  {
    var end := t[|t| - 1];
    PathDirect(end.way, path, end.column);
    assert path[..1] == [end.column];
  }

  /** A search with a free column at step k ends there. */
  lemma EndsAtFree(c: Costs, rows: nat, columns: nat, p: seq<nat>, t: seq<Search>, k: nat)
    requires Searched(c, rows, columns, p, t) && k < |t| && p[t[k].column] == 0
    ensures |t| == k + 1
  {
  }

  /** ... and one with an occupied column at step k goes on. */
  lemma GoesOn(c: Costs, rows: nat, columns: nat, p: seq<nat>, t: seq<Search>, k: nat)
    requires Searched(c, rows, columns, p, t) && p[t[|t| - 1].column] == 0
    requires k < |t| && p[t[k].column] != 0
    ensures k + 1 < |t| && Stepped(c, rows, columns, p, t[k], t[k + 1])
  {
  }

  /** The row's search, from its first step to its end. */
  lemma TraceOf(c: Costs, rows: nat, columns: nat, row: nat, d: State, d': State, t: seq<Search>, path: seq<nat>)
    requires PlacedBy(c, rows, columns, row, d, d', t, path) && row != 0
    ensures |d.p| == columns + 1 && Searched(c, rows, columns, d.p[0 := row], t) && |t| > 1 && t[0] == Root(d, columns)
    ensures Stepped(c, rows, columns, d.p[0 := row], t[0], t[1])
    ensures var end := t[|t| - 1];
            && SearchSized(end, rows, columns) && d.p[0 := row][end.column] == 0
            && d'.u == end.u && d'.v == end.v && d'.way == end.way
            && IsPath(end.way, path, end.column) && Moved(d.p[0 := row], path, d'.p)
  {
    hide Stepped, IsPath, Moved;
    GoesOn(c, rows, columns, d.p[0 := row], t, 0);
  }
}
