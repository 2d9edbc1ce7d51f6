/** The benchmark runner's admission loop: a projected-spend ceiling over runs in flight.

    Pending models are numbered in queue order.  Which runs complete when, and in which order
    completions are handled, is chosen arbitrarily. */
module SpendScheduler {
  import opened SetFacts

  const CONCURRENCY := 5

  /** Sum of f over the members of s. */
  ghost function Sum(s: set<nat>, f: seq<real>, n: nat): real
    requires n <= |f|
  {
    if n == 0 then 0.0 else Sum(s, f, n - 1) + if n - 1 in s then f[n - 1] else 0.0
  }

  lemma {:induction false} SumAdd(s: set<nat>, x: nat, f: seq<real>, n: nat)
    requires n <= |f| && x !in s
    ensures Sum(s + {x}, f, n) == Sum(s, f, n) + if x < n then f[x] else 0.0
  {
    if n > 0 {
      SumAdd(s, x, f, n - 1);
    }
  }

  lemma SumRemove(s: set<nat>, x: nat, f: seq<real>, n: nat)
    requires n <= |f| && x in s
    ensures Sum(s - {x}, f, n) == Sum(s, f, n) - if x < n then f[x] else 0.0
  {
    SumAdd(s - {x}, x, f, n);
    assert s - {x} + {x} == s;
  }

  lemma {:induction false} SumEmpty(f: seq<real>, n: nat)
    requires n <= |f|
    ensures Sum({}, f, n) == 0.0
  {
    if n > 0 {
      SumEmpty(f, n - 1);
    }
  }

  /** How much more the runs of s cost than was estimated. */
  ghost function Overrun(s: set<nat>, costs: seq<real>, estimates: seq<real>): real
    requires |costs| == |estimates|
  {
    Sum(s, costs, |costs|) - Sum(s, estimates, |estimates|)
  }

  lemma {:induction false} SumBelow(s: set<nat>, f: seq<real>, g: seq<real>, n: nat)
    requires n <= |f| == |g| && forall i | 0 <= i < n :: f[i] <= g[i]
    ensures Sum(s, f, n) <= Sum(s, g, n)
  {
    if n > 0 {
      SumBelow(s, f, g, n - 1);
    }
  }

  /** The estimates of the runs in flight, added up as the source does. */
  method Committed(inflight: set<nat>, estimates: seq<real>) returns (sum: real)
    requires forall i | i in inflight :: i < |estimates|
    ensures sum == Sum(inflight, estimates, |estimates|)
  {
    sum := 0.0;
    var todo := inflight;
    ghost var done: set<nat> := {};
    SumEmpty(estimates, |estimates|);
    while todo != {}
      invariant done !! todo && done + todo == inflight
      invariant sum == Sum(done, estimates, |estimates|)
    {
      var i :| i in todo;
      SumAdd(done, i, estimates, |estimates|);
      sum := sum + estimates[i];
      todo, done := todo - {i}, done + {i};
    }
    assert done == inflight;
  }

  // ----- The state

  datatype State = State(queued: seq<nat>, inflight: set<nat>, finished: set<nat>, drained: set<nat>, total: real)

  ghost function Queue(s: State): set<nat> {
    set i | i in s.queued
  }

  /** Models start in queue order: whatever has started comes before whatever has not. */
  ghost predicate StartedFirst(s: State) {
    && (forall i, j | (i in s.inflight || i in s.finished) && j in s.queued :: i < j)
    && forall i, j | (i in s.inflight || i in s.finished) && j in s.drained :: i < j
  }

  /** The queue is drained only once the ceiling is passed, and costs do not go back down. */
  ghost predicate DrainedForCause(s: State, costs: seq<real>, ceiling: real) {
    s.drained != {} ==> s.queued == [] && ((forall i | 0 <= i < |costs| :: costs[i] >= 0.0) ==> s.total > ceiling)
  }

  /** Every pending model is in exactly one place, the queue keeps its order, and at most five
      runs are in flight. */
  ghost predicate Accounted(s: State, n: nat) {
    && (forall i: nat :: i < n <==> i in Queue(s) || i in s.inflight || i in s.finished || i in s.drained)
    && Queue(s) !! s.inflight && Queue(s) !! s.finished && Queue(s) !! s.drained
    && s.inflight !! s.finished && s.inflight !! s.drained && s.finished !! s.drained
    && (forall j, k | 0 <= j < k < |s.queued| :: s.queued[j] < s.queued[k])
    && |s.inflight| <= 5
    && StartedFirst(s)
  }

  /** What has been spent, and what the runs in flight can still make of it: never more than the
      ceiling plus the overrun of the runs in flight at the last admission. */
  ghost predicate Bounded(s: State, last: set<nat>, costs: seq<real>, estimates: seq<real>, ceiling: real)
    requires |costs| == |estimates|
  {
    && s.total == Sum(s.finished, costs, |costs|)
    && DrainedForCause(s, costs, ceiling)
    && |last| <= 5
    && if last == {} then s.finished == {} && s.inflight == {}
       else s.total + Sum(s.inflight, costs, |costs|) <= ceiling + Overrun(last, costs, estimates)
  }

  function Admit(s: State): State
    requires s.queued != []
  {
    s.(queued := s.queued[1..], inflight := s.inflight + {s.queued[0]})
  }

  function Complete(s: State, i: nat, cost: real): State {
    s.(inflight := s.inflight - {i}, finished := s.finished + {i}, total := s.total + cost)
  }

  function Drain(s: State): State {
    s.(queued := [], drained := s.drained + set i | i in s.queued)
  }

  lemma AdmitKeepsOrder(s: State)
    requires StartedFirst(s) && s.queued != [] && s.drained == {}
    requires forall j, k | 0 <= j < k < |s.queued| :: s.queued[j] < s.queued[k]
    ensures StartedFirst(Admit(s))
  {
    assert forall j | j in s.queued[1..] :: j in s.queued && s.queued[0] < j;
  }

  lemma AdmitAccounted(s: State, n: nat)
    requires Accounted(s, n) && s.queued != [] && s.drained == {} && |s.inflight| < CONCURRENCY
    ensures Accounted(Admit(s), n) && s.queued[0] !in s.inflight && s.queued[0] < n
  {
    QueueHead(s);
    AdmitKeepsOrder(s);
    hide StartedFirst, Queue;
    var head := s.queued[0];
    assert head in Queue(s);
    assert |s.inflight + {head}| == |s.inflight| + 1;
  }

  /** The queue without its head. */
  lemma QueueHead(s: State)
    requires s.queued != [] && forall j, k | 0 <= j < k < |s.queued| :: s.queued[j] < s.queued[k]
    ensures s.queued[0] in Queue(s) && Queue(Admit(s)) == Queue(s) - {s.queued[0]}
    ensures forall j, k | 0 <= j < k < |s.queued[1..]| :: s.queued[1..][j] < s.queued[1..][k]
  {
    var head, rest := s.queued[0], s.queued[1..];
    assert s.queued == [head] + rest;
    assert forall j | 0 <= j < |rest| :: rest[j] == s.queued[j + 1];
  }

  lemma NothingDrained(s: State, last: set<nat>, costs: seq<real>, estimates: seq<real>, ceiling: real)
    requires |costs| == |estimates| && Bounded(s, last, costs, estimates, ceiling) && s.queued != []
    ensures s.drained == {}
  {
  }

  lemma AdmitBounded(s: State, n: nat, last: set<nat>, costs: seq<real>, estimates: seq<real>, ceiling: real)
    requires |costs| == |estimates| == n && Accounted(s, n) && Bounded(s, last, costs, estimates, ceiling)
    requires s.queued != [] && |s.inflight| < CONCURRENCY && s.queued[0] !in s.inflight && s.queued[0] < n
    requires s.total + Sum(s.inflight, estimates, n) + estimates[s.queued[0]] <= ceiling
    ensures Bounded(Admit(s), Admit(s).inflight, costs, estimates, ceiling)
  {
    SumAdd(s.inflight, s.queued[0], estimates, n);
    SumAdd(s.inflight, s.queued[0], costs, n);
  }

  lemma CompleteKeeps(s: State, n: nat, i: nat, last: set<nat>, costs: seq<real>, estimates: seq<real>, ceiling: real)
    requires |costs| == |estimates| == n && Accounted(s, n) && Bounded(s, last, costs, estimates, ceiling)
    requires i in s.inflight
    ensures i < n && Accounted(Complete(s, i, costs[i]), n)
    ensures Bounded(Complete(s, i, costs[i]), last, costs, estimates, ceiling)
  {
    SumRemove(s.inflight, i, costs, n);
    SumAdd(s.finished, i, costs, n);
  }

  lemma DrainKeeps(s: State, n: nat, last: set<nat>, costs: seq<real>, estimates: seq<real>, ceiling: real)
    requires |costs| == |estimates| == n && Accounted(s, n) && Bounded(s, last, costs, estimates, ceiling)
    requires s.total > ceiling
    ensures Accounted(Drain(s), n) && Bounded(Drain(s), last, costs, estimates, ceiling)
  {
    assert Queue(Drain(s)) == {} && Drain(s).drained == s.drained + Queue(s);
  }

  // ----- Runs of the loop, one step at a time

  /** The loop admits models, or handles a batch of completions one by one. */
  datatype Stage = Admitting | Handling(batch: set<nat>)

  datatype Config = Config(s: State, stage: Stage)

  /** The next model may start. */
  ghost predicate Fits(s: State, estimates: seq<real>, ceiling: real) {
    && s.queued != [] && |s.inflight| < 5 && s.queued[0] < |estimates|
    && s.total + Sum(s.inflight, estimates, |estimates|) + estimates[s.queued[0]] <= ceiling
  }

  function Settle(s: State, ceiling: real): State {
    if s.total > ceiling then Drain(s) else s
  }

  /** One step: which batch completes, and in which order it is handled, is free. */
  ghost predicate Next(a: Config, b: Config, estimates: seq<real>, costs: seq<real>, ceiling: real) {
    match a.stage
    case Admitting =>
      if Fits(a.s, estimates, ceiling) then b == Config(Admit(a.s), Admitting)
      else b.s == a.s && b.stage.Handling? && b.stage.batch != {} && b.stage.batch <= a.s.inflight
    case Handling(batch) =>
      if batch == {} then b == Config(a.s, Admitting)
      else exists i | i in batch :: Handled(a, b, i, costs, ceiling)
  }

  ghost predicate Handled(a: Config, b: Config, i: nat, costs: seq<real>, ceiling: real) {
    && a.stage.Handling? && i < |costs|
    && b == Config(Settle(Complete(a.s, i, costs[i]), ceiling), Handling(a.stage.batch - {i}))
  }

  /** A run of the loop that has come as far as the configuration `end`. */
  ghost predicate RunTo(t: seq<Config>, end: Config, estimates: seq<real>, costs: seq<real>, ceiling: real) {
    && t != [] && t[|t| - 1] == end
    && if |t| == 1 then end == Config(Initial(|costs|), Admitting)
       else RunTo(t[..|t| - 1], t[|t| - 2], estimates, costs, ceiling)
            && Next(t[|t| - 2], end, estimates, costs, ceiling)
  }

  lemma RunOn(t: seq<Config>, a: Config, b: Config, estimates: seq<real>, costs: seq<real>, ceiling: real)
    requires RunTo(t, a, estimates, costs, ceiling) && Next(a, b, estimates, costs, ceiling)
    ensures RunTo(t + [b], b, estimates, costs, ceiling)
  {
    hide Next;
    assert (t + [b])[..|t|] == t;
  }

  /** Nothing is left to do but refuse the queue. */
  ghost predicate Ended(c: Config, estimates: seq<real>, ceiling: real) {
    c.stage.Admitting? && c.s.inflight == {} && !Fits(c.s, estimates, ceiling)
  }

  // ----- The loop

  ghost function Elements(s: seq<nat>): set<nat> {
    set i | i in s
  }

  ghost predicate Distinct(s: seq<nat>) {
    forall j, k | 0 <= j < k < |s| :: s[j] != s[k]
  }

  /** The inner admission loop: start queued models, in order, while they fit. */
  method AdmitWhileRoom(s: State, estimates: seq<real>, ceiling: real, ghost costs: seq<real>, ghost last: set<nat>,
                        ghost t: seq<Config>)
    returns (s': State, ghost last': set<nat>, ghost t': seq<Config>)
    requires RunTo(t, Config(s, Admitting), estimates, costs, ceiling)
    requires |costs| == |estimates| && Accounted(s, |costs|) && Bounded(s, last, costs, estimates, ceiling)
    requires last <= s.inflight + s.finished
    ensures RunTo(t', Config(s', Admitting), estimates, costs, ceiling) && !Fits(s', estimates, ceiling)
    ensures Accounted(s', |costs|) && Bounded(s', last', costs, estimates, ceiling)
    ensures last' <= s'.inflight + s'.finished
    ensures s'.finished == s.finished && s'.drained == s.drained && s'.total == s.total
    ensures |s'.queued| + |s'.inflight| == |s.queued| + |s.inflight| && |s'.queued| <= |s.queued|
    ensures s'.inflight == {} && s'.queued != [] ==>
              s'.queued[0] < |estimates| && s'.total + estimates[s'.queued[0]] > ceiling
  {
    s', last', t' := s, last, t;
    hide *;
    AccountedFacts(s, |costs|);
    while s'.queued != [] && |s'.inflight| < CONCURRENCY
      invariant RunTo(t', Config(s', Admitting), estimates, costs, ceiling)
      invariant Accounted(s', |costs|) && Bounded(s', last', costs, estimates, ceiling)
      invariant last' <= s'.inflight + s'.finished
      invariant s'.finished == s.finished && s'.drained == s.drained && s'.total == s.total
      invariant |s'.queued| + |s'.inflight| == |s.queued| + |s.inflight| && |s'.queued| <= |s.queued|
      decreases |s'.queued|
    {
      AccountedFacts(s', |costs|);
      var committed := Committed(s'.inflight, estimates);
      FitsIs(s', estimates, ceiling, committed);
      if s'.total + committed + estimates[s'.queued[0]] > ceiling {
        return;
      }
      AdmitKeeps(s', |costs|, last', costs, estimates, ceiling, t');
      t' := t' + [Config(Admit(s'), Admitting)];
      s' := Admit(s');
      last' := s'.inflight;
    }
    NoRoom(s', estimates, ceiling);
  }

  lemma AccountedFacts(s: State, n: nat)
    requires Accounted(s, n)
    ensures forall i | i in s.inflight :: i < n
    ensures s.queued != [] ==> s.queued[0] < n
  {
    assert s.queued != [] ==> s.queued[0] in Queue(s);
  }

  lemma FitsIs(s: State, estimates: seq<real>, ceiling: real, committed: real)
    requires s.queued != [] && |s.inflight| < CONCURRENCY && s.queued[0] < |estimates|
    requires committed == Sum(s.inflight, estimates, |estimates|)
    ensures Fits(s, estimates, ceiling) <==> s.total + committed + estimates[s.queued[0]] <= ceiling
    ensures s.inflight == {} ==> committed == 0.0
  {
    SumEmpty(estimates, |estimates|);
  }

  lemma NoRoom(s: State, estimates: seq<real>, ceiling: real)
    requires s.queued == [] || |s.inflight| >= CONCURRENCY
    ensures !Fits(s, estimates, ceiling) && (s.queued == [] || s.inflight != {})
  {
  }

  lemma AdmitKeeps(s: State, n: nat, last: set<nat>, costs: seq<real>, estimates: seq<real>, ceiling: real, t: seq<Config>)
    requires |costs| == |estimates| == n && Accounted(s, n) && Bounded(s, last, costs, estimates, ceiling)
    requires Fits(s, estimates, ceiling) && RunTo(t, Config(s, Admitting), estimates, costs, ceiling)
    ensures Accounted(Admit(s), n) && Bounded(Admit(s), Admit(s).inflight, costs, estimates, ceiling)
    ensures RunTo(t + [Config(Admit(s), Admitting)], Config(Admit(s), Admitting), estimates, costs, ceiling)
    ensures Admit(s).finished == s.finished && Admit(s).drained == s.drained && Admit(s).total == s.total
    ensures |Admit(s).queued| == |s.queued| - 1 && |Admit(s).inflight| == |s.inflight| + 1
  {
    NothingDrained(s, last, costs, estimates, ceiling);
    AdmitAccounted(s, n);
    AdmitBounded(s, n, last, costs, estimates, ceiling);
    RunOn(t, Config(s, Admitting), Config(Admit(s), Admitting), estimates, costs, ceiling);
    hide Accounted, Bounded, RunTo;
  }

  /** Handling one batch of completions, in any order; overspending drains the queue. */
  method HandleCompletions(s: State, batch: set<nat>, rows: seq<nat>, costs: seq<real>, ceiling: real,
                           ghost estimates: seq<real>, ghost last: set<nat>, ghost t: seq<Config>)
    returns (s': State, rows': seq<nat>, ghost t': seq<Config>)
    requires RunTo(t, Config(s, Handling(batch)), estimates, costs, ceiling)
    requires |costs| == |estimates| && Accounted(s, |costs|) && Bounded(s, last, costs, estimates, ceiling)
    requires batch != {} && batch <= s.inflight && last <= s.inflight + s.finished
    requires Elements(rows) == s.finished && Distinct(rows)
    ensures RunTo(t', Config(s', Admitting), estimates, costs, ceiling)
    ensures Accounted(s', |costs|) && Bounded(s', last, costs, estimates, ceiling)
    ensures s'.inflight == s.inflight - batch && last <= s'.inflight + s'.finished
    ensures Elements(rows') == s'.finished && Distinct(rows')
    ensures |s'.queued| <= |s.queued| && (s'.queued != [] ==> s'.total <= ceiling)
  {
    s', rows', t' := s, rows, t;
    var todo := batch;
    hide *;
    while todo != {}
      invariant RunTo(t', Config(s', Handling(todo)), estimates, costs, ceiling)
      invariant todo <= batch <= s.inflight && s'.inflight == s.inflight - (batch - todo)
      invariant Accounted(s', |costs|) && Bounded(s', last, costs, estimates, ceiling)
      invariant last <= s'.inflight + s'.finished
      invariant Elements(rows') == s'.finished && Distinct(rows')
      invariant |s'.queued| <= |s.queued| && (todo != batch && s'.queued != [] ==> s'.total <= ceiling)
    {
      var i :| i in todo;
      ghost var before := s'.inflight;
      s', rows', t' := HandleOne(s', i, todo, rows', costs, ceiling, estimates, last, t');
      todo := todo - {i};
      assert s'.inflight == before - {i};
    }
    BatchDone(t', s', estimates, costs, ceiling);
    t' := t' + [Config(s', Admitting)];
  }

  /** One completed run: record it, and drain the queue once the ceiling is passed. */
  method HandleOne(s: State, i: nat, ghost batch: set<nat>, rows: seq<nat>, costs: seq<real>, ceiling: real,
                   ghost estimates: seq<real>, ghost last: set<nat>, ghost t: seq<Config>)
    returns (s': State, rows': seq<nat>, ghost t': seq<Config>)
    requires RunTo(t, Config(s, Handling(batch)), estimates, costs, ceiling) && i in batch
    requires |costs| == |estimates| && Accounted(s, |costs|) && Bounded(s, last, costs, estimates, ceiling)
    requires i in s.inflight && last <= s.inflight + s.finished
    requires Elements(rows) == s.finished && Distinct(rows)
    ensures RunTo(t', Config(s', Handling(batch - {i})), estimates, costs, ceiling)
    ensures Accounted(s', |costs|) && Bounded(s', last, costs, estimates, ceiling)
    ensures s'.inflight == s.inflight - {i} && last <= s'.inflight + s'.finished
    ensures Elements(rows') == s'.finished && Distinct(rows')
    ensures |s'.queued| <= |s.queued| && (s'.queued != [] ==> s'.total <= ceiling)
  {
    hide *;
    HandleKeeps(s, i, batch, rows, costs, ceiling, estimates, last, t);
    SettleIs(Complete(s, i, costs[i]), ceiling);
    t' := t + [Config(Settle(Complete(s, i, costs[i]), ceiling), Handling(batch - {i}))];
    s' := Complete(s, i, costs[i]);
    rows' := rows + [i];
    if s'.total > ceiling {
      s' := Drain(s');
    }
  }

  lemma SettleIs(s: State, ceiling: real)
    ensures Settle(s, ceiling) == if s.total > ceiling then Drain(s) else s
  {
  }

  lemma HandleKeeps(s: State, i: nat, batch: set<nat>, rows: seq<nat>, costs: seq<real>, ceiling: real,
                    estimates: seq<real>, last: set<nat>, t: seq<Config>)
    requires RunTo(t, Config(s, Handling(batch)), estimates, costs, ceiling) && i in batch
    requires |costs| == |estimates| && Accounted(s, |costs|) && Bounded(s, last, costs, estimates, ceiling)
    requires i in s.inflight && last <= s.inflight + s.finished
    requires Elements(rows) == s.finished && Distinct(rows)
    ensures i < |costs|
    ensures var s' := Settle(Complete(s, i, costs[i]), ceiling);
            && RunTo(t + [Config(s', Handling(batch - {i}))], Config(s', Handling(batch - {i})), estimates, costs, ceiling)
            && Accounted(s', |costs|) && Bounded(s', last, costs, estimates, ceiling)
            && s'.inflight == s.inflight - {i} && last <= s'.inflight + s'.finished
            && Elements(rows + [i]) == s'.finished && Distinct(rows + [i])
            && |s'.queued| <= |s.queued| && (s'.queued != [] ==> s'.total <= ceiling)
  {
    hide *;
    CompleteKeeps(s, |costs|, i, last, costs, estimates, ceiling);
    FinishedIsNew(s, |costs|, rows, i);
    var done := Complete(s, i, costs[i]);
    CompleteIs(s, i, costs[i]);
    SettleKeeps(done, |costs|, last, costs, estimates, ceiling);
    HandledRun(t, s, i, batch, estimates, costs, ceiling);
  }

  lemma CompleteIs(s: State, i: nat, cost: real)
    ensures var done := Complete(s, i, cost);
            done.queued == s.queued && done.inflight == s.inflight - {i} && done.finished == s.finished + {i}
  {
  }

  lemma SettleKeeps(s: State, n: nat, last: set<nat>, costs: seq<real>, estimates: seq<real>, ceiling: real)
    requires |costs| == |estimates| == n && Accounted(s, n) && Bounded(s, last, costs, estimates, ceiling)
    ensures var s' := Settle(s, ceiling);
            && Accounted(s', n) && Bounded(s', last, costs, estimates, ceiling)
            && s'.inflight == s.inflight && s'.finished == s.finished
            && |s'.queued| <= |s.queued| && (s'.queued != [] ==> s'.total <= ceiling)
  {
    hide Accounted, Bounded;
    if s.total > ceiling {
      DrainKeeps(s, n, last, costs, estimates, ceiling);
    }
  }

  lemma HandledRun(t: seq<Config>, s: State, i: nat, batch: set<nat>, estimates: seq<real>, costs: seq<real>, ceiling: real)
    requires RunTo(t, Config(s, Handling(batch)), estimates, costs, ceiling) && i in batch && i < |costs|
    ensures var next := Config(Settle(Complete(s, i, costs[i]), ceiling), Handling(batch - {i}));
            RunTo(t + [next], next, estimates, costs, ceiling)
  {
    hide RunTo, Settle, Complete;
    var next := Config(Settle(Complete(s, i, costs[i]), ceiling), Handling(batch - {i}));
    assert Handled(Config(s, Handling(batch)), next, i, costs, ceiling);
    RunOn(t, Config(s, Handling(batch)), next, estimates, costs, ceiling);
  }

  lemma BatchDone(t: seq<Config>, s: State, estimates: seq<real>, costs: seq<real>, ceiling: real)
    requires RunTo(t, Config(s, Handling({})), estimates, costs, ceiling)
    ensures RunTo(t + [Config(s, Admitting)], Config(s, Admitting), estimates, costs, ceiling)
  {
    RunOn(t, Config(s, Handling({})), Config(s, Admitting), estimates, costs, ceiling);
  }

  lemma BatchChosen(t: seq<Config>, s: State, batch: set<nat>, estimates: seq<real>, costs: seq<real>, ceiling: real)
    requires RunTo(t, Config(s, Admitting), estimates, costs, ceiling) && !Fits(s, estimates, ceiling)
    requires batch != {} && batch <= s.inflight
    ensures RunTo(t + [Config(s, Handling(batch))], Config(s, Handling(batch)), estimates, costs, ceiling)
  {
    RunOn(t, Config(s, Admitting), Config(s, Handling(batch)), estimates, costs, ceiling);
  }

  lemma FinishedIsNew(s: State, n: nat, rows: seq<nat>, i: nat)
    requires Accounted(s, n) && Elements(rows) == s.finished && Distinct(rows) && i in s.inflight
    ensures Elements(rows + [i]) == s.finished + {i} && Distinct(rows + [i])
  {
    assert i !in s.finished;
    forall k | 0 <= k < |rows| ensures rows[k] != i {
      assert rows[k] in Elements(rows);
    }
  }

  /** The whole loop, for every choice of completions. */
  method RunPending(estimates: seq<real>, costs: seq<real>, ceiling: real)
    returns (rows: seq<nat>, refused: seq<nat>, drained: set<nat>, total: real, ghost last: set<nat>,
             ghost t: seq<Config>)
    requires |costs| == |estimates|
    ensures var end := Config(State(refused, {}, Elements(rows), drained, total), Admitting);
            RunTo(t, end, estimates, costs, ceiling) && Ended(end, estimates, ceiling)
    ensures Distinct(rows) && Distinct(refused)
    ensures forall i: nat :: i < |costs| <==> i in rows || i in refused || i in drained
    ensures Elements(rows) !! Elements(refused) && Elements(rows) !! drained && Elements(refused) !! drained
    ensures total == Sum(Elements(rows), costs, |costs|)
    ensures |last| <= 5 && last <= Elements(rows)
    ensures if last == {} then rows == [] else total <= ceiling + Overrun(last, costs, estimates)
    ensures forall i, j | i in rows && (j in refused || j in drained) :: i < j
    ensures drained != {} && (forall i | 0 <= i < |costs| :: costs[i] >= 0.0) ==> total > ceiling
    ensures rows != [] && refused != [] ==> total <= ceiling
    ensures refused != [] ==>
              drained == {} && refused[0] < |estimates| && total + estimates[refused[0]] > ceiling
  {
    hide *;
    var n := |costs|;
    var s := Initial(n);
    rows, refused, last := [], [], {};
    t := [Config(s, Admitting)];
    InitialState(costs, estimates, ceiling);
    InitialRun(estimates, costs, ceiling);
    while s.queued != [] || s.inflight != {}
      invariant RunTo(t, Config(s, Admitting), estimates, costs, ceiling)
      invariant Accounted(s, n) && Bounded(s, last, costs, estimates, ceiling)
      invariant last <= s.inflight + s.finished
      invariant Elements(rows) == s.finished && Distinct(rows)
      invariant rows != [] && s.queued != [] ==> s.total <= ceiling
      decreases |s.queued| + |s.inflight|
    {
      s, last, t := AdmitWhileRoom(s, estimates, ceiling, costs, last, t);
      if s.inflight == {} {
        refused := s.queued;
        break;
      }
      var batch: set<nat> :| batch != {} && batch <= s.inflight;
      Smaller(s.inflight, batch);
      BatchChosen(t, s, batch, estimates, costs, ceiling);
      t := t + [Config(s, Handling(batch))];
      s, rows, t := HandleCompletions(s, batch, rows, costs, ceiling, estimates, last, t);
    }
    drained, total := s.drained, s.total;
    EndedNow(s, estimates, ceiling);
    assert s == State(refused, {}, Elements(rows), drained, total);
    Conclude(s, costs, estimates, ceiling, rows, last);
  }

  lemma InitialRun(estimates: seq<real>, costs: seq<real>, ceiling: real)
    ensures RunTo([Config(Initial(|costs|), Admitting)], Config(Initial(|costs|), Admitting), estimates, costs, ceiling)
  {
  }

  lemma EndedNow(s: State, estimates: seq<real>, ceiling: real)
    requires s.inflight == {}
    ensures Ended(Config(s, Admitting), estimates, ceiling) <==> !Fits(s, estimates, ceiling)
    ensures s.queued == [] ==> !Fits(s, estimates, ceiling)
  {
  }

  lemma Smaller(inflight: set<nat>, batch: set<nat>)
    requires batch != {} && batch <= inflight
    ensures |inflight - batch| < |inflight|
  {
    SubsetSize(inflight - batch, inflight);
  }

  function Initial(n: nat): State {
    State(seq(n, i => i), {}, {}, {}, 0.0)
  }

  lemma InitialState(costs: seq<real>, estimates: seq<real>, ceiling: real)
    requires |costs| == |estimates|
    ensures Accounted(Initial(|costs|), |costs|) && Bounded(Initial(|costs|), {}, costs, estimates, ceiling)
    ensures Elements([]) == {} && Distinct([])
  {
    var s := Initial(|costs|);
    forall i: nat | i < |costs| ensures i in Queue(s) {
      assert s.queued[i] == i;
    }
    SumEmpty(costs, |costs|);
  }

  lemma Conclude(s: State, costs: seq<real>, estimates: seq<real>, ceiling: real, rows: seq<nat>, last: set<nat>)
    requires |costs| == |estimates| && Accounted(s, |costs|) && Bounded(s, last, costs, estimates, ceiling)
    requires s.inflight == {} && Elements(rows) == s.finished && last <= s.inflight + s.finished
    ensures |last| <= 5 && last <= Elements(rows)
    ensures forall i: nat :: i < |costs| <==> i in rows || i in s.queued || i in s.drained
    ensures Elements(rows) !! Elements(s.queued) && Elements(rows) !! s.drained && Elements(s.queued) !! s.drained
    ensures Distinct(s.queued)
    ensures forall i, j | i in rows && (j in s.queued || j in s.drained) :: i < j
    ensures s.drained != {} && (forall i | 0 <= i < |costs| :: costs[i] >= 0.0) ==> s.total > ceiling
    ensures s.queued != [] ==> s.drained == {}
    ensures s.total == Sum(Elements(rows), costs, |costs|)
    ensures if last == {} then rows == [] else s.total <= ceiling + Overrun(last, costs, estimates)
  {
    assert Elements(s.queued) == Queue(s);
    assert forall i :: i in rows <==> i in Elements(rows);
    assert forall i :: i in s.queued <==> i in Queue(s);
    SumEmpty(costs, |costs|);
    assert rows != [] ==> rows[0] in Elements(rows);
  }

  // ----- When the ceiling holds

  lemma {:induction false} SumNonNegative(s: set<nat>, f: seq<real>, n: nat)
    requires n <= |f| && forall i | 0 <= i < n :: f[i] >= 0.0
    ensures Sum(s, f, n) >= 0.0
  {
    if n > 0 {
      SumNonNegative(s, f, n - 1);
    }
  }

  /** What every configuration of every run keeps. */
  lemma {:induction false} RunKeeps(t: seq<Config>, end: Config, estimates: seq<real>, costs: seq<real>, ceiling: real)
    returns (last: set<nat>)
    requires |costs| == |estimates| && RunTo(t, end, estimates, costs, ceiling)
    ensures Accounted(end.s, |costs|) && Bounded(end.s, last, costs, estimates, ceiling)
    ensures end.stage.Handling? ==> end.stage.batch <= end.s.inflight
    decreases |t|
  {
    if |t| == 1 {
      InitialState(costs, estimates, ceiling);
      last := {};
    } else {
      var before := t[|t| - 2];
      last := RunKeeps(t[..|t| - 1], before, estimates, costs, ceiling);
      last := StepKeeps(before, end, last, estimates, costs, ceiling);
    }
  }

  lemma StepKeeps(a: Config, b: Config, last: set<nat>, estimates: seq<real>, costs: seq<real>, ceiling: real)
    returns (last': set<nat>)
    requires |costs| == |estimates| && Next(a, b, estimates, costs, ceiling)
    requires Accounted(a.s, |costs|) && Bounded(a.s, last, costs, estimates, ceiling)
    requires a.stage.Handling? ==> a.stage.batch <= a.s.inflight
    ensures Accounted(b.s, |costs|) && Bounded(b.s, last', costs, estimates, ceiling)
    ensures b.stage.Handling? ==> b.stage.batch <= b.s.inflight
  {
    last' := last;
    if a.stage.Admitting? {
      if Fits(a.s, estimates, ceiling) {
        NothingDrained(a.s, last, costs, estimates, ceiling);
        AdmitAccounted(a.s, |costs|);
        AdmitBounded(a.s, |costs|, last, costs, estimates, ceiling);
        last' := Admit(a.s).inflight;
      }
    } else if a.stage.batch != {} {
      var i :| i in a.stage.batch && Handled(a, b, i, costs, ceiling);
      CompleteKeeps(a.s, |costs|, i, last, costs, estimates, ceiling);
      hide Accounted, Bounded;
      if b.s != Complete(a.s, i, costs[i]) {
        DrainKeeps(Complete(a.s, i, costs[i]), |costs|, last, costs, estimates, ceiling);
      }
    }
  }

  /** With estimates that are never too low, no run is past its ceiling at any step. */
  lemma UpperEstimatesKeepCeiling(t: seq<Config>, end: Config, estimates: seq<real>, costs: seq<real>, ceiling: real)
    requires |costs| == |estimates| && forall i | 0 <= i < |costs| :: 0.0 <= costs[i] <= estimates[i]
    requires ceiling >= 0.0 && RunTo(t, end, estimates, costs, ceiling)
    ensures end.s.total <= ceiling
  {
    var last := RunKeeps(t, end, estimates, costs, ceiling);
    SumBelow(last, costs, estimates, |costs|);
    SumNonNegative(end.s.inflight, costs, |costs|);
    SumEmpty(costs, |costs|);
  }

  /** A pending list of one model overspends exactly when its estimate fits under the ceiling and
      its cost does not. */
  method RunSingle(estimate: real, cost: real, ceiling: real) returns (total: real)
    requires cost >= 0.0 && ceiling >= 0.0
    ensures total > ceiling <==> estimate <= ceiling < cost
  {
    var rows, refused, drained, spent;
    ghost var last, t;
    rows, refused, drained, spent, last, t := RunPending([estimate], [cost], ceiling);
    total := spent;
    SumOne(Elements(rows), cost);
    SumOne(last, cost);
    SumOne(last, estimate);
    assert 0 in rows <==> 0 in Elements(rows);
    assert 0 in refused ==> refused[0] == 0;
    assert rows != [] ==> rows[0] in Elements(rows);
    assert last != {} ==> exists i :: i in last;
  }

  lemma SumOne(s: set<nat>, x: real)
    ensures Sum(s, [x], 1) == if 0 in s then x else 0.0
  {
    assert Sum(s, [x], 0) == 0.0;
  }

  /** Distinct models of a price list with n models, in the order they are queued. */
  ghost predicate Pending(p: seq<nat>, n: nat) {
    (forall i | 0 <= i < |p| :: p[i] < n) && Distinct(p)
  }

  function Picked(f: seq<real>, p: seq<nat>): (r: seq<real>)
    requires forall i | 0 <= i < |p| :: p[i] < |f|
    ensures |r| == |p| && forall i | 0 <= i < |p| :: r[i] == f[p[i]]
  {
    seq(|p|, i requires 0 <= i < |p| => f[p[i]])
  }

  /** Some run of some pending list of these models passes some ceiling. */
  ghost predicate Overspends(estimates: seq<real>, costs: seq<real>)
    requires |costs| == |estimates|
  {
    exists p, ceiling, t, end :: PassesCeiling(estimates, costs, p, ceiling, t, end)
  }

  ghost predicate PassesCeiling(estimates: seq<real>, costs: seq<real>, p: seq<nat>, ceiling: real, t: seq<Config>,
                                end: Config)
    requires |costs| == |estimates|
  {
    && Pending(p, |costs|) && ceiling >= 0.0
    && RunTo(t, end, Picked(estimates, p), Picked(costs, p), ceiling) && end.s.total > ceiling
  }

  lemma OnePending(m: nat, n: nat)
    requires m < n
    ensures Pending([m], n)
  {
  }

  /** One overpriced model is enough: queued alone, under a ceiling of just its estimate. */
  lemma OverpricedOverspends(estimates: seq<real>, costs: seq<real>, m: nat)
    requires |costs| == |estimates| && m < |costs| && 0.0 <= estimates[m] < costs[m]
    ensures Overspends(estimates, costs)
  {
    var es, cs, ceiling := [estimates[m]], [costs[m]], estimates[m];
    assert Picked(estimates, [m]) == es && Picked(costs, [m]) == cs;
    var t, end := SingleRun(estimates[m], costs[m], ceiling);
    OnePending(m, |costs|);
    hide RunTo, Pending;
    assert PassesCeiling(estimates, costs, [m], ceiling, t, end);
  }

  /** A run that admits its only model, and completes it. */
  lemma SingleRun(estimate: real, cost: real, ceiling: real) returns (t: seq<Config>, end: Config)
    requires estimate <= ceiling
    ensures RunTo(t, end, [estimate], [cost], ceiling) && end.s.total == cost
  {
    var es, cs := [estimate], [cost];
    var s0 := Initial(1);
    SumEmpty(es, 1);
    assert s0.queued == [0] && Fits(s0, es, ceiling);
    var c0, c1 := Config(s0, Admitting), Config(Admit(s0), Admitting);
    var none: set<nat> := {};
    assert c1.s.queued == [] && c1.s.inflight == none + {0} && c1.s.total == 0.0;
    InitialRun(es, cs, ceiling);
    hide RunTo, Sum;
    RunOn([c0], c0, c1, es, cs, ceiling);
    BatchChosen([c0] + [c1], c1.s, {0}, es, cs, ceiling);
    HandledRun([c0] + [c1] + [Config(c1.s, Handling({0}))], c1.s, 0, {0}, es, cs, ceiling);
    end := Config(Settle(Complete(c1.s, 0, cost), ceiling), Handling({0} - {0}));
    t := [c0] + [c1] + [Config(c1.s, Handling({0}))] + [end];
  }

  /** Every pending list drawn from the models stays under every ceiling in every completion
      order if and only if no model costs more than its estimate. */
  lemma CeilingHoldsIff(estimates: seq<real>, costs: seq<real>)
    requires |costs| == |estimates| && forall m | 0 <= m < |costs| :: estimates[m] >= 0.0 && costs[m] >= 0.0
    ensures !Overspends(estimates, costs) <==> forall m | 0 <= m < |costs| :: costs[m] <= estimates[m]
  {
    if forall m | 0 <= m < |costs| :: costs[m] <= estimates[m] {
      forall p, ceiling, t, end | Pending(p, |costs|) && ceiling >= 0.0
          && RunTo(t, end, Picked(estimates, p), Picked(costs, p), ceiling)
        ensures end.s.total <= ceiling
      {
        UpperEstimatesKeepCeiling(t, end, Picked(estimates, p), Picked(costs, p), ceiling);
      }
    } else {
      var m: nat :| m < |costs| && costs[m] > estimates[m];
      OverpricedOverspends(estimates, costs, m);
    }
  }
}
