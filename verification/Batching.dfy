/** Length-sorted classification in batches, halving the batch or leaving the GPU whenever the
    card runs out of memory. */
module Batching {
  import opened SetFacts
  import opened Sorting

  datatype Pair = Pair(premise: string, hypothesis: string)

  type Row = seq<real>

  /** What the card and the model do, attempt by attempt: any attempt on the GPU may fail, and a
      batch that runs gives one row per pair, in order. */
  datatype Machine = Machine(outOfMemory: nat -> bool, run: (nat, seq<Pair>) -> seq<Row>)

  /** Whatever is true of every row the model returns, given the pair it was asked about. */
  ghost predicate Answers(m: Machine, valid: (Pair, Row) -> bool) {
    forall n, batch {:trigger m.run(n, batch)} ::
      && |m.run(n, batch)| == |batch|
      && forall j | 0 <= j < |batch| :: valid(batch[j], m.run(n, batch)[j])
  }

  function Length(p: Pair): nat { |p.premise| + |p.hypothesis| }

  /** Shorter pairs first; pairs of one length keep their input order. */
  predicate NotAfter(pairs: seq<Pair>, j: int, k: int) {
    && Known(pairs, j) && Known(pairs, k)
    && (Length(pairs[j]) < Length(pairs[k]) || (Length(pairs[j]) == Length(pairs[k]) && j <= k))
  }

  /** The total order the sort needs: indices outside the list come last. */
  function Leq(pairs: seq<Pair>): (int, int) -> bool {
    (j: int, k: int) => NotAfter(pairs, j, k) || !Known(pairs, k)
  }

  function Indices(n: nat): (s: seq<int>)
    ensures |s| == n && forall j | 0 <= j < n :: s[j] == j
  {
    seq(n, j => j)
  }

  function Order(pairs: seq<Pair>): seq<int> {
    Sort(Indices(|pairs|), Leq(pairs))
  }

  /** Pair j goes before pair k: fewer characters in premise and hypothesis together, or as many
      and given earlier. */
  ghost predicate GoesBefore(pairs: seq<Pair>, j: int, k: int) {
    && 0 <= j < |pairs| && 0 <= k < |pairs|
    && var a, b := |pairs[j].premise + pairs[j].hypothesis|, |pairs[k].premise + pairs[k].hypothesis|;
       a < b || (a == b && j < k)
  }

  /** The sorted order lists every input index once, shortest pair first and ties as given. */
  lemma OrderIsPermutation(pairs: seq<Pair>)
    ensures |Order(pairs)| == |pairs|
    ensures multiset(Order(pairs)) == multiset(Range(|pairs|))
    ensures forall i, j | 0 <= i < j < |pairs| :: GoesBefore(pairs, Order(pairs)[i], Order(pairs)[j])
  {
    hide Order, Sort, Range;
    var all := Indices(|pairs|);
    assert Order(pairs) == Sort(all, Leq(pairs)) by { OrderDefined(pairs); }
    SortKeeps(all, Leq(pairs));
    IndicesOnce(|pairs|);
    LeqTotal(pairs);
    SortOrdered(all, Leq(pairs));
    forall i, j | 0 <= i < j < |pairs| ensures GoesBefore(pairs, Order(pairs)[i], Order(pairs)[j]) {
      assert Order(pairs)[i] in all && Order(pairs)[j] in all;
      assert Leq(pairs)(Order(pairs)[i], Order(pairs)[j]);
      ListedOnce(Order(pairs), |pairs|, i, j);
    }
  }

  lemma ListedOnce(s: seq<int>, n: nat, i: nat, j: nat)
    requires multiset(s) == multiset(Range(n)) && i < j < |s|
    ensures s[i] != s[j]
  {
    var earlier, later := s[..j], s[j + 1..];
    assert s == earlier + [s[j]] + later;
    assert multiset(s)[s[j]] == multiset(earlier)[s[j]] + 1 + multiset(later)[s[j]];
    assert earlier[i] in multiset(earlier);
  }

  lemma OrderDefined(pairs: seq<Pair>)
    ensures Order(pairs) == Sort(Indices(|pairs|), Leq(pairs))
  {
  }

  lemma LeqTotal(pairs: seq<Pair>)
    ensures TotalPreorder(Leq(pairs))
  {
  }

  lemma {:induction false} IndicesOnce(n: nat)
    ensures multiset(Indices(n)) == multiset(Range(n))
  {
    if n > 0 {
      IndicesOnce(n - 1);
      assert Indices(n) == Indices(n - 1) + [n - 1];
      RangeOnce(n);
      hide *;
    } else {
      assert Indices(0) == [] && Range(0) == {};
    }
  }

  lemma RangeOnce(n: nat)
    requires n > 0
    ensures multiset(Range(n)) == multiset(Range(n - 1)) + multiset{n - 1}
  {
    var rest := Range(n - 1);
    assert Range(n) == rest + {n - 1};
    hide Range;
    assert n - 1 !in rest;
  }

  /** How often a batch size can be halved before it is one. */
  ghost function Halvings(size: nat): nat {
    if size <= 1 then 0 else 1 + Halvings(size / 2)
  }

  /** Where the loop stands: the device, the batch size and how far the sorted order is done. */
  datatype Standing = Standing(onGpu: bool, size: nat, done: nat)

  /** One batch tried. */
  datatype Attempt = Attempt(at: Standing, width: nat, failed: bool)

  /** The attempts lead from one standing to another: each takes a full batch of what is left of
      the n pairs, or all of it, and goes wrong only where the card says so; a failure redoes the
      pairs with half the batch, or off the card once a batch is one pair. */
  ghost predicate Tried(log: seq<Attempt>, m: Machine, n: nat, start: Standing, now: Standing) {
    if log == [] then now == start
    else
      var a := log[|log| - 1];
      && Tried(log[..|log| - 1], m, n, start, a.at)
      && 0 < a.width && a.at.done + a.width <= n
      && (a.width == a.at.size || (a.width < a.at.size && a.at.done + a.width == n))
      && (a.failed <==> a.at.onGpu && m.outOfMemory(|log|))
      && (!a.failed ==> now == Standing(a.at.onGpu, a.at.size, a.at.done + a.width))
      && (a.failed && a.at.size > 1 ==> now == Standing(true, a.at.size / 2, a.at.done))
      && (a.failed && a.at.size == 1 ==> now == Standing(false, 1, a.at.done))
  }

  class Classifier {
    var onGpu: bool
    var batchSize: nat

    ghost predicate Valid() reads this { batchSize >= 1 }

    /** Failures still possible before every batch must succeed. */
    ghost function FailuresLeft(): nat reads this {
      if onGpu then 1 + Halvings(batchSize) else 0
    }

    constructor (onGpu: bool, batchSize: nat)
      requires batchSize >= 1
      ensures Valid() && this.onGpu == onGpu && this.batchSize == batchSize
    {
      this.onGpu, this.batchSize := onGpu, batchSize;
    }

    /** One failed attempt: halve, or at one pair per batch move to the CPU. */
    method BackOff()
      requires Valid() && onGpu
      modifies this
      ensures Valid() && FailuresLeft() < old(FailuresLeft()) && batchSize <= old(batchSize)
      ensures old(batchSize) > 1 ==> onGpu && batchSize == old(batchSize) / 2
      ensures old(batchSize) == 1 ==> !onGpu && batchSize == 1
    {
      if batchSize > 1 {
        batchSize := batchSize / 2;
      } else {
        onGpu := false;
      }
    }

    /** `scored` records the input indices in the order their rows were produced, and `log` the
        batches tried. */
    method Probs(pairs: seq<Pair>, m: Machine, ghost valid: (Pair, Row) -> bool)
      returns (out: seq<Row>, attempts: nat, ghost scored: seq<int>, ghost log: seq<Attempt>)
      requires Valid() && Answers(m, valid)
      modifies this
      ensures Valid() && batchSize <= old(batchSize) && (onGpu ==> old(onGpu))
      ensures !old(onGpu) ==> batchSize == old(batchSize)
      ensures |out| == |pairs| && forall k | 0 <= k < |pairs| :: valid(pairs[k], out[k])
      ensures scored == Order(pairs) && multiset(scored) == multiset(Range(|pairs|))
      ensures attempts + FailuresLeft() <= |pairs| + old(FailuresLeft())
      ensures |log| == attempts
      ensures Tried(log, m, |pairs|, Standing(old(onGpu), old(batchSize), 0), Standing(onGpu, batchSize, |pairs|))
    {
      hide *;
      out, attempts, scored, log := [], 0, [], [];
      ghost var start := Standing(onGpu, batchSize, 0);
      assert Tried(log, m, |pairs|, start, start) by { NoneTried(m, |pairs|, start); }
      OrderIsPermutation(pairs);
      if pairs == [] {
        EmptyOrder(pairs);
        return;
      }
      var order := Order(pairs);
      out := seq(|pairs|, _ => []);
      var i := 0;
      NonePlaced(pairs, out, order[..0], valid);
      assert scored == order[..0];
      while i < |order|
        invariant Valid() && batchSize <= old(batchSize) && (onGpu ==> old(onGpu))
        invariant !old(onGpu) ==> batchSize == old(batchSize)
        invariant 0 <= i <= |order| == |pairs| == |out| && scored == order[..i]
        invariant Placed(pairs, out, order[..i], valid)
        invariant attempts + FailuresLeft() <= i + old(FailuresLeft())
        invariant |log| == attempts && Tried(log, m, |pairs|, start, Standing(onGpu, batchSize, i))
        decreases onGpu, batchSize, |order| - i
      {
        SizePositive();
        var idx := order[i..if i + batchSize < |order| then i + batchSize else |order|];
        attempts := attempts + 1;
        ghost var a := Attempt(Standing(onGpu, batchSize, i), |idx|, onGpu && m.outOfMemory(attempts));
        TriedNext(log, m, |pairs|, start, a);
        log := log + [a];
        if onGpu && m.outOfMemory(attempts) {
          BackOff();
        } else {
          IndicesInRange(pairs, i, |idx|, order);
          var batch := Select(pairs, idx);
          var rows := m.run(attempts, batch);
          out := Store(pairs, m, valid, attempts, order[..i], idx, batch, rows, out);
          assert order[..i + |idx|] == order[..i] + idx;
          scored := scored + idx;
          i := i + |idx|;
        }
      }
      assert order[..i] == order;
      AllPlaced(pairs, out, valid);
    }

    lemma NoneTried(m: Machine, n: nat, start: Standing)
      ensures Tried([], m, n, start, start)
    {
    }

    lemma TriedNext(log: seq<Attempt>, m: Machine, n: nat, start: Standing, a: Attempt)
      requires Tried(log, m, n, start, a.at) && a.at.size >= 1 && a.at.done < n
      requires a.width == if a.at.done + a.at.size < n then a.at.size else n - a.at.done
      requires a.failed <==> a.at.onGpu && m.outOfMemory(|log| + 1)
      ensures var at := a.at;
              Tried(log + [a], m, n, start,
                    if !a.failed then Standing(at.onGpu, at.size, at.done + a.width)
                    else if at.size > 1 then Standing(true, at.size / 2, at.done) else Standing(false, 1, at.done))
    {
      assert (log + [a])[..|log|] == log;
    }

    lemma SizePositive()
      requires Valid()
      ensures batchSize >= 1
    {
    }
  }

  lemma EmptyOrder(pairs: seq<Pair>)
    requires pairs == []
    ensures Order(pairs) == []
  {
  }

  predicate Known(pairs: seq<Pair>, k: int) { 0 <= k < |pairs| }

  predicate AllKnown(pairs: seq<Pair>, idx: seq<int>) {
    forall j | 0 <= j < |idx| :: 0 <= idx[j] < |pairs|
  }

  function Select(pairs: seq<Pair>, idx: seq<int>): (batch: seq<Pair>)
    requires AllKnown(pairs, idx)
    ensures |batch| == |idx| && forall j | 0 <= j < |idx| :: batch[j] == pairs[idx[j]]
  {
    seq(|idx|, j requires 0 <= j < |idx| => pairs[idx[j]])
  }

  lemma IndicesInRange(pairs: seq<Pair>, i: nat, n: nat, order: seq<int>)
    requires order == Order(pairs) && i + n <= |order|
    ensures AllKnown(pairs, order[i..i + n])
  {
    OrderIsPermutation(pairs);
    forall j | i <= j < i + n ensures Known(pairs, order[j]) {
      assert order[j] in multiset(order);
    }
  }

  lemma NonePlaced(pairs: seq<Pair>, out: seq<Row>, done: seq<int>, valid: (Pair, Row) -> bool)
    requires |out| == |pairs| && done == []
    ensures Placed(pairs, out, done, valid)
  {
  }

  /** Every index already scored holds a row valid for its own pair. */
  ghost predicate Placed(pairs: seq<Pair>, out: seq<Row>, done: seq<int>, valid: (Pair, Row) -> bool) {
    |out| == |pairs| && forall k | k in done :: Known(pairs, k) && valid(pairs[k], out[k])
  }

  lemma AllPlaced(pairs: seq<Pair>, out: seq<Row>, valid: (Pair, Row) -> bool)
    requires Placed(pairs, out, Order(pairs), valid)
    ensures forall k | 0 <= k < |pairs| :: valid(pairs[k], out[k])
  {
    OrderIsPermutation(pairs);
    forall k | 0 <= k < |pairs| ensures valid(pairs[k], out[k]) {
      assert k in multiset(Order(pairs));
    }
  }

  /** The write-back loop: each row goes to its pair's input position. */
  method Store(pairs: seq<Pair>, ghost m: Machine, ghost valid: (Pair, Row) -> bool, ghost attempt: nat,
               ghost done: seq<int>, idx: seq<int>, ghost batch: seq<Pair>, rows: seq<Row>, before: seq<Row>)
    returns (out: seq<Row>)
    requires Answers(m, valid) && rows == m.run(attempt, batch) && |batch| == |idx|
    requires AllKnown(pairs, idx) && batch == Select(pairs, idx)
    requires Placed(pairs, before, done, valid)
    ensures Placed(pairs, out, done + idx, valid)
  {
    out := before;
    assert done + idx[..0] == done;
    for j := 0 to |idx|
      invariant Placed(pairs, out, done + idx[..j], valid)
    {
      out := out[idx[j] := rows[j]];
      assert idx[..j + 1] == idx[..j] + [idx[j]];
      assert valid(batch[j], rows[j]);
    }
    assert idx[..|idx|] == idx;
  }
}
