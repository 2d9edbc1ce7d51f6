/** Transitive closure of account-scoped `before` edges by repeated joining. */
module Closure {
  import opened SetFacts

  datatype Edge = Edge(account: string, before: string, after: string)

  /** A chain of n edges of one account from x to y. */
  ghost predicate Chain(edges: set<Edge>, account: string, x: string, y: string, n: nat)
    decreases n
  {
    if n == 0 then x == y
    else exists z :: Edge(account, x, z) in edges && Chain(edges, account, z, y, n - 1)
  }

  /** y comes after x by at least one edge. */
  ghost predicate Precedes(edges: set<Edge>, e: Edge) {
    exists n: nat :: n >= 1 && Chain(edges, e.account, e.before, e.after, n)
  }

  ghost predicate Cyclic(edges: set<Edge>) {
    exists account, x, n: nat :: n >= 1 && Chain(edges, account, x, x, n)
  }

  ghost predicate Transitive(edges: set<Edge>) {
    forall d, e | d in edges && e in edges && d.account == e.account && d.after == e.before ::
      Edge(d.account, d.before, e.after) in edges
  }

  lemma {:induction false} ChainJoin(edges: set<Edge>, a: string, x: string, y: string, z: string, m: nat, n: nat)
    requires Chain(edges, a, x, y, m) && Chain(edges, a, y, z, n)
    ensures Chain(edges, a, x, z, m + n)
    decreases m
  {
    if m > 0 {
      var w :| Edge(a, x, w) in edges && Chain(edges, a, w, y, m - 1);
      ChainJoin(edges, a, w, y, z, m - 1, n);
    }
  }

  lemma {:induction false} ChainSplit(edges: set<Edge>, a: string, x: string, z: string, m: nat, n: nat) returns (y: string)
    requires Chain(edges, a, x, z, m + n)
    ensures Chain(edges, a, x, y, m) && Chain(edges, a, y, z, n)
    decreases m
  {
    if m == 0 {
      y := x;
    } else {
      var w :| Edge(a, x, w) in edges && Chain(edges, a, w, z, m - 1 + n);
      y := ChainSplit(edges, a, w, z, m - 1, n);
    }
  }

  /** Chains of one edge are the edges. */
  lemma ChainOne(edges: set<Edge>, e: Edge)
    ensures Chain(edges, e.account, e.before, e.after, 1) <==> e in edges
  {
    if Chain(edges, e.account, e.before, e.after, 1) {
      var z :| Edge(e.account, e.before, z) in edges && Chain(edges, e.account, z, e.after, 0);
      assert e == Edge(e.account, e.before, z);
    }
    if e in edges {
      assert Edge(e.account, e.before, e.after) in edges && Chain(edges, e.account, e.after, e.after, 0);
    }
  }

  function Pow2(k: nat): nat {
    if k == 0 then 1 else 2 * Pow2(k - 1)
  }

  /** What the set holds after k joining rounds: the pairs a chain of up to 2^k edges joins. */
  ghost predicate HoldsUpTo(edges: set<Edge>, closure: set<Edge>, bound: nat) {
    forall e :: e in closure <==> Joined(edges, e, bound)
  }

  /** All pairs one joining round adds. */
  function Joins(closure: set<Edge>): set<Edge> {
    set d, e | d in closure && e in closure && d.account == e.account && d.after == e.before ::
      Edge(d.account, d.before, e.after)
  }

  /** Some chain of 1..bound edges joins the pair. */
  ghost predicate Joined(edges: set<Edge>, e: Edge, bound: nat) {
    exists n: nat :: 1 <= n <= bound && Chain(edges, e.account, e.before, e.after, n)
  }

  lemma JoinWithinDouble(edges: set<Edge>, closure: set<Edge>, bound: nat, e: Edge)
    requires HoldsUpTo(edges, closure, bound) && e in Joins(closure)
    ensures Joined(edges, e, 2 * bound)
  {
    var d, f :| d in closure && f in closure && d.account == f.account && d.after == f.before
                && e == Edge(d.account, d.before, f.after);
    var m: nat :| 1 <= m <= bound && Chain(edges, d.account, d.before, d.after, m);
    var n: nat :| 1 <= n <= bound && Chain(edges, f.account, f.before, f.after, n);
    ChainJoin(edges, d.account, d.before, d.after, f.after, m, n);
  }

  lemma DoubleWithinJoin(edges: set<Edge>, closure: set<Edge>, bound: nat, e: Edge)
    requires bound >= 1 && HoldsUpTo(edges, closure, bound) && Joined(edges, e, 2 * bound)
    ensures e in closure + Joins(closure)
  {
    var n: nat :| 1 <= n <= 2 * bound && Chain(edges, e.account, e.before, e.after, n);
    if n <= bound {
      assert Joined(edges, e, bound);
    } else {
      var y := ChainSplit(edges, e.account, e.before, e.after, bound, n - bound);
      var d, f := Edge(e.account, e.before, y), Edge(e.account, y, e.after);
      assert Joined(edges, d, bound) && Joined(edges, f, bound);
      assert e == Edge(d.account, d.before, f.after);
    }
  }

  /** A joining round doubles the length of the chains held. */
  lemma RoundDoubles(edges: set<Edge>, closure: set<Edge>, bound: nat)
    requires bound >= 1 && HoldsUpTo(edges, closure, bound)
    ensures HoldsUpTo(edges, closure + Joins(closure), 2 * bound)
  {
    var next := closure + Joins(closure);
    forall e ensures e in next <==> Joined(edges, e, 2 * bound) {
      if e in closure {
        assert Joined(edges, e, bound);
      } else if e in next {
        JoinWithinDouble(edges, closure, bound, e);
      }
      if Joined(edges, e, 2 * bound) {
        DoubleWithinJoin(edges, closure, bound, e);
      }
    }
  }

  /** Once joining adds nothing the set holds every chain, whatever its length. */
  lemma {:induction false} FixpointHoldsAll(edges: set<Edge>, closure: set<Edge>, a: string, x: string, y: string, n: nat)
    requires edges <= closure && Transitive(closure) && n >= 1
    requires Chain(edges, a, x, y, n)
    ensures Edge(a, x, y) in closure
    decreases n
  {
    if n == 1 {
      ChainOne(edges, Edge(a, x, y));
    } else {
      var z :| Edge(a, x, z) in edges && Chain(edges, a, z, y, n - 1);
      FixpointHoldsAll(edges, closure, a, z, y, n - 1);
    }
  }

  /** Every pair of endpoints that occurs: the closure never leaves it. */
  ghost function Universe(edges: set<Edge>): set<Edge> {
    set d, e | d in edges && e in edges :: Edge(d.account, d.before, e.after)
  }

  lemma {:induction false} ChainInUniverse(edges: set<Edge>, a: string, x: string, y: string, n: nat)
    requires n >= 1 && Chain(edges, a, x, y, n)
    ensures exists d | d in edges :: d.account == a && d.before == x
    ensures exists e | e in edges :: e.after == y
    decreases n
  {
    var z :| Edge(a, x, z) in edges && Chain(edges, a, z, y, n - 1);
    assert Edge(a, x, z).account == a && Edge(a, x, z).before == x;
    if n == 1 {
      assert Edge(a, x, z).after == y;
    } else {
      ChainInUniverse(edges, a, z, y, n - 1);
    }
  }

  lemma HeldInUniverse(edges: set<Edge>, closure: set<Edge>, bound: nat)
    requires HoldsUpTo(edges, closure, bound)
    ensures closure <= Universe(edges)
  {
    forall e | e in closure ensures e in Universe(edges) {
      var n: nat :| 1 <= n <= bound && Chain(edges, e.account, e.before, e.after, n);
      ChainInUniverse(edges, e.account, e.before, e.after, n);
      var d :| d in edges && d.account == e.account && d.before == e.before;
      var f :| f in edges && f.after == e.after;
      assert e == Edge(d.account, d.before, f.after);
    }
  }

  lemma {:induction false} PowPositive(k: nat)
    ensures Pow2(k) >= 1
  {
    if k > 0 {
      PowPositive(k - 1);
    }
  }

  lemma EdgesHoldOne(edges: set<Edge>)
    ensures HoldsUpTo(edges, edges, 1)
  {
    forall e ensures e in edges <==> Joined(edges, e, 1) {
      ChainOne(edges, e);
    }
  }

  /** One round of the loop: join the set with itself, and say whether anything was new. */
  method Round(edges: set<Edge>, closure: set<Edge>, ghost rounds: nat) returns (next: set<Edge>, changed: bool)
    requires HoldsUpTo(edges, closure, Pow2(rounds))
    ensures next == closure + Joins(closure)
    ensures changed ==> HoldsUpTo(edges, next, Pow2(rounds + 1)) && |Universe(edges) - next| < |Universe(edges) - closure|
    ensures !changed ==> next == closure
  {
    var additions := Joins(closure);
    next, changed := closure + additions, !(additions <= closure);
    PowPositive(rounds);
    RoundDoubles(edges, closure, Pow2(rounds));
    HeldInUniverse(edges, next, 2 * Pow2(rounds));
    if changed {
      Shrinks(Universe(edges), closure, additions);
    } else {
      assert next == closure;
    }
  }

  /** The source's loop: until a round adds nothing. */
  method Close(edges: set<Edge>) returns (closure: set<Edge>, ghost rounds: nat)
    ensures forall e :: e in closure <==> Precedes(edges, e)
    ensures HoldsUpTo(edges, closure, Pow2(rounds))
  {
    closure, rounds := edges, 0;
    EdgesHoldOne(edges);
    var changed := true;
    hide Joins, Universe;
    while changed
      invariant HoldsUpTo(edges, closure, Pow2(rounds))
      invariant !changed ==> Joins(closure) <= closure
      decreases |Universe(edges) - closure|, changed
    {
      var next;
      next, changed := Round(edges, closure, rounds);
      if changed {
        rounds := rounds + 1;
      }
      closure := next;
    }
    PowPositive(rounds);
    FixpointIsClosure(edges, closure, Pow2(rounds));
  }

  lemma JoinsTransitive(closure: set<Edge>)
    requires Joins(closure) <= closure
    ensures Transitive(closure)
  {
    forall d, e | d in closure && e in closure && d.account == e.account && d.after == e.before
      ensures Edge(d.account, d.before, e.after) in closure
    {
      assert Edge(d.account, d.before, e.after) in Joins(closure);
    }
  }

  lemma FixpointIsClosure(edges: set<Edge>, closure: set<Edge>, bound: nat)
    requires bound >= 1 && HoldsUpTo(edges, closure, bound) && Joins(closure) <= closure
    ensures forall e :: e in closure <==> Precedes(edges, e)
  {
    forall e | e in edges ensures e in closure {
      ChainOne(edges, e);
      assert Joined(edges, e, bound);
    }
    JoinsTransitive(closure);
    forall e ensures e in closure <==> Precedes(edges, e) {
      if n: nat :| n >= 1 && Chain(edges, e.account, e.before, e.after, n) {
        FixpointHoldsAll(edges, closure, e.account, e.before, e.after, n);
        assert e == Edge(e.account, e.before, e.after);
      }
    }
  }

  /** The closure contains the edges, is transitive, and lies in every transitive superset. */
  lemma ClosureIsLeast(edges: set<Edge>, closure: set<Edge>)
    requires forall e :: e in closure <==> Precedes(edges, e)
    ensures edges <= closure && Transitive(closure)
    ensures forall other | edges <= other && Transitive(other) :: closure <= other
  {
    forall e | e in edges ensures e in closure {
      ChainOne(edges, e);
    }
    forall d, e | d in closure && e in closure && d.account == e.account && d.after == e.before
      ensures Edge(d.account, d.before, e.after) in closure
    {
      var m: nat :| m >= 1 && Chain(edges, d.account, d.before, d.after, m);
      var n: nat :| n >= 1 && Chain(edges, e.account, e.before, e.after, n);
      ChainJoin(edges, d.account, d.before, d.after, e.after, m, n);
      assert Precedes(edges, Edge(d.account, d.before, e.after));
    }
    forall other, e | edges <= other && Transitive(other) && e in closure ensures e in other {
      var n: nat :| n >= 1 && Chain(edges, e.account, e.before, e.after, n);
      FixpointHoldsAll(edges, other, e.account, e.before, e.after, n);
      assert e == Edge(e.account, e.before, e.after);
    }
  }

  /** A reflexive pair in the closure is exactly a cycle in the edges. */
  lemma ReflexiveIffCyclic(edges: set<Edge>, closure: set<Edge>)
    requires forall e :: e in closure <==> Precedes(edges, e)
    ensures (exists e | e in closure :: e.before == e.after) <==> Cyclic(edges)
  {
    if account, x, n: nat :| n >= 1 && Chain(edges, account, x, x, n) {
      assert Precedes(edges, Edge(account, x, x));
      assert Edge(account, x, x).before == Edge(account, x, x).after;
    }
  }

  /** In an acyclic closure no edge is contradicted by its reverse. */
  lemma NoReverse(closure: set<Edge>)
    requires Transitive(closure) && forall e | e in closure :: e.before != e.after
    ensures forall e | e in closure :: Edge(e.account, e.after, e.before) !in closure
  {
  }
}
