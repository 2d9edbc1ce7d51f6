/** Finite sets: intervals of integers and sizes. */
module SetFacts {

  /** The integers 0..n-1. */
  ghost function Range(n: nat): (s: set<int>)
    ensures forall j :: j in s <==> 0 <= j < n
    ensures |s| == n
  {
    if n == 0 then {} else Range(n - 1) + {n - 1}
  }

  /** Indices in order, none twice. */
  ghost predicate Ascending(s: seq<nat>) {
    forall j, k | 0 <= j < k < |s| :: s[j] < s[k]
  }

  lemma SubsetSize<T>(a: set<T>, b: set<T>)
    requires a <= b
    ensures |a| <= |b|
    ensures |a| == |b| ==> a == b
  {
    assert b == a + (b - a);
  }

  /** Adding something new leaves less to add. */
  lemma Shrinks<T>(all: set<T>, held: set<T>, added: set<T>)
    requires !(added <= held) && held + added <= all
    ensures |all - (held + added)| < |all - held|
  {
    SubsetSize(all - (held + added), all - held);
    var x :| x in added && x !in held;
    assert x in all - held && x !in all - (held + added);
  }
}
