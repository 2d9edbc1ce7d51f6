/** Context links between highlights: two worklist closures over the same chains. */
module ContextLinks {
  import opened SetFacts

  /** One context edge: `child` needs `parent` for its referent. */
  datatype Link = Link(child: string, parent: string)

  type Parents = map<string, set<string>>

  function ParentsOf(parents: Parents, id: string): set<string> {
    if id in parents then parents[id] else {}
  }

  function Links(parents: Parents): set<Link> {
    set child, parent | child in parents && parent in parents[child] :: Link(child, parent)
  }

  /** A chain lists a dependent highlight and the earlier ones it needs. */
  ghost predicate Linked(chains: seq<seq<string>>, child: string, parent: string) {
    exists k | 0 <= k < |chains| :: chains[k] != [] && chains[k][0] == child && parent in chains[k][1..]
  }

  method CollectParents(chains: seq<seq<string>>) returns (parents: Parents)
    requires forall k | 0 <= k < |chains| :: |chains[k]| >= 2
    ensures forall child, parent :: parent in ParentsOf(parents, child) <==> Linked(chains, child, parent)
  {
    parents := map[];
    for i := 0 to |chains|
      invariant forall child, parent :: parent in ParentsOf(parents, child) <==> Linked(chains[..i], child, parent)
    {
      var chain := chains[i];
      var more := ParentsOf(parents, chain[0]) + set p | p in chain[1..];
      ghost var before := parents;
      parents := parents[chain[0] := more];
      forall child, parent
        ensures parent in ParentsOf(parents, child) <==> Linked(chains[..i + 1], child, parent)
      {
        LinkedStep(chains, i, child, parent);
        assert parent in ParentsOf(before, child) <==> Linked(chains[..i], child, parent);
      }
    }
    assert chains[..|chains|] == chains;
  }

  lemma LinkedStep(chains: seq<seq<string>>, i: nat, child: string, parent: string)
    requires i < |chains|
    ensures Linked(chains[..i + 1], child, parent) <==>
            || Linked(chains[..i], child, parent)
            || (chains[i] != [] && chains[i][0] == child && parent in chains[i][1..])
  {
    var next := chains[..i + 1];
    assert next[i] == chains[i] && forall k | 0 <= k < i :: next[k] == chains[..i][k];
    if Linked(chains[..i], child, parent) {
      var k :| 0 <= k < i && chains[..i][k] != [] && chains[..i][k][0] == child && parent in chains[..i][k][1..];
      assert next[k] == chains[..i][k];
    }
  }

  // ----- Paths

  /** n links of the set lead from x to y. */
  ghost predicate Path(links: set<Link>, x: string, y: string, n: nat)
    decreases n
  {
    if n == 0 then x == y else exists z :: Link(z, y) in links && Path(links, x, z, n - 1)
  }

  ghost predicate Reaches(links: set<Link>, x: string, y: string) {
    exists n: nat :: n >= 1 && Path(links, x, y, n)
  }

  /** x itself or something it reaches. */
  ghost predicate Visits(links: set<Link>, x: string, y: string) {
    exists n: nat :: Path(links, x, y, n)
  }

  lemma StepOn(links: set<Link>, x: string, z: string, y: string)
    requires Visits(links, x, z) && Link(z, y) in links
    ensures Reaches(links, x, y) && Visits(links, x, y)
  {
    var n: nat :| Path(links, x, z, n);
    assert Path(links, x, y, n + 1);
  }

  lemma VisitsSelf(links: set<Link>, x: string)
    ensures Visits(links, x, x)
  {
    assert Path(links, x, x, 0);
  }

  lemma ReachesVisits(links: set<Link>, x: string, y: string)
    requires Reaches(links, x, y)
    ensures Visits(links, x, y)
  {
  }

  /** A set that holds x's parents and is closed under parents holds all x reaches. */
  lemma {:induction false} ClosedHoldsReach(links: set<Link>, x: string, held: set<string>, y: string, n: nat)
    requires forall l | l in links && (l.child == x || l.child in held) :: l.parent in held
    requires n >= 1 && Path(links, x, y, n)
    ensures y in held
    decreases n
  {
    var z :| Link(z, y) in links && Path(links, x, z, n - 1);
    if n == 1 {
      assert Link(x, y) in links;
    } else {
      ClosedHoldsReach(links, x, held, z, n - 1);
    }
    assert Link(z, y).parent == y;
  }

  lemma {:induction false} PathJoin(links: set<Link>, x: string, y: string, z: string, m: nat, n: nat)
    requires Path(links, x, y, m) && Path(links, y, z, n)
    ensures Path(links, x, z, m + n)
    decreases n
  {
    if n > 0 {
      var w :| Link(w, z) in links && Path(links, y, w, n - 1);
      PathJoin(links, x, y, w, m, n - 1);
    }
  }

  lemma ReachesTransitive(links: set<Link>, x: string, y: string, z: string)
    requires Reaches(links, x, y) && Reaches(links, y, z)
    ensures Reaches(links, x, z)
  {
    var m: nat :| m >= 1 && Path(links, x, y, m);
    var n: nat :| n >= 1 && Path(links, y, z, n);
    PathJoin(links, x, y, z, m, n);
  }

  // ----- The unrestricted closure

  /** Push the elements of a set, in any order. */
  method PushAll<T>(stack: seq<T>, items: set<T>) returns (more: seq<T>)
    ensures forall x :: x in more <==> x in stack || x in items
  {
    more := stack;
    var todo := items;
    while todo != {}
      invariant todo <= items
      invariant forall x :: x in more <==> x in stack || x in items - todo
    {
      var x :| x in todo;
      more := more + [x];
      todo := todo - {x};
    }
  }

  ghost function Targets(links: set<Link>): set<string> {
    set l | l in links :: l.parent
  }

  /** The parents of a visited id are exactly its links, and are reached. */
  lemma ParentsReached(parents: Parents, id: string, a: string)
    requires Visits(Links(parents), id, a)
    ensures forall y | y in ParentsOf(parents, a) :: Reaches(Links(parents), id, y) && y in Targets(Links(parents))
    ensures forall l | l in Links(parents) && l.child == a :: l.parent in ParentsOf(parents, a)
  {
    forall y | y in ParentsOf(parents, a) ensures Reaches(Links(parents), id, y) && y in Targets(Links(parents)) {
      assert Link(a, y) in Links(parents) && Link(a, y).parent == y;
      StepOn(Links(parents), id, a, y);
    }
  }

  /** What the worklist loop keeps: everything reached is seen or still to visit. */
  ghost predicate Exploring(links: set<Link>, id: string, seen: set<string>, stack: seq<string>) {
    && seen <= Targets(links)
    && (forall y | y in stack :: y in Targets(links) && Reaches(links, id, y))
    && (forall y | y in seen :: Reaches(links, id, y))
    && forall l | l in links && (l.child == id || l.child in seen) :: l.parent in seen || l.parent in stack
  }

  lemma ExploreSeen(links: set<Link>, id: string, seen: set<string>, stack: seq<string>)
    requires Exploring(links, id, seen, stack) && stack != [] && stack[|stack| - 1] in seen
    ensures Exploring(links, id, seen, stack[..|stack| - 1])
  {
    assert stack == stack[..|stack| - 1] + [stack[|stack| - 1]];
  }

  lemma ExploreNew(parents: Parents, id: string, seen: set<string>, stack: seq<string>, more: seq<string>)
    requires Exploring(Links(parents), id, seen, stack) && stack != []
    requires var a := stack[|stack| - 1];
             forall x :: x in more <==> x in stack[..|stack| - 1] || x in ParentsOf(parents, a)
    ensures Exploring(Links(parents), id, seen + {stack[|stack| - 1]}, more)
  {
    var a := stack[|stack| - 1];
    assert stack == stack[..|stack| - 1] + [a];
    ReachesVisits(Links(parents), id, a);
    hide Reaches, Visits, Links, ParentsOf;
    ParentsReached(parents, id, a);
  }

  /** All ids a highlight reaches, present or not; cycles are broken by the visited set. */
  method Ancestors(parents: Parents, id: string) returns (seen: set<string>)
    ensures forall y :: y in seen <==> Reaches(Links(parents), id, y)
  {
    ghost var links := Links(parents);
    seen := {};
    VisitsSelf(links, id);
    ParentsReached(parents, id, id);
    var stack := PushAll([], ParentsOf(parents, id));
    assert Exploring(links, id, seen, stack) by {
      hide Reaches, Links, ParentsOf;
    }
    while stack != []
      invariant Exploring(links, id, seen, stack)
      decreases |Targets(links) - seen|, |stack|
    {
      hide Reaches, Links, ParentsOf, Targets;
      var a := stack[|stack| - 1];
      if a in seen {
        ExploreSeen(links, id, seen, stack);
        stack := stack[..|stack| - 1];
        continue;
      }
      Shrinks(Targets(links), seen, {a});
      var more := PushAll(stack[..|stack| - 1], ParentsOf(parents, a));
      ExploreNew(parents, id, seen, stack, more);
      seen, stack := seen + {a}, more;
    }
    ExploredAll(links, id, seen);
  }

  lemma ExploredAll(links: set<Link>, id: string, seen: set<string>)
    requires Exploring(links, id, seen, [])
    ensures forall y :: y in seen <==> Reaches(links, id, y)
  {
    forall y | Reaches(links, id, y) ensures y in seen {
      var n: nat :| n >= 1 && Path(links, id, y, n);
      ClosedHoldsReach(links, id, seen, y, n);
    }
  }

  /** The chains say these parents. */
  ghost predicate Collected(parents: Parents, chains: seq<seq<string>>) {
    forall child, parent :: parent in ParentsOf(parents, child) <==> Linked(chains, child, parent)
  }

  /** n links of the chains lead from x up to y. */
  ghost predicate Leads(chains: seq<seq<string>>, x: string, y: string, n: nat)
    decreases n
  {
    if n == 0 then x == y else exists z :: Leads(chains, x, z, n - 1) && Linked(chains, z, y)
  }

  ghost predicate IsAncestor(chains: seq<seq<string>>, x: string, y: string) {
    exists n: nat :: n >= 1 && Leads(chains, x, y, n)
  }

  lemma {:induction false} PathLeads(parents: Parents, chains: seq<seq<string>>, x: string, y: string, n: nat)
    requires Collected(parents, chains)
    ensures Path(Links(parents), x, y, n) <==> Leads(chains, x, y, n)
    decreases n
  {
    if n > 0 {
      hide Linked;
      forall z ensures Link(z, y) in Links(parents) && Path(Links(parents), x, z, n - 1) <==>
                       Leads(chains, x, z, n - 1) && Linked(chains, z, y)
      {
        PathLeads(parents, chains, x, z, n - 1);
        assert Link(z, y) in Links(parents) <==> y in ParentsOf(parents, z);
      }
    }
  }

  lemma ReachesAncestors(parents: Parents, chains: seq<seq<string>>, x: string, y: string)
    requires Collected(parents, chains)
    ensures Reaches(Links(parents), x, y) <==> IsAncestor(chains, x, y)
  {
    hide Path, Leads, Links, Collected;
    forall n: nat ensures Path(Links(parents), x, y, n) <==> Leads(chains, x, y, n) {
      PathLeads(parents, chains, x, y, n);
    }
  }

  /** Ancestor closures of all highlights; ids that are not present highlights are dropped. */
  method AncestorClosures(ids: seq<string>, chains: seq<seq<string>>)
    returns (closures: map<string, set<string>>, ghost parents: Parents)
    requires forall k | 0 <= k < |chains| :: |chains[k]| >= 2
    ensures Collected(parents, chains)
    ensures closures.Keys == set id | id in ids
    ensures forall id | id in ids :: forall y :: y in closures[id] <==> y in ids && IsAncestor(chains, id, y)
    ensures forall id | id in ids :: forall y :: y in closures[id] <==> y in ids && Reaches(Links(parents), id, y)
  {
    var collected := CollectParents(chains);
    parents := collected;
    closures := map[];
    assert Collected(parents, chains);
    hide Reaches, Links, Linked, IsAncestor, Collected;
    for i := 0 to |ids|
      invariant closures.Keys == set id | id in ids[..i]
      invariant forall id | id in closures :: forall y :: y in closures[id] <==> y in ids && Reaches(Links(parents), id, y)
    {
      var seen := Ancestors(collected, ids[i]);
      closures := closures[ids[i] := set a | a in seen && a in ids];
      assert ids[..i + 1] == ids[..i] + [ids[i]];
    }
    assert ids[..|ids|] == ids;
    forall id, y ensures Reaches(Links(parents), id, y) <==> IsAncestor(chains, id, y) {
      ReachesAncestors(parents, chains, id, y);
    }
  }

  // ----- The closure along backward links to present highlights

  /** A link to a present highlight that starts strictly earlier. */
  predicate Backward(first: map<string, int>, l: Link) {
    l.child in first && l.parent in first && first[l.parent] < first[l.child]
  }

  ghost function BackwardLinks(parents: Parents, first: map<string, int>): set<Link> {
    set l | l in Links(parents) && Backward(first, l)
  }

  ghost predicate Unresolved(parents: Parents, first: map<string, int>, id: string, y: string) {
    exists c :: Visits(BackwardLinks(parents, first), id, c) && Link(c, y) in Links(parents) && !Backward(first, Link(c, y))
  }

  /** Comparing two starts fails where both highlights are present and one of them has no part. */
  predicate Incomparable(present: set<string>, first: map<string, int>, l: Link) {
    l.parent in present && (l.parent !in first || l.child !in first)
  }

  /** The closure of id runs into such a comparison. */
  ghost predicate Fails(parents: Parents, present: set<string>, first: map<string, int>, id: string) {
    exists c, y :: Visits(BackwardLinks(parents, first), id, c) && Link(c, y) in Links(parents)
                   && Incomparable(present, first, Link(c, y))
  }

  /** Where every present highlight has a part nothing fails. */
  lemma PartsSuffice(parents: Parents, present: set<string>, first: map<string, int>, id: string)
    requires id in present && present == first.Keys
    ensures !Fails(parents, present, first, id)
  {
    forall c, y | Visits(BackwardLinks(parents, first), id, c) && Link(c, y) in Links(parents)
      ensures !Incomparable(present, first, Link(c, y))
    {
      VisitedStarts(parents, first, id, c);
    }
  }

  /** A visited highlight other than the first has a part. */
  lemma VisitedStarts(parents: Parents, first: map<string, int>, id: string, c: string)
    requires Visits(BackwardLinks(parents, first), id, c)
    ensures c == id || c in first
  {
    var n: nat :| Path(BackwardLinks(parents, first), id, c, n);
    if n > 0 {
      var z :| Link(z, c) in BackwardLinks(parents, first);
      assert Backward(first, Link(z, c));
    }
  }

  /** The loop's state: links seen, links to see, and their targets sorted into good and bad. */
  ghost predicate Following(parents: Parents, first: map<string, int>, id: string, seen: set<Link>, stack: seq<Link>,
                            good: set<string>, bad: set<string>) {
    && (forall l | l in stack || l in seen :: l in Links(parents) && Visits(BackwardLinks(parents, first), id, l.child))
    && (forall y :: y in good <==> exists l | l in seen :: Backward(first, l) && l.parent == y)
    && (forall y :: y in bad <==> exists l | l in seen :: !Backward(first, l) && l.parent == y)
    && forall l | l in Links(parents) && (l.child == id || l.child in good) :: l in seen || l in stack
  }

  function LinksFrom(parents: Parents, child: string): set<Link> {
    set p | p in ParentsOf(parents, child) :: Link(child, p)
  }

  lemma LinksFromAre(parents: Parents, child: string)
    ensures forall l :: l in LinksFrom(parents, child) <==> l in Links(parents) && l.child == child
  {
    forall l ensures l in LinksFrom(parents, child) <==> l in Links(parents) && l.child == child {
      if l in Links(parents) && l.child == child {
        assert l.parent in ParentsOf(parents, child) && l == Link(child, l.parent);
      }
    }
  }

  lemma FollowSeen(parents: Parents, first: map<string, int>, id: string, seen: set<Link>, stack: seq<Link>,
                   good: set<string>, bad: set<string>)
    requires Following(parents, first, id, seen, stack, good, bad) && stack != [] && stack[|stack| - 1] in seen
    ensures Following(parents, first, id, seen, stack[..|stack| - 1], good, bad)
  {
    assert stack == stack[..|stack| - 1] + [stack[|stack| - 1]];
    hide Links, Visits, BackwardLinks, Backward;
  }

  lemma FollowBad(parents: Parents, first: map<string, int>, id: string, seen: set<Link>, stack: seq<Link>,
                  good: set<string>, bad: set<string>)
    requires Following(parents, first, id, seen, stack, good, bad) && stack != []
    requires !Backward(first, stack[|stack| - 1])
    ensures Following(parents, first, id, seen + {stack[|stack| - 1]}, stack[..|stack| - 1],
                      good, bad + {stack[|stack| - 1].parent})
  {
    assert stack == stack[..|stack| - 1] + [stack[|stack| - 1]];
    hide Links, Visits, BackwardLinks, Backward;
  }

  lemma FollowGood(parents: Parents, first: map<string, int>, id: string, seen: set<Link>, stack: seq<Link>,
                   good: set<string>, bad: set<string>, more: seq<Link>)
    requires Following(parents, first, id, seen, stack, good, bad) && stack != []
    requires Backward(first, stack[|stack| - 1])
    requires forall l :: l in more <==>
               l in stack[..|stack| - 1] || l in LinksFrom(parents, stack[|stack| - 1].parent)
    ensures Following(parents, first, id, seen + {stack[|stack| - 1]}, more, good + {stack[|stack| - 1].parent}, bad)
  {
    var e, rest := stack[|stack| - 1], stack[..|stack| - 1];
    assert stack == rest + [e];
    LinksFromAre(parents, e.parent);
    assert e in BackwardLinks(parents, first) && e == Link(e.child, e.parent);
    StepOn(BackwardLinks(parents, first), id, e.child, e.parent);
    hide Links, Visits, BackwardLinks, Backward, LinksFrom;
    forall l | l in more || l in seen + {e}
      ensures l in Links(parents) && Visits(BackwardLinks(parents, first), id, l.child)
    {
      assert l in stack || l in seen || l in LinksFrom(parents, e.parent);
    }
    SeenTargets(seen, e, good, l => Backward(first, l));
    OtherTargets(seen, e, bad, l => !Backward(first, l));
    NoneForgotten(Links(parents), id, seen, stack, good, e, LinksFrom(parents, e.parent), more);
  }

  /** Every link from the first highlight or a good one stays seen or to be seen. */
  lemma NoneForgotten(links: set<Link>, id: string, seen: set<Link>, stack: seq<Link>, good: set<string>, e: Link,
                      onward: set<Link>, more: seq<Link>)
    requires stack != [] && e == stack[|stack| - 1]
    requires forall l | l in links && (l.child == id || l.child in good) :: l in seen || l in stack
    requires forall l :: l in onward <==> l in links && l.child == e.parent
    requires forall l :: l in more <==> l in stack[..|stack| - 1] || l in onward
    ensures forall l | l in links && (l.child == id || l.child in good + {e.parent}) :: l in seen + {e} || l in more
  {
    assert stack == stack[..|stack| - 1] + [e];
  }

  /** One more seen link adds its target. */
  lemma SeenTargets(seen: set<Link>, e: Link, targets: set<string>, kind: Link -> bool)
    requires forall y :: y in targets <==> exists l | l in seen :: kind(l) && l.parent == y
    requires kind(e)
    ensures forall y :: y in targets + {e.parent} <==> exists l | l in seen + {e} :: kind(l) && l.parent == y
  {
    forall y ensures y in targets + {e.parent} <==> exists l | l in seen + {e} :: kind(l) && l.parent == y {
      if y == e.parent {
        assert e in seen + {e};
      }
    }
  }

  lemma OtherTargets(seen: set<Link>, e: Link, targets: set<string>, kind: Link -> bool)
    requires forall y :: y in targets <==> exists l | l in seen :: kind(l) && l.parent == y
    requires !kind(e)
    ensures forall y :: y in targets <==> exists l | l in seen + {e} :: kind(l) && l.parent == y
  {
  }

  lemma FollowedAll(parents: Parents, first: map<string, int>, id: string, seen: set<Link>,
                    good: set<string>, bad: set<string>)
    requires Following(parents, first, id, seen, [], good, bad)
    ensures forall y :: y in good <==> Reaches(BackwardLinks(parents, first), id, y)
    ensures forall y :: y in bad <==> Unresolved(parents, first, id, y)
  {
    var links := BackwardLinks(parents, first);
    forall y ensures y in good <==> Reaches(links, id, y) {
      if y in good {
        var l :| l in seen && Backward(first, l) && l.parent == y;
        assert l in links && l == Link(l.child, y);
        StepOn(links, id, l.child, y);
      }
      if Reaches(links, id, y) {
        var n: nat :| n >= 1 && Path(links, id, y, n);
        ClosedHoldsReach(links, id, good, y, n);
      }
    }
    forall y ensures y in bad <==> Unresolved(parents, first, id, y) {
      if y in bad {
        var l :| l in seen && !Backward(first, l) && l.parent == y;
        assert l == Link(l.child, y);
      }
      if Unresolved(parents, first, id, y) {
        var c :| Visits(links, id, c) && Link(c, y) in Links(parents) && !Backward(first, Link(c, y));
        var n: nat :| Path(links, id, c, n);
        assert n == 0 || Reaches(links, id, c);
        assert Link(c, y) in seen;
      }
    }
  }

  lemma StartFollowing(parents: Parents, first: map<string, int>, id: string, stack: seq<Link>)
    requires forall l :: l in stack <==> l in LinksFrom(parents, id)
    ensures Following(parents, first, id, {}, stack, {}, {})
  {
    LinksFromAre(parents, id);
    VisitsSelf(BackwardLinks(parents, first), id);
  }

  /** Only links are ever followed. */
  lemma FollowingInLinks(parents: Parents, first: map<string, int>, id: string, seen: set<Link>, stack: seq<Link>,
                         good: set<string>, bad: set<string>)
    requires Following(parents, first, id, seen, stack, good, bad)
    ensures seen <= Links(parents) && forall l | l in stack :: l in Links(parents)
  {
  }

  ghost predicate NoneIncomparable(present: set<string>, first: map<string, int>, links: set<Link>) {
    forall l | l in links :: !Incomparable(present, first, l)
  }

  lemma FailsAt(parents: Parents, present: set<string>, first: map<string, int>, id: string, seen: set<Link>,
                stack: seq<Link>, good: set<string>, bad: set<string>)
    requires Following(parents, first, id, seen, stack, good, bad) && stack != []
    requires Incomparable(present, first, stack[|stack| - 1])
    ensures Fails(parents, present, first, id)
  {
    var e := stack[|stack| - 1];
    assert e in stack && e == Link(e.child, e.parent);
  }

  /** Nothing failed among the links seen, and they are all the closure runs into. */
  lemma NothingFailed(parents: Parents, present: set<string>, first: map<string, int>, id: string, seen: set<Link>,
                      good: set<string>, bad: set<string>)
    requires Following(parents, first, id, seen, [], good, bad) && NoneIncomparable(present, first, seen)
    ensures !Fails(parents, present, first, id)
  {
    FollowedAll(parents, first, id, seen, good, bad);
    hide BackwardLinks, Links, Incomparable;
    forall c, y | Visits(BackwardLinks(parents, first), id, c) && Link(c, y) in Links(parents)
      ensures !Incomparable(present, first, Link(c, y))
    {
      VisitsOrSelf(BackwardLinks(parents, first), id, c);
      assert Link(c, y) in seen;
    }
  }

  lemma VisitsOrSelf(links: set<Link>, id: string, c: string)
    requires Visits(links, id, c)
    ensures c == id || Reaches(links, id, c)
  {
  }

  lemma NotBackward(present: set<string>, first: map<string, int>, l: Link)
    requires first.Keys <= present && !Incomparable(present, first, l)
    ensures l.parent in present ==> l.parent in first && l.child in first
    ensures Backward(first, l) <==> l.parent in present && first[l.parent] < first[l.child]
  {
  }

  /** One highlight's resolvable context, and the link targets it cannot resolve; not ok where the
      source raises for want of a part to compare. */
  method Dependencies(parents: Parents, present: set<string>, first: map<string, int>, id: string)
    returns (ok: bool, good: set<string>, bad: set<string>)
    requires id in present && first.Keys <= present
    ensures ok <==> !Fails(parents, present, first, id)
    ensures ok ==> forall y :: y in good <==> Reaches(BackwardLinks(parents, first), id, y)
    ensures ok ==> forall y :: y in bad <==> Unresolved(parents, first, id, y)
  {
    hide *;
    var seen: set<Link> := {};
    good, bad := {}, {};
    var stack := PushAll([], LinksFrom(parents, id));
    StartFollowing(parents, first, id, stack);
    NoneYet(present, first);
    ghost var all := Links(parents);
    while stack != []
      invariant Following(parents, first, id, seen, stack, good, bad) && NoneIncomparable(present, first, seen)
      decreases |all - seen|, |stack|
    {
      var edge := stack[|stack| - 1];
      var rest := stack[..|stack| - 1];
      FollowingInLinks(parents, first, id, seen, stack, good, bad);
      if edge in seen {
        FollowSeen(parents, first, id, seen, stack, good, bad);
        stack := rest;
        continue;
      }
      Shrinks(all, seen, {edge});
      if Incomparable(present, first, edge) {
        FailsAt(parents, present, first, id, seen, stack, good, bad);
        return false, good, bad;
      }
      NotBackward(present, first, edge);
      NoneMore(present, first, seen, edge);
      if edge.parent !in present || first[edge.parent] >= first[edge.child] {
        FollowBad(parents, first, id, seen, stack, good, bad);
        bad, stack := bad + {edge.parent}, rest;
      } else {
        var more := PushAll(rest, LinksFrom(parents, edge.parent));
        FollowGood(parents, first, id, seen, stack, good, bad, more);
        good, stack := good + {edge.parent}, more;
      }
      seen := seen + {edge};
    }
    FollowedAll(parents, first, id, seen, good, bad);
    NothingFailed(parents, present, first, id, seen, good, bad);
    ok := true;
  }

  lemma NoneYet(present: set<string>, first: map<string, int>)
    ensures NoneIncomparable(present, first, {})
  {
  }

  lemma NoneMore(present: set<string>, first: map<string, int>, seen: set<Link>, l: Link)
    requires NoneIncomparable(present, first, seen) && !Incomparable(present, first, l)
    ensures NoneIncomparable(present, first, seen + {l})
  {
  }

  /** The start of each highlight's first part, for those that have parts. */
  function FirstStarts(highlights: map<string, seq<int>>): map<string, int> {
    map id | id in highlights && highlights[id] != [] :: highlights[id][0]
  }

  /** y starts before x: both are present and have parts, and the first part of y comes first. */
  ghost predicate StartsBefore(highlights: map<string, seq<int>>, y: string, x: string) {
    && y in highlights && x in highlights && highlights[y] != [] && highlights[x] != []
    && highlights[y][0] < highlights[x][0]
  }

  /** n links of the chains lead from x back to y, each to a highlight that starts earlier. */
  ghost predicate LeadsBack(highlights: map<string, seq<int>>, chains: seq<seq<string>>, x: string, y: string, n: nat)
    decreases n
  {
    if n == 0 then x == y
    else exists z :: LeadsBack(highlights, chains, x, z, n - 1) && Linked(chains, z, y) && StartsBefore(highlights, y, z)
  }

  ghost predicate IsContext(highlights: map<string, seq<int>>, chains: seq<seq<string>>, x: string, y: string) {
    exists n: nat :: n >= 1 && LeadsBack(highlights, chains, x, y, n)
  }

  /** A link to y that does not go back, from x or something x leads back to. */
  ghost predicate IsUnresolved(highlights: map<string, seq<int>>, chains: seq<seq<string>>, x: string, y: string) {
    exists c, n: nat :: LeadsBack(highlights, chains, x, c, n) && Linked(chains, c, y) && !StartsBefore(highlights, y, c)
  }

  /** A link from x, or something x leads back to, between present highlights one of which has no part. */
  ghost predicate Raises(highlights: map<string, seq<int>>, chains: seq<seq<string>>, x: string) {
    exists c, y, n: nat ::
      && LeadsBack(highlights, chains, x, c, n) && Linked(chains, c, y)
      && y in highlights && (highlights[y] == [] || c !in highlights || highlights[c] == [])
  }

  lemma BackwardIsBefore(highlights: map<string, seq<int>>, l: Link)
    ensures Backward(FirstStarts(highlights), l) <==> StartsBefore(highlights, l.parent, l.child)
    ensures Incomparable(highlights.Keys, FirstStarts(highlights), l) <==>
            l.parent in highlights && (highlights[l.parent] == [] || l.child !in highlights || highlights[l.child] == [])
  {
  }

  lemma {:induction false} PathLeadsBack(parents: Parents, highlights: map<string, seq<int>>, chains: seq<seq<string>>,
                                         x: string, y: string, n: nat)
    requires Collected(parents, chains)
    ensures Path(BackwardLinks(parents, FirstStarts(highlights)), x, y, n) <==> LeadsBack(highlights, chains, x, y, n)
    decreases n
  {
    var first := FirstStarts(highlights);
    if n > 0 {
      hide Linked, FirstStarts, StartsBefore, Backward;
      forall z ensures Link(z, y) in BackwardLinks(parents, first) && Path(BackwardLinks(parents, first), x, z, n - 1) <==>
                       LeadsBack(highlights, chains, x, z, n - 1) && Linked(chains, z, y) && StartsBefore(highlights, y, z)
      {
        PathLeadsBack(parents, highlights, chains, x, z, n - 1);
        BackwardIsBefore(highlights, Link(z, y));
        assert Link(z, y) in Links(parents) <==> y in ParentsOf(parents, z);
      }
    }
  }

  /** The closure, what it leaves unresolved and where it fails, in terms of chains and starts. */
  lemma ClosureMeans(parents: Parents, highlights: map<string, seq<int>>, chains: seq<seq<string>>, x: string, y: string)
    requires Collected(parents, chains)
    ensures Reaches(BackwardLinks(parents, FirstStarts(highlights)), x, y) <==> IsContext(highlights, chains, x, y)
    ensures Unresolved(parents, FirstStarts(highlights), x, y) <==> IsUnresolved(highlights, chains, x, y)
    ensures Fails(parents, highlights.Keys, FirstStarts(highlights), x) <==> Raises(highlights, chains, x)
  {
    var first := FirstStarts(highlights);
    forall c, t: string ensures Link(c, t) in Links(parents) <==> Linked(chains, c, t) {
      assert Link(c, t) in Links(parents) <==> t in ParentsOf(parents, c);
    }
    forall c, t: string
      ensures Backward(first, Link(c, t)) <==> StartsBefore(highlights, t, c)
      ensures Incomparable(highlights.Keys, first, Link(c, t)) <==>
              t in highlights && (highlights[t] == [] || c !in highlights || highlights[c] == [])
    {
      BackwardIsBefore(highlights, Link(c, t));
    }
    hide Path, LeadsBack, Links, BackwardLinks, Collected, Linked, FirstStarts, StartsBefore, Backward, Incomparable;
    forall c, n: nat ensures Path(BackwardLinks(parents, first), x, c, n) <==> LeadsBack(highlights, chains, x, c, n) {
      PathLeadsBack(parents, highlights, chains, x, c, n);
    }
  }

  /** Resolvable closures and unresolved targets of every present highlight, given the starts of
      its parts; not ok where the source raises. */
  method ContextDependencies(highlights: map<string, seq<int>>, chains: seq<seq<string>>)
    returns (ok: bool, closures: map<string, set<string>>, unresolved: map<string, set<string>>, ghost parents: Parents)
    requires forall k | 0 <= k < |chains| :: |chains[k]| >= 2
    ensures Collected(parents, chains)
    ensures ok <==> forall id | id in highlights :: !Raises(highlights, chains, id)
    ensures ok ==> closures.Keys == unresolved.Keys == highlights.Keys
    ensures ok ==> forall id | id in highlights ::
              && (forall y :: y in closures[id] <==> IsContext(highlights, chains, id, y))
              && (forall y :: y in unresolved[id] <==> IsUnresolved(highlights, chains, id, y))
  {
    var first := FirstStarts(highlights);
    var collected := CollectParents(chains);
    parents := collected;
    closures, unresolved := map[], map[];
    var todo := highlights.Keys;
    assert Collected(parents, chains);
    hide Reaches, BackwardLinks, Unresolved, Linked, Fails, Collected, IsContext, IsUnresolved, Raises, FirstStarts;
    forall id, y
      ensures Reaches(BackwardLinks(parents, first), id, y) <==> IsContext(highlights, chains, id, y)
      ensures Unresolved(parents, first, id, y) <==> IsUnresolved(highlights, chains, id, y)
    {
      ClosureMeans(parents, highlights, chains, id, y);
    }
    forall id ensures Fails(parents, highlights.Keys, first, id) <==> Raises(highlights, chains, id) {
      ClosureMeans(parents, highlights, chains, id, id);
    }
    while todo != {}
      invariant todo <= highlights.Keys && closures.Keys == unresolved.Keys == highlights.Keys - todo
      invariant forall id | id in closures ::
                  && !Raises(highlights, chains, id)
                  && (forall y :: y in closures[id] <==> IsContext(highlights, chains, id, y))
                  && (forall y :: y in unresolved[id] <==> IsUnresolved(highlights, chains, id, y))
    {
      var id :| id in todo;
      var fine, good, bad := Dependencies(collected, highlights.Keys, first, id);
      if !fine {
        return false, closures, unresolved, parents;
      }
      closures, unresolved := closures[id := good], unresolved[id := bad];
      todo := todo - {id};
    }
    ok := true;
  }

  // ----- What the closures are like

  lemma {:induction false} PathDescends(parents: Parents, first: map<string, int>, x: string, y: string, n: nat)
    requires n >= 1 && Path(BackwardLinks(parents, first), x, y, n)
    ensures x in first && y in first && first[y] < first[x]
    decreases n
  {
    var z :| Link(z, y) in BackwardLinks(parents, first) && Path(BackwardLinks(parents, first), x, z, n - 1);
    assert Backward(first, Link(z, y));
    if n > 1 {
      PathDescends(parents, first, x, z, n - 1);
    }
  }

  /** Context always starts earlier in the body: no highlight is its own context, whatever
      cycles the chains contain. */
  lemma ContextIsEarlier(parents: Parents, first: map<string, int>, x: string, y: string)
    requires Reaches(BackwardLinks(parents, first), x, y)
    ensures x in first && y in first && first[y] < first[x] && x != y
  {
    var n: nat :| n >= 1 && Path(BackwardLinks(parents, first), x, y, n);
    PathDescends(parents, first, x, y, n);
  }

  /** The context of a context is context: closures are transitively closed. */
  lemma ClosureContainsClosures(parents: Parents, first: map<string, int>, closures: map<string, set<string>>,
                                x: string, y: string)
    requires first.Keys <= closures.Keys
    requires forall id | id in closures :: forall z :: z in closures[id] <==> Reaches(BackwardLinks(parents, first), id, z)
    requires x in closures && y in closures[x]
    ensures y in closures && closures[y] <= closures[x]
  {
    ContextIsEarlier(parents, first, x, y);
    forall z | z in closures[y] ensures z in closures[x] {
      ReachesTransitive(BackwardLinks(parents, first), x, y, z);
    }
  }

  /** The two closures agree on all highlights when every link goes back to a present one; and
      then nothing is unresolved. */
  lemma ClosuresAgree(parents: Parents, first: map<string, int>, id: string, y: string)
    requires forall l | l in Links(parents) :: Backward(first, l)
    ensures Reaches(BackwardLinks(parents, first), id, y) <==> y in first && Reaches(Links(parents), id, y)
    ensures !Unresolved(parents, first, id, y)
  {
    assert BackwardLinks(parents, first) == Links(parents);
    if Reaches(Links(parents), id, y) {
      ContextIsEarlier(parents, first, id, y);
    }
  }
}
