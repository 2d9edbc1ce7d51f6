/** Scoring a predicted chronology against gold: matched accounts, bindings, temporal order. */
module ChronologyScore {
  import opened Options
  import opened Spans
  import opened SpanIou
  import opened Closure
  import opened ChronologyDocument
  import opened ChronologyValidation
  import Matching = AccountMatching

  function Reverse(e: Edge): Edge {
    Edge(e.account, e.after, e.before)
  }

  // ----- Edges carried over to the gold accounts

  ghost predicate OneToOne(to: map<string, string>) {
    forall a, b | a in to && b in to && a != b :: to[a] != to[b]
  }

  function Carried(e: Edge, to: map<string, string>): Edge
    requires e.account in to
  {
    Edge(to[e.account], e.before, e.after)
  }

  /** The predicted edges of matched accounts, renamed to their gold accounts. */
  function Mapped(before: set<Edge>, to: map<string, string>): set<Edge> {
    set e | e in before && e.account in to :: Carried(e, to)
  }

  function Kept(before: set<Edge>, to: map<string, string>): set<Edge> {
    set e | e in before && e.account in to
  }

  lemma {:induction false} MappedSize(before: set<Edge>, to: map<string, string>)
    requires OneToOne(to)
    ensures |Mapped(before, to)| == |Kept(before, to)|
    decreases |before|
  {
    hide Mapped, Kept, OneToOne, Carried;
    if before == {} {
      NothingMapped(to);
    } else {
      var e :| e in before;
      MappedStep(before, to, e);
      MappedSize(before - {e}, to);
    }
  }

  lemma NothingMapped(to: map<string, string>)
    ensures Mapped({}, to) == {} && Kept({}, to) == {}
  {
  }

  /** Taking one edge away takes one mapped edge away, if its account is matched. */
  lemma MappedStep(before: set<Edge>, to: map<string, string>, e: Edge)
    requires OneToOne(to) && e in before
    ensures var rest := before - {e};
            |Mapped(before, to)| - |Mapped(rest, to)| == |Kept(before, to)| - |Kept(rest, to)|
  {
    var rest := before - {e};
    if e.account in to {
      assert Kept(before, to) == Kept(rest, to) + {e};
      assert Mapped(before, to) == Mapped(rest, to) + {Carried(e, to)};
      assert Carried(e, to) !in Mapped(rest, to);
    } else {
      assert Kept(before, to) == Kept(rest, to);
      assert Mapped(before, to) == Mapped(rest, to);
    }
  }

  /** No two edges are each other's reverse. */
  ghost predicate OneWay(edges: set<Edge>) {
    forall e | e in edges :: Reverse(e) !in edges
  }

  lemma MappedOneWay(before: set<Edge>, to: map<string, string>)
    requires OneToOne(to) && OneWay(before)
    ensures OneWay(Mapped(before, to))
  {
    forall d, r | d in before && d.account in to && r in before && r.account in to
      ensures Carried(r, to) != Reverse(Carried(d, to))
    {
      assert Reverse(d) !in before;
      assert r.account == d.account || to[r.account] != to[d.account];
    }
  }

  // ----- The counted sets

  ghost function Agreed(gold: set<Edge>, mapped: set<Edge>): set<Edge> {
    set e | e in gold && e in mapped
  }

  ghost function Opposed(gold: set<Edge>, mapped: set<Edge>): set<Edge> {
    set e | e in gold && e !in mapped && Reverse(e) in mapped
  }

  ghost function Silent(gold: set<Edge>, mapped: set<Edge>): set<Edge> {
    set e | e in gold && e !in mapped && Reverse(e) !in mapped
  }

  ghost function OnUnknown(mapped: set<Edge>, unknown: set<Pair>): set<Edge> {
    set e | e in mapped && EndsOf(e) in unknown
  }

  ghost function OnSimultaneous(mapped: set<Edge>, unknown: set<Pair>, simultaneous: set<Pair>): set<Edge> {
    set e | e in mapped && EndsOf(e) !in unknown && EndsOf(e) in simultaneous
  }

  ghost function Unsupported(mapped: set<Edge>, gold: set<Edge>, unknown: set<Pair>, simultaneous: set<Pair>): set<Edge> {
    set e | e in mapped && EndsOf(e) !in unknown && EndsOf(e) !in simultaneous && e !in gold && Reverse(e) !in gold
  }

  /** Gold edges fall into exactly one of the three outcomes. */
  lemma GoldConserved(gold: set<Edge>, mapped: set<Edge>)
    ensures |Agreed(gold, mapped)| + |Opposed(gold, mapped)| + |Silent(gold, mapped)| == |gold|
  {
    assert gold == Agreed(gold, mapped) + Opposed(gold, mapped) + Silent(gold, mapped);
  }

  lemma {:induction false} ReversedSize(s: set<Edge>)
    ensures |set e | e in s :: Reverse(e)| == |s|
  {
    if s != {} {
      var x :| x in s;
      ReversedSize(s - {x});
      assert (set e | e in s :: Reverse(e)) == (set e | e in s - {x} :: Reverse(e)) + {Reverse(x)};
      assert Reverse(x) !in (set e | e in s - {x} :: Reverse(e));
    }
  }

  lemma SameEnds(e: Edge)
    ensures EndsOf(Reverse(e)) == EndsOf(e) && Reverse(Reverse(e)) == e
  {
    assert {e.before, e.after} == {e.after, e.before};
  }

  /** Every mapped prediction is counted once: right, backwards, on a pair the gold calls
      unknown or simultaneous, or unsupported. */
  lemma MappedConserved(gold: set<Edge>, mapped: set<Edge>, unknown: set<Pair>, simultaneous: set<Pair>)
    requires OneWay(gold) && OneWay(mapped)
    requires forall e | e in gold :: EndsOf(e) !in unknown && EndsOf(e) !in simultaneous
    ensures |mapped| == |Agreed(gold, mapped)| + |Opposed(gold, mapped)| + |OnUnknown(mapped, unknown)|
                        + |OnSimultaneous(mapped, unknown, simultaneous)|
                        + |Unsupported(mapped, gold, unknown, simultaneous)|
  {
    var backwards := set e | e in Opposed(gold, mapped) :: Reverse(e);
    ReversedSize(Opposed(gold, mapped));
    var a, b, c, d := Agreed(gold, mapped), OnUnknown(mapped, unknown),
                      OnSimultaneous(mapped, unknown, simultaneous), Unsupported(mapped, gold, unknown, simultaneous);
    forall e ensures SameEndsOf(e) {
      SameEnds(e);
    }
    forall e | e in mapped && Reverse(e) in gold ensures e in backwards && e !in gold {
      assert SameEndsOf(e);
      assert Reverse(e) in Opposed(gold, mapped);
    }
    forall e | e in backwards ensures e in mapped && Reverse(e) in gold {
      var g :| g in Opposed(gold, mapped) && e == Reverse(g);
      assert SameEndsOf(g);
    }
    Partition(mapped, a, backwards, b, c, d, gold, unknown, simultaneous);
  }

  ghost predicate SameEndsOf(e: Edge) {
    EndsOf(Reverse(e)) == EndsOf(e) && Reverse(Reverse(e)) == e
  }

  lemma Partition(mapped: set<Edge>, a: set<Edge>, r: set<Edge>, b: set<Edge>, c: set<Edge>, d: set<Edge>,
                  gold: set<Edge>, unknown: set<Pair>, simultaneous: set<Pair>)
    requires a == Agreed(gold, mapped) && b == OnUnknown(mapped, unknown)
    requires c == OnSimultaneous(mapped, unknown, simultaneous) && d == Unsupported(mapped, gold, unknown, simultaneous)
    requires forall e :: e in r <==> e in mapped && Reverse(e) in gold
    requires forall e | e in r :: e !in gold
    requires forall e | e in gold :: EndsOf(e) !in unknown && EndsOf(e) !in simultaneous
    requires forall e :: SameEndsOf(e)
    ensures |mapped| == |a| + |r| + |b| + |c| + |d|
  {
    forall e | e in r ensures EndsOf(e) !in unknown && EndsOf(e) !in simultaneous {
      assert SameEndsOf(e);
    }
    assert mapped == a + r + b + c + d;
    assert a !! r && (a + r) !! b && (a + r + b) !! c && (a + r + b + c) !! d;
  }

  // ----- The counting loops

  method TallyGold(gold: set<Edge>, mapped: set<Edge>) returns (correct: nat, wrong: nat, abstained: nat)
    ensures correct == |Agreed(gold, mapped)| && wrong == |Opposed(gold, mapped)|
    ensures abstained == |Silent(gold, mapped)|
  {
    correct, wrong, abstained := 0, 0, 0;
    var todo := gold;
    ghost var done: set<Edge> := {};
    while todo != {}
      invariant done !! todo && done + todo == gold
      invariant correct == |Agreed(done, mapped)| && wrong == |Opposed(done, mapped)|
      invariant abstained == |Silent(done, mapped)|
    {
      var e :| e in todo;
      TallyGoldStep(done, e, mapped);
      if e in mapped {
        correct := correct + 1;
      } else if Reverse(e) in mapped {
        wrong := wrong + 1;
      } else {
        abstained := abstained + 1;
      }
      todo, done := todo - {e}, done + {e};
    }
    assert done == gold;
  }

  lemma TallyGoldStep(done: set<Edge>, e: Edge, mapped: set<Edge>)
    requires e !in done
    ensures |Agreed(done + {e}, mapped)| == |Agreed(done, mapped)| + if e in mapped then 1 else 0
    ensures |Opposed(done + {e}, mapped)|
         == |Opposed(done, mapped)| + if e !in mapped && Reverse(e) in mapped then 1 else 0
    ensures |Silent(done + {e}, mapped)|
         == |Silent(done, mapped)| + if e !in mapped && Reverse(e) !in mapped then 1 else 0
  {
    if e in mapped {
      assert Agreed(done + {e}, mapped) == Agreed(done, mapped) + {e};
      assert Opposed(done + {e}, mapped) == Opposed(done, mapped) && Silent(done + {e}, mapped) == Silent(done, mapped);
    } else if Reverse(e) in mapped {
      assert Opposed(done + {e}, mapped) == Opposed(done, mapped) + {e};
      assert Agreed(done + {e}, mapped) == Agreed(done, mapped) && Silent(done + {e}, mapped) == Silent(done, mapped);
    } else {
      assert Silent(done + {e}, mapped) == Silent(done, mapped) + {e};
      assert Agreed(done + {e}, mapped) == Agreed(done, mapped) && Opposed(done + {e}, mapped) == Opposed(done, mapped);
    }
  }

  method TallyMapped(mapped: set<Edge>, gold: set<Edge>, unknown: set<Pair>, simultaneous: set<Pair>)
    returns (onUnknown: nat, onSimultaneous: nat, unsupported: nat)
    ensures onUnknown == |OnUnknown(mapped, unknown)|
    ensures onSimultaneous == |OnSimultaneous(mapped, unknown, simultaneous)|
    ensures unsupported == |Unsupported(mapped, gold, unknown, simultaneous)|
  {
    onUnknown, onSimultaneous, unsupported := 0, 0, 0;
    var todo := mapped;
    ghost var done: set<Edge> := {};
    while todo != {}
      invariant done !! todo && done + todo == mapped
      invariant onUnknown == |OnUnknown(done, unknown)|
      invariant onSimultaneous == |OnSimultaneous(done, unknown, simultaneous)|
      invariant unsupported == |Unsupported(done, gold, unknown, simultaneous)|
    {
      var e :| e in todo;
      TallyMappedStep(done, e, gold, unknown, simultaneous);
      if EndsOf(e) in unknown {
        onUnknown := onUnknown + 1;
      } else if EndsOf(e) in simultaneous {
        onSimultaneous := onSimultaneous + 1;
      } else if e !in gold && Reverse(e) !in gold {
        unsupported := unsupported + 1;
      }
      todo, done := todo - {e}, done + {e};
    }
    assert done == mapped;
  }

  lemma TallyMappedStep(done: set<Edge>, e: Edge, gold: set<Edge>, unknown: set<Pair>, simultaneous: set<Pair>)
    requires e !in done
    ensures |OnUnknown(done + {e}, unknown)| == |OnUnknown(done, unknown)| + if EndsOf(e) in unknown then 1 else 0
    ensures |OnSimultaneous(done + {e}, unknown, simultaneous)| == |OnSimultaneous(done, unknown, simultaneous)|
              + if EndsOf(e) !in unknown && EndsOf(e) in simultaneous then 1 else 0
    ensures |Unsupported(done + {e}, gold, unknown, simultaneous)| == |Unsupported(done, gold, unknown, simultaneous)|
              + if EndsOf(e) !in unknown && EndsOf(e) !in simultaneous && e !in gold && Reverse(e) !in gold then 1 else 0
  {
    hide EndsOf;
    var more := done + {e};
    if EndsOf(e) in unknown {
      assert OnUnknown(more, unknown) == OnUnknown(done, unknown) + {e};
    } else {
      assert OnUnknown(more, unknown) == OnUnknown(done, unknown);
    }
    if EndsOf(e) !in unknown && EndsOf(e) in simultaneous {
      assert OnSimultaneous(more, unknown, simultaneous) == OnSimultaneous(done, unknown, simultaneous) + {e};
    } else {
      assert OnSimultaneous(more, unknown, simultaneous) == OnSimultaneous(done, unknown, simultaneous);
    }
    if EndsOf(e) !in unknown && EndsOf(e) !in simultaneous && e !in gold && Reverse(e) !in gold {
      assert Unsupported(more, gold, unknown, simultaneous) == Unsupported(done, gold, unknown, simultaneous) + {e};
    } else {
      assert Unsupported(more, gold, unknown, simultaneous) == Unsupported(done, gold, unknown, simultaneous);
    }
  }

  // ----- Bindings

  datatype Verdict = Correct | Abstained | WrongAccount

  /** What the scorer says about one claim. */
  function Judge(expected: Option<string>, expectedStatus: Status, actual: Option<string>, actualStatus: Status,
                 to: map<string, string>): Verdict
  {
    var mapped := if actual.Some? && actual.value in to then Some(to[actual.value]) else None;
    if expected.None? && actual.None? && expectedStatus == actualStatus then Correct
    else if expected.Some? && mapped == expected then Correct
    else if actual.None? && expected.Some? then Abstained
    else WrongAccount
  }

  ghost predicate SameClaims(gold: Validated, predicted: Validated) {
    && gold.assignments.Keys == gold.statuses.Keys == predicted.assignments.Keys == predicted.statuses.Keys
  }

  ghost function Judged(gold: Validated, predicted: Validated, to: map<string, string>, v: Verdict,
                        claims: set<string>): set<string>
    requires SameClaims(gold, predicted) && claims <= gold.assignments.Keys
  {
    set c | c in claims &&
      Judge(gold.assignments[c], gold.statuses[c], predicted.assignments[c], predicted.statuses[c], to) == v
  }

  /** Claims that belong to no account in either document, for the same reason. */
  ghost function LeftOutAlike(gold: Validated, predicted: Validated): set<string>
    requires SameClaims(gold, predicted)
  {
    set c | c in gold.assignments && gold.assignments[c].None? && predicted.assignments[c].None?
            && gold.statuses[c] == predicted.statuses[c]
  }

  /** Claims whose predicted account is matched to their gold account. */
  ghost function BoundRight(gold: Validated, predicted: Validated, to: map<string, string>): set<string>
    requires SameClaims(gold, predicted)
  {
    set c | c in gold.assignments && gold.assignments[c].Some? && predicted.assignments[c].Some?
            && predicted.assignments[c].value in to && to[predicted.assignments[c].value] == gold.assignments[c].value
  }

  /** Claims with a gold account that the prediction gives none. */
  ghost function NotBound(gold: Validated, predicted: Validated): set<string>
    requires SameClaims(gold, predicted)
  {
    set c | c in gold.assignments && gold.assignments[c].Some? && predicted.assignments[c].None?
  }

  /** The three counters: right, silent, and everything else. */
  ghost predicate BindingsCounted(gold: Validated, predicted: Validated, to: map<string, string>,
                                  correct: int, wrong: int, abstained: int)
    requires SameClaims(gold, predicted)
  {
    && correct == |LeftOutAlike(gold, predicted)| + |BoundRight(gold, predicted, to)|
    && abstained == |NotBound(gold, predicted)|
    && wrong == |gold.assignments| - correct - abstained
  }

  /** What each judgement means. */
  lemma JudgedMeans(gold: Validated, predicted: Validated, to: map<string, string>)
    requires SameClaims(gold, predicted)
    ensures var all := gold.assignments.Keys;
            && |Judged(gold, predicted, to, Correct, all)| == |LeftOutAlike(gold, predicted)| + |BoundRight(gold, predicted, to)|
            && Judged(gold, predicted, to, Abstained, all) == NotBound(gold, predicted)
  {
    hide *;
    CorrectIs(gold, predicted, to);
    AbstainedIs(gold, predicted, to);
  }

  lemma CorrectIs(gold: Validated, predicted: Validated, to: map<string, string>)
    requires SameClaims(gold, predicted)
    ensures Judged(gold, predicted, to, Correct, gold.assignments.Keys)
         == LeftOutAlike(gold, predicted) + BoundRight(gold, predicted, to)
    ensures LeftOutAlike(gold, predicted) !! BoundRight(gold, predicted, to)
  {
    forall c | c in gold.assignments
      ensures c in Judged(gold, predicted, to, Correct, gold.assignments.Keys) <==>
              c in LeftOutAlike(gold, predicted) || c in BoundRight(gold, predicted, to)
    {
      JudgeMeans(gold.assignments[c], gold.statuses[c], predicted.assignments[c], predicted.statuses[c], to);
    }
  }

  lemma AbstainedIs(gold: Validated, predicted: Validated, to: map<string, string>)
    requires SameClaims(gold, predicted)
    ensures Judged(gold, predicted, to, Abstained, gold.assignments.Keys) == NotBound(gold, predicted)
  {
    forall c | c in gold.assignments
      ensures c in Judged(gold, predicted, to, Abstained, gold.assignments.Keys) <==> c in NotBound(gold, predicted)
    {
      JudgeMeans(gold.assignments[c], gold.statuses[c], predicted.assignments[c], predicted.statuses[c], to);
    }
  }

  lemma JudgeMeans(expected: Option<string>, expectedStatus: Status, actual: Option<string>, actualStatus: Status,
                   to: map<string, string>)
    ensures var v := Judge(expected, expectedStatus, actual, actualStatus, to);
            && (v.Correct? <==>
                  || (expected.None? && actual.None? && expectedStatus == actualStatus)
                  || (expected.Some? && actual.Some? && actual.value in to && to[actual.value] == expected.value))
            && (v.Abstained? <==> expected.Some? && actual.None?)
  {
  }

  method TallyBindings(gold: Validated, predicted: Validated, to: map<string, string>)
    returns (correct: nat, wrong: nat, abstained: nat)
    requires SameClaims(gold, predicted)
    ensures BindingsCounted(gold, predicted, to, correct, wrong, abstained)
    ensures correct + wrong + abstained == |gold.assignments|
  {
    JudgedMeans(gold, predicted, to);
    hide *;
    correct, wrong, abstained := 0, 0, 0;
    var todo := gold.assignments.Keys;
    ghost var done: set<string> := {};
    NoneJudged(gold, predicted, to);
    while todo != {}
      invariant todo <= gold.assignments.Keys && done == gold.assignments.Keys - todo
      invariant BindingsTallied(gold, predicted, to, done, correct, wrong, abstained)
    {
      var c :| c in todo;
      AllKnown(gold, predicted, c);
      OneFewer(gold.assignments.Keys, todo, c);
      var judgement := Judge(gold.assignments[c], gold.statuses[c], predicted.assignments[c], predicted.statuses[c], to);
      TalliedStep(gold, predicted, to, done, c, judgement, correct, wrong, abstained);
      match judgement {
        case Correct => correct := correct + 1;
        case Abstained => abstained := abstained + 1;
        case WrongAccount => wrong := wrong + 1;
      }
      todo, done := todo - {c}, done + {c};
    }
    TalliedIs(gold, predicted, to, done, correct, wrong, abstained);
    assert |gold.assignments.Keys| == |gold.assignments|;
    CountedIs(gold, predicted, to, correct, wrong, abstained);
  }

  lemma CountedIs(gold: Validated, predicted: Validated, to: map<string, string>,
                  correct: int, wrong: int, abstained: int)
    requires SameClaims(gold, predicted)
    requires correct == |LeftOutAlike(gold, predicted)| + |BoundRight(gold, predicted, to)|
    requires abstained == |NotBound(gold, predicted)| && correct + wrong + abstained == |gold.assignments|
    ensures BindingsCounted(gold, predicted, to, correct, wrong, abstained)
  {
  }

  lemma OneFewer(all: set<string>, todo: set<string>, c: string)
    requires todo <= all && c in todo
    ensures all - (todo - {c}) == all - todo + {c} && c !in all - todo && all - todo + {c} <= all
  {
  }

  ghost predicate BindingsTallied(gold: Validated, predicted: Validated, to: map<string, string>, done: set<string>,
                                  correct: int, wrong: int, abstained: int)
    requires SameClaims(gold, predicted) && done <= gold.assignments.Keys
  {
    && correct == |Judged(gold, predicted, to, Correct, done)|
    && wrong == |Judged(gold, predicted, to, WrongAccount, done)|
    && abstained == |Judged(gold, predicted, to, Abstained, done)|
    && correct + wrong + abstained == |done|
  }

  lemma TalliedIs(gold: Validated, predicted: Validated, to: map<string, string>, done: set<string>,
                  correct: int, wrong: int, abstained: int)
    requires SameClaims(gold, predicted) && done <= gold.assignments.Keys
    requires BindingsTallied(gold, predicted, to, done, correct, wrong, abstained)
    ensures correct == |Judged(gold, predicted, to, Correct, done)|
    ensures wrong == |Judged(gold, predicted, to, WrongAccount, done)|
    ensures abstained == |Judged(gold, predicted, to, Abstained, done)|
    ensures correct + wrong + abstained == |done|
  {
  }

  /** One more claim adds one to its own count and nothing to the others. */
  lemma TalliedStep(gold: Validated, predicted: Validated, to: map<string, string>, done: set<string>, c: string,
                    judgement: Verdict, correct: int, wrong: int, abstained: int)
    requires SameClaims(gold, predicted) && done + {c} <= gold.assignments.Keys && c !in done
    requires BindingsTallied(gold, predicted, to, done, correct, wrong, abstained)
    requires judgement ==
             Judge(gold.assignments[c], gold.statuses[c], predicted.assignments[c], predicted.statuses[c], to)
    ensures BindingsTallied(gold, predicted, to, done + {c}, correct + if judgement.Correct? then 1 else 0,
              wrong + if judgement.WrongAccount? then 1 else 0, abstained + if judgement.Abstained? then 1 else 0)
  {
    hide Judged, Judge, SameClaims;
    JudgedStep(gold, predicted, to, done, c);
  }

  lemma AllKnown(gold: Validated, predicted: Validated, c: string)
    requires SameClaims(gold, predicted) && c in gold.assignments
    ensures c in gold.statuses && c in predicted.assignments && c in predicted.statuses
  {
  }

  lemma NoneJudged(gold: Validated, predicted: Validated, to: map<string, string>)
    requires SameClaims(gold, predicted)
    ensures BindingsTallied(gold, predicted, to, {}, 0, 0, 0)
  {
  }

  lemma JudgedStep(gold: Validated, predicted: Validated, to: map<string, string>, done: set<string>, c: string)
    requires SameClaims(gold, predicted) && done + {c} <= gold.assignments.Keys && c !in done
    ensures var j := Judge(gold.assignments[c], gold.statuses[c], predicted.assignments[c], predicted.statuses[c], to);
            forall v :: |Judged(gold, predicted, to, v, done + {c})|
                     == |Judged(gold, predicted, to, v, done)| + if v == j then 1 else 0
  {
    hide Judge;
    var j := Judge(gold.assignments[c], gold.statuses[c], predicted.assignments[c], predicted.statuses[c], to);
    forall v ensures |Judged(gold, predicted, to, v, done + {c})|
                  == |Judged(gold, predicted, to, v, done)| + if v == j then 1 else 0
    {
      if v == j {
        assert Judged(gold, predicted, to, v, done + {c}) == Judged(gold, predicted, to, v, done) + {c};
      } else {
        assert Judged(gold, predicted, to, v, done + {c}) == Judged(gold, predicted, to, v, done);
      }
    }
  }

  // ----- Matching accounts by span overlap

  /** Distinct ids of known, normalised accounts. */
  ghost predicate Listing(ids: seq<string>, accounts: Accounts) {
    && (forall i | 0 <= i < |ids| :: ids[i] in accounts)
    && (forall i, j | 0 <= i < j < |ids| :: ids[i] != ids[j])
    && Normalised(accounts)
  }

  function IouCandidate(gold: Validated, predicted: Validated, threshold: real, g: nat, p: nat): Matching.Candidate
    requires Listing(gold.accountIds, gold.accounts) && Listing(predicted.accountIds, predicted.accounts)
    requires g < |gold.accountIds| && p < |predicted.accountIds|
  {
    var iou := Iou(gold.accounts[gold.accountIds[g]], predicted.accounts[predicted.accountIds[p]]);
    Matching.Candidate(g, p, iou, iou >= threshold)
  }

  /** The grid holds exactly the span-overlap candidate of every pair, keyed (predicted, gold). */
  ghost predicate IsIouGrid(grid: Matching.Grid, gold: Validated, predicted: Validated, threshold: real)
    requires Listing(gold.accountIds, gold.accounts) && Listing(predicted.accountIds, predicted.accounts)
  {
    && (forall key :: key in grid <==> key.0 < |predicted.accountIds| && key.1 < |gold.accountIds|)
    && forall key | key in grid ::
         var iou := Iou(gold.accounts[gold.accountIds[key.1]], predicted.accounts[predicted.accountIds[key.0]]);
         grid[key] == Matching.Candidate(key.1, key.0, iou, iou >= threshold)
  }

  ghost function GridOf(gold: Validated, predicted: Validated, threshold: real): (grid: Matching.Grid)
    requires Listing(gold.accountIds, gold.accounts) && Listing(predicted.accountIds, predicted.accounts)
    ensures IsIouGrid(grid, gold, predicted, threshold)
  {
    map p: nat, g: nat | p < |predicted.accountIds| && g < |gold.accountIds| ::
      (p, g) := IouCandidate(gold, predicted, threshold, g, p)
  }

  /** Every pair's candidate, gold account by gold account. */
  method BuildCandidates(gold: Validated, predicted: Validated, threshold: real)
    returns (candidates: seq<Matching.Candidate>)
    requires Listing(gold.accountIds, gold.accounts) && Listing(predicted.accountIds, predicted.accounts)
    ensures IsIouGrid(Matching.ByPair(candidates), gold, predicted, threshold)
  {
    hide *;
    candidates := [];
    ghost var grid, n, m := GridOf(gold, predicted, threshold), |gold.accountIds|, |predicted.accountIds|;
    GridFacts(grid, gold, predicted, threshold);
    Matching.NothingListed(grid, n, m);
    for gi := 0 to |gold.accountIds|
      invariant Matching.CellsListed(candidates, grid, n, m, gi, 0)
    {
      for pi := 0 to |predicted.accountIds|
        invariant Matching.CellsListed(candidates, grid, n, m, gi, pi)
      {
        var c := IouCandidate(gold, predicted, threshold, gi, pi);
        CandidateOnCell(grid, gold, predicted, threshold, gi, pi);
        Matching.ListingNext(candidates, grid, n, m, gi, pi, c);
        candidates := candidates + [c];
      }
      Matching.ListingRow(candidates, grid, n, m, gi);
    }
    Matching.ListingAll(candidates, grid, n, m);
  }

  lemma CandidateOnCell(grid: Matching.Grid, gold: Validated, predicted: Validated, threshold: real, g: nat, p: nat)
    requires Listing(gold.accountIds, gold.accounts) && Listing(predicted.accountIds, predicted.accounts)
    requires g < |gold.accountIds| && p < |predicted.accountIds| && IsIouGrid(grid, gold, predicted, threshold)
    ensures var c := IouCandidate(gold, predicted, threshold, g, p);
            Matching.OnCell(grid, c) && c.goldIndex == g && c.predictedIndex == p
  {
    assert (p, g) in grid;
  }

  lemma GridFacts(grid: Matching.Grid, gold: Validated, predicted: Validated, threshold: real)
    requires Listing(gold.accountIds, gold.accounts) && Listing(predicted.accountIds, predicted.accounts)
    requires IsIouGrid(grid, gold, predicted, threshold)
    ensures Matching.Keyed(grid) && Matching.Full(grid, |gold.accountIds|, |predicted.accountIds|)
    ensures Matching.InRange(grid, |gold.accountIds|, |predicted.accountIds|)
    ensures Matching.Bounded(grid, 1.0)
  {
    forall key | key in grid ensures 0.0 <= grid[key].score <= 1.0 {
      IouRange(gold.accounts[gold.accountIds[key.1]], predicted.accounts[predicted.accountIds[key.0]]);
    }
  }

  /** Predicted account id to gold account id, for the matched pairs. */
  ghost predicate Names(to: map<string, string>, pairs: map<nat, nat>, goldIds: seq<string>, predictedIds: seq<string>) {
    && (forall p | p in pairs :: p < |predictedIds| && pairs[p] < |goldIds|)
    && (forall a :: a in to <==> exists p: nat :: p in pairs && p < |predictedIds| && predictedIds[p] == a)
    && forall p | p in pairs :: predictedIds[p] in to && to[predictedIds[p]] == goldIds[pairs[p]]
  }

  method NameMatches(selected: seq<Matching.Candidate>, goldIds: seq<string>, predictedIds: seq<string>)
    returns (to: map<string, string>)
    requires forall k | 0 <= k < |selected| ::
               selected[k].goldIndex < |goldIds| && selected[k].predictedIndex < |predictedIds|
    requires forall i, j | 0 <= i < j < |predictedIds| :: predictedIds[i] != predictedIds[j]
    ensures Names(to, Matching.Pairs(selected), goldIds, predictedIds)
  {
    to := map[];
    for k := 0 to |selected|
      invariant Names(to, Matching.Pairs(selected[..k]), goldIds, predictedIds)
    {
      assert selected[..k + 1][..k] == selected[..k];
      var c := selected[k];
      ghost var before, pairs := to, Matching.Pairs(selected[..k]);
      assert Matching.Pairs(selected[..k + 1]) == pairs[c.predictedIndex := c.goldIndex];
      to := to[predictedIds[c.predictedIndex] := goldIds[c.goldIndex]];
      NamesStep(before, pairs, goldIds, predictedIds, c.predictedIndex, c.goldIndex);
    }
    assert selected[..|selected|] == selected;
  }

  lemma NamesStep(to: map<string, string>, pairs: map<nat, nat>, goldIds: seq<string>, predictedIds: seq<string>,
                  p: nat, g: nat)
    requires Names(to, pairs, goldIds, predictedIds) && p < |predictedIds| && g < |goldIds|
    requires forall i, j | 0 <= i < j < |predictedIds| :: predictedIds[i] != predictedIds[j]
    ensures Names(to[predictedIds[p] := goldIds[g]], pairs[p := g], goldIds, predictedIds)
  {
    var to', pairs' := to[predictedIds[p] := goldIds[g]], pairs[p := g];
    forall a ensures a in to' <==> exists q: nat :: q in pairs' && q < |predictedIds| && predictedIds[q] == a {
      if a == predictedIds[p] {
        assert p in pairs';
      } else if a in to {
        var q: nat :| q in pairs && q < |predictedIds| && predictedIds[q] == a;
        assert q in pairs';
      }
    }
  }

  lemma NamesOneToOne(to: map<string, string>, grid: Matching.Grid, pairs: map<nat, nat>,
                      goldIds: seq<string>, predictedIds: seq<string>)
    requires Names(to, pairs, goldIds, predictedIds)
    requires Matching.IsMatching(grid, pairs, |goldIds|, |predictedIds|)
    requires forall i, j | 0 <= i < j < |goldIds| :: goldIds[i] != goldIds[j]
    ensures OneToOne(to)
  {
    forall a, b | a in to && b in to && a != b ensures to[a] != to[b] {
      var p: nat :| p in pairs && p < |predictedIds| && predictedIds[p] == a;
      var q: nat :| q in pairs && q < |predictedIds| && predictedIds[q] == b;
      assert pairs[p] != pairs[q];
    }
  }

  // ----- The scorer

  datatype Report = Report(
    matched: nat,
    bindingCorrect: nat, bindingWrong: nat, bindingAbstained: nat,
    correct: nat, wrongDirection: nat, abstained: nat,
    onUnknown: nat, onSimultaneous: nat, unsupported: nat, unmatchedAccount: nat)

  predicate SameTarget(gold: Document, predicted: Document) {
    && gold.recordHash == predicted.recordHash && gold.preDigest == predicted.preDigest
    && gold.digest == predicted.digest && gold.claims == predicted.claims
  }

  /** Each counter is the size of the set it names. */
  ghost predicate Counts(r: Report, gold: Validated, predicted: Validated, to: map<string, string>)
    requires SameClaims(gold, predicted)
  {
    var mapped := Mapped(predicted.before, to);
    && r.correct == |Agreed(gold.before, mapped)|
    && r.wrongDirection == |Opposed(gold.before, mapped)|
    && r.abstained == |Silent(gold.before, mapped)|
    && r.onUnknown == |OnUnknown(mapped, gold.unknown)|
    && r.onSimultaneous == |OnSimultaneous(mapped, gold.unknown, gold.simultaneous)|
    && r.unsupported == |Unsupported(mapped, gold.before, gold.unknown, gold.simultaneous)|
    && r.unmatchedAccount == |predicted.before - Kept(predicted.before, to)|
    && BindingsCounted(gold, predicted, to, r.bindingCorrect, r.bindingWrong, r.bindingAbstained)
  }

  /** No edge, prediction or claim is lost or counted twice. */
  ghost predicate Conserved(r: Report, gold: Validated, predicted: Validated, to: map<string, string>) {
    && r.correct + r.wrongDirection + r.abstained == |gold.before|
    && r.correct + r.wrongDirection + r.onUnknown + r.onSimultaneous + r.unsupported == |Kept(predicted.before, to)|
    && |Kept(predicted.before, to)| + r.unmatchedAccount == |predicted.before|
    && r.bindingCorrect + r.bindingWrong + r.bindingAbstained == |gold.assignments|
  }

  lemma CountsAreConserved(r: Report, gold: Validated, predicted: Validated, to: map<string, string>)
    requires SameClaims(gold, predicted) && Counts(r, gold, predicted, to)
    requires r.bindingCorrect + r.bindingWrong + r.bindingAbstained == |gold.assignments|
    requires OneToOne(to) && OneWay(gold.before) && OneWay(predicted.before)
    requires forall e | e in gold.before :: EndsOf(e) !in gold.unknown && EndsOf(e) !in gold.simultaneous
    ensures Conserved(r, gold, predicted, to)
  {
    var mapped := Mapped(predicted.before, to);
    MappedSize(predicted.before, to);
    MappedOneWay(predicted.before, to);
    GoldConserved(gold.before, mapped);
    MappedConserved(gold.before, mapped, gold.unknown, gold.simultaneous);
    KeptPlusRest(predicted.before, to);
  }

  lemma KeptPlusRest(before: set<Edge>, to: map<string, string>)
    ensures |Kept(before, to)| + |before - Kept(before, to)| == |before|
  {
    assert before == Kept(before, to) + (before - Kept(before, to));
  }

  /** What the scorer needs to know of an accepted document. */
  ghost predicate Sound(v: Validated) {
    && Listing(v.accountIds, v.accounts)
    && OneWay(v.before)
    && (forall e | e in v.before :: EndsOf(e) !in v.unknown && EndsOf(e) !in v.simultaneous)
    && v.assignments.Keys == v.statuses.Keys == v.claims.Keys
  }

  lemma AcceptedIsListed(doc: Document, v: Validated)
    requires Acceptable(doc) && Describes(doc, v)
    ensures Listing(v.accountIds, v.accounts)
  {
    AccountsNormalised(doc.accounts);
    forall i | 0 <= i < |v.accountIds| ensures v.accountIds[i] in v.accounts {
      InAccountMap(doc.accounts, v.accountIds[i]);
    }
  }

  lemma AcceptedIsSound(doc: Document, v: Validated)
    requires Acceptable(doc) && Describes(doc, v)
    ensures Sound(v)
  {
    AcceptedIsListed(doc, v);
    ClosureIsLeast(Given(doc), v.before);
    ReflexiveIffCyclic(Given(doc), v.before);
    NoReverse(v.before);
    StatusKeys(doc.assignments);
  }

  method ScoreDocuments(goldDoc: Document, predictedDoc: Document, threshold: real)
    returns (report: Option<Report>, ghost gold: Validated, ghost predicted: Validated,
             ghost grid: Matching.Grid, ghost pairs: map<nat, nat>, ghost to: map<string, string>)
    ensures report.Some? <==> Acceptable(goldDoc) && Acceptable(predictedDoc) && SameTarget(goldDoc, predictedDoc)
    ensures report.Some? ==>
              && Describes(goldDoc, gold) && Describes(predictedDoc, predicted)
              && Sound(gold) && Sound(predicted) && SameClaims(gold, predicted)
              && IsIouGrid(grid, gold, predicted, threshold)
              && Matching.Heaviest(grid, pairs, |gold.accountIds|, |predicted.accountIds|)
              && (Matching.Min(|gold.accountIds|, |predicted.accountIds|) <= 1000 ==>
                    Matching.Best(grid, pairs, |gold.accountIds|, |predicted.accountIds|))
              && Names(to, pairs, gold.accountIds, predicted.accountIds) && OneToOne(to)
              && report.value.matched == |pairs|
              && Counts(report.value, gold, predicted, to) && Conserved(report.value, gold, predicted, to)
  {
    var g := Validate(goldDoc);
    var p := Validate(predictedDoc);
    gold, predicted := *, *;
    grid, pairs, to := map[], map[], map[];
    if g.None? || p.None? || !SameTarget(goldDoc, predictedDoc) {
      return None, gold, predicted, grid, pairs, to;
    }
    gold, predicted := g.value, p.value;
    AcceptedIsSound(goldDoc, gold);
    AcceptedIsSound(predictedDoc, predicted);
    hide Acceptable, Describes;
    var r;
    r, grid, pairs, to := ScoreValidated(g.value, p.value, threshold);
    report := Some(r);
  }

  /** The body of the scorer once both documents are accepted and about the same record. */
  method ScoreValidated(gold: Validated, predicted: Validated, threshold: real)
    returns (r: Report, ghost grid: Matching.Grid, ghost pairs: map<nat, nat>, ghost to: map<string, string>)
    requires Sound(gold) && Sound(predicted) && SameClaims(gold, predicted)
    ensures IsIouGrid(grid, gold, predicted, threshold)
    ensures Matching.Heaviest(grid, pairs, |gold.accountIds|, |predicted.accountIds|)
    ensures Matching.Min(|gold.accountIds|, |predicted.accountIds|) <= 1000 ==>
              Matching.Best(grid, pairs, |gold.accountIds|, |predicted.accountIds|)
    ensures Names(to, pairs, gold.accountIds, predicted.accountIds) && OneToOne(to)
    ensures r.matched == |pairs|
    ensures Counts(r, gold, predicted, to) && Conserved(r, gold, predicted, to)
  {
    var names, matched;
    names, matched, grid, pairs := MatchAccounts(gold, predicted, threshold);
    to := names;
    var bindingCorrect, bindingWrong, bindingAbstained := TallyBindings(gold, predicted, names);
    var mapped := Mapped(predicted.before, names);
    var correct, wrong, abstained := TallyGold(gold.before, mapped);
    var onUnknown, onSimultaneous, unsupported := TallyMapped(mapped, gold.before, gold.unknown, gold.simultaneous);
    var unmatched := |predicted.before - Kept(predicted.before, names)|;
    r := Report(matched, bindingCorrect, bindingWrong, bindingAbstained, correct, wrong, abstained,
                onUnknown, onSimultaneous, unsupported, unmatched);
    hide Mapped, Agreed, Opposed, Silent, OnUnknown, OnSimultaneous, Unsupported, BindingsCounted, Kept;
    CountsAreConserved(r, gold, predicted, to);
  }

  method MatchAccounts(gold: Validated, predicted: Validated, threshold: real)
    returns (to: map<string, string>, matched: nat, ghost grid: Matching.Grid, ghost pairs: map<nat, nat>)
    requires Listing(gold.accountIds, gold.accounts) && Listing(predicted.accountIds, predicted.accounts)
    ensures IsIouGrid(grid, gold, predicted, threshold)
    ensures Matching.Heaviest(grid, pairs, |gold.accountIds|, |predicted.accountIds|)
    ensures Matching.Min(|gold.accountIds|, |predicted.accountIds|) <= 1000 ==>
              Matching.Best(grid, pairs, |gold.accountIds|, |predicted.accountIds|)
    ensures Names(to, pairs, gold.accountIds, predicted.accountIds) && OneToOne(to)
    ensures matched == |pairs|
  {
    var n, m := |gold.accountIds|, |predicted.accountIds|;
    var candidates := BuildCandidates(gold, predicted, threshold);
    grid := Matching.ByPair(candidates);
    GridFacts(grid, gold, predicted, threshold);
    var selected := Matching.OptimalMatches(candidates, n, m);
    pairs := Matching.Pairs(selected);
    SelectedOnGrid(grid, selected, n, m);
    to := NameMatches(selected, gold.accountIds, predicted.accountIds);
    matched := |selected|;
    NamesOneToOne(to, grid, pairs, gold.accountIds, predicted.accountIds);
    hide Matching.Heaviest, Matching.Best, Matching.Bounded, Matching.Listed, Names, IsIouGrid, Matching.ByPair;
    if Matching.Min(n, m) <= 1000 {
      Matching.HeaviestIsBest(grid, pairs, n, m, 1.0);
    }
  }

  lemma SelectedOnGrid(grid: Matching.Grid, selected: seq<Matching.Candidate>, gold: nat, predicted: nat)
    requires Matching.Listed(grid, selected) && Matching.InRange(grid, gold, predicted)
    ensures forall k | 0 <= k < |selected| :: selected[k].goldIndex < gold && selected[k].predictedIndex < predicted
  {
    forall k | 0 <= k < |selected|
      ensures selected[k].goldIndex < gold && selected[k].predictedIndex < predicted
    {
      var c := selected[k];
      assert Matching.Eligible(grid, c.predictedIndex, c.goldIndex);
    }
  }
}
