/** A document scored against itself is perfect, even where two accounts have equal spans. */
module ChronologySelfScore {
  import opened Options
  import opened Spans
  import opened SpanIou
  import opened Closure
  import opened ChronologyDocument
  import opened ChronologyValidation
  import opened ChronologyScore
  import Matching = AccountMatching

  /** Every account has at least one point. */
  ghost predicate Inhabited(accounts: Accounts) {
    forall id | id in accounts :: Points(accounts[id]) != {}
  }

  lemma {:induction false} AcceptedInhabited(raw: seq<AccountDoc>)
    requires AccountsOk(raw)
    ensures Inhabited(AccountMap(raw))
  {
    if raw != [] {
      var n := |raw| - 1;
      assert forall i | 0 <= i < n :: raw[..n][i] == raw[i];
      AcceptedInhabited(raw[..n]);
      var first := raw[n].spans[0];
      assert first in Sorted(raw[n].spans) && first.Has(first.start);
      assert first.start in Points(Sorted(raw[n].spans));
    }
  }

  // ----- The matching of a document with itself

  lemma SelfOverlap(v: Validated, threshold: real, p: nat)
    requires Listing(v.accountIds, v.accounts) && Inhabited(v.accounts) && threshold <= 1.0
    requires p < |v.accountIds|
    ensures IouCandidate(v, v, threshold, p, p).score == 1.0 && IouCandidate(v, v, threshold, p, p).eligible
  {
    IouRange(v.accounts[v.accountIds[p]], v.accounts[v.accountIds[p]]);
  }

  lemma GridAt(grid: Matching.Grid, v: Validated, threshold: real, p: nat, g: nat)
    requires Listing(v.accountIds, v.accounts) && IsIouGrid(grid, v, v, threshold)
    requires p < |v.accountIds| && g < |v.accountIds|
    ensures (p, g) in grid && grid[(p, g)] == IouCandidate(v, v, threshold, g, p)
  {
    var key: (nat, nat) := (p, g);
    assert key in grid && grid[key] == IouCandidate(v, v, threshold, key.1, key.0);
  }

  lemma IdentityMatches(grid: Matching.Grid, v: Validated, threshold: real)
    requires Listing(v.accountIds, v.accounts) && Inhabited(v.accounts) && threshold <= 1.0
    requires IsIouGrid(grid, v, v, threshold)
    ensures var n := |v.accountIds|;
            && Matching.IsMatching(grid, Matching.Diagonal(n, 0), n, n)
            && Matching.Weight(grid, Matching.Diagonal(n, 0), n) == Matching.Times(Matching.BONUS + 1.0, n)
  {
    var n := |v.accountIds|;
    forall p: nat | p < n ensures (p, p) in grid && grid[(p, p)].eligible && grid[(p, p)].score == 1.0 {
      GridAt(grid, v, threshold, p, p);
      SelfOverlap(v, threshold, p);
    }
    hide IsIouGrid, Listing, Inhabited;
    DiagonalWeight(grid, n);
  }

  lemma DiagonalWeight(grid: Matching.Grid, n: nat)
    requires forall p: nat | p < n :: (p, p) in grid && grid[(p, p)].eligible && grid[(p, p)].score == 1.0
    ensures Matching.IsMatching(grid, Matching.Diagonal(n, 0), n, n)
    ensures Matching.Weight(grid, Matching.Diagonal(n, 0), n) == Matching.Times(Matching.BONUS + 1.0, n)
  {
    hide Matching.Diagonal, Matching.Times, Matching.Score;
    var all := Matching.Diagonal(n, 0);
    assert forall p | p in all :: all[p] == p;
    Matching.SteadyScore(grid, all, 1.0, n, n);
    Matching.TimesSum(Matching.BONUS, 1.0, n);
  }

  /** A matching whose score equals its size pairs only accounts that overlap entirely. */
  lemma {:induction false} FullScoreEach(grid: Matching.Grid, m: map<nat, nat>, n: nat, k: nat, p: nat)
    requires Matching.IsMatching(grid, m, n, n) && Matching.Bounded(grid, 1.0)
    requires Matching.Score(grid, m, k) >= Matching.Times(1.0, |Matching.Matched(m, k)|)
    requires p in m && p < k
    ensures (p, m[p]) in grid && grid[(p, m[p])].score >= 1.0
  {
    hide Matching.Times, Matching.Score, Matching.Matched, Matching.IsMatching, Matching.Bounded;
    FullScoreLast(grid, m, n, k);
    MatchedKnown(grid, m, n, p);
    if p < k - 1 {
      FullScoreEach(grid, m, n, k - 1, p);
    }
  }

  lemma MatchedKnown(grid: Matching.Grid, m: map<nat, nat>, n: nat, p: nat)
    requires Matching.IsMatching(grid, m, n, n) && p in m
    ensures (p, m[p]) in grid
  {
    assert Matching.Eligible(grid, p, m[p]);
  }

  /** The last row takes a full score, and leaves the rest with full scores. */
  lemma FullScoreLast(grid: Matching.Grid, m: map<nat, nat>, n: nat, k: nat)
    requires Matching.IsMatching(grid, m, n, n) && Matching.Bounded(grid, 1.0) && k > 0
    requires Matching.Score(grid, m, k) >= Matching.Times(1.0, |Matching.Matched(m, k)|)
    ensures Matching.Score(grid, m, k - 1) >= Matching.Times(1.0, |Matching.Matched(m, k - 1)|)
    ensures k - 1 in m ==> (k - 1, m[k - 1]) in grid && grid[(k - 1, m[k - 1])].score >= 1.0
  {
    Matching.ScoreBounds(grid, m, n, n, 1.0, k - 1);
    hide Matching.Times;
    if k - 1 in m {
      assert Matching.Eligible(grid, k - 1, m[k - 1]);
      hide Matching.Eligible;
      assert Matching.Matched(m, k) == Matching.Matched(m, k - 1) + {k - 1};
      Matching.TimesStep(1.0, |Matching.Matched(m, k - 1)|);
    } else {
      assert Matching.Matched(m, k) == Matching.Matched(m, k - 1);
    }
  }

  lemma SelfMatching(grid: Matching.Grid, v: Validated, threshold: real, pairs: map<nat, nat>)
    requires Listing(v.accountIds, v.accounts) && Inhabited(v.accounts) && threshold <= 1.0
    requires IsIouGrid(grid, v, v, threshold)
    requires Matching.Heaviest(grid, pairs, |v.accountIds|, |v.accountIds|)
    ensures |pairs| == |v.accountIds|
    ensures forall p: nat | p < |v.accountIds| ::
              && p in pairs && pairs[p] < |v.accountIds|
              && Points(v.accounts[v.accountIds[p]]) == Points(v.accounts[v.accountIds[pairs[p]]])
  {
    hide IsIouGrid, Inhabited, Matching.Heaviest, Points;
    SelfMatchingScores(grid, v, threshold, pairs);
    forall p: nat | p < |v.accountIds|
      ensures Points(v.accounts[v.accountIds[p]]) == Points(v.accounts[v.accountIds[pairs[p]]])
    {
      SamePointsAt(grid, v, threshold, p, pairs[p]);
    }
  }

  lemma SelfMatchingScores(grid: Matching.Grid, v: Validated, threshold: real, pairs: map<nat, nat>)
    requires Listing(v.accountIds, v.accounts) && Inhabited(v.accounts) && threshold <= 1.0
    requires IsIouGrid(grid, v, v, threshold)
    requires Matching.Heaviest(grid, pairs, |v.accountIds|, |v.accountIds|)
    ensures |pairs| == |v.accountIds|
    ensures forall p: nat | p < |v.accountIds| ::
              p in pairs && pairs[p] < |v.accountIds| && (p, pairs[p]) in grid && grid[(p, pairs[p])].score >= 1.0
  {
    hide *;
    var n := |v.accountIds|;
    GridFacts(grid, v, v, threshold);
    IdentityMatches(grid, v, threshold);
    SelfMatchingIsFull(grid, n, pairs);
    HeaviestInRange(grid, n, pairs);
    Matching.EveryKey(pairs, n);
    forall p: nat | p < n ensures (p, pairs[p]) in grid && grid[(p, pairs[p])].score >= 1.0 {
      FullScoreEach(grid, pairs, n, n, p);
    }
  }

  lemma SamePointsAt(grid: Matching.Grid, v: Validated, threshold: real, p: nat, g: nat)
    requires Listing(v.accountIds, v.accounts) && Inhabited(v.accounts) && IsIouGrid(grid, v, v, threshold)
    requires p < |v.accountIds| && g < |v.accountIds| && (p, g) in grid && grid[(p, g)].score >= 1.0
    ensures Points(v.accounts[v.accountIds[p]]) == Points(v.accounts[v.accountIds[g]])
  {
    hide IsIouGrid, Points, Inhabited;
    GridAt(grid, v, threshold, p, g);
    IouRange(v.accounts[v.accountIds[g]], v.accounts[v.accountIds[p]]);
  }

  lemma HeaviestInRange(grid: Matching.Grid, n: nat, pairs: map<nat, nat>)
    requires Matching.Heaviest(grid, pairs, n, n)
    ensures Matching.IsMatching(grid, pairs, n, n)
    ensures forall p | p in pairs :: p < n && pairs[p] < n && (p, pairs[p]) in grid
  {
    assert forall p | p in pairs :: Matching.Eligible(grid, p, pairs[p]);
  }

  lemma SelfMatchingIsFull(grid: Matching.Grid, n: nat, pairs: map<nat, nat>)
    requires Matching.Bounded(grid, 1.0)
    requires Matching.IsMatching(grid, Matching.Diagonal(n, 0), n, n)
    requires Matching.Weight(grid, Matching.Diagonal(n, 0), n) == Matching.Times(Matching.BONUS + 1.0, n)
    requires Matching.Heaviest(grid, pairs, n, n)
    ensures |pairs| == n
    ensures Matching.Score(grid, pairs, n) >= Matching.Times(1.0, |Matching.Matched(pairs, n)|)
  {
    assert Matching.Weight(grid, Matching.Diagonal(n, 0), n) <= Matching.Weight(grid, pairs, n);
    Matching.MatchingSize(grid, pairs, n, n);
    Matching.WeightBounds(grid, pairs, n, n, 1.0);
    Matching.WeightIs(grid, pairs, n);
    assert Matching.Matched(pairs, n) == pairs.Keys && |pairs.Keys| == |pairs|;
    hide Matching.Times, Matching.Weight, Matching.Score, Matching.IsMatching, Matching.Matched;
    if |pairs| < n {
      Matching.TimesMonotone(Matching.BONUS + 1.0, |pairs| + 1, n);
      Matching.TimesStep(Matching.BONUS + 1.0, |pairs|);
    }
    Matching.TimesSum(Matching.BONUS, 1.0, n);
  }

  // ----- Accounts that hold a claim are matched to themselves

  /** The account is the narrowest of those that hold x. */
  ghost predicate Narrowest(accounts: Accounts, account: string, x: int) {
    && Normalised(accounts)
    && account in accounts && Covered(accounts[account], x)
    && forall other | other in accounts && other != account && Covered(accounts[other], x) ::
         Width(accounts[account]) < Width(accounts[other])
  }

  /** A bound claim's account is listed, and the narrowest at the claim's position. */
  lemma HolderPlace(doc: Document, v: Validated, claim: string, account: string) returns (x: int, p: nat)
    requires Acceptable(doc) && Describes(doc, v)
    requires claim in v.assignments && v.assignments[claim] == Some(account)
    ensures Narrowest(v.accounts, account, x) && p < |v.accountIds| && v.accountIds[p] == account
  {
    hide Acceptable, Normalised, Covered, Width;
    HolderIsClaim(doc, claim);
    AcceptedPlacement(doc, claim);
    AcceptedIsListed(doc, v);
    x := ClaimMap(doc.claims)[claim].value;
    InAccountMap(doc.accounts, account);
    p :| p < |v.accountIds| && v.accountIds[p] == account;
  }

  lemma HolderIsClaim(doc: Document, claim: string)
    requires Acceptable(doc) && claim in AssignmentMap(doc.assignments)
    ensures claim in ClaimMap(doc.claims)
  {
    assert claim in AssignmentMap(doc.assignments).Keys;
  }

  lemma NamedAt(to: map<string, string>, pairs: map<nat, nat>, ids: seq<string>, p: nat)
    requires Names(to, pairs, ids, ids) && p in pairs && p < |ids| && pairs[p] < |ids|
    ensures ids[p] in to && to[ids[p]] == ids[pairs[p]]
  {
  }

  /** No other account has the same points as one that is narrowest somewhere. */
  lemma TwinIsSame(accounts: Accounts, a: string, b: string, x: int)
    requires Narrowest(accounts, a, x) && b in accounts && Points(accounts[a]) == Points(accounts[b])
    ensures a == b
  {
    hide Width, Points, Disjoint;
    WidthIsSize(accounts[a]);
    WidthIsSize(accounts[b]);
    assert x in Points(accounts[a]);
  }

  lemma HoldersKeepTheirName(doc: Document, v: Validated, to: map<string, string>, pairs: map<nat, nat>, claim: string,
                             account: string)
    requires Acceptable(doc) && Describes(doc, v)
    requires claim in v.assignments && v.assignments[claim] == Some(account)
    requires Names(to, pairs, v.accountIds, v.accountIds)
    requires forall p: nat | p < |v.accountIds| ::
               && p in pairs && pairs[p] < |v.accountIds|
               && v.accountIds[p] in v.accounts && v.accountIds[pairs[p]] in v.accounts
               && Points(v.accounts[v.accountIds[p]]) == Points(v.accounts[v.accountIds[pairs[p]]])
    ensures account in to && to[account] == account
  {
    hide *;
    var x, p := HolderPlace(doc, v, claim, account);
    NamedAt(to, pairs, v.accountIds, p);
    assert Points(v.accounts[v.accountIds[p]]) == Points(v.accounts[v.accountIds[pairs[p]]]);
    TwinIsSame(v.accounts, account, v.accountIds[pairs[p]], x);
  }

  /** Edges of the order lie in accounts that hold a claim. */
  lemma OrderedAccountsHold(doc: Document, v: Validated, e: Edge) returns (claim: string)
    requires Acceptable(doc) && Describes(doc, v) && e in v.before
    ensures claim in v.assignments && v.assignments[claim] == Some(e.account)
  {
    var n: nat :| n >= 1 && Chain(Given(doc), e.account, e.before, e.after, n);
    var z :| Edge(e.account, e.before, z) in Given(doc) && Chain(Given(doc), e.account, z, e.after, n - 1);
    var i :| 0 <= i < |doc.before| && doc.before[i] == Edge(e.account, e.before, z);
    assert EdgeOk(doc.before[i], v.accounts, v.assignments);
    claim := e.before;
  }

  /** Where every account in use is matched to itself, nothing is counted against the document. */
  lemma NothingLost(v: Validated, to: map<string, string>, r: Report)
    requires Sound(v) && Counts(r, v, v, to)
    requires forall c | c in v.assignments && v.assignments[c].Some? ::
               v.assignments[c].value in to && to[v.assignments[c].value] == v.assignments[c].value
    requires forall e | e in v.before :: e.account in to && to[e.account] == e.account
    ensures r.bindingCorrect == |v.assignments| && r.bindingWrong == 0 && r.bindingAbstained == 0
    ensures r.correct == |v.before| && r.wrongDirection == 0 && r.abstained == 0
    ensures r.onUnknown == 0 && r.onSimultaneous == 0 && r.unsupported == 0 && r.unmatchedAccount == 0
  {
    var mapped := Mapped(v.before, to);
    assert forall e | e in v.before :: Carried(e, to) == e;
    assert mapped == v.before;
    assert Kept(v.before, to) == v.before;
    assert Agreed(v.before, mapped) == v.before && Opposed(v.before, mapped) == {} && Silent(v.before, mapped) == {};
    assert OnUnknown(mapped, v.unknown) == {} && OnSimultaneous(mapped, v.unknown, v.simultaneous) == {};
    assert Unsupported(mapped, v.before, v.unknown, v.simultaneous) == {};
    AllBoundRight(v, to);
  }

  lemma LeftOutOrBound(v: Validated, to: map<string, string>, c: string)
    requires SameClaims(v, v)
    requires c in v.assignments && v.assignments[c].Some? ==>
               v.assignments[c].value in to && to[v.assignments[c].value] == v.assignments[c].value
    ensures c in LeftOutAlike(v, v) <==> c in v.assignments && v.assignments[c].None?
    ensures c in BoundRight(v, v, to) <==> c in v.assignments && v.assignments[c].Some?
    ensures c !in NotBound(v, v)
  {
  }

  lemma Halves<T>(all: set<T>, a: set<T>, b: set<T>)
    requires forall x :: x in all <==> x in a || x in b
    requires forall x | x in a :: x !in b
    ensures |a| + |b| == |all|
  {
    assert a !! b && all == a + b;
  }

  lemma AllBoundRight(v: Validated, to: map<string, string>)
    requires SameClaims(v, v)
    requires forall c | c in v.assignments && v.assignments[c].Some? ::
               v.assignments[c].value in to && to[v.assignments[c].value] == v.assignments[c].value
    ensures |LeftOutAlike(v, v)| + |BoundRight(v, v, to)| == |v.assignments|
    ensures |NotBound(v, v)| == 0
  {
    hide *;
    var alike, right, open := LeftOutAlike(v, v), BoundRight(v, v, to), NotBound(v, v);
    forall c
      ensures c in alike <==> c in v.assignments && v.assignments[c].None?
      ensures c in right <==> c in v.assignments && v.assignments[c].Some?
      ensures c !in open
    {
      LeftOutOrBound(v, to, c);
    }
    assert open == {};
    Halves(v.assignments.Keys, alike, right);
  }

  /** Gold scored against itself: every account matched, every claim and edge correct. */
  lemma SelfScoreIsPerfect(doc: Document, v: Validated, threshold: real, grid: Matching.Grid, pairs: map<nat, nat>,
                           to: map<string, string>, r: Report)
    requires Acceptable(doc) && Describes(doc, v) && Sound(v) && threshold <= 1.0
    requires IsIouGrid(grid, v, v, threshold)
    requires Matching.Heaviest(grid, pairs, |v.accountIds|, |v.accountIds|)
    requires Names(to, pairs, v.accountIds, v.accountIds)
    requires r.matched == |pairs| && Counts(r, v, v, to)
    ensures r.matched == |doc.accounts|
    ensures r.bindingCorrect == |v.assignments| && r.bindingWrong == 0 && r.bindingAbstained == 0
    ensures r.correct == |v.before| && r.wrongDirection == 0 && r.abstained == 0
    ensures r.onUnknown == 0 && r.onSimultaneous == 0 && r.unsupported == 0 && r.unmatchedAccount == 0
  {
    hide Counts, Names, IsIouGrid, Matching.Heaviest, Points;
    DescribedBasics(doc, v);
    hide *;
    SelfMatching(grid, v, threshold, pairs);
    SelfNames(doc, v, pairs, to);
    NothingLost(v, to, r);
  }

  /** A document has one validated form. */
  lemma DescribesOnce(doc: Document, v: Validated, w: Validated)
    requires Describes(doc, v) && Describes(doc, w)
    ensures v == w
  {
    assert v.before == w.before by {
      hide AccountMap, ParentMap, ClaimMap, AssignmentMap, StatusMap, Precedes;
      assert forall e :: e in v.before <==> e in w.before;
    }
  }

  /** The scorer on one document twice: a perfect score exactly for an acceptable document. */
  method ScoreAgainstItself(doc: Document, threshold: real) returns (report: Option<Report>, ghost v: Validated)
    requires threshold <= 1.0
    ensures report.Some? <==> Acceptable(doc)
    ensures report.Some? ==>
              var r := report.value;
              && Describes(doc, v) && r.matched == |doc.accounts|
              && r.bindingCorrect == |v.assignments| && r.bindingWrong == 0 && r.bindingAbstained == 0
              && r.correct == |v.before| && r.wrongDirection == 0 && r.abstained == 0
              && r.onUnknown == 0 && r.onSimultaneous == 0 && r.unsupported == 0 && r.unmatchedAccount == 0
  {
    SameTargetAsItself(doc);
    hide *;
    ghost var w, grid, pairs, to;
    report, v, w, grid, pairs, to := ScoreDocuments(doc, doc, threshold);
    if report.Some? {
      DescribesOnce(doc, v, w);
      SelfScoreIsPerfect(doc, v, threshold, grid, pairs, to, report.value);
    }
  }

  lemma SameTargetAsItself(doc: Document)
    ensures SameTarget(doc, doc)
  {
  }

  lemma DescribedBasics(doc: Document, v: Validated)
    requires Acceptable(doc) && Describes(doc, v)
    ensures Inhabited(v.accounts) && |v.accountIds| == |doc.accounts|
    ensures Listing(v.accountIds, v.accounts)
  {
    AcceptedInhabited(doc.accounts);
    AcceptedIsListed(doc, v);
  }

  lemma SelfNames(doc: Document, v: Validated, pairs: map<nat, nat>, to: map<string, string>)
    requires Acceptable(doc) && Describes(doc, v) && Sound(v)
    requires Names(to, pairs, v.accountIds, v.accountIds)
    requires forall p: nat | p < |v.accountIds| ::
               && p in pairs && pairs[p] < |v.accountIds|
               && Points(v.accounts[v.accountIds[p]]) == Points(v.accounts[v.accountIds[pairs[p]]])
    ensures forall c | c in v.assignments && v.assignments[c].Some? ::
              v.assignments[c].value in to && to[v.assignments[c].value] == v.assignments[c].value
    ensures forall e | e in v.before :: e.account in to && to[e.account] == e.account
  {
    hide Acceptable, Describes, Names, Points;
    forall c | c in v.assignments && v.assignments[c].Some?
      ensures v.assignments[c].value in to && to[v.assignments[c].value] == v.assignments[c].value
    {
      HoldersKeepTheirName(doc, v, to, pairs, c, v.assignments[c].value);
    }
    forall e | e in v.before ensures e.account in to && to[e.account] == e.account {
      var claim := OrderedAccountsHold(doc, v, e);
    }
  }
}
