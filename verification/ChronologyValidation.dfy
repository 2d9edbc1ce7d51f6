/** Bindings, temporal labels and the acceptance of a whole document. */
module ChronologyValidation {
  import opened Options
  import opened Spans
  import opened Closure
  import opened ChronologyDocument

  // ----- Bindings

  /** The rule for one claim: bound to the one narrowest account that contains it, or outside
      every account, or without a position at all. */
  ghost predicate Placed(accounts: Accounts, position: Option<int>, account: Option<string>, status: Status) {
    match status
    case Bound =>
      && account.Some? && account.value in accounts && position.Some?
      && Covered(accounts[account.value], position.value)
      && forall other | other in accounts && other != account.value && Covered(accounts[other], position.value) ::
           Width(accounts[account.value]) < Width(accounts[other])
    case Outside =>
      account.None? && position.Some? && forall other | other in accounts :: !Covered(accounts[other], position.value)
    case Unlocatable => account.None? && position.None?
    case Unknown => false
  }

  /** The least width among some accounts. */
  method Narrowest(accounts: Accounts, containing: set<string>) returns (width: int)
    requires containing != {} && containing <= accounts.Keys
    ensures exists a | a in containing :: Width(accounts[a]) == width
    ensures forall a | a in containing :: width <= Width(accounts[a])
  {
    var first :| first in containing;
    width := Width(accounts[first]);
    var todo := containing - {first};
    while todo != {}
      invariant todo <= containing
      invariant exists a | a in containing :: Width(accounts[a]) == width
      invariant forall a | a in containing && a !in todo :: width <= Width(accounts[a])
    {
      var a :| a in todo;
      if Width(accounts[a]) < width {
        width := Width(accounts[a]);
      }
      todo := todo - {a};
    }
  }

  lemma OnlyMember<T>(s: set<T>, x: T)
    requires x in s
    ensures |s| == 1 <==> s == {x}
  {
    if |s| == 1 {
      assert |s - {x}| == 0;
    }
  }

  function Containing(accounts: Accounts, position: int): set<string> {
    set candidate | candidate in accounts && Covered(accounts[candidate], position)
  }

  function OfWidth(accounts: Accounts, containing: set<string>, width: int): set<string>
    requires containing <= accounts.Keys
  {
    set candidate | candidate in containing && Width(accounts[candidate]) == width
  }

  lemma UniqueNarrowest(accounts: Accounts, position: int, account: string, narrowest: int)
    requires account in Containing(accounts, position)
    requires exists a | a in Containing(accounts, position) :: Width(accounts[a]) == narrowest
    requires forall a | a in Containing(accounts, position) :: narrowest <= Width(accounts[a])
    ensures Placed(accounts, Some(position), Some(account), Bound) <==>
            OfWidth(accounts, Containing(accounts, position), narrowest) == {account}
  {
    var a :| a in Containing(accounts, position) && Width(accounts[a]) == narrowest;
    var least := OfWidth(accounts, Containing(accounts, position), narrowest);
    assert a in least;
    if Placed(accounts, Some(position), Some(account), Bound) {
      assert forall other | other in least :: other == account;
    }
    if least == {account} {
      forall other | other in accounts && other != account && Covered(accounts[other], position)
        ensures Width(accounts[account]) < Width(accounts[other])
      {
        assert other in Containing(accounts, position) && other !in least;
        assert account in least;
      }
    }
  }

  /** The bound branch: unique narrowest container, and it is the one named. */
  method CheckBound(accounts: Accounts, position: Option<int>, account: Option<string>) returns (ok: bool)
    ensures ok <==> Placed(accounts, position, account, Bound)
  {
    if account.None? || account.value !in accounts || position.None? {
      return false;
    }
    var containing := Containing(accounts, position.value);
    if account.value !in containing {
      return false;
    }
    var narrowest := Narrowest(accounts, containing);
    UniqueNarrowest(accounts, position.value, account.value, narrowest);
    hide Placed, Containing;
    var least := OfWidth(accounts, containing, narrowest);
    if account.value in least {
      OnlyMember(least, account.value);
    }
    ok := |least| == 1 && Width(accounts[account.value]) == narrowest;
  }

  method CheckPlaced(accounts: Accounts, position: Option<int>, account: Option<string>, status: Status)
    returns (ok: bool)
    ensures ok <==> Placed(accounts, position, account, status)
  {
    match status
    case Bound => ok := CheckBound(accounts, position, account);
    case Outside =>
      ok := account.None? && position.Some?
            && !exists a | a in accounts :: Covered(accounts[a], position.value);
    case Unlocatable => ok := account.None? && position.None?;
    case Unknown => ok := false;
  }

  /** Distinct known claims, each placed by the rule. */
  ghost predicate AssignmentsOk(raw: seq<AssignmentDoc>, accounts: Accounts, claims: Claims) {
    && (forall i, j | 0 <= i < j < |raw| :: raw[i].claim != raw[j].claim)
    && forall i | 0 <= i < |raw| ::
         raw[i].claim in claims && Placed(accounts, claims[raw[i].claim], raw[i].account, raw[i].status)
  }

  ghost function AssignmentMap(raw: seq<AssignmentDoc>): Assignments {
    if raw == [] then map[]
    else AssignmentMap(raw[..|raw| - 1])[raw[|raw| - 1].claim := raw[|raw| - 1].account]
  }

  ghost function StatusMap(raw: seq<AssignmentDoc>): map<string, Status> {
    if raw == [] then map[]
    else StatusMap(raw[..|raw| - 1])[raw[|raw| - 1].claim := raw[|raw| - 1].status]
  }

  /** An entry of the two maps is an item of the list. */
  lemma {:induction false} InAssignmentMap(raw: seq<AssignmentDoc>, claim: string)
    ensures claim in AssignmentMap(raw) <==> exists i | 0 <= i < |raw| :: raw[i].claim == claim
    ensures claim in StatusMap(raw) <==> claim in AssignmentMap(raw)
    ensures claim in AssignmentMap(raw) ==>
              exists i | 0 <= i < |raw| :: raw[i] == AssignmentDoc(claim, AssignmentMap(raw)[claim], StatusMap(raw)[claim])
  {
    if raw != [] {
      var n := |raw| - 1;
      InAssignmentMap(raw[..n], claim);
      if i :| 0 <= i < |raw| && raw[i].claim == claim {
        assert i == n || raw[..n][i].claim == claim;
      }
      if claim in AssignmentMap(raw) {
        if raw[n].claim == claim {
          assert raw[n] == AssignmentDoc(claim, AssignmentMap(raw)[claim], StatusMap(raw)[claim]);
        } else {
          var i :| 0 <= i < n
            && raw[..n][i] == AssignmentDoc(claim, AssignmentMap(raw[..n])[claim], StatusMap(raw[..n])[claim]);
          assert raw[i] == AssignmentDoc(claim, AssignmentMap(raw)[claim], StatusMap(raw)[claim]);
        }
      }
    }
  }

  lemma ReadAssignmentsStep(raw: seq<AssignmentDoc>, i: nat, accounts: Accounts, claims: Claims)
    requires i < |raw| && AssignmentsOk(raw[..i], accounts, claims)
    ensures AssignmentsOk(raw[..i + 1], accounts, claims) <==>
            && raw[i].claim !in AssignmentMap(raw[..i]) && raw[i].claim in claims
            && Placed(accounts, claims[raw[i].claim], raw[i].account, raw[i].status)
    ensures AssignmentsOk(raw, accounts, claims) ==> AssignmentsOk(raw[..i + 1], accounts, claims)
    ensures AssignmentMap(raw[..i + 1]) == AssignmentMap(raw[..i])[raw[i].claim := raw[i].account]
    ensures StatusMap(raw[..i + 1]) == StatusMap(raw[..i])[raw[i].claim := raw[i].status]
  {
    hide Placed;
    var next := raw[..i + 1];
    assert next[..i] == raw[..i] && next[i] == raw[i];
    InAssignmentMap(raw[..i], raw[i].claim);
    if raw[i].claim !in AssignmentMap(raw[..i]) {
      forall k, l | 0 <= k < l < |next| ensures next[k].claim != next[l].claim {
        assert raw[..i][k] == next[k];
        assert l == i || raw[..i][l] == next[l];
      }
    }
    assert forall k | 0 <= k < i :: next[k] == raw[..i][k];
  }

  method ReadAssignments(raw: seq<AssignmentDoc>, accounts: Accounts, claims: Claims)
    returns (ok: bool, assignments: Assignments, statuses: map<string, Status>)
    ensures ok <==> AssignmentsOk(raw, accounts, claims) && AssignmentMap(raw).Keys == claims.Keys
    ensures ok ==> assignments == AssignmentMap(raw) && statuses == StatusMap(raw)
  {
    assignments, statuses := map[], map[];
    assert AssignmentsOk(raw[..0], accounts, claims);
    hide AssignmentsOk, AssignmentMap, StatusMap, Placed;
    for i := 0 to |raw|
      invariant AssignmentsOk(raw[..i], accounts, claims)
      invariant assignments == AssignmentMap(raw[..i]) && statuses == StatusMap(raw[..i])
    {
      ReadAssignmentsStep(raw, i, accounts, claims);
      if raw[i].claim !in claims || raw[i].claim in assignments {
        return false, assignments, statuses;
      }
      var placed := CheckPlaced(accounts, claims[raw[i].claim], raw[i].account, raw[i].status);
      if !placed {
        return false, assignments, statuses;
      }
      assignments := assignments[raw[i].claim := raw[i].account];
      statuses := statuses[raw[i].claim := raw[i].status];
    }
    assert raw[..|raw|] == raw;
    ok := assignments.Keys == claims.Keys;
  }

  // ----- Temporal labels

  predicate AssignedTo(assignments: Assignments, claim: string, account: string) {
    claim in assignments && assignments[claim] == Some(account)
  }

  predicate EdgeOk(e: Edge, accounts: Accounts, assignments: Assignments) {
    && e.account in accounts && e.before != e.after
    && AssignedTo(assignments, e.before, e.account) && AssignedTo(assignments, e.after, e.account)
  }

  ghost predicate EdgesOk(raw: seq<Edge>, accounts: Accounts, assignments: Assignments) {
    && (forall i, j | 0 <= i < j < |raw| :: raw[i] != raw[j])
    && forall i | 0 <= i < |raw| :: EdgeOk(raw[i], accounts, assignments)
  }

  method ReadEdges(raw: seq<Edge>, accounts: Accounts, assignments: Assignments) returns (ok: bool, edges: set<Edge>)
    ensures ok <==> EdgesOk(raw, accounts, assignments)
    ensures ok ==> edges == set e | e in raw
  {
    edges := {};
    for i := 0 to |raw|
      invariant EdgesOk(raw[..i], accounts, assignments)
      invariant edges == set e | e in raw[..i]
    {
      hide EdgeOk;
      assert raw[..i + 1] == raw[..i] + [raw[i]];
      if raw[i] in edges {
        var k :| 0 <= k < i && raw[..i][k] == raw[i];
        assert raw[k] == raw[i];
        return false, edges;
      }
      if !EdgeOk(raw[i], accounts, assignments) {
        return false, edges;
      }
      edges := edges + {raw[i]};
    }
    assert raw[..|raw|] == raw;
    ok := true;
  }

  datatype Pair = Pair(account: string, claims: set<string>)

  function PairOf(p: PairDoc): Pair {
    Pair(p.account, set c | c in p.claims)
  }

  predicate PairOk(p: PairDoc, accounts: Accounts, assignments: Assignments) {
    && |p.claims| == 2 && p.claims[0] != p.claims[1] && p.account in accounts
    && AssignedTo(assignments, p.claims[0], p.account) && AssignedTo(assignments, p.claims[1], p.account)
  }

  method ReadPairs(raw: seq<PairDoc>, accounts: Accounts, assignments: Assignments) returns (ok: bool, pairs: set<Pair>)
    ensures ok <==> forall i | 0 <= i < |raw| :: PairOk(raw[i], accounts, assignments)
    ensures ok ==> pairs == PairSet(raw)
  {
    pairs := {};
    for i := 0 to |raw|
      invariant forall k | 0 <= k < i :: PairOk(raw[k], accounts, assignments)
      invariant pairs == set p | p in raw[..i] :: PairOf(p)
    {
      hide PairOk, PairOf;
      assert raw[..i + 1] == raw[..i] + [raw[i]];
      if !PairOk(raw[i], accounts, assignments) {
        return false, pairs;
      }
      pairs := pairs + {PairOf(raw[i])};
    }
    assert raw[..|raw|] == raw;
    ok := true;
  }

  // ----- The whole document

  datatype Validated = Validated(
    accountIds: seq<string>, accounts: Accounts, parents: map<string, string>, claims: Claims,
    claimSequence: seq<ClaimDoc>, assignments: Assignments, statuses: map<string, Status>,
    before: set<Edge>, unknown: set<Pair>, simultaneous: set<Pair>)

  function EndsOf(e: Edge): Pair {
    Pair(e.account, {e.before, e.after})
  }

  function PairSet(raw: seq<PairDoc>): set<Pair> {
    set p | p in raw :: PairOf(p)
  }

  /** No pair of claims carries two different temporal labels, given or implied. */
  ghost predicate Uncontradicted(edges: set<Edge>, unknown: set<Pair>, simultaneous: set<Pair>) {
    && unknown * simultaneous == {}
    && forall e: Edge | Precedes(edges, e) :: EndsOf(e) !in unknown && EndsOf(e) !in simultaneous
  }

  /** Close the order, refuse cycles, refuse contradicted labels. */
  method CheckLabels(edges: set<Edge>, unknown: set<Pair>, simultaneous: set<Pair>)
    returns (ok: bool, closure: set<Edge>)
    ensures ok <==> !Cyclic(edges) && Uncontradicted(edges, unknown, simultaneous)
    ensures forall e :: e in closure <==> Precedes(edges, e)
  {
    ghost var rounds;
    closure, rounds := Close(edges);
    hide Precedes;
    ReflexiveIffCyclic(edges, closure);
    if exists e | e in closure :: e.before == e.after {
      return false, closure;
    }
    var known := set e | e in closure :: EndsOf(e);
    ok := unknown * simultaneous == {} && known * (unknown + simultaneous) == {};
    if ok {
      forall e | e in closure ensures EndsOf(e) !in unknown && EndsOf(e) !in simultaneous {
        assert EndsOf(e) in known && EndsOf(e) !in known * (unknown + simultaneous);
      }
    }
  }

  /** Everything the document must satisfy, in the document's own terms. */
  ghost predicate Acceptable(doc: Document) {
    && AccountsOk(doc.accounts)
    && (ParentsAreAccounts(doc.accounts); ParentsOk(AccountMap(doc.accounts), ParentMap(doc.accounts)))
    && Acyclic(ParentMap(doc.accounts))
    && ClaimsOk(doc.claims, doc.recordHash)
    && AssignmentsOk(doc.assignments, AccountMap(doc.accounts), ClaimMap(doc.claims))
    && AssignmentMap(doc.assignments).Keys == ClaimMap(doc.claims).Keys
    && EdgesOk(doc.before, AccountMap(doc.accounts), AssignmentMap(doc.assignments))
    && (forall i | 0 <= i < |doc.unknown| ::
          PairOk(doc.unknown[i], AccountMap(doc.accounts), AssignmentMap(doc.assignments)))
    && (forall i | 0 <= i < |doc.simultaneous| ::
          PairOk(doc.simultaneous[i], AccountMap(doc.accounts), AssignmentMap(doc.assignments)))
    && !Cyclic(Given(doc))
    && Uncontradicted(Given(doc), PairSet(doc.unknown), PairSet(doc.simultaneous))
  }

  ghost function Given(doc: Document): set<Edge> {
    set e | e in doc.before
  }

  /** What an accepted document is turned into. */
  ghost predicate Describes(doc: Document, v: Validated) {
    && v.accountIds == AccountIds(doc.accounts)
    && v.accounts == AccountMap(doc.accounts) && v.parents == ParentMap(doc.accounts)
    && v.claims == ClaimMap(doc.claims) && v.claimSequence == doc.claims
    && v.assignments == AssignmentMap(doc.assignments) && v.statuses == StatusMap(doc.assignments)
    && (forall e :: e in v.before <==> Precedes(Given(doc), e))
    && v.unknown == PairSet(doc.unknown) && v.simultaneous == PairSet(doc.simultaneous)
  }

  function AccountIds(raw: seq<AccountDoc>): (ids: seq<string>)
    ensures |ids| == |raw| && forall i | 0 <= i < |raw| :: ids[i] == raw[i].id
  {
    seq(|raw|, i requires 0 <= i < |raw| => raw[i].id)
  }

  method Validate(doc: Document) returns (v: Option<Validated>)
    ensures v.Some? <==> Acceptable(doc)
    ensures v.Some? ==> Describes(doc, v.value)
  {
    hide AccountsOk, AccountMap, ParentMap, ParentsOk, ClaimsOk, ClaimMap, AssignmentsOk, AssignmentMap, StatusMap;
    hide EdgesOk, PairOk, PairOf, PairSet, Uncontradicted, Cyclic, Precedes, ChronologyDocument.Acyclic;
    var ok, accounts, parents := ReadAccounts(doc.accounts);
    if !ok { return None; }
    ParentsAreAccounts(doc.accounts);
    ok := CheckParents(accounts, parents);
    if !ok { return None; }
    ok := CheckForest(parents);
    if !ok { return None; }
    var claims;
    ok, claims := ReadClaims(doc.claims, doc.recordHash);
    if !ok { return None; }
    var assignments, statuses;
    ok, assignments, statuses := ReadAssignments(doc.assignments, accounts, claims);
    if !ok { return None; }
    var edges, unknown, simultaneous;
    ok, edges := ReadEdges(doc.before, accounts, assignments);
    if !ok { return None; }
    ok, unknown := ReadPairs(doc.unknown, accounts, assignments);
    if !ok { return None; }
    ok, simultaneous := ReadPairs(doc.simultaneous, accounts, assignments);
    if !ok { return None; }
    var closure;
    ok, closure := CheckLabels(edges, unknown, simultaneous);
    if !ok { return None; }
    v := Some(Validated(AccountIds(doc.accounts), accounts, parents, claims, doc.claims, assignments, statuses,
                        closure, unknown, simultaneous));
  }

  // ----- What the labels of an accepted document say

  /** The document's own row binds the claim to the account. */
  ghost predicate Binds(doc: Document, claim: string, account: string) {
    AssignmentDoc(claim, Some(account), Bound) in doc.assignments
  }

  /** The document labels the two claims of an account, named in either order. */
  ghost predicate Lists(rows: seq<PairDoc>, account: string, c: string, d: string) {
    PairDoc(account, [c, d]) in rows || PairDoc(account, [d, c]) in rows
  }

  lemma AssignedMeansBound(doc: Document, claim: string, account: string)
    requires AssignmentsOk(doc.assignments, AccountMap(doc.accounts), ClaimMap(doc.claims))
    ensures AssignedTo(AssignmentMap(doc.assignments), claim, account) <==> Binds(doc, claim, account)
    ensures Binds(doc, claim, account) ==> account in AccountMap(doc.accounts)
  {
    hide AccountMap, ClaimMap;
    var raw, m := doc.assignments, AssignmentMap(doc.assignments);
    InAssignmentMap(raw, claim);
    if claim in m {
      var i :| 0 <= i < |raw| && raw[i] == AssignmentDoc(claim, m[claim], StatusMap(raw)[claim]);
      assert Placed(AccountMap(doc.accounts), ClaimMap(doc.claims)[raw[i].claim], raw[i].account, raw[i].status);
      assert m[claim] == Some(account) ==> raw[i] == AssignmentDoc(claim, Some(account), Bound);
    }
    if Binds(doc, claim, account) {
      var k :| 0 <= k < |raw| && raw[k] == AssignmentDoc(claim, Some(account), Bound);
      assert Placed(AccountMap(doc.accounts), ClaimMap(doc.claims)[raw[k].claim], raw[k].account, raw[k].status);
      var i :| 0 <= i < |raw| && raw[i] == AssignmentDoc(claim, m[claim], StatusMap(raw)[claim]);
      assert k == i;
    }
  }

  /** The row names two different claims, both bound to its account. */
  ghost predicate PairBound(doc: Document, p: PairDoc) {
    exists c, d ::
      p == PairDoc(p.account, [c, d]) && c != d && Binds(doc, c, p.account) && Binds(doc, d, p.account)
  }

  /** An edge is taken exactly when it joins two different claims that the document binds to its
      account; a pair exactly when it names two such claims. */
  lemma LabelsStayInside(doc: Document, e: Edge, p: PairDoc)
    requires AssignmentsOk(doc.assignments, AccountMap(doc.accounts), ClaimMap(doc.claims))
    ensures EdgeOk(e, AccountMap(doc.accounts), AssignmentMap(doc.assignments)) <==>
            e.before != e.after && Binds(doc, e.before, e.account) && Binds(doc, e.after, e.account)
    ensures PairOk(p, AccountMap(doc.accounts), AssignmentMap(doc.assignments)) <==> PairBound(doc, p)
  {
    hide Binds, AssignedTo, AssignmentsOk;
    AssignedMeansBound(doc, e.before, e.account);
    AssignedMeansBound(doc, e.after, e.account);
    forall c ensures AssignedTo(AssignmentMap(doc.assignments), c, p.account) <==> Binds(doc, c, p.account)
      ensures Binds(doc, c, p.account) ==> p.account in AccountMap(doc.accounts)
    {
      AssignedMeansBound(doc, c, p.account);
    }
    if |p.claims| == 2 {
      assert p == PairDoc(p.account, [p.claims[0], p.claims[1]]);
    }
  }

  /** Every row of pairs names two different claims. */
  ghost predicate Twos(rows: seq<PairDoc>) {
    forall i | 0 <= i < |rows| :: |rows[i].claims| == 2 && rows[i].claims[0] != rows[i].claims[1]
  }

  lemma InPairSet(rows: seq<PairDoc>, account: string, c: string, d: string)
    requires Twos(rows)
    ensures Pair(account, {c, d}) in PairSet(rows) && c != d <==> Lists(rows, account, c, d) && c != d
  {
    if c != d && Lists(rows, account, c, d) {
      var p := if PairDoc(account, [c, d]) in rows then PairDoc(account, [c, d]) else PairDoc(account, [d, c]);
      assert p in rows && PairOf(p) == Pair(account, {c, d});
    }
    if c != d && Pair(account, {c, d}) in PairSet(rows) {
      var p :| p in rows && PairOf(p) == Pair(account, {c, d});
      assert p.claims[0] in PairOf(p).claims && p.claims[1] in PairOf(p).claims;
      assert p == PairDoc(account, [p.claims[0], p.claims[1]]);
    }
  }

  /** Labels contradict exactly when some two claims are listed both as unordered and as
      simultaneous, or as either of them while a chain of the given edges leads from one to the other. */
  lemma ContradictionMeans(edges: set<Edge>, unknown: seq<PairDoc>, simultaneous: seq<PairDoc>)
    requires Twos(unknown) && Twos(simultaneous)
    ensures Uncontradicted(edges, PairSet(unknown), PairSet(simultaneous)) <==>
            && (forall a, c, d :: !(Lists(unknown, a, c, d) && Lists(simultaneous, a, c, d)))
            && (forall a, c, d | Precedes(edges, Edge(a, c, d)) :: !Lists(unknown, a, c, d) && !Lists(simultaneous, a, c, d))
  {
    hide Lists, Twos, PairSet, Precedes;
    var u, s := PairSet(unknown), PairSet(simultaneous);
    forall a, c, d ensures Pair(a, {c, d}) in u <==> Lists(unknown, a, c, d)
      ensures Pair(a, {c, d}) in s <==> Lists(simultaneous, a, c, d)
    {
      InPairSet(unknown, a, c, d);
      InPairSet(simultaneous, a, c, d);
      NotWithItself(unknown, a, c);
      NotWithItself(simultaneous, a, c);
      assert c == d ==> {c, d} == {c};
    }
    forall q | q in u ensures exists c, d :: q == Pair(q.account, {c, d}) {
      PairNamed(unknown, q);
    }
    assert u * s == {} <==> forall a, c, d :: !(Lists(unknown, a, c, d) && Lists(simultaneous, a, c, d)) by {
      if q :| q in u * s {
        var c, d :| q == Pair(q.account, {c, d});
        assert Lists(unknown, q.account, c, d) && Lists(simultaneous, q.account, c, d);
      }
      if a, c, d :| Lists(unknown, a, c, d) && Lists(simultaneous, a, c, d) {
        assert Pair(a, {c, d}) in u * s;
      }
    }
    forall e: Edge ensures EndsOf(e) == Pair(e.account, {e.before, e.after}) && e == Edge(e.account, e.before, e.after) {
    }
  }

  lemma NotWithItself(rows: seq<PairDoc>, account: string, c: string)
    requires Twos(rows)
    ensures !Lists(rows, account, c, c) && Pair(account, {c}) !in PairSet(rows)
  {
    forall p | p in rows ensures PairOf(p) != Pair(account, {c}) && p != PairDoc(account, [c, c]) {
      assert p.claims[0] in PairOf(p).claims && p.claims[1] in PairOf(p).claims;
    }
  }

  lemma PairNamed(rows: seq<PairDoc>, q: Pair)
    requires Twos(rows) && q in PairSet(rows)
    ensures exists c, d :: q == Pair(q.account, {c, d})
  {
    var p :| p in rows && PairOf(p) == q;
    assert p.claims == [p.claims[0], p.claims[1]];
    assert q == Pair(q.account, {p.claims[0], p.claims[1]});
  }

  ghost predicate PairsBound(doc: Document, rows: seq<PairDoc>) {
    forall i | 0 <= i < |rows| :: PairBound(doc, rows[i])
  }

  /** Edges not repeated, every label within one account, no chain of edges back to its start, and
      no two claims under two labels. */
  ghost predicate LabelsSound(doc: Document) {
    && (forall i, j | 0 <= i < j < |doc.before| :: doc.before[i] != doc.before[j])
    && (forall i | 0 <= i < |doc.before| ::
          && doc.before[i].before != doc.before[i].after
          && Binds(doc, doc.before[i].before, doc.before[i].account)
          && Binds(doc, doc.before[i].after, doc.before[i].account))
    && PairsBound(doc, doc.unknown) && PairsBound(doc, doc.simultaneous)
    && (forall a, c :: !Precedes(Given(doc), Edge(a, c, c)))
    && (forall a, c, d :: !(Lists(doc.unknown, a, c, d) && Lists(doc.simultaneous, a, c, d)))
    && (forall a, c, d | Precedes(Given(doc), Edge(a, c, d)) ::
          !Lists(doc.unknown, a, c, d) && !Lists(doc.simultaneous, a, c, d))
  }

  lemma PairsMean(doc: Document, rows: seq<PairDoc>)
    requires AssignmentsOk(doc.assignments, AccountMap(doc.accounts), ClaimMap(doc.claims))
    ensures PairsBound(doc, rows) <==>
            forall i | 0 <= i < |rows| :: PairOk(rows[i], AccountMap(doc.accounts), AssignmentMap(doc.assignments))
    ensures PairsBound(doc, rows) ==> Twos(rows)
  {
    hide Binds, PairOk, AssignmentsOk, AccountMap, ClaimMap, AssignmentMap;
    forall i | 0 <= i < |rows|
      ensures PairOk(rows[i], AccountMap(doc.accounts), AssignmentMap(doc.assignments)) <==> PairBound(doc, rows[i])
    {
      LabelsStayInside(doc, Edge("", "", ""), rows[i]);
    }
    if PairsBound(doc, rows) {
      forall i | 0 <= i < |rows| ensures |rows[i].claims| == 2 && rows[i].claims[0] != rows[i].claims[1] {
        var c, d :| rows[i] == PairDoc(rows[i].account, [c, d]) && c != d;
      }
    }
  }

  /** The labels of a document whose assignments are accepted are accepted exactly when sound. */
  lemma AcceptedLabels(doc: Document)
    requires AssignmentsOk(doc.assignments, AccountMap(doc.accounts), ClaimMap(doc.claims))
    ensures LabelsSound(doc) <==>
            && EdgesOk(doc.before, AccountMap(doc.accounts), AssignmentMap(doc.assignments))
            && (forall i | 0 <= i < |doc.unknown| ::
                  PairOk(doc.unknown[i], AccountMap(doc.accounts), AssignmentMap(doc.assignments)))
            && (forall i | 0 <= i < |doc.simultaneous| ::
                  PairOk(doc.simultaneous[i], AccountMap(doc.accounts), AssignmentMap(doc.assignments)))
            && !Cyclic(Given(doc))
            && Uncontradicted(Given(doc), PairSet(doc.unknown), PairSet(doc.simultaneous))
  {
    hide Binds, Lists, EdgeOk, PairOk, Uncontradicted, PairSet, Given, AssignmentsOk, AccountMap, ClaimMap, AssignmentMap;
    hide PairsBound, Twos, Closure.Chain;
    forall i | 0 <= i < |doc.before|
      ensures EdgeOk(doc.before[i], AccountMap(doc.accounts), AssignmentMap(doc.assignments)) <==>
              && doc.before[i].before != doc.before[i].after
              && Binds(doc, doc.before[i].before, doc.before[i].account)
              && Binds(doc, doc.before[i].after, doc.before[i].account)
    {
      LabelsStayInside(doc, doc.before[i], PairDoc("", []));
    }
    PairsMean(doc, doc.unknown);
    PairsMean(doc, doc.simultaneous);
    if PairsBound(doc, doc.unknown) && PairsBound(doc, doc.simultaneous) {
      ContradictionMeans(Given(doc), doc.unknown, doc.simultaneous);
    }
    assert Cyclic(Given(doc)) <==> exists a, c :: Precedes(Given(doc), Edge(a, c, c)) by {
      if account, x, n: nat :| n >= 1 && Closure.Chain(Given(doc), account, x, x, n) {
        assert Precedes(Given(doc), Edge(account, x, x));
      }
    }
  }

  // ----- What acceptance fixes

  /** The placement rule leaves one choice of account and status per position. */
  lemma PlacedOnce(accounts: Accounts, position: Option<int>, a: Option<string>, s: Status, b: Option<string>, t: Status)
    requires Placed(accounts, position, a, s) && Placed(accounts, position, b, t)
    ensures a == b && s == t
  {
  }

  lemma SamePlacement(x: Document, y: Document, claim: string)
    requires Acceptable(x) && Acceptable(y) && x.accounts == y.accounts && x.claims == y.claims
    requires claim in ClaimMap(x.claims)
    ensures claim in AssignmentMap(x.assignments) && claim in AssignmentMap(y.assignments)
    ensures claim in StatusMap(x.assignments) && claim in StatusMap(y.assignments)
    ensures AssignmentMap(x.assignments)[claim] == AssignmentMap(y.assignments)[claim]
    ensures StatusMap(x.assignments)[claim] == StatusMap(y.assignments)[claim]
  {
    AcceptedPlacement(x, claim);
    AcceptedPlacement(y, claim);
    PlacedOnce(AccountMap(x.accounts), ClaimMap(x.claims)[claim],
               AssignmentMap(x.assignments)[claim], StatusMap(x.assignments)[claim],
               AssignmentMap(y.assignments)[claim], StatusMap(y.assignments)[claim]);
  }

  lemma StatusKeys(raw: seq<AssignmentDoc>)
    ensures StatusMap(raw).Keys == AssignmentMap(raw).Keys
  {
    forall claim ensures claim in StatusMap(raw) <==> claim in AssignmentMap(raw) {
      InAssignmentMap(raw, claim);
    }
  }

  /** Two accepted documents about the same accounts and claims bind every claim alike. */
  lemma AcceptanceFixesAssignments(x: Document, y: Document)
    requires Acceptable(x) && Acceptable(y) && x.accounts == y.accounts && x.claims == y.claims
    ensures AssignmentMap(x.assignments) == AssignmentMap(y.assignments)
    ensures StatusMap(x.assignments) == StatusMap(y.assignments)
  {
    assert AssignmentMap(x.assignments).Keys == ClaimMap(x.claims).Keys == AssignmentMap(y.assignments).Keys;
    StatusKeys(x.assignments);
    StatusKeys(y.assignments);
    forall claim | claim in ClaimMap(x.claims)
      ensures claim in AssignmentMap(x.assignments) && claim in StatusMap(x.assignments)
      ensures AssignmentMap(x.assignments)[claim] == AssignmentMap(y.assignments)[claim]
      ensures StatusMap(x.assignments)[claim] == StatusMap(y.assignments)[claim]
    {
      SamePlacement(x, y, claim);
    }
    hide *;
    MapsAgree(AssignmentMap(x.assignments), AssignmentMap(y.assignments), ClaimMap(x.claims).Keys);
    MapsAgree(StatusMap(x.assignments), StatusMap(y.assignments), ClaimMap(x.claims).Keys);
  }

  lemma MapsAgree<K, V>(m: map<K, V>, n: map<K, V>, keys: set<K>)
    requires m.Keys == n.Keys == keys
    requires forall k | k in keys :: m[k] == n[k]
    ensures m == n
  {
  }

  /** Every claim of an accepted document is placed by the rule. */
  lemma AcceptedPlacement(doc: Document, claim: string)
    requires Acceptable(doc) && claim in ClaimMap(doc.claims)
    ensures claim in AssignmentMap(doc.assignments) && claim in StatusMap(doc.assignments)
    ensures Placed(AccountMap(doc.accounts), ClaimMap(doc.claims)[claim],
                   AssignmentMap(doc.assignments)[claim], StatusMap(doc.assignments)[claim])
  {
    hide EdgesOk, PairOk, Uncontradicted, Cyclic, ParentsOk, ClaimsOk, AccountsOk, Placed;
    assert claim in AssignmentMap(doc.assignments).Keys;
    InAssignmentMap(doc.assignments, claim);
    var i :| 0 <= i < |doc.assignments|
      && doc.assignments[i] == AssignmentDoc(claim, AssignmentMap(doc.assignments)[claim],
                                                StatusMap(doc.assignments)[claim]);
    assert Placed(AccountMap(doc.accounts), ClaimMap(doc.claims)[doc.assignments[i].claim],
                  doc.assignments[i].account, doc.assignments[i].status);
  }

  lemma {:induction false} AccountsNormalised(raw: seq<AccountDoc>)
    requires AccountsOk(raw)
    ensures Normalised(AccountMap(raw))
  {
    if raw != [] {
      var n := |raw| - 1;
      assert forall i | 0 <= i < n :: raw[..n][i] == raw[i];
      AccountsNormalised(raw[..n]);
      SortedDecides(raw[n].spans);
    }
  }

  /** A claim bound to an account lies in no account nested, at any depth, inside it. */
  lemma BoundToDeepest(doc: Document, claim: string, position: int, account: string, nested: string, depth: nat)
    requires Acceptable(doc) && depth >= 1
    requires claim in ClaimMap(doc.claims) && ClaimMap(doc.claims)[claim] == Some(position)
    requires claim in AssignmentMap(doc.assignments) && AssignmentMap(doc.assignments)[claim] == Some(account)
    requires nested in AccountMap(doc.accounts)
    requires Up(ParentMap(doc.accounts), nested, depth) == Some(account)
    ensures !Covered(AccountMap(doc.accounts)[nested], position)
  {
    AcceptedPlacement(doc, claim);
    ParentsAreAccounts(doc.accounts);
    AccountsNormalised(doc.accounts);
    hide Placed, Up, Covered;
    PlacedDeepest(AccountMap(doc.accounts), ParentMap(doc.accounts), position, account,
                  StatusMap(doc.assignments)[claim], nested, depth);
  }

  lemma PlacedDeepest(accounts: Accounts, parents: map<string, string>, position: int, account: string,
                      status: Status, nested: string, depth: nat)
    requires Normalised(accounts) && parents.Keys <= accounts.Keys && ParentsOk(accounts, parents)
    requires ChronologyDocument.Acyclic(parents) && depth >= 1
    requires Placed(accounts, Some(position), Some(account), status)
    requires nested in accounts && Up(parents, nested, depth) == Some(account)
    ensures !Covered(accounts[nested], position)
  {
    assert nested != account;
    DescendantNarrower(accounts, parents, nested, depth);
  }
}
