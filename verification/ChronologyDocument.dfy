/** Validation of account-chronology documents: spans, parent forest, claims, bindings and
    temporal labels.  Every reader says exactly when it accepts. */
module ChronologyDocument {
  import opened SetFacts
  import opened Sorting
  import opened Options
  import opened Spans
  import opened Closure

  datatype AccountDoc = AccountDoc(id: string, spans: seq<Span>, parent: Option<string>)

  datatype ClaimDoc = ClaimDoc(id: string, recordHash: string, position: Option<int>)

  datatype Status = Bound | Outside | Unlocatable | Unknown

  datatype AssignmentDoc = AssignmentDoc(claim: string, account: Option<string>, status: Status)

  datatype PairDoc = PairDoc(account: string, claims: seq<string>)

  datatype Document = Document(
    recordHash: string, preDigest: string, digest: string,
    accounts: seq<AccountDoc>, claims: seq<ClaimDoc>, assignments: seq<AssignmentDoc>,
    before: seq<Edge>, unknown: seq<PairDoc>, simultaneous: seq<PairDoc>)

  type Accounts = map<string, seq<Span>>
  type Assignments = map<string, Option<string>>

  // ----- Spans

  ghost predicate SpansOk(raw: seq<Span>) {
    && raw != []
    && (forall i | 0 <= i < |raw| :: 0 <= raw[i].start < raw[i].end)
    && Disjoint(raw)
  }

  /** Sorted by start, touching neighbours are enough: no neighbours overlap, no pair does. */
  ghost predicate NeighboursApart(s: seq<Span>) {
    forall i | 0 < i < |s| :: s[i - 1].end <= s[i].start
  }

  lemma {:induction false} ChainApart(s: seq<Span>, i: nat, j: nat)
    requires NeighboursApart(s) && i < j < |s|
    requires forall k | 0 <= k < |s| :: s[k].start < s[k].end
    ensures s[i].end <= s[j].start
    decreases j
  {
    if i + 1 < j {
      ChainApart(s, i, j - 1);
    }
  }

  lemma NeighboursDecide(s: seq<Span>)
    requires Ordered(s, Before)
    requires forall k | 0 <= k < |s| :: s[k].start < s[k].end
    ensures NeighboursApart(s) <==> Disjoint(s)
  {
    if NeighboursApart(s) {
      forall i, j | 0 <= i < j < |s| ensures Apart(s[i], s[j]) {
        ChainApart(s, i, j);
      }
    }
    if Disjoint(s) {
      forall i | 0 < i < |s| ensures s[i - 1].end <= s[i].start {
        assert Before(s[i - 1], s[i]) && Apart(s[i - 1], s[i]);
      }
    }
  }

  lemma OnceCounted(s: seq<Span>, i: nat)
    requires i < |s| && forall k | 0 <= k < |s| && k != i :: s[k] != s[i]
    ensures multiset(s)[s[i]] == 1
  {
    assert s == s[..i] + [s[i]] + s[i + 1..];
    assert s[i] !in s[..i] && s[i] !in s[i + 1..];
  }

  lemma TwiceCounted(s: seq<Span>, i: nat, j: nat)
    requires i < j < |s| && s[i] == s[j]
    ensures multiset(s)[s[i]] >= 2
  {
    assert s == s[..j] + s[j..];
    assert s[i] in multiset(s[..j]) by {
      assert s[..j][i] == s[i];
    }
    assert s[i] in multiset(s[j..]) by {
      assert s[j..][0] == s[i];
    }
  }

  /** For non-empty spans disjointness does not depend on the order of the list. */
  lemma DisjointByContent(s: seq<Span>)
    requires forall k | 0 <= k < |s| :: s[k].start < s[k].end
    ensures Disjoint(s) <==>
            && (forall x | x in s :: multiset(s)[x] == 1)
            && forall x, y | x in s && y in s && x != y :: Apart(x, y)
  {
    if Disjoint(s) {
      forall x | x in s ensures multiset(s)[x] == 1 {
        var i :| 0 <= i < |s| && s[i] == x;
        forall k | 0 <= k < |s| && k != i ensures s[k] != s[i] {
          assert Apart(s[if k < i then k else i], s[if k < i then i else k]);
        }
        OnceCounted(s, i);
      }
    } else {
      var i, j :| 0 <= i < j < |s| && !Apart(s[i], s[j]);
      if s[i] == s[j] {
        TwiceCounted(s, i, j);
      }
    }
  }

  lemma SortedDecides(raw: seq<Span>)
    requires forall k | 0 <= k < |raw| :: raw[k].start < raw[k].end
    ensures NeighboursApart(Sorted(raw)) <==> Disjoint(raw)
    ensures Disjoint(Sorted(raw)) <==> Disjoint(raw)
  {
    var sorted := Sorted(raw);
    assert forall k | 0 <= k < |sorted| :: sorted[k] in raw;
    DisjointByContent(raw);
    DisjointByContent(sorted);
    NeighboursDecide(sorted);
  }

  method NormaliseSpans(raw: seq<Span>) returns (spans: Option<seq<Span>>)
    ensures spans.Some? <==> SpansOk(raw)
    ensures spans.Some? ==> spans.value == Sorted(raw) && Disjoint(spans.value)
  {
    hide Disjoint, Sorted, NeighboursApart;
    if |raw| == 0 {
      return None;
    }
    for i := 0 to |raw|
      invariant forall k | 0 <= k < i :: 0 <= raw[k].start < raw[k].end
    {
      if raw[i].start < 0 || raw[i].start >= raw[i].end {
        return None;
      }
    }
    var sorted := Sorted(raw);
    SortedDecides(raw);
    RawOk(raw);
    var apart := NeighboursCheck(sorted);
    hide *;
    spans := if apart then Some(sorted) else None;
  }

  lemma RawOk(raw: seq<Span>)
    requires raw != [] && forall i | 0 <= i < |raw| :: 0 <= raw[i].start < raw[i].end
    ensures SpansOk(raw) <==> Disjoint(raw)
  {
  }

  /** The pass over neighbouring spans. */
  method NeighboursCheck(sorted: seq<Span>) returns (apart: bool)
    requires sorted != []
    ensures apart <==> NeighboursApart(sorted)
  {
    for i := 1 to |sorted|
      invariant forall k | 0 < k < i && k < |sorted| :: sorted[k - 1].end <= sorted[k].start
    {
      if sorted[i].start < sorted[i - 1].end {
        return false;
      }
    }
    return true;
  }

  // ----- Accounts

  ghost predicate AccountsOk(raw: seq<AccountDoc>) {
    && (forall i, j | 0 <= i < j < |raw| :: raw[i].id != raw[j].id)
    && forall i | 0 <= i < |raw| :: SpansOk(raw[i].spans)
  }

  /** Account id to sorted spans. */
  ghost function AccountMap(raw: seq<AccountDoc>): Accounts {
    if raw == [] then map[]
    else
      var last := raw[|raw| - 1];
      AccountMap(raw[..|raw| - 1])[last.id := Sorted(last.spans)]
  }

  /** Account id to parent id, for accounts that name one. */
  ghost function ParentMap(raw: seq<AccountDoc>): map<string, string> {
    if raw == [] then map[]
    else
      var last, rest := raw[|raw| - 1], ParentMap(raw[..|raw| - 1]);
      if last.parent.Some? then rest[last.id := last.parent.value] else rest
  }

  lemma {:induction false} ParentsAreAccounts(raw: seq<AccountDoc>)
    ensures ParentMap(raw).Keys <= AccountMap(raw).Keys
  {
    if raw != [] {
      ParentsAreAccounts(raw[..|raw| - 1]);
    }
  }

  /** Every account's spans are in order and disjoint. */
  ghost predicate Normalised(accounts: Accounts) {
    forall id | id in accounts :: Disjoint(accounts[id])
  }

  lemma {:induction false} InAccountMap(raw: seq<AccountDoc>, id: string)
    ensures id in AccountMap(raw) <==> exists i | 0 <= i < |raw| :: raw[i].id == id
  {
    if raw != [] {
      var n := |raw| - 1;
      InAccountMap(raw[..n], id);
      if i :| 0 <= i < |raw| && raw[i].id == id {
        assert i == n || raw[..n][i].id == id;
      }
      if i :| 0 <= i < n && raw[..n][i].id == id {
        assert raw[i].id == id;
      }
    }
  }

  lemma ReadAccountsStep(raw: seq<AccountDoc>, i: nat)
    requires i < |raw| && AccountsOk(raw[..i])
    ensures AccountsOk(raw[..i + 1]) <==> raw[i].id !in AccountMap(raw[..i]) && SpansOk(raw[i].spans)
    ensures AccountsOk(raw) ==> AccountsOk(raw[..i + 1])
    ensures AccountMap(raw[..i + 1]) == AccountMap(raw[..i])[raw[i].id := Sorted(raw[i].spans)]
    ensures ParentMap(raw[..i + 1]) == if raw[i].parent.Some?
                                       then ParentMap(raw[..i])[raw[i].id := raw[i].parent.value]
                                       else ParentMap(raw[..i])
  {
    hide SpansOk;
    var next := raw[..i + 1];
    assert next[..i] == raw[..i] && next[i] == raw[i];
    InAccountMap(raw[..i], raw[i].id);
    if raw[i].id !in AccountMap(raw[..i]) && SpansOk(raw[i].spans) {
      forall k, l | 0 <= k < l < |next| ensures next[k].id != next[l].id {
        assert raw[..i][k] == next[k];
        assert l == i || raw[..i][l] == next[l];
      }
      forall k | 0 <= k < |next| ensures SpansOk(next[k].spans) {
        assert k == i || raw[..i][k] == next[k];
      }
    }
  }

  method ReadAccounts(raw: seq<AccountDoc>) returns (ok: bool, accounts: Accounts, parents: map<string, string>)
    ensures ok <==> AccountsOk(raw)
    ensures ok ==> accounts == AccountMap(raw) && parents == ParentMap(raw) && Normalised(accounts)
  {
    accounts, parents := map[], map[];
    assert AccountsOk(raw[..0]);
    hide AccountsOk, AccountMap, ParentMap, SpansOk, Sorted, Disjoint;
    for i := 0 to |raw|
      invariant AccountsOk(raw[..i])
      invariant accounts == AccountMap(raw[..i]) && parents == ParentMap(raw[..i]) && Normalised(accounts)
    {
      ReadAccountsStep(raw, i);
      if raw[i].id in accounts {
        return false, accounts, parents;
      }
      var spans := NormaliseSpans(raw[i].spans);
      if spans.None? {
        return false, accounts, parents;
      }
      accounts := accounts[raw[i].id := spans.value];
      if raw[i].parent.Some? {
        parents := parents[raw[i].id := raw[i].parent.value];
      }
    }
    assert raw[..|raw|] == raw;
    ok := true;
  }

  // ----- The parent forest

  ghost predicate Inside(child: seq<Span>, parent: seq<Span>) {
    forall c | c in child :: exists p | p in parent :: p.start <= c.start && c.end <= p.end
  }

  ghost predicate ParentsOk(accounts: Accounts, parents: map<string, string>)
    requires parents.Keys <= accounts.Keys
  {
    forall child | child in parents ::
      && parents[child] in accounts && parents[child] != child
      && Inside(accounts[child], accounts[parents[child]])
  }

  method CheckParents(accounts: Accounts, parents: map<string, string>) returns (ok: bool)
    requires parents.Keys <= accounts.Keys
    ensures ok <==> ParentsOk(accounts, parents)
  {
    var todo := parents.Keys;
    while todo != {}
      invariant todo <= parents.Keys
      invariant forall child | child in parents && child !in todo ::
                  && parents[child] in accounts && parents[child] != child
                  && Inside(accounts[child], accounts[parents[child]])
    {
      var child :| child in todo;
      var parent := parents[child];
      if parent !in accounts || parent == child {
        return false;
      }
      if exists c | c in accounts[child] :: !exists p | p in accounts[parent] :: p.start <= c.start && c.end <= p.end {
        return false;
      }
      todo := todo - {child};
    }
    ok := true;
  }

  /** The n-th ancestor, while there is one. */
  ghost function Up(parents: map<string, string>, id: string, n: nat): Option<string> {
    if n == 0 then Some(id)
    else
      var below := Up(parents, id, n - 1);
      if below.Some? && below.value in parents then Some(parents[below.value]) else None
  }

  ghost predicate Acyclic(parents: map<string, string>) {
    forall id, n: nat | n >= 1 :: Up(parents, id, n) != Some(id)
  }

  lemma {:induction false} UpAdds(parents: map<string, string>, id: string, m: nat, n: nat)
    requires Up(parents, id, m).Some?
    ensures Up(parents, id, m + n) == Up(parents, Up(parents, id, m).value, n)
  {
    if n > 0 {
      UpAdds(parents, id, m, n - 1);
    }
  }

  lemma {:induction false} UpEnds(parents: map<string, string>, id: string, m: nat, n: nat)
    requires m <= n && Up(parents, id, m).None?
    ensures Up(parents, id, n).None?
    decreases n
  {
    if m < n {
      UpEnds(parents, id, m, n - 1);
    }
  }

  /** From a node on a cycle there is always a further ancestor. */
  lemma {:induction false} CycleNeverEnds(parents: map<string, string>, id: string, period: nat, n: nat)
    requires period >= 1 && Up(parents, id, period) == Some(id)
    ensures Up(parents, id, n).Some?
    decreases n
  {
    if n >= period {
      CycleNeverEnds(parents, id, period, n - period);
      UpAdds(parents, id, period, n - period);
    } else if Up(parents, id, n).None? {
      UpEnds(parents, id, n, period);
    }
  }

  function ParentOf(parents: map<string, string>, id: string): Option<string> {
    if id in parents then Some(parents[id]) else None
  }

  ghost predicate RunsOut(parents: map<string, string>, id: string) {
    exists n: nat :: Up(parents, id, n).None?
  }

  /** Coming back to an ancestor already seen is a cycle. */
  lemma RevisitIsCycle(parents: map<string, string>, start: string, j: nat, k: nat)
    requires j < k && Up(parents, start, j).Some? && Up(parents, start, k) == Up(parents, start, j)
    ensures !Acyclic(parents)
  {
    UpAdds(parents, start, j, k - j);
  }

  lemma UpStep(parents: map<string, string>, id: string, k: nat)
    ensures Up(parents, id, 0) == Some(id)
    ensures Up(parents, id, k).Some? ==> Up(parents, id, k + 1) == ParentOf(parents, Up(parents, id, k).value)
    ensures ParentOf(parents, id).Some? ==> ParentOf(parents, id).value in parents.Values
  {
  }

  /** `seen` holds only the first k ancestors of `start`. */
  ghost predicate Visited(parents: map<string, string>, start: string, seen: set<string>, k: nat) {
    forall x | x in seen :: exists j: nat :: j <= k && Up(parents, start, j) == Some(x)
  }

  /** The inner loop: walk up from `start`, refusing to visit an account twice. */
  method Walk(parents: map<string, string>, start: string) returns (ok: bool)
    ensures ok ==> RunsOut(parents, start)
    ensures !ok ==> !Acyclic(parents)
  {
    hide Up, ParentOf, Acyclic;
    var seen, parent := {start}, ParentOf(parents, start);
    ghost var k: nat := 0;
    ghost var all := {start} + parents.Values;
    UpStep(parents, start, 0);
    while parent.Some?
      invariant Up(parents, start, k + 1) == parent && Up(parents, start, k).Some?
      invariant seen <= all && (parent.Some? ==> parent.value in all)
      invariant Visited(parents, start, seen, k)
      decreases |all - seen|, parent.Some?
    {
      if parent.value in seen {
        ghost var j: nat :| j <= k && Up(parents, start, j) == parent;
        RevisitIsCycle(parents, start, j, k + 1);
        return false;
      }
      Shrinks(all, seen, {parent.value});
      UpStep(parents, start, k + 1);
      UpStep(parents, parent.value, 0);
      seen := seen + {parent.value};
      k := k + 1;
      parent := ParentOf(parents, parent.value);
    }
    ok := true;
  }

  method CheckForest(parents: map<string, string>) returns (ok: bool)
    ensures ok <==> Acyclic(parents)
  {
    var todo := parents.Keys;
    while todo != {}
      invariant forall id | id in parents && id !in todo :: RunsOut(parents, id)
    {
      var id :| id in todo;
      var ends := Walk(parents, id);
      if !ends {
        return false;
      }
      todo := todo - {id};
    }
    forall id, n: nat | n >= 1 ensures Up(parents, id, n) != Some(id) {
      if Up(parents, id, n) == Some(id) {
        if id !in parents {
          assert Up(parents, id, 1).None? by {
            assert Up(parents, id, 0) == Some(id);
          }
          UpEnds(parents, id, 1, n);
        } else {
          var m: nat :| Up(parents, id, m).None?;
          CycleNeverEnds(parents, id, n, m);
        }
      }
    }
    ok := true;
  }

  // ----- Nesting: a child is never wider than its parent

  lemma InsideNarrower(child: seq<Span>, parent: seq<Span>)
    requires Disjoint(child) && Disjoint(parent) && Inside(child, parent)
    ensures Points(child) <= Points(parent)
    ensures Width(child) <= Width(parent)
  {
    forall x | x in Points(child) ensures x in Points(parent) {
      var c :| c in child && c.Has(x);
      var p :| p in parent && p.start <= c.start && c.end <= p.end;
      assert p.Has(x);
    }
    WidthIsSize(child);
    WidthIsSize(parent);
    SubsetSize(Points(child), Points(parent));
  }

  lemma {:induction false} DescendantNarrower(accounts: Accounts, parents: map<string, string>, id: string, n: nat)
    requires Normalised(accounts) && parents.Keys <= accounts.Keys && ParentsOk(accounts, parents)
    requires id in accounts && Up(parents, id, n).Some?
    ensures Up(parents, id, n).value in accounts
    ensures Points(accounts[id]) <= Points(accounts[Up(parents, id, n).value])
    ensures Width(accounts[id]) <= Width(accounts[Up(parents, id, n).value])
  {
    if n > 0 {
      DescendantNarrower(accounts, parents, id, n - 1);
      var below := Up(parents, id, n - 1).value;
      InsideNarrower(accounts[below], accounts[parents[below]]);
    }
  }

  // ----- Claims

  type Claims = map<string, Option<int>>

  ghost predicate ClaimsOk(raw: seq<ClaimDoc>, recordHash: string) {
    && (forall i, j | 0 <= i < j < |raw| :: raw[i].id != raw[j].id)
    && forall i | 0 <= i < |raw| ::
         raw[i].recordHash == recordHash && (raw[i].position.Some? ==> raw[i].position.value >= 0)
  }

  ghost function ClaimMap(raw: seq<ClaimDoc>): Claims {
    if raw == [] then map[]
    else ClaimMap(raw[..|raw| - 1])[raw[|raw| - 1].id := raw[|raw| - 1].position]
  }

  lemma {:induction false} InClaimMap(raw: seq<ClaimDoc>, id: string)
    ensures id in ClaimMap(raw) <==> exists i | 0 <= i < |raw| :: raw[i].id == id
  {
    if raw != [] {
      var n := |raw| - 1;
      InClaimMap(raw[..n], id);
      if i :| 0 <= i < |raw| && raw[i].id == id {
        assert i == n || raw[..n][i].id == id;
      }
      if i :| 0 <= i < n && raw[..n][i].id == id {
        assert raw[i].id == id;
      }
    }
  }

  lemma ReadClaimsStep(raw: seq<ClaimDoc>, i: nat, recordHash: string)
    requires i < |raw| && ClaimsOk(raw[..i], recordHash)
    ensures ClaimsOk(raw[..i + 1], recordHash) <==>
            && raw[i].id !in ClaimMap(raw[..i]) && raw[i].recordHash == recordHash
            && (raw[i].position.Some? ==> raw[i].position.value >= 0)
    ensures ClaimsOk(raw, recordHash) ==> ClaimsOk(raw[..i + 1], recordHash)
    ensures ClaimMap(raw[..i + 1]) == ClaimMap(raw[..i])[raw[i].id := raw[i].position]
  {
    var next := raw[..i + 1];
    assert next[..i] == raw[..i] && next[i] == raw[i];
    InClaimMap(raw[..i], raw[i].id);
    if raw[i].id !in ClaimMap(raw[..i]) {
      forall k, l | 0 <= k < l < |next| ensures next[k].id != next[l].id {
        assert raw[..i][k] == next[k];
        assert l == i || raw[..i][l] == next[l];
      }
    }
    assert forall k | 0 <= k < i :: next[k] == raw[..i][k];
  }

  method ReadClaims(raw: seq<ClaimDoc>, recordHash: string) returns (ok: bool, claims: Claims)
    ensures ok <==> ClaimsOk(raw, recordHash)
    ensures ok ==> claims == ClaimMap(raw)
  {
    claims := map[];
    assert ClaimsOk(raw[..0], recordHash);
    hide ClaimsOk, ClaimMap;
    for i := 0 to |raw|
      invariant ClaimsOk(raw[..i], recordHash) && claims == ClaimMap(raw[..i])
    {
      ReadClaimsStep(raw, i, recordHash);
      if raw[i].id in claims || raw[i].recordHash != recordHash
         || (raw[i].position.Some? && raw[i].position.value < 0)
      {
        return false, claims;
      }
      claims := claims[raw[i].id := raw[i].position];
    }
    assert raw[..|raw|] == raw;
    ok := true;
  }
}
