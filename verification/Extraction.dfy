/** The iterate-and-deduplicate extraction loops, against a model that may answer anything. */
module Extraction {
  import opened Options
  import opened Normalising
  import opened Searchable

  const ITERATION_MAX := 40
  const ITERATION_MIN_NEW := 2

  /** One answer: the items it lists and whether the model calls the chunk finished. */
  datatype Reply<T> = Reply(items: seq<T>, complete: bool)

  /** Everything the first n calls returned, in order. */
  ghost function Stream<T>(reply: nat -> Reply<T>, n: nat): seq<T> {
    if n == 0 then [] else Stream(reply, n - 1) + reply(n - 1).items
  }

  ghost function Keys<T, K>(s: seq<T>, key: T -> K): set<K> {
    set x | x in s :: key(x)
  }

  /** A list without the items whose key came earlier. */
  ghost function Firsts<T, K>(s: seq<T>, key: T -> K): (r: seq<T>) {
    if s == [] then []
    else
      var before := Firsts(s[..|s| - 1], key);
      if key(s[|s| - 1]) in Keys(before, key) then before else before + [s[|s| - 1]]
  }

  lemma FirstsStep<T, K>(s: seq<T>, x: T, key: T -> K)
    ensures Firsts(s + [x], key) ==
            if key(x) in Keys(Firsts(s, key), key) then Firsts(s, key) else Firsts(s, key) + [x]
  {
    assert (s + [x])[..|s|] == s;
  }

  /** Position p holds the first item of its key. */
  ghost predicate IsFirst<T, K>(s: seq<T>, key: T -> K, p: nat) {
    p < |s| && forall q | 0 <= q < p :: key(s[q]) != key(s[p])
  }

  /** The positions of the first items, in order. */
  ghost function FirstPositions<T, K>(s: seq<T>, key: T -> K): (at: seq<nat>)
    ensures forall i | 0 <= i < |at| :: at[i] < |s|
  {
    if s == [] then []
    else
      var before := FirstPositions(s[..|s| - 1], key);
      if IsFirst(s, key, |s| - 1) then before + [|s| - 1] else before
  }

  lemma {:induction false} KeysKept<T, K>(s: seq<T>, key: T -> K)
    ensures Keys(Firsts(s, key), key) == Keys(s, key)
  {
    if s != [] {
      var init, last := s[..|s| - 1], s[|s| - 1];
      KeysKept(init, key);
      assert s == init + [last];
      FirstsStep(init, last, key);
      KeysStep(init, last, key);
      KeysStep(Firsts(init, key), last, key);
      assert key(last) in Keys(init, key) ==> Keys(init, key) + {key(last)} == Keys(init, key);
    }
  }

  lemma KeysStep<T, K>(r: seq<T>, x: T, key: T -> K)
    ensures Keys(r + [x], key) == Keys(r, key) + {key(x)}
  {
    forall k | k in Keys(r, key) + {key(x)} ensures k in Keys(r + [x], key) {
      assert x in r + [x] && forall y | y in r :: y in r + [x];
    }
  }

  /** Deduplication keeps exactly the first item of every key, in the order of the stream. */
  lemma {:induction false} FirstsAreFirst<T, K>(s: seq<T>, key: T -> K)
    ensures var at, r := FirstPositions(s, key), Firsts(s, key);
            && |r| == |at|
            && (forall i | 0 <= i < |r| :: r[i] == s[at[i]])
            && (forall i, j | 0 <= i < j < |at| :: at[i] < at[j])
    ensures forall p: nat :: p in FirstPositions(s, key) <==> IsFirst(s, key, p)
  {
    if s != [] {
      var init, last := s[..|s| - 1], s[|s| - 1];
      FirstsAreFirst(init, key);
      KeysKept(init, key);
      forall p: nat | p < |init| ensures IsFirst(s, key, p) <==> IsFirst(init, key, p) {
        assert forall q | 0 <= q <= p :: s[q] == init[q];
      }
      LastIsFirst(s, key);
    }
  }

  lemma LastIsFirst<T, K>(s: seq<T>, key: T -> K)
    requires s != []
    ensures IsFirst(s, key, |s| - 1) <==> key(s[|s| - 1]) !in Keys(s[..|s| - 1], key)
  {
    var init := s[..|s| - 1];
    assert forall q | 0 <= q < |init| :: s[q] == init[q] && init[q] in init;
  }

  /** No two kept items share a key, and every item of the stream has its key kept. */
  lemma FirstsCoverKeys<T, K>(s: seq<T>, key: T -> K)
    ensures forall i, j | 0 <= i < j < |Firsts(s, key)| :: key(Firsts(s, key)[i]) != key(Firsts(s, key)[j])
    ensures forall x | x in s :: exists y :: y in Firsts(s, key) && key(y) == key(x)
  {
    var at, r := FirstPositions(s, key), Firsts(s, key);
    FirstsAreFirst(s, key);
    KeysKept(s, key);
    forall i, j | 0 <= i < j < |r| ensures key(r[i]) != key(r[j]) {
      assert at[j] in at && IsFirst(s, key, at[j]);
      assert r[i] == s[at[i]] && r[j] == s[at[j]];
    }
    forall x | x in s ensures exists y :: y in r && key(y) == key(x) {
      assert key(x) in Keys(s, key);
    }
  }

  // ----- Rounds

  /** What call n adds that was not known before it. */
  ghost function NewIn<T, K>(reply: nat -> Reply<T>, key: T -> K, n: nat): int {
    |Firsts(Stream(reply, n + 1), key)| - |Firsts(Stream(reply, n), key)|
  }

  /** Call n ends its chunk: the model says so, or it added fewer than two items. */
  ghost predicate Stops<T, K>(reply: nat -> Reply<T>, key: T -> K, n: nat) {
    reply(n).complete || NewIn(reply, key, n) < 2
  }

  /** The calls from start to end are one chunk's rounds: none before the last stops the chunk, and
      there are forty unless the last one does. */
  ghost predicate Rounds<T, K>(reply: nat -> Reply<T>, key: T -> K, start: nat, end: nat) {
    && start < end <= start + 40
    && (forall n | start <= n < end - 1 :: !Stops(reply, key, n))
    && (end < start + 40 ==> Stops(reply, key, end - 1))
  }

  /** ends[c] is the number of calls made when chunk c is done. */
  ghost predicate Schedule<T, K>(reply: nat -> Reply<T>, key: T -> K, ends: seq<nat>) {
    ends == []
    || (&& Schedule(reply, key, ends[..|ends| - 1])
        && Rounds(reply, key, Calls(ends[..|ends| - 1]), ends[|ends| - 1]))
  }

  function Calls(ends: seq<nat>): nat {
    if ends == [] then 0 else ends[|ends| - 1]
  }

  /** One round: the items of a reply are merged, new ones only. */
  method Merge<T, K(==)>(key: T -> K, items: seq<T>, before: seq<T>, known: set<K>, ghost s: seq<T>)
    returns (merged: seq<T>, seen: set<K>, added: nat)
    requires before == Firsts(s, key) && known == Keys(before, key)
    ensures merged == Firsts(s + items, key) && seen == Keys(merged, key)
    ensures added == |merged| - |before|
  {
    merged, seen, added := before, known, 0;
    assert s + items[..0] == s;
    for j := 0 to |items|
      invariant merged == Firsts(s + items[..j], key) && seen == Keys(merged, key)
      invariant added == |merged| - |before|
    {
      assert s + items[..j + 1] == (s + items[..j]) + [items[j]];
      FirstsStep(s + items[..j], items[j], key);
      if key(items[j]) !in seen {
        KeysStep(merged, items[j], key);
        seen, merged, added := seen + {key(items[j])}, merged + [items[j]], added + 1;
      }
    }
    assert items[..|items|] == items;
  }

  /** One chunk: ask until the model stops giving, at most forty times. */
  method AskChunk<T, K(==)>(key: T -> K, reply: nat -> Reply<T>, start: nat, before: seq<T>, known: set<K>)
    returns (merged: seq<T>, seen: set<K>, calls: nat)
    requires before == Firsts(Stream(reply, start), key) && known == Keys(before, key)
    ensures Rounds(reply, key, start, calls)
    ensures merged == Firsts(Stream(reply, calls), key) && seen == Keys(merged, key)
  {
    hide Firsts, Keys, Rounds;
    merged, seen, calls := before, known, start;
    for round := 0 to ITERATION_MAX
      invariant calls == start + round
      invariant merged == Firsts(Stream(reply, calls), key) && seen == Keys(merged, key)
      invariant Unstopped(reply, key, start, calls)
    {
      var result := reply(calls);
      var added: nat;
      merged, seen, added := Merge(key, result.items, merged, seen, Stream(reply, calls));
      calls := calls + 1;
      if result.complete || added < ITERATION_MIN_NEW {
        RoundsEnd(reply, key, start, calls);
        return;
      }
    }
    RoundsEnd(reply, key, start, calls);
  }

  ghost predicate Unstopped<T, K>(reply: nat -> Reply<T>, key: T -> K, start: nat, end: nat) {
    forall n | start <= n < end :: !Stops(reply, key, n)
  }

  lemma RoundsEnd<T, K>(reply: nat -> Reply<T>, key: T -> K, start: nat, end: nat)
    requires start < end <= start + 40 && Unstopped(reply, key, start, end - 1)
    requires end < start + 40 ==> Stops(reply, key, end - 1)
    ensures Rounds(reply, key, start, end)
  {
  }

  /** Both passes: every chunk is asked again until it stops giving. */
  method Gather<T, K(==)>(key: T -> K, chunks: nat, reply: nat -> Reply<T>)
    returns (merged: seq<T>, ends: seq<nat>)
    ensures |ends| == chunks && Schedule(reply, key, ends)
    ensures merged == Firsts(Stream(reply, Calls(ends)), key)
  {
    hide Rounds;
    merged, ends := [], [];
    var seen: set<K>, calls := {}, 0;
    for chunk := 0 to chunks
      invariant |ends| == chunk && Schedule(reply, key, ends) && calls == Calls(ends)
      invariant merged == Firsts(Stream(reply, calls), key) && seen == Keys(merged, key)
    {
      merged, seen, calls := AskChunk(key, reply, calls, merged, seen);
      assert (ends + [calls])[..|ends|] == ends;
      ends := ends + [calls];
    }
  }

  /** What has been merged is never dropped or reordered. */
  lemma {:induction false} MergedGrows<T, K>(s: seq<T>, t: seq<T>, key: T -> K)
    ensures Firsts(s, key) <= Firsts(s + t, key)
  {
    if t == [] {
      assert s + t == s;
    } else {
      MergedGrows(s, t[..|t| - 1], key);
      assert s + t == (s + t[..|t| - 1]) + [t[|t| - 1]];
      FirstsStep(s + t[..|t| - 1], t[|t| - 1], key);
    }
  }

  /** Rounds that did not stop their chunk each added at least two. */
  lemma {:induction false} RoundsAdd<T, K>(reply: nat -> Reply<T>, key: T -> K, start: nat, end: nat)
    requires start <= end && forall n | start <= n < end :: !Stops(reply, key, n)
    ensures |Firsts(Stream(reply, end), key)| >= |Firsts(Stream(reply, start), key)| + 2 * (end - start)
    decreases end
  {
    hide Firsts, Stream;
    if start < end {
      RoundsAdd(reply, key, start, end - 1);
      assert !Stops(reply, key, end - 1);
    }
  }

  /** The number of calls: at least one and at most forty per chunk, and beyond one per
      chunk at most one for every two items merged. */
  lemma {:induction false} CallsBounded<T, K>(reply: nat -> Reply<T>, key: T -> K, ends: seq<nat>)
    requires Schedule(reply, key, ends)
    ensures |ends| <= Calls(ends) <= 40 * |ends|
    ensures 2 * Calls(ends) <= 2 * |ends| + |Firsts(Stream(reply, Calls(ends)), key)|
  {
    hide Firsts, Rounds, Stream;
    if ends != [] {
      var init, last := ends[..|ends| - 1], ends[|ends| - 1];
      CallsBounded(reply, key, init);
      ChunkCost(reply, key, Calls(init), last);
    }
  }

  lemma ChunkCost<T, K>(reply: nat -> Reply<T>, key: T -> K, start: nat, end: nat)
    requires Rounds(reply, key, start, end)
    ensures 2 * (end - 1 - start) <= |Firsts(Stream(reply, end), key)| - |Firsts(Stream(reply, start), key)|
    ensures start + 1 <= end <= start + 40
  {
    hide Firsts;
    RoundsAdd(reply, key, start, end - 1);
    MergedGrows(Stream(reply, end - 1), reply(end - 1).items, key);
  }

  /** The stopping rule leaves no choice: one stream of answers has one schedule. */
  lemma {:induction false} ScheduleIsUnique<T, K>(reply: nat -> Reply<T>, key: T -> K, a: seq<nat>, b: seq<nat>)
    requires Schedule(reply, key, a) && Schedule(reply, key, b) && |a| == |b|
    ensures a == b
  {
    if a != [] {
      ScheduleIsUnique(reply, key, a[..|a| - 1], b[..|b| - 1]);
      var x: nat, y: nat := a[|a| - 1] - 1, b[|b| - 1] - 1;
      assert x < y ==> !Stops(reply, key, x);
      assert y < x ==> !Stops(reply, key, y);
    }
  }

  // ----- The identity of a claim

  datatype Chain = Chain(originKind: Option<string>, originRef: Option<string>, origin: Option<string>)

  datatype Claim = Claim(
    content: Option<string>, claimType: Option<string>, attestation: Option<string>, speaker: Option<string>,
    chain: Option<Chain>)

  datatype ClaimKey = ClaimKey(content: string, claimType: string, attestation: string, speaker: string, root: string)

  function OrEmpty(s: Option<string>): string {
    if s.Some? then s.value else ""
  }

  /** Trimmed and lowercased. */
  function Normal(s: Option<string>): string {
    LoweredWhole(Stripped(OrEmpty(s)))
  }

  /** The anonymous source a chain starts from, if it starts from one. */
  function AnonymousRoot(chain: Option<Chain>): string {
    if chain.Some? && chain.value.originKind == Some("anonymous") then
      Normal(if OrEmpty(chain.value.originRef) != "" then chain.value.originRef else chain.value.origin)
    else ""
  }

  function KeyOf(c: Claim): ClaimKey {
    ClaimKey(Normal(c.content), OrEmpty(c.claimType), OrEmpty(c.attestation), Normal(c.speaker), AnonymousRoot(c.chain))
  }

  /** The text of a field that may be missing. */
  ghost predicate Reads(field: Option<string>, text: string) {
    field == Some(text) || (field.None? && text == "")
  }

  ghost predicate SameText(a: Option<string>, b: Option<string>) {
    forall x, y | Reads(a, x) && Reads(b, y) :: x == y
  }

  /** The same text up to surrounding space and case. */
  ghost predicate Alike(x: string, y: string) {
    LoweredWhole(Stripped(x)) == LoweredWhole(Stripped(y))
  }

  ghost predicate SameWords(a: Option<string>, b: Option<string>) {
    forall x, y | Reads(a, x) && Reads(b, y) :: Alike(x, y)
  }

  /** The source a chain names: its reference where that says something and its origin otherwise,
      of an anonymous chain; nothing of any other. */
  ghost predicate Names(chain: Option<Chain>, source: string) {
    if chain.None? || chain.value.originKind != Some("anonymous") then source == ""
    else if chain.value.originRef.None? || chain.value.originRef == Some("") then Reads(chain.value.origin, source)
    else Reads(chain.value.originRef, source)
  }

  ghost predicate SameSource(a: Option<Chain>, b: Option<Chain>) {
    forall x, y | Names(a, x) && Names(b, y) :: Alike(x, y)
  }

  lemma TextOf(field: Option<string>) returns (text: string)
    ensures forall x :: Reads(field, x) <==> x == text
    ensures OrEmpty(field) == text
  {
    text := if field == None then "" else field.value;
  }

  lemma SourceOf(chain: Option<Chain>) returns (source: string)
    ensures forall x :: Names(chain, x) <==> x == source
    ensures AnonymousRoot(chain) == LoweredWhole(Stripped(source))
  {
    assert LoweredWhole(Stripped("")) == "";
    source := "";
    if chain.Some? && chain.value.originKind == Some("anonymous") {
      hide LoweredWhole, Stripped;
      var reference := TextOf(chain.value.originRef);
      var origin := TextOf(chain.value.origin);
      source := if reference != "" then reference else origin;
    }
  }

  lemma SameRoot(a: Option<Chain>, b: Option<Chain>)
    ensures AnonymousRoot(a) == AnonymousRoot(b) <==> SameSource(a, b)
  {
    hide AnonymousRoot, Names, LoweredWhole, Stripped;
    var x := SourceOf(a);
    var y := SourceOf(b);
    assert SameSource(a, b) <==> Alike(x, y);
  }

  lemma SameField(a: Option<string>, b: Option<string>)
    ensures OrEmpty(a) == OrEmpty(b) <==> SameText(a, b)
    ensures Normal(a) == Normal(b) <==> SameWords(a, b)
  {
    hide Reads, OrEmpty, LoweredWhole, Stripped;
    var x := TextOf(a);
    var y := TextOf(b);
    assert Reads(a, x) && Reads(b, y);
    assert SameText(a, b) <==> x == y;
    assert SameWords(a, b) <==> Alike(x, y);
  }

  /** Two claims are one to the loop exactly when these five parts agree. */
  lemma SameKey(c: Claim, d: Claim)
    ensures KeyOf(c) == KeyOf(d) <==>
            && SameWords(c.content, d.content) && SameText(c.claimType, d.claimType)
            && SameText(c.attestation, d.attestation) && SameWords(c.speaker, d.speaker)
            && SameSource(c.chain, d.chain)
  {
    hide SameSource, AnonymousRoot, SameText, SameWords, OrEmpty, Normal;
    SameRoot(c.chain, d.chain);
    SameField(c.content, d.content);
    SameField(c.claimType, d.claimType);
    SameField(c.attestation, d.attestation);
    SameField(c.speaker, d.speaker);
  }

  /** Every combination of those five parts that a pass saw is kept. */
  lemma KeyPartsAreKept(reply: nat -> Reply<Claim>, ends: seq<nat>, c: Claim)
    requires Schedule(reply, KeyOf, ends) && c in Stream(reply, Calls(ends))
    ensures exists d :: d in Firsts(Stream(reply, Calls(ends)), KeyOf) && KeyOf(d) == KeyOf(c)
  {
    FirstsCoverKeys(Stream(reply, Calls(ends)), KeyOf);
  }

  // ----- What the key does not see

  /** An item is kept at its position unless an earlier one has its key. */
  lemma KeptAt<T, K>(s: seq<T>, key: T -> K, p: nat)
    requires p < |s|
    ensures p in FirstPositions(s, key) <==> forall q | 0 <= q < p :: key(s[q]) != key(s[p])
  {
    FirstsAreFirst(s, key);
    assert p in FirstPositions(s, key) <==> IsFirst(s, key, p);
  }

  /** Some earlier claim of the stream is the one at p with another chain. */
  ghost predicate SaidBefore(s: seq<Claim>, p: nat, chain: Option<Chain>)
    requires p < |s|
  {
    exists q :: 0 <= q < p && s[q] == s[p].(chain := chain)
  }

  lemma OnlyChainDiffers(c: Claim, chain: Option<Chain>)
    ensures KeyOf(c.(chain := chain)) == KeyOf(c) <==> SameSource(chain, c.chain)
  {
    hide KeyOf, SameSource, Reads, Alike;
    SameKey(c.(chain := chain), c);
    SameAsItself(c.content);
    SameAsItself(c.claimType);
    SameAsItself(c.attestation);
    SameAsItself(c.speaker);
  }

  lemma SameAsItself(field: Option<string>)
    ensures SameText(field, field) && SameWords(field, field)
  {
    hide LoweredWhole, Stripped;
  }

  /** A claim said before with another chain is dropped in every stream if and only if the two
      chains name the same anonymous source, or neither names one: no other provenance tells them apart. */
  lemma SuppressedIffSameRoot(c: Claim, earlier: Option<Chain>)
    ensures (forall s: seq<Claim>, p: nat | p < |s| && s[p] == c && SaidBefore(s, p, earlier) ::
               p !in FirstPositions(s, KeyOf))
            <==> SameSource(earlier, c.chain)
  {
    hide KeyOf, SameSource, FirstPositions;
    OnlyChainDiffers(c, earlier);
    if SameSource(earlier, c.chain) {
      forall s: seq<Claim>, p: nat | p < |s| && s[p] == c && SaidBefore(s, p, earlier)
        ensures p !in FirstPositions(s, KeyOf)
      {
        KeptAt(s, KeyOf, p);
        var q :| 0 <= q < p && s[q] == s[p].(chain := earlier);
        assert KeyOf(s[q]) == KeyOf(s[p]);
      }
    } else {
      var s := [c.(chain := earlier), c];
      KeptAt(s, KeyOf, 1);
      assert s[0] == s[1].(chain := earlier);
      assert SaidBefore(s, 1, earlier) && 1 in FirstPositions(s, KeyOf);
    }
  }

  /** A chain names no anonymous source, or one that is all space. */
  ghost predicate NamesNobody(chain: Option<Chain>) {
    forall x | Names(chain, x) :: Stripped(x) == ""
  }

  lemma NobodyIsNoChain(chain: Option<Chain>)
    ensures SameSource(None, chain) <==> NamesNobody(chain)
  {
    assert forall x :: Names(None, x) <==> x == "";
    hide Names;
    var source := SourceOf(chain);
    assert Names(None, "") && Names(chain, source);
    LoweredEmpty(Stripped(source));
    assert Stripped("") == "" && LoweredWhole("") == "";
  }

  lemma LoweredEmpty(s: string)
    ensures LoweredWhole(s) == "" <==> s == ""
  {
  }

  /** A bare claim suppresses the attributed one that follows exactly when the attribution is not
      to an anonymous source that is named. */
  lemma BareSuppresses(c: Claim)
    requires c.chain.Some?
    ensures Firsts([c.(chain := None), c], KeyOf) == [c.(chain := None)] <==> NamesNobody(c.chain)
    ensures (forall s: seq<Claim>, p: nat | p < |s| && s[p] == c && SaidBefore(s, p, None) ::
               p !in FirstPositions(s, KeyOf))
            <==> NamesNobody(c.chain)
  {
    hide KeyOf, NamesNobody, SameSource;
    var bare := c.(chain := None);
    SuppressedIffSameRoot(c, None);
    NobodyIsNoChain(c.chain);
    OnlyChainDiffers(c, None);
    assert [bare] == [] + [bare] && [bare, c] == [bare] + [c];
    FirstsStep([], bare, KeyOf);
    FirstsStep([bare], c, KeyOf);
    assert bare in Firsts([bare], KeyOf);
  }

  /** The documented case that fails: the source is named on the second mention, and that mention
      is the one dropped. */
  lemma NamedSourceIsDropped(c: Claim, who: string)
    requires c.chain == Some(Chain(Some("unattributed"), None, Some("")))
    ensures Firsts([c, c.(chain := Some(Chain(Some("named"), None, Some(who))))], KeyOf) == [c]
  {
    var named := c.(chain := Some(Chain(Some("named"), None, Some(who))));
    SameKey(c, named);
    assert [c] == [] + [c] && [c, named] == [c] + [named];
    FirstsStep([], c, KeyOf);
    FirstsStep([c], named, KeyOf);
    assert c in Firsts([c], KeyOf);
  }
}
