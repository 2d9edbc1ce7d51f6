/** Locating quotes and their fragments in a record: the search over the searchable form of its
    body, for quotes in the form they are searched. */
module Locating {
  import opened Spans
  import opened Searchable
  import opened Normalising
  import opened QuoteSearch
  import Splitting

  /** Where a quote is found in a record body. */
  method LocateQuote(quote: string, raw: string) returns (located: Located)
    ensures located == Locate(Norm(quote), Search(raw), Map(raw), 0)
  {
    var text, idx := BuildSearch(raw);
    located := Locate(Norm(quote), text, idx, 0);
  }

  // ----- When every found quote has its own raw span

  /** Kept characters a to b - 1 are those the span holds. */
  ghost predicate Covers(idx: seq<nat>, span: Span, a: nat, b: nat) {
    a <= b <= |idx| && forall k | 0 <= k < |idx| :: span.Has(idx[k]) <==> a <= k < b
  }

  /** The kept characters of the span, taken together, spell the form. */
  ghost predicate Spells(raw: string, idx: seq<nat>, span: Span, form: string)
    requires forall k | 0 <= k < |idx| :: idx[k] < |raw|
  {
    exists a: nat, b: nat :: Covers(idx, span, a, b) && Expand(raw, idx[a..b]) == form
  }

  /** If the quote is found it has a raw span, and the span spells what was found. */
  ghost predicate Faithful(raw: string, quote: string, start: nat) {
    var hit := FindForm(Norm(quote), Search(raw), start);
    var located := Locate(Norm(quote), Search(raw), Map(raw), start);
    hit.Hit? ==> located.Located? && Spells(raw, Map(raw), located.span, hit.form)
  }

  lemma ExpandPart(raw: string, idx: seq<nat>, a: nat, b: nat)
    requires (forall k | 0 <= k < |idx| :: idx[k] < |raw|) && OneToOne(raw, idx) && a <= b <= |idx|
    ensures |Expand(raw, idx)| == |idx| && Expand(raw, idx[a..b]) == Expand(raw, idx)[a..b]
  {
    AlignedIff(raw, idx);
    AlignedIff(raw, idx[a..b]);
    hide Expand, Piece;
    forall k | 0 <= k < b - a ensures Expand(raw, idx[a..b])[k] == Expand(raw, idx)[a + k] {
      assert idx[a..b][k] == idx[a + k];
    }
  }

  lemma SpanCovers(idx: seq<nat>, pos: nat, n: nat)
    requires Increasing(idx) && n >= 1 && pos + n <= |idx|
    ensures Covers(idx, RawSpan(idx, pos, n).span, pos, pos + n)
  {
    forall k | 0 <= k < |idx| ensures RawSpan(idx, pos, n).span.Has(idx[k]) <==> pos <= k < pos + n {
      SpanIsExact(idx, pos, n, k);
    }
  }

  lemma AlignedSpells(raw: string, idx: seq<nat>, pos: nat, n: nat)
    requires (forall k | 0 <= k < |idx| :: idx[k] < |raw|) && OneToOne(raw, idx) && Increasing(idx)
    requires n >= 1 && pos + n <= |Expand(raw, idx)|
    ensures |Expand(raw, idx)| == |idx|
    ensures RawSpan(idx, pos, n).Located?
    ensures Spells(raw, idx, RawSpan(idx, pos, n).span, Expand(raw, idx)[pos..pos + n])
  {
    hide Expand, OneToOne, Covers, Increasing;
    ExpandPart(raw, idx, 0, |idx|);
    ExpandPart(raw, idx, pos, pos + n);
    SpanCovers(idx, pos, n);
  }

  lemma HitReads(q: string, text: string, start: nat)
    requires FindForm(q, text, start).Hit?
    ensures var hit := FindForm(q, text, start);
            hit.form != "" && hit.pos + |hit.form| <= |text| && text[hit.pos..hit.pos + |hit.form|] == hit.form
  {
  }

  lemma MapIncreases(raw: string)
    ensures Increasing(Map(raw))
  {
    KeptInOrder(raw, |raw|);
  }

  lemma FaithfulIs(raw: string, quote: string, start: nat)
    ensures var hit := FindForm(Norm(quote), Search(raw), start);
            var located := Locate(Norm(quote), Search(raw), Map(raw), start);
            Faithful(raw, quote, start) <==>
            (hit.Hit? ==> located.Located? && Spells(raw, Map(raw), located.span, hit.form))
  {
  }

  lemma LocateHit(q: string, text: string, idx: seq<nat>, start: nat)
    requires FindForm(q, text, start).Hit?
    ensures var hit := FindForm(q, text, start);
            hit.form != "" && Locate(q, text, idx, start) == RawSpan(idx, hit.pos, |hit.form|)
    ensures var hit := FindForm(q, text, start);
            Locate(q, text, idx, start).Located? ==> hit.pos + |hit.form| <= |idx|
  {
  }

  lemma AlignedIsFaithful(raw: string, quote: string, start: nat)
    requires OneToOne(raw, Map(raw))
    ensures Faithful(raw, quote, start)
  {
    hide *;
    var q, text, idx := Norm(quote), Search(raw), Map(raw);
    MapIncreases(raw);
    SearchIs(raw);
    FaithfulIs(raw, quote, start);
    var hit := FindForm(q, text, start);
    if hit.Hit? {
      HitReads(q, text, start);
      AlignedSpells(raw, idx, hit.pos, |hit.form|);
      LocateHit(q, text, idx, start);
    }
  }

  /** The whole searchable text, without a blank at its end, as a quote. */
  function Whole(t: string): string {
    if t != "" && t[|t| - 1] == ' ' then t[..|t| - 1] else t
  }

  lemma WholeIsQuote(t: string)
    requires PlainText(t) && t != ""
    ensures PlainQuote(Whole(t)) && Whole(t) != "" && |t| - 1 <= |Whole(t)| <= |t| && MatchesAt(Whole(t), t, 0)
    ensures Norm(Whole(t)) == Whole(t)
  {
    assert t[|t| - 1] == ' ' ==> |t| >= 2 && t[|t| - 2] != ' ';
    NormPlain(Whole(t));
  }

  /** The whole text, as a quote, is found at its start. */
  lemma WholeIsHit(t: string)
    requires PlainText(t) && t != ""
    ensures FindForm(Norm(Whole(t)), t, 0) == Hit(0, Whole(t)) && |t| - 1 <= |Whole(t)| && Whole(t) != ""
  {
    hide FindForm, PlainText, PlainQuote, Norm, Whole;
    WholeIsQuote(t);
    WholeFormWins(Whole(t), t, 0, 0);
    HitIsLeftmost(Whole(t), t, 0);
  }

  /** A span of all kept characters spells all of the text and nothing else. */
  lemma AllOrNothing(raw: string, idx: seq<nat>, form: string)
    requires (forall k | 0 <= k < |idx| :: idx[k] < |raw|) && Increasing(idx) && idx != []
    requires Spells(raw, idx, RawSpan(idx, 0, |idx|).span, form)
    ensures form == Expand(raw, idx)
  {
    hide Expand;
    var span := RawSpan(idx, 0, |idx|).span;
    var a: nat, b: nat :| Covers(idx, span, a, b) && Expand(raw, idx[a..b]) == form;
    SpanIsExact(idx, 0, |idx|, 0);
    SpanIsExact(idx, 0, |idx|, |idx| - 1);
    assert span.Has(idx[0]) && span.Has(idx[|idx| - 1]);
    assert idx[0..|idx|] == idx;
  }

  /** The whole text as a quote is off a map that is too short, or its span holds too much. */
  lemma MisalignedMisleads(raw: string)
    requires !OneToOne(raw, Map(raw))
    ensures !Faithful(raw, Whole(Search(raw)), 0)
  {
    hide *;
    var text, idx := Search(raw), Map(raw);
    var quote := Whole(text);
    MapIncreases(raw);
    SearchIs(raw);
    SearchIsPlain(raw);
    AlignedIff(raw, idx);
    assert |text| > |idx|;
    MisalignedKeeps(raw, idx);
    WholeIsHit(text);
    FaithfulIs(raw, quote, 0);
    LocateHit(Norm(quote), text, idx, 0);
    if Faithful(raw, quote, 0) {
      AllOrNothing(raw, idx, quote);
    }
  }

  lemma MisalignedKeeps(raw: string, idx: seq<nat>)
    requires (forall k | 0 <= k < |idx| :: idx[k] < |raw|) && !OneToOne(raw, idx)
    ensures idx != []
  {
  }

  /** Every found quote has a raw span that spells it, for every quote and every start, if and
      only if no kept character lowercases to two. */
  lemma QuotesSpellIff(raw: string)
    ensures (forall quote, start: nat :: Faithful(raw, quote, start)) <==> OneToOne(raw, Map(raw))
  {
    hide Faithful, OneToOne;
    if OneToOne(raw, Map(raw)) {
      forall quote, start: nat ensures Faithful(raw, quote, start) {
        AlignedIsFaithful(raw, quote, start);
      }
    } else {
      MisalignedMisleads(raw);
    }
  }

  // ----- Quotes copied from the body

  /** A passage copied from the content in which no capital sigma ends a word is found whole, and
      over an aligned map the span found spells it. */
  lemma VerbatimLocates(raw: string, a: nat, b: nat)
    requires a <= b <= |raw| && forall p: nat | a <= p < b :: Content(raw, 0, p)
    requires exists p :: a <= p < b && !IsSpace(raw[p])
    ensures NoFinalSigma(Stripped(raw[a..b])) ==>
              && FindForm(Norm(raw[a..b]), Search(raw), 0).Hit?
              && FindForm(Norm(raw[a..b]), Search(raw), 0).form == Norm(raw[a..b])
              && (OneToOne(raw, Map(raw)) ==> Faithful(raw, raw[a..b], 0))
  {
    hide *;
    var at := VerbatimIsFound(raw, a, b);
    ReadsAt(Norm(raw[a..b]), Search(raw), at);
    if NoFinalSigma(Stripped(raw[a..b])) {
      WholeFormWins(Norm(raw[a..b]), Search(raw), 0, at);
      if OneToOne(raw, Map(raw)) {
        AlignedIsFaithful(raw, raw[a..b], 0);
      }
    }
  }

  lemma ReadsAt(q: string, text: string, at: nat)
    ensures MatchesAt(q, text, at) <==> at + |q| <= |text| && text[at..at + |q|] == q
  {
  }

  /** A body of one word that a capital sigma ends. */
  function Ending(): string { ['A', SIGMA] }

  /** As a quote it has a final sigma at its end, which the searchable text does not. */
  lemma SigmaIsMissed()
    ensures var raw := Ending();
            && (forall p: nat :: Content(raw, 0, p) <==> p < 2)
            && Norm(raw) == ['a', FINAL_SIGMA] && Search(raw) == ['a', SMALL_SIGMA]
            && Locate(Norm(raw), Search(raw), Map(raw), 0) == Missing
  {
    EndingNorm();
    EndingSearch();
    hide Norm, Search, Map, Content;
    NotAnywhere(['a', FINAL_SIGMA], ['a', SMALL_SIGMA]);
  }

  lemma NotAnywhere(q: string, text: string)
    requires |q| == |text| == 2 && q[1] == FINAL_SIGMA && text[1] == SMALL_SIGMA
    ensures FindForm(q, text, 0) == Miss
  {
    assert Strip(q) == q;
    hide Strip;
    assert forall k: nat :: !MatchesAt(q, text, k) by {
      assert text[0..2][1] != q[1];
    }
  }

  lemma EndingNorm()
    ensures Norm(Ending()) == ['a', FINAL_SIGMA]
  {
    var s := Ending();
    StrippedPlain(s);
    assert CasedBefore(s, 1) && EndsWord(s, 1) && !EndsWord(s, 0);
    assert Finals(s) == ['A', FINAL_SIGMA];
    var none := "";
    assert none + ['A'] == ['A'] && ['A'] + [FINAL_SIGMA] == ['A', FINAL_SIGMA];
    LoweredStep(none, 'A');
    LoweredStep(['A'], FINAL_SIGMA);
    assert Lowered(Finals(s)) == ['a', FINAL_SIGMA];
    hide Lowered, Finals, Stripped;
    EndingPlain();
    SqueezedPlain(['a', FINAL_SIGMA]);
  }

  lemma EndingPlain()
    ensures PlainText(['a', FINAL_SIGMA])
  {
  }

  lemma EndingSearch()
    ensures forall p: nat :: Content(Ending(), 0, p) <==> p < 2
    ensures Search(Ending()) == ['a', SMALL_SIGMA]
  {
    var raw := Ending();
    OneLine(raw);
    assert !IsSpace(raw[0]) && !IsSpace(raw[1]);
    hide Content, Search, IsSpace;
    TwoKept(raw);
  }

  lemma TwoKept(raw: string)
    requires |raw| == 2 && !IsSpace(raw[0]) && !IsSpace(raw[1]) && forall p: nat :: Content(raw, 0, p) <==> p < 2
    ensures Search(raw) == Lower(raw[0]) + Lower(raw[1])
  {
    assert Content(raw, 0, 0) && Content(raw, 0, 1);
    hide *;
    SearchIs(raw);
    KeptNothing(raw);
    KeptNext(raw, 0);
    KeptIsWell(raw, 1);
    KeptNext(raw, 1);
    NothingExpanded(raw);
    assert "" + Lower(raw[0]) == Lower(raw[0]);
  }

  lemma NothingExpanded(raw: string)
    ensures Expand(raw, Kept(raw, 0)) == ""
  {
  }

  lemma OneLine(raw: string)
    requires raw == Ending()
    ensures forall p: nat :: Content(raw, 0, p) <==> p < 2
  {
    assert LineEnd(raw, 0) == 2 && raw[0..2] == raw;
    StartsElsewhere(raw, "<!--");
    StartsElsewhere(raw, "#");
    assert LeftTrimmed(raw) == raw && StampLength(raw) == 0;
    assert forall p: nat :: InLine(raw, 0, p) <==> p < 2;
  }

  // ----- A map that does not line up

  /** A one-line body with a capital I with dot above before two letters. */
  function Dotted(): string { [DOTTED_I, 'x', 'y'] }

  lemma DottedContent()
    ensures forall p: nat :: Content(Dotted(), 0, p) <==> p < 3
  {
    var raw := Dotted();
    assert LineEnd(raw, 0) == 3 && raw[0..3] == raw;
    StartsElsewhere(raw, "<!--");
    StartsElsewhere(raw, "#");
    assert LeftTrimmed(raw) == raw && StampLength(raw) == 0;
    assert forall p: nat :: InLine(raw, 0, p) <==> p < 3;
  }

  lemma DottedMap()
    ensures Map(Dotted()) == [0, 1, 2] && Search(Dotted()) == ['i', '\U{0307}', 'x', 'y']
  {
    var raw := Dotted();
    DottedContent();
    hide Content, Expand, Kept;
    SearchIs(raw);
    KeptStep(raw, 0);
    KeptStep(raw, 1);
    KeptStep(raw, 2);
    KeptStep(raw, 3);
    assert Kept(raw, 1) == [0] && Kept(raw, 2) == [0] + [1] && Kept(raw, 3) == [0] + [1] + [2];
    ExpandNothing(raw);
    ExpandStep(raw, [], 0);
    ExpandStep(raw, [0], 1);
    ExpandStep(raw, [0] + [1], 2);
    assert [] + [0] == [0];
    assert Expand(raw, [0]) == "" + Lower(DOTTED_I);
  }

  /** Where a quote of one plain letter is found in a text that holds it once. */
  lemma OneLetter(c: char, t: string, at: nat)
    requires Plain(c) && !IsSpace(c) && at < |t| && t[at] == c && forall i | 0 <= i < at :: t[i] != c
    ensures Norm([c]) == [c] && FindForm([c], t, 0) == Hit(at, [c])
  {
    NormPlain([c]);
    hide *;
    LetterMatches(c, t, at);
    WholeFormWins([c], t, 0, at);
    HitIsLeftmost([c], t, 0);
    LetterMatches(c, t, FindForm([c], t, 0).pos);
  }

  lemma LetterMatches(c: char, t: string, k: nat)
    ensures MatchesAt([c], t, k) <==> k < |t| && t[k] == c
  {
    assert k < |t| ==> t[k..k + 1] == [t[k]] && [t[k]][0] == t[k];
  }

  /** The letter before the last is silently located at the last, which is another letter, and the
      last letter, though found, has no raw offset at all. */
  lemma DottedIMisplacesQuotes()
    ensures var raw := Dotted();
            && Locate(Norm("x"), Search(raw), Map(raw), 0) == Located(Span(2, 3)) && raw[2..3] == "y"
            && Locate(Norm("y"), Search(raw), Map(raw), 0) == OffTheMap
  {
    DottedMap();
    hide *;
    LetterLocated('x', ['i', '\U{0307}', 'x', 'y'], [0, 1, 2], 2);
    LetterLocated('y', ['i', '\U{0307}', 'x', 'y'], [0, 1, 2], 3);
    DottedAt();
  }

  lemma DottedAt()
    ensures Dotted()[2..3] == "y"
  {
  }

  lemma LetterLocated(c: char, t: string, idx: seq<nat>, at: nat)
    requires 'a' <= c <= 'z' && at < |t| && t[at] == c && forall i | 0 <= i < at :: t[i] != c
    ensures Locate(Norm([c]), t, idx, 0) ==
            if at < |idx| then Located(Span(idx[at], idx[at] + 1)) else OffTheMap
  {
    OneLetter(c, t, at);
    hide FindForm, Norm;
  }

  // ----- Ordered fragments in a record

  /** Fragments in normal form, those a quote is split into among them. */
  ghost predicate AllNormal(fragments: seq<string>) {
    forall k | 0 <= k < |fragments| :: fragments[k] != "" && PlainQuote(fragments[k])
  }

  lemma SplitIsNormal(quote: string)
    ensures AllNormal(Splitting.Fragments(quote))
  {
    Splitting.FilledAreFragments(Stripped(quote));
    var fragments := Splitting.Fragments(quote);
    hide PlainQuote, Splitting.Filled, Splitting.Pieces, Splitting.NoCut;
    assert forall k | 0 <= k < |fragments| :: fragments[k] in fragments;
  }

  datatype Outcome = Contiguous(at: Located) | Apart(spans: seq<Located>) | OutOfOrder | NotThere

  /** Raw spans of a placement of these fragments. */
  ghost predicate PlacedAt(fragments: seq<string>, raw: string, spans: seq<Located>) {
    exists pos, forms :: Placement(fragments, Search(raw), pos, forms) && SpansOf(raw, pos, forms, spans)
  }

  ghost predicate SpansOf(raw: string, pos: seq<nat>, forms: seq<string>, spans: seq<Located>) {
    && |spans| == |pos| == |forms|
    && forall i | 0 <= i < |spans| :: |forms[i]| >= 1 && spans[i] == RawSpan(Map(raw), pos[i], |forms[i]|)
  }

  /** Where a claim's quote stands in a record body: whole, or in fragments in source order. */
  method LocateClaim(quote: string, raw: string) returns (outcome: Outcome)
    ensures var q := Norm(Stripped(quote)); var fragments := Splitting.Fragments(quote);
            && (outcome.Contiguous? <==> FindForm(q, Search(raw), 0).Hit?)
            && (outcome.Contiguous? ==> outcome.at == Locate(q, Search(raw), Map(raw), 0))
            && (outcome.Apart? <==> FindForm(q, Search(raw), 0).Miss? && |fragments| >= 2
                                    && Succeeds(fragments, Search(raw), 0))
            && (outcome.Apart? ==> PlacedAt(fragments, raw, outcome.spans))
            && (outcome.OutOfOrder? <==>
                  && FindForm(q, Search(raw), 0).Miss? && |fragments| >= 2
                  && var n := FirstMissing(fragments, Search(raw), 0);
                     n < |fragments| && FindForm(fragments[n], Search(raw), 0).Hit?)
  {
    hide *;
    var text, idx := BuildSearch(raw);
    var stripped := Stripped(quote);
    var whole := Locate(Norm(stripped), text, idx, 0);
    LocateMisses(Norm(stripped), text, idx);
    if !whole.Missing? {
      return Contiguous(whole);
    }
    var fragments := Splitting.Fragments(quote);
    if |fragments| <= 1 {
      return NotThere;
    }
    var status, spans;
    ghost var pos, forms;
    status, spans, pos, forms := SearchFragments(fragments, text, idx);
    match status {
      case Ordered =>
        PlacedSizes(fragments, text, pos, forms);
        PlacedIs(fragments, raw, pos, forms, spans);
        outcome := Apart(spans);
      case Reordered =>
        outcome := OutOfOrder;
      case Broken =>
        outcome := NotThere;
    }
  }

  lemma LocateMisses(q: string, text: string, idx: seq<nat>)
    ensures Locate(q, text, idx, 0).Missing? <==> FindForm(q, text, 0).Miss?
  {
    hide FindForm;
  }

  lemma PlacedSizes(fragments: seq<string>, text: string, pos: seq<nat>, forms: seq<string>)
    requires Placement(fragments, text, pos, forms)
    ensures |pos| == |forms| == |fragments|
  {
  }

  lemma PlacedIs(fragments: seq<string>, raw: string, pos: seq<nat>, forms: seq<string>, spans: seq<Located>)
    requires Placement(fragments, Search(raw), pos, forms) && |spans| == |pos| == |forms|
    requires forall i | 0 <= i < |pos| :: |forms[i]| >= 1 && spans[i] == RawSpan(Map(raw), pos[i], |forms[i]|)
    ensures PlacedAt(fragments, raw, spans)
  {
    hide Placement;
    assert SpansOf(raw, pos, forms, spans);
  }

  lemma PlainGlue(t: string, w: string)
    requires PlainText(t) && PlainQuote(w) && w != ""
    ensures PlainText(t + w) && !EndsBlank(t + w)
  {
    hide Plain;
    forall i | 0 <= i < |t + w| && (t + w)[i] == ' ' ensures i > 0 && (t + w)[i - 1] != ' ' {
      assert i < |t| ==> t[i] == ' ';
      assert i >= |t| ==> w[i - |t|] == ' ';
    }
  }

  lemma {:induction false} PlainConcat(t: string, fragments: seq<string>)
    requires PlainText(t) && AllNormal(fragments)
    ensures PlainText(t + Concat(fragments))
    decreases |fragments|
  {
    hide PlainText, PlainQuote;
    if fragments == [] {
      assert t + "" == t;
    } else {
      PlainGlue(t, fragments[0]);
      PlainConcat(t + fragments[0], fragments[1..]);
      assert t + (fragments[0] + Concat(fragments[1..])) == (t + fragments[0]) + Concat(fragments[1..]);
    }
  }

  /** A character that is its own lowercase form and not space. */
  predicate Separator(sep: char) { Plain(sep) && !IsSpace(sep) }

  lemma {:induction false} PlainJoined(t: string, fragments: seq<string>, sep: char)
    requires PlainText(t) && AllNormal(fragments) && Separator(sep)
    ensures PlainText(t + Joined(fragments, sep))
    decreases |fragments|
  {
    hide PlainText, PlainQuote, Plain;
    if fragments == [] {
      assert t + "" == t;
    } else {
      var next := t + fragments[0] + [sep];
      PlainGlue(t, fragments[0]);
      SeparatorIsWord(sep);
      PlainWord(t + fragments[0], [sep]);
      PlainJoined(next, fragments[1..], sep);
      assert t + (fragments[0] + [sep] + Joined(fragments[1..], sep)) == next + Joined(fragments[1..], sep);
    }
  }

  lemma SeparatorIsWord(sep: char)
    requires Separator(sep)
    ensures Word([sep])
  {
  }

  lemma StrippedIsQuote(q: string)
    requires PlainQuote(q)
    ensures PlainQuote(Strip(q))
  {
    assert IsTrailing(' ');
  }

  lemma TrapStart(lead: seq<string>, q: string, sep: char)
    requires AllNormal(lead) && PlainQuote(q) && q != "" && !Unstrippable(q) && Separator(sep)
    ensures PlainText(Concat(lead) + Strip(q) + [sep])
  {
    hide *;
    StripIsForm(q);
    StrippedIsQuote(q);
    NotEmptyForm(q);
    SeparatorIsWord(sep);
    NothingIsPlain();
    PlainConcat("", lead);
    assert "" + Concat(lead) == Concat(lead);
    PlainGlue(Concat(lead), Strip(q));
    PlainWord(Concat(lead) + Strip(q), [sep]);
  }

  lemma NotEmptyForm(q: string)
    requires IsForm(q, Strip(q))
    ensures Strip(q) != ""
  {
  }

  lemma TrapEnd(t: string, q: string, rest: seq<string>, sep: char)
    requires PlainText(t) && AllNormal(rest) && PlainQuote(q) && q != "" && Separator(sep)
    ensures PlainText(t + Joined(rest, sep) + Bait(q, rest))
  {
    hide *;
    PlainJoined(t, rest, sep);
    BaitIs(q, rest);
    var most := t + Joined(rest, sep);
    if Bait(q, rest) == "" {
      assert most + "" == most;
    } else {
      PlainGlue(most, q);
    }
  }

  /** The text that misleads the search is the searchable form of a record. */
  lemma TrapIsPlain(lead: seq<string>, q: string, rest: seq<string>, sep: char)
    requires AllNormal(lead) && AllNormal(rest) && PlainQuote(q) && q != "" && !Unstrippable(q) && Separator(sep)
    ensures PlainText(Concat(lead) + Trap(q, rest, sep))
  {
    TrapIs(q, rest, sep);
    hide *;
    TrapStart(lead, q, sep);
    TrapEnd(Concat(lead) + Strip(q) + [sep], q, rest, sep);
    Regroup(Concat(lead), Strip(q), [sep], Joined(rest, sep), Bait(q, rest));
  }

  lemma NothingIsPlain()
    ensures PlainText("")
  {
  }

  lemma BaitIs(q: string, rest: seq<string>)
    ensures Bait(q, rest) == "" || Bait(q, rest) == q
  {
  }

  lemma TrapIs(q: string, rest: seq<string>, sep: char)
    ensures Trap(q, rest, sep) == Strip(q) + [sep] + Joined(rest, sep) + Bait(q, rest)
  {
  }

  /** The search finds every placement in every record exactly when no fragment but the last can
      lose trailing punctuation.  `sep` is any character the fragments do not use that is not
      space and has no lowercase form of its own. */
  lemma CompleteIff(fragments: seq<string>, sep: char)
    requires AllNormal(fragments) && Separator(sep) && forall k | 0 <= k < |fragments| :: sep !in fragments[k]
    ensures OnlyLastStrips(fragments) <==>
            forall raw | Placeable(fragments, Search(raw), 0) :: Succeeds(fragments, Search(raw), 0)
  {
    hide Placeable, Succeeds, Search, PlainQuote, Unstrippable;
    if OnlyLastStrips(fragments) {
      forall raw | Placeable(fragments, Search(raw), 0) ensures Succeeds(fragments, Search(raw), 0) {
        PlacementIsFound(fragments, Search(raw), 0);
      }
    } else {
      var i :| 0 <= i < |fragments| - 1 && !Unstrippable(fragments[i]);
      var text := StrippableMisleads(fragments, sep, i);
      TrapIsPlain(fragments[..i], fragments[i], fragments[i + 1..], sep);
      PlainIffSearchable(text);
    }
  }

  /** So it is for the fragments of any quote with parts left out. */
  lemma ElidedCompleteIff(quote: string, sep: char)
    requires Separator(sep) && forall f | f in Splitting.Fragments(quote) :: sep !in f
    ensures OnlyLastStrips(Splitting.Fragments(quote)) <==>
            forall raw | Placeable(Splitting.Fragments(quote), Search(raw), 0) ::
              Succeeds(Splitting.Fragments(quote), Search(raw), 0)
  {
    hide *;
    SplitIsNormal(quote);
    CompleteIff(Splitting.Fragments(quote), sep);
  }
}
