/** Locating quotes: leftmost search, the retry without trailing punctuation, and the ordered
    search of a quote's fragments. */
module QuoteSearch {
  import opened Options
  import opened Spans
  import opened Searchable

  predicate MatchesAt(needle: string, text: string, pos: nat) {
    pos + |needle| <= |text| && text[pos..pos + |needle|] == needle
  }

  /** Leftmost occurrence at or after `start`. */
  function Find(needle: string, text: string, start: nat): (pos: Option<nat>)
    ensures pos.Some? ==>
              && start <= pos.value && MatchesAt(needle, text, pos.value)
              && forall k: nat | start <= k < pos.value :: !MatchesAt(needle, text, k)
    ensures pos.None? ==> forall k: nat | start <= k :: !MatchesAt(needle, text, k)
    decreases |text| - start
  {
    if start + |needle| > |text| then None
    else if MatchesAt(needle, text, start) then Some(start)
    else Find(needle, text, start + 1)
  }

  predicate IsTrailing(c: char) {
    c in ".,;:!?\"' "
  }

  /** The quote without trailing punctuation. */
  function Strip(q: string): (s: string)
    ensures |s| <= |q| && s == q[..|s|]
    ensures s != "" ==> s[|s| - 1] !in ".,;:!?\"' "
    ensures forall k | |s| <= k < |q| :: q[k] in ".,;:!?\"' "
  {
    if q != "" && IsTrailing(q[|q| - 1]) then Strip(q[..|q| - 1]) else q
  }

  /** A form of the quote the search accepts: itself, or itself without trailing punctuation
      where something is left. */
  predicate IsForm(q: string, form: string) {
    q != "" && (form == q || (form == Strip(q) && form != ""))
  }

  datatype Hit = Miss | Hit(pos: nat, form: string)

  function FindForm(q: string, text: string, start: nat): (hit: Hit)
    ensures hit.Hit? ==> start <= hit.pos && IsForm(q, hit.form) && MatchesAt(hit.form, text, hit.pos) && |hit.form| >= 1
  {
    if q == "" then Miss
    else
      match Find(q, text, start)
      case Some(pos) => Hit(pos, q)
      case None =>
        var stripped := Strip(q);
        if stripped == "" then Miss
        else
          match Find(stripped, text, start)
          case Some(pos) => Hit(pos, stripped)
          case None => Miss
  }

  /** A hit is the leftmost occurrence of its form, and the stripped form is used only where
      the whole quote does not occur. */
  lemma HitIsLeftmost(q: string, text: string, start: nat)
    requires FindForm(q, text, start).Hit?
    ensures var hit := FindForm(q, text, start);
            && (forall k: nat | start <= k < hit.pos :: !MatchesAt(hit.form, text, k))
            && (hit.form != q ==> forall k: nat | start <= k :: !MatchesAt(q, text, k))
  {
  }

  /** A miss means neither form occurs. */
  lemma MissMeansAbsent(q: string, text: string, start: nat, k: nat, form: string)
    requires start <= k && IsForm(q, form) && MatchesAt(form, text, k)
    ensures FindForm(q, text, start).Hit?
  {
  }

  // ----- Raw spans

  datatype Located = Missing | OffTheMap | Located(span: Span)

  /** The raw span behind text[pos..pos + n]; off the map where the map is too short. */
  function RawSpan(idx: seq<nat>, pos: nat, n: nat): Located
    requires n >= 1
  {
    if pos + n > |idx| then OffTheMap else Located(Span(idx[pos], idx[pos + n - 1] + 1))
  }

  function Locate(q: string, text: string, idx: seq<nat>, start: nat): Located {
    match FindForm(q, text, start)
    case Miss => Missing
    case Hit(pos, form) => RawSpan(idx, pos, |form|)
  }

  /** A located span contains the matched characters' offsets and no other kept offset. */
  lemma SpanIsExact(idx: seq<nat>, pos: nat, n: nat, k: nat)
    requires Increasing(idx) && n >= 1 && pos + n <= |idx| && k < |idx|
    ensures RawSpan(idx, pos, n).span.Has(idx[k]) <==> pos <= k < pos + n
  {
    if k < pos {
      assert idx[k] < idx[pos];
    } else if k >= pos + n {
      assert idx[pos + n - 1] < idx[k];
    } else {
      assert k == pos || idx[pos] < idx[k];
      assert k == pos + n - 1 || idx[k] < idx[pos + n - 1];
    }
  }

  /** Over a text whose map lines up, a quote that is found has a span, and the kept characters
      of the span, taken together, spell the matched form. */
  lemma LocateSpells(raw: string, idx: seq<nat>, text: string, q: string, start: nat, k: nat)
    requires forall i | 0 <= i < |idx| :: idx[i] < |raw|
    requires Increasing(idx) && OneToOne(raw, idx) && text == Expand(raw, idx)
    ensures !Locate(q, text, idx, start).OffTheMap?
    ensures Locate(q, text, idx, start).Located? <==> FindForm(q, text, start).Hit?
    ensures FindForm(q, text, start).Hit? && k < |FindForm(q, text, start).form| ==>
              var hit := FindForm(q, text, start);
              && hit.pos + k < |idx|
              && Locate(q, text, idx, start).span.Has(idx[hit.pos + k])
              && hit.form[k] == Piece(raw[idx[hit.pos + k]])[0]
  {
    hide *;
    AlignedAt(raw, idx, 0);
    LocateIs(q, text, idx, start);
    var hit := FindForm(q, text, start);
    if hit.Hit? {
      HitFits(q, text, start, k);
      if k < |hit.form| {
        SpanIsExact(idx, hit.pos, |hit.form|, hit.pos + k);
        AlignedAt(raw, idx, hit.pos + k);
      }
    }
  }

  lemma AlignedAt(raw: string, idx: seq<nat>, j: nat)
    requires (forall i | 0 <= i < |idx| :: idx[i] < |raw|) && OneToOne(raw, idx)
    ensures |Expand(raw, idx)| == |idx|
    ensures j < |idx| ==> Expand(raw, idx)[j] == Piece(raw[idx[j]])[0]
  {
    hide Expand, OneToOne, Piece;
    AlignedIff(raw, idx);
  }

  /** A hit lies inside the text and reads its form there. */
  lemma HitFits(q: string, text: string, start: nat, k: nat)
    requires FindForm(q, text, start).Hit?
    ensures var hit := FindForm(q, text, start);
            && hit.form != "" && hit.pos + |hit.form| <= |text|
            && (k < |hit.form| ==> text[hit.pos + k] == hit.form[k])
  {
    var hit := FindForm(q, text, start);
    assert k < |hit.form| ==> text[hit.pos..hit.pos + |hit.form|][k] == text[hit.pos + k];
  }

  lemma LocateIs(q: string, text: string, idx: seq<nat>, start: nat)
    requires |text| == |idx|
    ensures var hit := FindForm(q, text, start);
            Locate(q, text, idx, start) ==
            if hit.Hit? then Located(Span(idx[hit.pos], idx[hit.pos + |hit.form| - 1] + 1)) else Missing
    ensures var hit := FindForm(q, text, start);
            hit.Hit? ==> Locate(q, text, idx, start) == RawSpan(idx, hit.pos, |hit.form|)
  {
  }

  // ----- Ordered fragments

  /** Where a cursor stands after the first i placed fragments. */
  ghost function Cursor(pos: seq<nat>, forms: seq<string>, i: nat): nat
    requires i <= |pos| == |forms|
  {
    if i == 0 then 0 else pos[i - 1] + |forms[i - 1]|
  }

  /** Fragment i stands at its position, in an accepted form, after the fragments before it. */
  ghost predicate Fits(fragments: seq<string>, text: string, pos: seq<nat>, forms: seq<string>, i: nat)
    requires |pos| == |forms| <= |fragments| && i < |pos|
  {
    IsForm(fragments[i], forms[i]) && MatchesAt(forms[i], text, pos[i]) && Cursor(pos, forms, i) <= pos[i]
  }

  /** Fragments placed one after another without overlap. */
  ghost predicate Placement(fragments: seq<string>, text: string, pos: seq<nat>, forms: seq<string>) {
    && |pos| == |forms| == |fragments|
    && forall i | 0 <= i < |fragments| :: Fits(fragments, text, pos, forms, i)
  }

  /** Fragment i is the first hit at its cursor. */
  ghost predicate First(fragments: seq<string>, text: string, pos: seq<nat>, forms: seq<string>, i: nat)
    requires |pos| == |forms| <= |fragments| && i < |pos|
  {
    FindForm(fragments[i], text, Cursor(pos, forms, i)) == Hit(pos[i], forms[i])
  }

  ghost predicate Greedy(fragments: seq<string>, text: string, pos: seq<nat>, forms: seq<string>) {
    && |pos| == |forms| <= |fragments|
    && forall i | 0 <= i < |pos| :: First(fragments, text, pos, forms, i)
  }

  lemma CursorPrefix(pos: seq<nat>, forms: seq<string>, p: nat, form: string, i: nat)
    requires i <= |pos| == |forms|
    ensures Cursor(pos + [p], forms + [form], i) == Cursor(pos, forms, i)
  {
  }

  lemma GreedyStep(fragments: seq<string>, text: string, pos: seq<nat>, forms: seq<string>)
    requires Greedy(fragments, text, pos, forms) && |pos| < |fragments|
    ensures var hit := FindForm(fragments[|pos|], text, Cursor(pos, forms, |pos|));
            hit.Hit? ==>
              && Greedy(fragments, text, pos + [hit.pos], forms + [hit.form])
              && Cursor(pos + [hit.pos], forms + [hit.form], |pos| + 1) == hit.pos + |hit.form|
  {
    hide FindForm, IsForm, MatchesAt;
    var hit := FindForm(fragments[|pos|], text, Cursor(pos, forms, |pos|));
    if hit.Hit? {
      var pos', forms' := pos + [hit.pos], forms + [hit.form];
      forall i | 0 <= i < |pos'| ensures First(fragments, text, pos', forms', i) {
        CursorPrefix(pos, forms, hit.pos, hit.form, i);
        if i < |pos| {
          assert First(fragments, text, pos, forms, i);
        }
      }
    }
  }

  /** All fragments placed greedily is a placement. */
  lemma GreedyIsPlacement(fragments: seq<string>, text: string, pos: seq<nat>, forms: seq<string>)
    requires Greedy(fragments, text, pos, forms) && |pos| == |fragments|
    ensures Placement(fragments, text, pos, forms)
  {
    forall i | 0 <= i < |fragments| ensures Fits(fragments, text, pos, forms, i) {
      assert First(fragments, text, pos, forms, i);
    }
  }

  lemma {:induction false} PlacedInOrder(fragments: seq<string>, text: string, pos: seq<nat>,
                                          forms: seq<string>, i: nat, j: nat)
    requires Placement(fragments, text, pos, forms) && i < j < |pos|
    ensures pos[i] + |forms[i]| <= pos[j]
    decreases j
  {
    assert Fits(fragments, text, pos, forms, j);
    if i + 1 < j {
      PlacedInOrder(fragments, text, pos, forms, i, j - 1);
    }
  }

  /** The raw spans of a placement are disjoint and in source order. */
  lemma PlacedSpansApart(fragments: seq<string>, text: string, idx: seq<nat>, pos: seq<nat>, forms: seq<string>,
                         i: nat, j: nat)
    requires Placement(fragments, text, pos, forms) && i < j < |pos| && Increasing(idx)
    requires |forms[i]| >= 1 && |forms[j]| >= 1 && pos[j] + |forms[j]| <= |idx|
    ensures RawSpan(idx, pos[i], |forms[i]|).Located? && RawSpan(idx, pos[j], |forms[j]|).Located?
    ensures RawSpan(idx, pos[i], |forms[i]|).span.end <= RawSpan(idx, pos[j], |forms[j]|).span.start
  {
    PlacedInOrder(fragments, text, pos, forms, i, j);
  }

  // ----- The search as a whole

  /** The greedy search, from a cursor on. */
  predicate Succeeds(fragments: seq<string>, text: string, cursor: nat) {
    fragments == [] ||
    var hit := FindForm(fragments[0], text, cursor);
    hit.Hit? && Succeeds(fragments[1..], text, hit.pos + |hit.form|)
  }

  /** Some placement of all fragments, in order and without overlap, exists from a cursor on. */
  ghost predicate Placeable(fragments: seq<string>, text: string, cursor: nat) {
    fragments == [] ||
    exists k: nat, form ::
      && cursor <= k && IsForm(fragments[0], form) && MatchesAt(form, text, k)
      && Placeable(fragments[1..], text, k + |form|)
  }

  datatype Status = Ordered | Reordered | Broken

  /** How many fragments the search places before one is missing. */
  ghost function FirstMissing(fragments: seq<string>, text: string, cursor: nat): (n: nat)
    ensures n <= |fragments|
  {
    if fragments == [] then 0
    else
      var hit := FindForm(fragments[0], text, cursor);
      if hit.Miss? then 0 else 1 + FirstMissing(fragments[1..], text, hit.pos + |hit.form|)
  }

  lemma SearchEnds(fragments: seq<string>, text: string)
    ensures forall cursor: nat :: FirstMissing([], text, cursor) == 0
    ensures Greedy(fragments, text, [], []) && Cursor([], [], 0) == 0 && fragments[0..] == fragments
    ensures fragments[|fragments|..] == [] && forall cursor: nat :: Succeeds([], text, cursor)
  {
  }

  lemma SearchStep(fragments: seq<string>, text: string, i: nat, cursor: nat)
    requires i < |fragments|
    ensures var hit := FindForm(fragments[i], text, cursor);
            Succeeds(fragments[i..], text, cursor) <==>
            hit.Hit? && Succeeds(fragments[i + 1..], text, hit.pos + |hit.form|)
    ensures var hit := FindForm(fragments[i], text, cursor);
            FirstMissing(fragments[i..], text, cursor) ==
            if hit.Miss? then 0 else 1 + FirstMissing(fragments[i + 1..], text, hit.pos + |hit.form|)
  {
    hide FindForm, IsForm, MatchesAt;
    assert fragments[i..][0] == fragments[i] && fragments[i..][1..] == fragments[i + 1..];
  }

  /** The fragment loop: each fragment is searched at or after the end of the one before; the
      first one without a hit decides between reordered and broken. */
  method SearchFragments(fragments: seq<string>, text: string, idx: seq<nat>)
    returns (status: Status, spans: seq<Located>, ghost pos: seq<nat>, ghost forms: seq<string>)
    ensures status.Ordered? <==> Succeeds(fragments, text, 0)
    ensures Greedy(fragments, text, pos, forms) && |spans| == |pos| == FirstMissing(fragments, text, 0)
    ensures forall i | 0 <= i < |pos| :: |forms[i]| >= 1 && spans[i] == RawSpan(idx, pos[i], |forms[i]|)
    ensures status.Ordered? ==> Placement(fragments, text, pos, forms)
    ensures !status.Ordered? ==>
              && |pos| < |fragments| && FindForm(fragments[|pos|], text, Cursor(pos, forms, |pos|)).Miss?
              && (status.Broken? <==> FindForm(fragments[|pos|], text, 0).Miss?)
  {
    spans, pos, forms := [], [], [];
    var cursor := 0;
    SearchEnds(fragments, text);
    hide *;
    for i := 0 to |fragments|
      invariant Greedy(fragments, text, pos, forms) && |spans| == |pos| == |forms| == i
      invariant cursor == Cursor(pos, forms, i)
      invariant forall k | 0 <= k < i :: |forms[k]| >= 1 && spans[k] == RawSpan(idx, pos[k], |forms[k]|)
      invariant Succeeds(fragments, text, 0) == Succeeds(fragments[i..], text, cursor)
      invariant FirstMissing(fragments, text, 0) == i + FirstMissing(fragments[i..], text, cursor)
    {
      GreedyStep(fragments, text, pos, forms);
      SearchStep(fragments, text, i, cursor);
      var hit := FindForm(fragments[i], text, cursor);
      if hit.Miss? {
        status := if FindForm(fragments[i], text, 0).Hit? then Reordered else Broken;
        return;
      }
      spans := spans + [RawSpan(idx, hit.pos, |hit.form|)];
      pos, forms := pos + [hit.pos], forms + [hit.form];
      cursor := hit.pos + |hit.form|;
    }
    GreedyIsPlacement(fragments, text, pos, forms);
    status := Ordered;
  }

  // ----- Completeness

  /** No form but the whole quote is accepted: nothing to strip, or nothing left after it. */
  predicate Unstrippable(q: string) {
    Strip(q) == q || Strip(q) == ""
  }

  lemma PlaceFirst(fragments: seq<string>, text: string, cursor: nat, k: nat, form: string)
    requires fragments != [] && cursor <= k && IsForm(fragments[0], form) && MatchesAt(form, text, k)
    requires Placeable(fragments[1..], text, k + |form|)
    ensures Placeable(fragments, text, cursor)
  {
  }

  lemma TakeFirst(fragments: seq<string>, text: string, cursor: nat) returns (k: nat, form: string)
    requires fragments != [] && Placeable(fragments, text, cursor)
    ensures cursor <= k && IsForm(fragments[0], form) && MatchesAt(form, text, k)
    ensures Placeable(fragments[1..], text, k + |form|)
  {
    k, form :| cursor <= k && IsForm(fragments[0], form) && MatchesAt(form, text, k)
               && Placeable(fragments[1..], text, k + |form|);
  }

  lemma SucceedFirst(fragments: seq<string>, text: string, cursor: nat)
    requires fragments != [] && FindForm(fragments[0], text, cursor).Hit?
    ensures var hit := FindForm(fragments[0], text, cursor);
            Succeeds(fragments, text, cursor) <==> Succeeds(fragments[1..], text, hit.pos + |hit.form|)
    ensures |fragments| == 1 ==> Succeeds(fragments, text, cursor)
  {
  }

  lemma {:induction false} SuccessIsPlacement(fragments: seq<string>, text: string, cursor: nat)
    requires Succeeds(fragments, text, cursor)
    ensures Placeable(fragments, text, cursor)
  {
    hide FindForm, IsForm, MatchesAt;
    if fragments != [] {
      var hit := FindForm(fragments[0], text, cursor);
      SuccessIsPlacement(fragments[1..], text, hit.pos + |hit.form|);
      PlaceFirst(fragments, text, cursor, hit.pos, hit.form);
    }
  }

  lemma EarlierIsEasier(fragments: seq<string>, text: string, cursor: nat, later: nat)
    requires cursor <= later && Placeable(fragments, text, later)
    ensures Placeable(fragments, text, cursor)
  {
    if fragments != [] {
      var k, form := TakeFirst(fragments, text, later);
      PlaceFirst(fragments, text, cursor, k, form);
    }
  }

  lemma WholeIsLeftmost(q: string, text: string, cursor: nat, k: nat, form: string)
    requires Unstrippable(q) && cursor <= k && IsForm(q, form) && MatchesAt(form, text, k)
    ensures FindForm(q, text, cursor).Hit?
    ensures FindForm(q, text, cursor).pos + |FindForm(q, text, cursor).form| <= k + |form|
  {
    MissMeansAbsent(q, text, cursor, k, form);
    HitIsLeftmost(q, text, cursor);
  }

  /** No fragment but the last can be stripped. */
  predicate OnlyLastStrips(fragments: seq<string>) {
    forall k | 0 <= k < |fragments| - 1 :: Unstrippable(fragments[k])
  }

  lemma OnlyLastTail(fragments: seq<string>)
    requires OnlyLastStrips(fragments) && |fragments| >= 2
    ensures Unstrippable(fragments[0]) && OnlyLastStrips(fragments[1..])
  {
  }

  /** Where the cursor stands after the first fragment's hit. */
  function After(fragments: seq<string>, text: string, cursor: nat): nat
    requires fragments != [] && FindForm(fragments[0], text, cursor).Hit?
  {
    FindForm(fragments[0], text, cursor).pos + |FindForm(fragments[0], text, cursor).form|
  }

  lemma FoundFirst(fragments: seq<string>, text: string, cursor: nat)
    requires |fragments| >= 2 && OnlyLastStrips(fragments) && Placeable(fragments, text, cursor)
    ensures FindForm(fragments[0], text, cursor).Hit?
    ensures Placeable(fragments[1..], text, After(fragments, text, cursor))
  {
    var k, form := TakeFirst(fragments, text, cursor);
    assert Unstrippable(fragments[0]);
    hide Placeable, Unstrippable;
    WholeIsLeftmost(fragments[0], text, cursor, k, form);
    hide FindForm, IsForm, MatchesAt;
    EarlierIsEasier(fragments[1..], text, After(fragments, text, cursor), k + |form|);
  }

  lemma AfterIs(fragments: seq<string>, text: string, cursor: nat)
    requires fragments != [] && FindForm(fragments[0], text, cursor).Hit?
    ensures Succeeds(fragments, text, cursor) <==> Succeeds(fragments[1..], text, After(fragments, text, cursor))
  {
    hide Succeeds, FindForm, IsForm, MatchesAt;
    SucceedFirst(fragments, text, cursor);
  }

  lemma FoundOnly(fragments: seq<string>, text: string, cursor: nat)
    requires |fragments| == 1 && Placeable(fragments, text, cursor)
    ensures Succeeds(fragments, text, cursor)
  {
    var k, form := TakeFirst(fragments, text, cursor);
    MissMeansAbsent(fragments[0], text, cursor, k, form);
  }

  /** Greedy-leftmost loses nothing while only the last fragment may be stripped. */
  lemma {:induction false} PlacementIsFound(fragments: seq<string>, text: string, cursor: nat)
    requires OnlyLastStrips(fragments) && Placeable(fragments, text, cursor)
    ensures Succeeds(fragments, text, cursor)
  {
    if |fragments| == 1 {
      FoundOnly(fragments, text, cursor);
    } else if |fragments| >= 2 {
      hide *;
      FoundFirst(fragments, text, cursor);
      OnlyLastTail(fragments);
      PlacementIsFound(fragments[1..], text, After(fragments, text, cursor));
      AfterIs(fragments, text, cursor);
    }
  }

  // ----- ... and fails as soon as an earlier fragment can be stripped

  ghost predicate Avoids(fragments: seq<string>, sep: char) {
    forall k | 0 <= k < |fragments| :: fragments[k] != "" && sep !in fragments[k]
  }

  /** Each fragment followed by a separator. */
  ghost function Joined(fragments: seq<string>, sep: char): string {
    if fragments == [] then "" else fragments[0] + [sep] + Joined(fragments[1..], sep)
  }

  lemma FormAvoids(q: string, form: string, sep: char)
    requires IsForm(q, form) && sep !in q
    ensures sep !in form && 1 <= |form| <= |q| && form == q[..|form|]
  {
  }

  /** No form of a quote fits inside the quote anywhere but at its start. */
  lemma FormFitsOnlyAtStart(q: string, form: string, text: string, base: nat, k: nat)
    requires IsForm(q, form) && MatchesAt(q, text, base) && MatchesAt(form, text, k)
    ensures k <= base || k + |form| > base + |q|
  {
    var last := k + |form| - 1;
    assert text[k..k + |form|][|form| - 1] == text[last];
    if base <= last < base + |q| {
      assert text[base..base + |q|][last - base] == text[last];
      assert form != q ==> !IsTrailing(q[last - base]);
    }
  }

  /** An occurrence of a string without the separator lies on one side of each separator. */
  lemma StaysOnOneSide(form: string, text: string, k: nat, at: nat, sep: char)
    requires sep !in form && MatchesAt(form, text, k) && at < |text| && text[at] == sep
    ensures k + |form| <= at || at < k
  {
    forall j | k <= j < k + |form| ensures text[j] != sep {
      assert text[k..k + |form|][j - k] == text[j];
    }
  }

  /** Once the cursor is past the start of the joined fragments they no longer all fit. */
  lemma {:induction false} NoRoom(fragments: seq<string>, before: string, sep: char, cursor: nat)
    requires fragments != [] && Avoids(fragments, sep) && cursor > |before|
    ensures !Placeable(fragments, before + Joined(fragments, sep), cursor)
  {
    var q, rest := fragments[0], fragments[1..];
    var text := before + Joined(fragments, sep);
    var before' := before + q + [sep];
    assert text == before' + Joined(rest, sep);
    assert MatchesAt(q, text, |before|);
    forall k: nat, form | cursor <= k && IsForm(q, form) && MatchesAt(form, text, k)
      ensures !Placeable(rest, text, k + |form|)
    {
      FormAvoids(q, form, sep);
      assert text[|before| + |q|] == sep;
      StaysOnOneSide(form, text, k, |before| + |q|, sep);
      FormFitsOnlyAtStart(q, form, text, |before|, k);
      if rest != [] {
        assert forall j | 0 <= j < |rest| :: rest[j] == fragments[j + 1];
        NoRoom(rest, before', sep, k + |form|);
      }
    }
  }

  lemma MatchesInPlace(before: string, needle: string, after: string)
    ensures MatchesAt(needle, before + needle + after, |before|)
  {
  }

  /** The joined fragments are placeable where they stand. */
  lemma {:induction false} RoomInPlace(fragments: seq<string>, before: string, after: string, sep: char)
    requires Avoids(fragments, sep)
    ensures Placeable(fragments, before + Joined(fragments, sep) + after, |before|)
  {
    if fragments != [] {
      var q, rest := fragments[0], fragments[1..];
      var text := before + Joined(fragments, sep) + after;
      assert text == (before + q + [sep]) + Joined(rest, sep) + after;
      assert text == before + q + ([sep] + Joined(rest, sep) + after);
      assert IsForm(q, q) && Avoids(rest, sep) by {
        assert forall j | 0 <= j < |rest| :: rest[j] == fragments[j + 1];
      }
      hide Placeable, Joined, Avoids, IsForm, MatchesAt;
      RoomInPlace(rest, before + q + [sep], after, sep);
      EarlierIsEasier(rest, text, |before| + |q|, |before| + |q| + 1);
      MatchesInPlace(before, q, [sep] + Joined(rest, sep) + after);
      PlaceFirst(fragments, text, |before|, |before|, q);
    }
  }

  ghost predicate Contains(text: string, needle: string) {
    exists k: nat :: MatchesAt(needle, text, k)
  }

  /** What follows the joined fragments in a trap: the whole quote, unless one of them has it. */
  ghost function Bait(q: string, rest: seq<string>): string {
    if exists j | 0 <= j < |rest| :: Contains(rest[j], q) then "" else q
  }

  /** The text that misleads the search at one strippable fragment: the stripped form first,
      and the whole form only where it leaves no room for the rest. */
  ghost function Trap(q: string, rest: seq<string>, sep: char): string {
    Strip(q) + [sep] + Joined(rest, sep) + Bait(q, rest)
  }

  lemma Regroup(a: string, b: string, c: string, d: string, e: string)
    ensures a + (b + c + d + e) == (a + b + c) + d + e
    ensures a + (b + c + d + e) == a + b + (c + d + e)
  {
  }

  lemma StripIsForm(q: string)
    requires q != "" && !Unstrippable(q)
    ensures IsForm(q, Strip(q)) && |Strip(q)| < |q|
  {
  }

  lemma TrapIsPlaceable(q: string, rest: seq<string>, before: string, sep: char)
    requires q != "" && !Unstrippable(q) && Avoids(rest, sep)
    ensures Placeable([q] + rest, before + Trap(q, rest, sep), |before|)
  {
    var text, head, tail, bait := before + Trap(q, rest, sep), Strip(q), Joined(rest, sep), Bait(q, rest);
    StripIsForm(q);
    Regroup(before, head, [sep], tail, bait);
    hide *;
    RoomInPlace(rest, before + head + [sep], bait, sep);
    EarlierIsEasier(rest, text, |before| + |head|, |before| + |head| + 1);
    assert ([q] + rest)[1..] == rest;
    MatchesInPlace(before, head, [sep] + tail + bait);
    PlaceFirst([q] + rest, text, |before|, |before|, head);
  }

  /** The trap holds the whole quote somewhere behind its stripped form. */
  lemma WholeInTrap(q: string, rest: seq<string>, lead: string, sep: char) returns (at: nat)
    requires q != "" && Avoids(rest, sep)
    ensures at >= |lead| && MatchesAt(q, lead + Joined(rest, sep) + Bait(q, rest), at)
  {
    if j :| 0 <= j < |rest| && Contains(rest[j], q) {
      var k := InsideJoined(q, rest, sep, j);
      at := |lead| + k;
      assert (lead + Joined(rest, sep))[at..at + |q|] == Joined(rest, sep)[k..k + |q|];
      assert lead + Joined(rest, sep) + "" == lead + Joined(rest, sep);
    } else {
      at := |lead| + |Joined(rest, sep)|;
      MatchesInPlace(lead + Joined(rest, sep), q, "");
      assert lead + Joined(rest, sep) + q + "" == lead + Joined(rest, sep) + q;
    }
  }

  lemma {:induction false} InsideJoined(q: string, rest: seq<string>, sep: char, j: nat) returns (k: nat)
    requires j < |rest| && Contains(rest[j], q)
    ensures MatchesAt(q, Joined(rest, sep), k)
  {
    var tail := Joined(rest[1..], sep);
    if j == 0 {
      k :| MatchesAt(q, rest[0], k);
      assert Joined(rest, sep)[k..k + |q|] == rest[0][k..k + |q|];
    } else {
      var i := InsideJoined(q, rest[1..], sep, j - 1);
      k := |rest[0]| + 1 + i;
      assert Joined(rest, sep) == (rest[0] + [sep]) + tail;
      assert Joined(rest, sep)[k..k + |q|] == tail[i..i + |q|];
    }
  }

  lemma NotPlaceableFails(fragments: seq<string>, text: string, cursor: nat)
    requires !Placeable(fragments, text, cursor)
    ensures !Succeeds(fragments, text, cursor)
  {
    if Succeeds(fragments, text, cursor) {
      SuccessIsPlacement(fragments, text, cursor);
    }
  }

  lemma NoRoomAtEnd(fragments: seq<string>, text: string, cursor: nat)
    requires fragments != [] && cursor >= |text|
    ensures !Placeable(fragments, text, cursor)
  {
    if Placeable(fragments, text, cursor) {
      var k, form := TakeFirst(fragments, text, cursor);
    }
  }

  /** Where no later fragment holds the quote, it occurs behind them only as the bait. */
  lemma {:induction false} BaitIsLast(q: string, rest: seq<string>, lead: string, sep: char, k: nat)
    requires Avoids(rest, sep) && sep !in q && forall j | 0 <= j < |rest| :: !Contains(rest[j], q)
    requires k >= |lead| && MatchesAt(q, lead + Joined(rest, sep) + q, k)
    ensures k >= |lead| + |Joined(rest, sep)|
  {
    if rest != [] {
      var text, lead' := lead + Joined(rest, sep) + q, lead + rest[0] + [sep];
      assert text == lead' + Joined(rest[1..], sep) + q;
      StaysOnOneSide(q, text, k, |lead| + |rest[0]|, sep);
      if k < |lead'| {
        assert rest[0][k - |lead|..k - |lead| + |q|] == text[k..k + |q|];
        assert MatchesAt(q, rest[0], k - |lead|);
        assert Contains(rest[0], q);
        assert false;
      }
      BaitIsLast(q, rest[1..], lead', sep, k);
    }
  }

  /** A whole quote found in the trap leaves no room for the rest. */
  lemma NothingFollows(q: string, rest: seq<string>, lead: string, sep: char, k: nat)
    requires q != "" && sep !in q && rest != [] && Avoids(rest, sep)
    requires k >= |lead| && MatchesAt(q, lead + Joined(rest, sep) + Bait(q, rest), k)
    ensures !Placeable(rest, lead + Joined(rest, sep) + Bait(q, rest), k + |q|)
  {
    if exists j | 0 <= j < |rest| :: Contains(rest[j], q) {
      assert lead + Joined(rest, sep) + "" == lead + Joined(rest, sep);
      NoRoom(rest, lead, sep, k + |q|);
    } else {
      BaitIsLast(q, rest, lead, sep, k);
      NoRoomAtEnd(rest, lead + Joined(rest, sep) + q, k + |q|);
    }
  }

  /** In a trap the search takes the whole quote, too late for the rest. */
  lemma TrapFails(q: string, rest: seq<string>, before: string, sep: char)
    requires q != "" && sep !in q && !Unstrippable(q) && rest != [] && Avoids(rest, sep)
    ensures !Succeeds([q] + rest, before + Trap(q, rest, sep), |before|)
  {
    hide *;
    var text, lead := before + Trap(q, rest, sep), before + Strip(q) + [sep];
    TrapText(q, rest, before, sep);
    var at := WholeInTrap(q, rest, lead, sep);
    WholeFormWins(q, text, |before|, at);
    var pos := FindForm(q, text, |before|).pos;
    StaysOnOneSide(q, text, pos, |before| + |Strip(q)|, sep);
    NothingFollows(q, rest, lead, sep, pos);
    NotPlaceableFails(rest, text, pos + |q|);
    SucceedCons(q, rest, text, |before|);
  }

  lemma SucceedCons(q: string, rest: seq<string>, text: string, cursor: nat)
    requires FindForm(q, text, cursor).Hit? && FindForm(q, text, cursor).form == q
    ensures Succeeds([q] + rest, text, cursor) <==> Succeeds(rest, text, FindForm(q, text, cursor).pos + |q|)
  {
    hide *;
    assert ([q] + rest)[1..] == rest && ([q] + rest)[0] == q;
    SucceedFirst([q] + rest, text, cursor);
  }

  lemma TrapText(q: string, rest: seq<string>, before: string, sep: char)
    requires q != "" && !Unstrippable(q)
    ensures var text, lead := before + Trap(q, rest, sep), before + Strip(q) + [sep];
            && text == lead + Joined(rest, sep) + Bait(q, rest)
            && |before| + |Strip(q)| < |text| && text[|before| + |Strip(q)|] == sep && |Strip(q)| < |q|
  {
    StripIsForm(q);
    Regroup(before, Strip(q), [sep], Joined(rest, sep), Bait(q, rest));
  }

  lemma WholeFormWins(q: string, text: string, cursor: nat, at: nat)
    requires q != "" && cursor <= at && MatchesAt(q, text, at)
    ensures FindForm(q, text, cursor).Hit? && FindForm(q, text, cursor).form == q
    ensures cursor <= FindForm(q, text, cursor).pos && MatchesAt(q, text, FindForm(q, text, cursor).pos)
  {
  }

  /** Leading fragments standing one after another at the cursor are taken one by one. */
  lemma {:induction false} LeadIsTaken(lead: seq<string>, rest: seq<string>, before: string, after: string)
    requires forall k | 0 <= k < |lead| :: lead[k] != ""
    ensures var text := before + Concat(lead) + after;
            && Succeeds(lead + rest, text, |before|) == Succeeds(rest, text, |before| + |Concat(lead)|)
            && (Placeable(rest, text, |before| + |Concat(lead)|) ==> Placeable(lead + rest, text, |before|))
  {
    ConcatIs(lead);
    hide *;
    if lead == [] {
      assert lead + rest == rest && before + "" + after == before + after;
    } else {
      var q, more := lead[0], lead[1..];
      var tail := Concat(more);
      var text := before + Concat(lead) + after;
      Regroup(before, q, tail, after, "");
      assert text == (before + q) + tail + after && text == before + q + (tail + after);
      LeadIsTaken(more, rest, before + q, after);
      MatchesInPlace(before, q, tail + after);
      assert lead + rest == [q] + (more + rest);
      TakenFirst(q, more + rest, text, |before|);
    }
  }

  lemma ConcatIs(fragments: seq<string>)
    ensures Concat(fragments) == if fragments == [] then "" else fragments[0] + Concat(fragments[1..])
  {
  }

  /** A fragment standing at the cursor is taken there. */
  lemma TakenFirst(q: string, rest: seq<string>, text: string, cursor: nat)
    requires q != "" && MatchesAt(q, text, cursor)
    ensures Succeeds([q] + rest, text, cursor) == Succeeds(rest, text, cursor + |q|)
    ensures Placeable(rest, text, cursor + |q|) ==> Placeable([q] + rest, text, cursor)
  {
    hide *;
    TakenHit(q, text, cursor);
    SucceedCons(q, rest, text, cursor);
    if Placeable(rest, text, cursor + |q|) {
      assert ([q] + rest)[1..] == rest;
      PlaceFirst([q] + rest, text, cursor, cursor, q);
    }
  }

  lemma TakenHit(q: string, text: string, cursor: nat)
    requires q != "" && MatchesAt(q, text, cursor)
    ensures FindForm(q, text, cursor) == Hit(cursor, q) && IsForm(q, q)
  {
    WholeFormWins(q, text, cursor, cursor);
    HitIsLeftmost(q, text, cursor);
  }

  ghost function Concat(fragments: seq<string>): string {
    if fragments == [] then "" else fragments[0] + Concat(fragments[1..])
  }

  lemma AroundOne(fragments: seq<string>, i: nat)
    requires i < |fragments|
    ensures fragments == fragments[..i] + ([fragments[i]] + fragments[i + 1..])
  {
  }

  lemma StartEmpty(a: string, b: string)
    ensures "" + a + b == a + b
  {
  }

  lemma AvoidsParts(fragments: seq<string>, sep: char, i: nat)
    requires Avoids(fragments, sep) && i < |fragments|
    ensures Avoids(fragments[i + 1..], sep)
    ensures fragments[i] != "" && sep !in fragments[i]
    ensures forall k | 0 <= k < i :: fragments[..i][k] != ""
  {
  }

  /** A list with an earlier strippable fragment has a text that holds a placement the search
      does not find. */
  lemma StrippableMisleads(fragments: seq<string>, sep: char, i: nat) returns (text: string)
    requires Avoids(fragments, sep) && i < |fragments| - 1 && !Unstrippable(fragments[i])
    ensures text == Concat(fragments[..i]) + Trap(fragments[i], fragments[i + 1..], sep)
    ensures Placeable(fragments, text, 0) && !Succeeds(fragments, text, 0)
  {
    hide *;
    var lead, q, rest := fragments[..i], fragments[i], fragments[i + 1..];
    AroundOne(fragments, i);
    AvoidsParts(fragments, sep, i);
    text := Concat(lead) + Trap(q, rest, sep);
    StartEmpty(Concat(lead), Trap(q, rest, sep));
    TrapIsPlaceable(q, rest, Concat(lead), sep);
    TrapFails(q, rest, Concat(lead), sep);
    LeadIsTaken(lead, [q] + rest, "", Trap(q, rest, sep));
  }
}
