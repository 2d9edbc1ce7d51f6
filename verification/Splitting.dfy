/** Quotes with parts left out: the fragments between the ellipses, as they are searched. */
module Splitting {
  import opened Searchable
  import opened Normalising

  const ELLIPSIS := '\U{2026}'

  /** Length of the separator at i: three dots, an ellipsis, or none. */
  function Cut(s: string, i: nat): nat {
    if i + 3 <= |s| && s[i] == '.' && s[i + 1] == '.' && s[i + 2] == '.' then 3
    else if i < |s| && s[i] == ELLIPSIS then 1
    else 0
  }

  function FirstCut(s: string, i: nat): (j: nat)
    requires i <= |s|
    ensures i <= j <= |s| && (forall k | i <= k < j :: Cut(s, k) == 0)
    ensures j < |s| ==> Cut(s, j) > 0
    decreases |s| - i
  {
    if i == |s| || Cut(s, i) > 0 then i else FirstCut(s, i + 1)
  }

  function Pieces(s: string): seq<string>
    decreases |s|
  {
    var j := FirstCut(s, 0);
    if j == |s| then [s] else [s[..j]] + Pieces(s[j + Cut(s, j)..])
  }

  /** The pieces with something in them, normalised. */
  function Filled(pieces: seq<string>): seq<string> {
    if pieces == [] then []
    else (if Stripped(pieces[0]) != "" then [Norm(Stripped(pieces[0]))] else []) + Filled(pieces[1..])
  }

  /** What is searched for a quote that does not stand in the text whole. */
  function Fragments(quote: string): seq<string> {
    Filled(Pieces(Stripped(quote)))
  }

  /** A searched form without a separator in it. */
  ghost predicate Fragment(f: string) {
    f != "" && PlainQuote(f) && NoCut(f)
  }

  predicate NoCut(s: string) {
    forall i | 0 <= i < |s| :: Cut(s, i) == 0
  }

  // ----- What splitting does

  /** A separator of length n stands at i: three dots, or one ellipsis. */
  ghost predicate Separates(s: string, i: nat, n: nat) {
    (n == 3 && i + 3 <= |s| && s[i..i + 3] == "...") || (n == 1 && i < |s| && s[i] == '\U{2026}')
  }

  ghost predicate Unseparated(s: string) {
    forall i: nat, n: nat :: !Separates(s, i, n)
  }

  lemma CutIs(s: string, i: nat)
    ensures Cut(s, i) > 0 ==> Separates(s, i, Cut(s, i))
    ensures forall n: nat | Separates(s, i, n) :: Cut(s, i) == n > 0
  {
    var dots := "...";
    if i + 3 <= |s| {
      var t := s[i..i + 3];
      assert t == dots <==> t[0] == '.' && t[1] == '.' && t[2] == '.';
      assert t[0] == s[i] && t[1] == s[i + 1] && t[2] == s[i + 2];
    }
  }

  lemma NoCutIs(s: string)
    ensures NoCut(s) <==> Unseparated(s)
  {
    hide Cut, Separates;
    if NoCut(s) {
      forall i: nat, n: nat ensures !Separates(s, i, n) {
        CutIs(s, i);
        if i >= |s| {
          NoneBeyond(s, i);
        }
      }
    }
    if Unseparated(s) {
      forall i | 0 <= i < |s| ensures Cut(s, i) == 0 {
        CutIs(s, i);
        assert !Separates(s, i, Cut(s, i));
      }
    }
  }

  lemma NoneBeyond(s: string, i: nat)
    requires i >= |s|
    ensures Cut(s, i) == 0
  {
  }

  /** The text falls apart at its separators, taken from the left without overlap. */
  ghost predicate SplitsInto(s: string, pieces: seq<string>)
    decreases |pieces|
  {
    && pieces != []
    && if |pieces| == 1 then s == pieces[0] && Unseparated(s)
       else
         var j := |pieces[0]|;
         && j <= |s| && s[..j] == pieces[0] && (forall i: nat, n: nat | i < j :: !Separates(s, i, n))
         && exists n: nat :: Separates(s, j, n) && SplitsInto(s[j + n..], pieces[1..])
  }

  lemma {:induction false} PiecesSplit(s: string)
    ensures SplitsInto(s, Pieces(s))
    decreases |s|
  {
    var j := FirstCut(s, 0);
    forall i: nat, n: nat | i < j ensures !Separates(s, i, n) {
      CutIs(s, i);
    }
    if j == |s| {
      NoCutIs(s);
      hide Separates, Unseparated;
      assert Pieces(s) == [s];
    } else {
      CutIs(s, j);
      var n := Cut(s, j);
      hide Cut, Separates;
      var rest := Pieces(s[j + n..]);
      PiecesSplit(s[j + n..]);
      assert Pieces(s) == [s[..j]] + rest && ([s[..j]] + rest)[1..] == rest;
      assert |rest| >= 1;
    }
  }

  /** Which pieces are kept: those with a character that is not space, in order. */
  ghost predicate KeepsFilled(pieces: seq<string>, at: seq<nat>) {
    && (forall i | 0 <= i < |at| :: at[i] < |pieces|)
    && (forall i, j | 0 <= i < j < |at| :: at[i] < at[j])
    && forall k: nat | k < |pieces| :: k in at <==> exists c :: c in pieces[k] && !IsSpace(c)
  }

  lemma StrippedFilled(s: string)
    ensures Stripped(s) != "" <==> exists c :: c in s && !IsSpace(c)
  {
    var a, b := StrippedPart(s);
    hide Stripped, IsSpace;
    if Stripped(s) != "" {
      assert !IsSpace(s[a]) && s[a] in s;
    }
    if c :| c in s && !IsSpace(c) {
      var k :| 0 <= k < |s| && s[k] == c;
      assert a <= k < b;
    }
  }

  lemma {:induction false} FilledAppend(pieces: seq<string>, p: string)
    ensures Filled(pieces + [p]) == Filled(pieces) + if Stripped(p) != "" then [Norm(Stripped(p))] else []
  {
    hide Stripped, Norm;
    if pieces == [] {
      assert [p][1..] == [] && Filled([]) == [];
      assert pieces + [p] == [p];
    } else {
      FilledAppend(pieces[1..], p);
      assert (pieces + [p])[1..] == pieces[1..] + [p];
    }
  }

  lemma KeepsMore(pieces: seq<string>, at: seq<nat>, p: string)
    requires KeepsFilled(pieces, at)
    ensures KeepsFilled(pieces + [p], at + if Stripped(p) != "" then [|pieces|] else [])
  {
    StrippedFilled(p);
    hide Stripped, IsSpace;
  }

  lemma {:induction false} FilledAre(pieces: seq<string>) returns (at: seq<nat>)
    ensures KeepsFilled(pieces, at) && |Filled(pieces)| == |at|
    ensures forall i | 0 <= i < |at| :: Filled(pieces)[i] == Norm(Stripped(pieces[at[i]]))
  {
    at := [];
    if pieces != [] {
      var init, last := pieces[..|pieces| - 1], pieces[|pieces| - 1];
      assert pieces == init + [last];
      at := FilledAre(init);
      FilledAppend(init, last);
      KeepsMore(init, at, last);
      hide Norm, Stripped, Filled;
      at := at + if Stripped(last) != "" then [|init|] else [];
    }
  }

  /** What a quote is searched as, part by part: the parts between its separators that are not all
      space, in order, each stripped and normalised. */
  lemma FragmentsAre(quote: string) returns (pieces: seq<string>, at: seq<nat>)
    ensures SplitsInto(Stripped(quote), pieces) && KeepsFilled(pieces, at)
    ensures |Fragments(quote)| == |at|
    ensures forall i | 0 <= i < |at| :: Fragments(quote)[i] == Norm(Stripped(pieces[at[i]]))
  {
    pieces := Pieces(Stripped(quote));
    PiecesSplit(Stripped(quote));
    at := FilledAre(pieces);
  }

  lemma SplitNext(s: string, pieces: seq<string>) returns (n: nat)
    requires SplitsInto(s, pieces) && |pieces| > 1
    ensures |pieces[0]| + n <= |s| && Separates(s, |pieces[0]|, n) && n == Cut(s, |pieces[0]|)
    ensures s[..|pieces[0]|] == pieces[0] && SplitsInto(s[|pieces[0]| + n..], pieces[1..])
    ensures forall i: nat, m: nat | i < |pieces[0]| :: !Separates(s, i, m)
  {
    n :| Separates(s, |pieces[0]|, n) && SplitsInto(s[|pieces[0]| + n..], pieces[1..]);
    CutIs(s, |pieces[0]|);
  }

  /** There is one way to fall apart. */
  lemma {:induction false} SplitsOnce(s: string, a: seq<string>, b: seq<string>)
    requires SplitsInto(s, a) && SplitsInto(s, b)
    ensures a == b
    decreases |a|
  {
    hide Separates, Cut;
    if |a| > 1 {
      var m := SplitNext(s, a);
      if |b| > 1 {
        var n := SplitNext(s, b);
        assert |a[0]| == |b[0]|;
        SplitsOnce(s[|a[0]| + m..], a[1..], b[1..]);
        assert a == [a[0]] + a[1..] && b == [b[0]] + b[1..];
      }
    } else if |b| > 1 {
      var n := SplitNext(s, b);
    }
  }

  // ----- Every fragment is one

  /** Dots at the end of a text. */
  function Dots(s: string): nat {
    if s != "" && s[|s| - 1] == '.' then Dots(s[..|s| - 1]) + 1 else 0
  }

  lemma DotsStep(s: string, c: char)
    ensures Dots(s + [c]) == if c == '.' then Dots(s) + 1 else 0
  {
    assert (s + [c])[..|s|] == s;
  }

  lemma LastDots(s: string)
    ensures Dots(s) >= 2 <==> |s| >= 2 && s[|s| - 1] == '.' && s[|s| - 2] == '.'
  {
    if s != "" && s[|s| - 1] == '.' {
      var t := s[..|s| - 1];
      assert Dots(t) >= 1 <==> t != "" && t[|t| - 1] == '.';
    }
  }

  lemma CutStep(s: string, c: char, i: nat)
    requires i <= |s|
    ensures Cut(s + [c], i) ==
            if i == |s| then if c == ELLIPSIS then 1 else 0
            else if i + 2 == |s| && s[i] == '.' && s[i + 1] == '.' && c == '.' then 3
            else Cut(s, i)
  {
    var t := s + [c];
    assert t[|s|] == c && forall k | 0 <= k < |s| :: t[k] == s[k];
  }

  lemma NoCutStep(s: string, c: char)
    ensures NoCut(s + [c]) <==> NoCut(s) && c != ELLIPSIS && !(c == '.' && Dots(s) >= 2)
  {
    var t := s + [c];
    LastDots(s);
    hide Dots, Cut;
    if NoCut(t) {
      CutStep(s, c, |s|);
      if |s| >= 2 {
        CutStep(s, c, |s| - 2);
        assert Cut(t, |s| - 2) == 0;
      }
      assert Cut(t, |s|) == 0;
      forall i | 0 <= i < |s| ensures Cut(s, i) == 0 {
        CutStep(s, c, i);
        assert Cut(t, i) == 0;
      }
    }
    if NoCut(s) && c != ELLIPSIS && !(c == '.' && Dots(s) >= 2) {
      forall i | 0 <= i < |t| ensures Cut(t, i) == 0 {
        CutStep(s, c, i);
      }
    }
  }

  /** Neither lowercasing nor squeezing brings dots together. */
  lemma {:induction false} LoweredDots(s: string)
    ensures Dots(Lowered(s)) == Dots(s) && (NoCut(Lowered(s)) <==> NoCut(s))
  {
    if s != "" {
      var t, c := s[..|s| - 1], s[|s| - 1];
      LoweredDots(t);
      assert t + [c] == s;
      hide Dots, NoCut, Lowered;
      LoweredStep(t, c);
      NoCutStep(t, c);
      DotsStep(t, c);
      AppendedDots(Lowered(t), c);
    }
  }

  lemma AppendedDots(t: string, c: char)
    ensures Dots(t + Lower(c)) == if c == '.' then Dots(t) + 1 else 0
    ensures NoCut(t + Lower(c)) <==> NoCut(t) && c != ELLIPSIS && !(c == '.' && Dots(t) >= 2)
  {
    var low := Lower(c);
    hide Dots, NoCut;
    NoCutStep(t, low[0]);
    DotsStep(t, low[0]);
    if c == DOTTED_I {
      NoCutStep(t + [low[0]], low[1]);
      DotsStep(t + [low[0]], low[1]);
      assert t + low == (t + [low[0]]) + [low[1]];
    } else {
      assert low == [low[0]];
    }
  }

  lemma {:induction false} SqueezedDots(s: string)
    ensures Dots(Squeezed(s)) == Dots(s) && (NoCut(Squeezed(s)) <==> NoCut(s))
  {
    if s != "" {
      var t, c := s[..|s| - 1], s[|s| - 1];
      SqueezedDots(t);
      assert t + [c] == s;
      SqueezedStep(t, c);
      NoCutStep(t, c);
      DotsStep(t, c);
      NoCutStep(Squeezed(t), c);
      DotsStep(Squeezed(t), c);
      NoCutStep(Squeezed(t), ' ');
      DotsStep(Squeezed(t), ' ');
      BlankHasNoDots(Squeezed(t));
      hide Dots, NoCut, Squeezed;
    }
  }

  lemma BlankHasNoDots(t: string)
    ensures EndsBlank(t) ==> Dots(t) == 0
  {
  }

  lemma PartHasNoCut(s: string, a: nat, b: nat)
    requires a <= b <= |s| && forall k | a <= k < b :: Cut(s, k) == 0
    ensures NoCut(s[a..b])
  {
    forall i | 0 <= i < b - a ensures Cut(s[a..b], i) == 0 {
      assert Cut(s, a + i) == 0;
    }
  }

  lemma NormHasNoCut(s: string)
    requires NoCut(s)
    ensures NoCut(Norm(Stripped(s)))
  {
    var a, b := StrippedPart(s);
    PartHasNoCut(s, a, b);
    var t := Stripped(s);
    var a', b' := StrippedPart(t);
    PartHasNoCut(t, a', b');
    var u := Stripped(t);
    assert NoCut(Finals(u)) by {
      assert forall i: nat :: Cut(Finals(u), i) == Cut(u, i);
    }
    hide Finals, NoCut, Stripped;
    LoweredDots(Finals(u));
    SqueezedDots(Lowered(Finals(u)));
    NormIs(t);
  }

  lemma StrippedIsNormal(s: string)
    requires Stripped(s) != ""
    ensures PlainQuote(Norm(Stripped(s))) && Norm(Stripped(s)) != ""
  {
    var a, b := StrippedPart(s);
    var t := Stripped(s);
    NormIsPlain(t);
    StrippedPlain(t);
    assert IsSpace(Finals(t)[0]) <==> IsSpace(t[0]);
    hide Squeezed, Lowered, Finals, PlainQuote, IsSpace, Stripped;
    NormIs(t);
    SqueezedIsWell(Finals(t));
    WellNotEmpty(Finals(t));
  }

  lemma {:induction false} FilledAreFragments(s: string)
    ensures forall f | f in Filled(Pieces(s)) :: Fragment(f)
    decreases |s|
  {
    var j := FirstCut(s, 0);
    var first := if j == |s| then s else s[..j];
    var rest: seq<string> := if j == |s| then [] else Pieces(s[j + Cut(s, j)..]);
    assert Pieces(s) == [first] + rest;
    assert ([first] + rest)[1..] == rest;
    PartHasNoCut(s, 0, j);
    assert s[0..j] == first;
    if j < |s| {
      FilledAreFragments(s[j + Cut(s, j)..]);
    }
    hide Pieces, Fragment, NoCut, Cut;
    NormHasNoCut(first);
    if Stripped(first) != "" {
      StrippedIsNormal(first);
      assert Fragment(Norm(Stripped(first))) by { FragmentIs(Norm(Stripped(first))); }
    }
  }

  lemma FragmentIs(f: string)
    requires f != "" && PlainQuote(f) && NoCut(f)
    ensures Fragment(f)
  {
  }

  // ----- And every list of fragments can be searched

  /** The fragments with dots between them. */
  function Spread(fragments: seq<string>): string
    requires fragments != []
  {
    if |fragments| == 1 then fragments[0] else fragments[0] + " ... " + Spread(fragments[1..])
  }

  lemma FragmentEnds(f: string)
    requires Fragment(f)
    ensures !IsSpace(f[0]) && !IsSpace(f[|f| - 1])
  {
    PlainChars(f[0]);
    PlainChars(f[|f| - 1]);
  }

  lemma PaddedStrips(f: string, pad: string, end: string)
    requires Fragment(f) && (pad == "" || pad == " ") && (end == "" || end == " ")
    ensures Stripped(pad + f + end) == f && Norm(f) == f
  {
    FragmentEnds(f);
    var s := pad + f + end;
    var a, b := StrippedPart(s);
    assert s[|pad|] == f[0] && s[|pad| + |f| - 1] == f[|f| - 1];
    assert IsSpace(' ');
    hide IsSpace;
    assert !IsSpace(s[|pad|]) && !IsSpace(s[|pad| + |f| - 1]);
    assert a <= |pad| && |pad| + |f| <= b;
    assert a == |pad| && b == |pad| + |f|;
    assert s[|pad|..|pad| + |f|] == f;
    NormPlain(f);
  }

  lemma CutBehind(pad: string, f: string, rest: string)
    requires Fragment(f) && (pad == "" || pad == " ")
    ensures var s := pad + f + " ... " + rest;
            && FirstCut(s, 0) == |pad| + |f| + 1 && Cut(s, |pad| + |f| + 1) == 3
            && s[..|pad| + |f| + 1] == pad + f + " " && s[|pad| + |f| + 4..] == " " + rest
  {
    var s, n := pad + f + " ... " + rest, |pad| + |f|;
    AroundDots(pad + f, rest);
    assert forall i | |pad| <= i < n :: s[i] == f[i - |pad|];
    forall k | 0 <= k < n + 1 ensures Cut(s, k) == 0 {
      if |pad| <= k < n {
        assert Cut(f, k - |pad|) == 0;
      }
    }
    assert Cut(s, n + 1) == 3;
    hide Cut;
  }

  lemma AroundDots(before: string, rest: string)
    ensures var s, n := before + " ... " + rest, |before|;
            && |s| == n + 5 + |rest| && s[n] == ' ' && s[n + 1] == '.' && s[n + 2] == '.' && s[n + 3] == '.'
            && s[..n + 1] == before + " " && s[n + 4..] == " " + rest
  {
    var s := before + " ... " + rest;
    assert s == (before + " ") + ("... " + rest) && s == (before + " ...") + (" " + rest);
  }

  lemma {:induction false} SpreadSplits(fragments: seq<string>, pad: string)
    requires fragments != [] && (pad == "" || pad == " ") && forall k | 0 <= k < |fragments| :: Fragment(fragments[k])
    ensures Filled(Pieces(pad + Spread(fragments))) == fragments
    decreases |fragments|
  {
    var f, tail := fragments[0], fragments[1..];
    assert fragments == [f] + tail;
    SpreadIs(fragments);
    hide *;
    if |fragments| == 1 {
      PaddedStrips(f, pad, "");
      NoEnd(pad + f);
      WholePiece(pad, f);
      FilledOne(pad + f);
    } else {
      var rest := Spread(tail);
      SpreadSplits(tail, " ");
      CutBehind(pad, f, rest);
      PaddedStrips(f, pad, " ");
      FilledOn(pad + f + " ... " + rest, pad + f + " ", " " + rest, |pad| + |f| + 1);
      Regrouped(pad, f, rest);
    }
  }

  lemma SpreadIs(fragments: seq<string>)
    requires fragments != []
    ensures |fragments| == 1 ==> Spread(fragments) == fragments[0] && fragments[1..] == []
    ensures |fragments| > 1 ==> Spread(fragments) == fragments[0] + " ... " + Spread(fragments[1..])
    ensures [fragments[0]] + [] == [fragments[0]]
  {
  }

  lemma NoEnd(s: string)
    ensures s + "" == s
  {
  }

  lemma Regrouped(pad: string, f: string, rest: string)
    ensures pad + (f + " ... " + rest) == pad + f + " ... " + rest
  {
  }

  lemma FilledOne(s: string)
    ensures Filled([s]) == if Stripped(s) != "" then [Norm(Stripped(s))] else []
  {
  }

  lemma FilledOn(s: string, first: string, rest: string, j: nat)
    requires FirstCut(s, 0) == j < |s| && Cut(s, j) == 3 && s[..j] == first && s[j + 3..] == rest
    ensures Filled(Pieces(s)) == (if Stripped(first) != "" then [Norm(Stripped(first))] else []) + Filled(Pieces(rest))
  {
    assert ([first] + Pieces(rest))[1..] == Pieces(rest);
  }

  lemma WholePiece(pad: string, f: string)
    requires Fragment(f) && (pad == "" || pad == " ")
    ensures Pieces(pad + f) == [pad + f]
  {
    var s := pad + f;
    forall k | 0 <= k < |s| ensures Cut(s, k) == 0 {
      if k >= |pad| {
        assert Cut(f, k - |pad|) == 0;
        assert forall i | |pad| <= i < |s| :: s[i] == f[i - |pad|];
      }
    }
  }

  lemma {:induction false} SpreadEnds(fragments: seq<string>)
    requires fragments != [] && forall k | 0 <= k < |fragments| :: Fragment(fragments[k])
    ensures Spread(fragments) != "" && !IsSpace(Spread(fragments)[0])
    ensures !IsSpace(Spread(fragments)[|Spread(fragments)| - 1])
  {
    FragmentEnds(fragments[0]);
    hide Fragment, IsSpace;
    if |fragments| > 1 {
      SpreadEnds(fragments[1..]);
    }
  }

  /** The lists that are searched are exactly those of searched forms without a separator. */
  lemma FragmentsIff(fragments: seq<string>)
    ensures (exists quote :: Fragments(quote) == fragments) <==>
            forall k | 0 <= k < |fragments| ::
              fragments[k] != "" && PlainQuote(fragments[k]) && Unseparated(fragments[k])
  {
    forall k | 0 <= k < |fragments|
      ensures Fragment(fragments[k]) <==>
              fragments[k] != "" && PlainQuote(fragments[k]) && Unseparated(fragments[k])
    {
      NoCutIs(fragments[k]);
    }
    hide Unseparated, PlainQuote, Fragment;
    if quote :| Fragments(quote) == fragments {
      FilledAreFragments(Stripped(quote));
    }
    if forall k | 0 <= k < |fragments| :: Fragment(fragments[k]) {
      if fragments == [] {
        assert Pieces("") == [""] && Stripped("") == "";
        assert Fragments("") == [];
      } else {
        SpreadEnds(fragments);
        StrippedPlain(Spread(fragments));
        SpreadSplits(fragments, "");
        assert "" + Spread(fragments) == Spread(fragments);
        assert Fragments(Spread(fragments)) == fragments;
      }
    }
  }
}
