/** Quotes in the form the search takes them, against the searchable form of a text. */
module Normalising {
  import opened Searchable

  /** Every run of space as one blank. */
  function Squeezed(s: string): string {
    if s == "" then ""
    else
      var before, last := Squeezed(s[..|s| - 1]), s[|s| - 1];
      if !IsSpace(last) then before + [last]
      else if before != "" && before[|before| - 1] == ' ' then before
      else before + " "
  }

  // ----- Lowercasing a whole text

  predicate Cased(c: char) {
    'A' <= c <= 'Z' || 'a' <= c <= 'z' || c == DOTTED_I || c == SIGMA || c == SMALL_SIGMA || c == FINAL_SIGMA
  }

  /** Passed over when looking for the letters around a sigma. */
  predicate Ignorable(c: char) {
    c in "'.:^`" || c == '\U{0307}'
  }

  /** The letters, and the characters passed over, that this model knows. */
  lemma CasedIs(c: char)
    ensures Cased(c) <==> c in CAPITALS + SMALLS + "\U{0130}\U{03A3}\U{03C3}\U{03C2}"
    ensures Ignorable(c) <==> c in ['\'', '.', ':', '^', '`', '\U{0307}']
  {
    LettersAre(c);
    hide CAPITALS, SMALLS;
  }

  predicate CasedBefore(s: string, i: nat)
    requires i <= |s|
  {
    i > 0 && if Ignorable(s[i - 1]) then CasedBefore(s, i - 1) else Cased(s[i - 1])
  }

  predicate CasedFrom(s: string, i: nat)
    decreases |s| - i
  {
    i < |s| && if Ignorable(s[i]) then CasedFrom(s, i + 1) else Cased(s[i])
  }

  /** A capital sigma with a letter before it and none after. */
  predicate EndsWord(s: string, i: nat)
    requires i < |s|
  {
    s[i] == SIGMA && CasedBefore(s, i) && !CasedFrom(s, i + 1)
  }

  /** The text with final sigmas where a capital one ends a word. */
  function Finals(s: string): (t: string)
    ensures |t| == |s|
    ensures forall i | 0 <= i < |s| :: t[i] == if EndsWord(s, i) then FINAL_SIGMA else s[i]
  {
    seq(|s|, i requires 0 <= i < |s| => if EndsWord(s, i) then FINAL_SIGMA else s[i])
  }

  /** Position a holds a letter, with nothing but passed-over characters between a and b. */
  ghost predicate LetterBefore(s: string, a: int, b: int) {
    0 <= a < b <= |s| && Cased(s[a]) && !Ignorable(s[a]) && forall k | a < k < b :: Ignorable(s[k])
  }

  ghost predicate LetterAfter(s: string, b: int, a: int) {
    0 <= b < a < |s| && Cased(s[a]) && !Ignorable(s[a]) && forall k | b < k < a :: Ignorable(s[k])
  }

  /** The capital sigma at i follows a letter and precedes none, over whatever is passed over. */
  ghost predicate FinalSigmaAt(s: string, i: nat) {
    && i < |s| && s[i] == SIGMA
    && (exists a :: LetterBefore(s, a, i)) && !exists a :: LetterAfter(s, i, a)
  }

  lemma {:induction false} CasedBeforeIff(s: string, i: nat)
    requires i <= |s|
    ensures CasedBefore(s, i) <==> exists a :: LetterBefore(s, a, i)
  {
    if i > 0 && Ignorable(s[i - 1]) {
      var j := i - 1;
      CasedBeforeIff(s, j);
      if a :| LetterBefore(s, a, j) {
        assert LetterBefore(s, a, i);
      }
      if a :| LetterBefore(s, a, i) {
        assert LetterBefore(s, a, j);
      }
    } else if i > 0 && Cased(s[i - 1]) {
      assert LetterBefore(s, i - 1, i);
    }
  }

  lemma {:induction false} CasedFromIff(s: string, i: nat)
    requires i < |s|
    ensures CasedFrom(s, i + 1) <==> exists a :: LetterAfter(s, i, a)
    decreases |s| - i
  {
    if i + 1 < |s| && Ignorable(s[i + 1]) {
      var j := i + 1;
      CasedFromIff(s, j);
      if a :| LetterAfter(s, j, a) {
        assert LetterAfter(s, i, a);
      }
      if a :| LetterAfter(s, i, a) {
        assert LetterAfter(s, j, a);
      }
    } else if i + 1 < |s| && Cased(s[i + 1]) {
      assert LetterAfter(s, i, i + 1);
    }
  }

  lemma EndsWordIff(s: string, i: nat)
    requires i < |s|
    ensures EndsWord(s, i) <==> FinalSigmaAt(s, i)
  {
    CasedBeforeIff(s, i);
    CasedFromIff(s, i);
  }

  /** No capital sigma ends a word. */
  ghost predicate NoFinalSigma(s: string) {
    forall i: nat | i < |s| :: !FinalSigmaAt(s, i)
  }

  /** Lowercasing as one text goes character by character, but for capital sigmas at the end of a word. */
  lemma FinalsAt(s: string)
    ensures forall i: nat | i < |s| :: Finals(s)[i] == if FinalSigmaAt(s, i) then FINAL_SIGMA else s[i]
  {
    forall i: nat | i < |s| ensures EndsWord(s, i) <==> FinalSigmaAt(s, i) {
      EndsWordIff(s, i);
    }
    hide EndsWord, FinalSigmaAt;
  }

  lemma FinalsSame(s: string)
    ensures Finals(s) == s <==> NoFinalSigma(s)
  {
    FinalsAt(s);
    hide Finals;
    if NoFinalSigma(s) {
      assert Finals(s) == s;
    } else {
      var i: nat :| i < |s| && FinalSigmaAt(s, i);
      assert Finals(s)[i] != s[i];
    }
  }

  /** Lowercased as one text. */
  function LoweredWhole(s: string): string {
    Lowered(Finals(s))
  }

  /** A quote as it is searched: stripped, lowercased, runs of space as one blank. */
  function Norm(quote: string): string {
    Squeezed(LoweredWhole(Stripped(quote)))
  }

  // ----- Texts that are their own searchable form

  /** A character that stays as it is. */
  predicate Plain(c: char) { Piece(c) == [c] }

  /** Plain characters, no blank first and no two blanks in a row. */
  ghost predicate PlainText(t: string) {
    && (forall i | 0 <= i < |t| :: Plain(t[i]))
    && forall i | 0 <= i < |t| && t[i] == ' ' :: i > 0 && t[i - 1] != ' '
  }

  /** As a quote: not ending in a blank either. */
  ghost predicate PlainQuote(t: string) {
    PlainText(t) && (t != "" ==> t[|t| - 1] != ' ')
  }

  lemma PlainChars(c: char)
    ensures Plain(c) ==> (IsSpace(c) <==> c == ' ') && Lower(c) == [c] && c != '\n'
    ensures !IsSpace(c) ==> forall d | d in Lower(c) :: Plain(d) && !IsSpace(d)
  {
  }

  lemma {:induction false} LoweredPlain(t: string)
    requires PlainText(t)
    ensures Lowered(t) == t
  {
    if t != "" {
      LoweredPlain(t[..|t| - 1]);
      PlainChars(t[|t| - 1]);
    }
  }

  lemma {:induction false} SqueezedPlain(t: string)
    requires PlainText(t)
    ensures Squeezed(t) == t
  {
    if t != "" {
      SqueezedPlain(t[..|t| - 1]);
      PlainChars(t[|t| - 1]);
    }
  }

  lemma StrippedPlain(t: string)
    requires t != "" ==> !IsSpace(t[0]) && !IsSpace(t[|t| - 1])
    ensures Stripped(t) == t
  {
  }

  lemma PlainHasNoSigma(t: string)
    requires PlainText(t)
    ensures Finals(t) == t
  {
    FinalsSame(t);
    assert forall i | 0 <= i < |t| :: t[i] != SIGMA;
  }

  /** A plain quote is searched as it is. */
  lemma NormPlain(t: string)
    requires PlainQuote(t)
    ensures Norm(t) == t
  {
    if t != "" {
      PlainChars(t[0]);
      PlainChars(t[|t| - 1]);
    }
    StrippedPlain(t);
    PlainHasNoSigma(t);
    LoweredPlain(t);
    SqueezedPlain(t);
  }

  // ----- Growing plain texts

  /** Plain characters none of which is space. */
  ghost predicate Word(w: string) {
    forall i | 0 <= i < |w| :: Plain(w[i]) && !IsSpace(w[i])
  }

  ghost predicate EndsBlank(t: string) { t != "" && t[|t| - 1] == ' ' }

  lemma PlainWord(t: string, w: string)
    requires PlainText(t) && Word(w) && w != ""
    ensures PlainText(t + w) && !EndsBlank(t + w)
  {
    hide Plain;
    forall i | 0 <= i < |t + w| && (t + w)[i] == ' ' ensures i > 0 && (t + w)[i - 1] != ' ' {
      assert i >= |t| ==> w[i - |t|] == ' ' && IsSpace(' ');
      assert i < |t| ==> t[i] == ' ';
    }
  }

  lemma PlainBlank(t: string)
    requires PlainText(t) && t != "" && !EndsBlank(t)
    ensures PlainText(t + " ") && EndsBlank(t + " ")
  {
    PlainChars(' ');
    assert Plain(' ');
    hide Plain;
  }

  lemma LowerIsWord(c: char)
    requires !IsSpace(c)
    ensures Word(Lower(c)) && Lower(c) != "" && Piece(c) == Lower(c)
  {
    PlainChars(c);
    assert forall i | 0 <= i < |Lower(c)| :: Lower(c)[i] in Lower(c);
  }

  // ----- The normal form of a quote is plain

  lemma SqueezedStep(s: string, c: char)
    ensures IsSpace(c) ==>
              Squeezed(s + [c]) == if EndsBlank(Squeezed(s)) then Squeezed(s) else Squeezed(s) + " "
    ensures !IsSpace(c) ==> Squeezed(s + [c]) == Squeezed(s) + [c]
  {
    assert (s + [c])[..|s|] == s;
  }

  lemma {:induction false} SqueezedWord(s: string, w: string)
    requires Word(w)
    ensures Squeezed(s + w) == Squeezed(s) + w
  {
    hide Squeezed;
    if w == "" {
      assert s + w == s;
    } else {
      var most, last := w[..|w| - 1], w[|w| - 1];
      SqueezedWord(s, most);
      SqueezedStep(s + most, last);
      assert s + w == (s + most) + [last];
    }
  }

  lemma LoweredStep(s: string, c: char)
    ensures Lowered(s + [c]) == Lowered(s) + Lower(c)
  {
    assert (s + [c])[..|s|] == s;
  }

  /** Squeezing a lowercased text that starts with a word. */
  ghost predicate SqueezedWell(s: string) {
    var t := Squeezed(Lowered(s));
    && PlainText(t) && (t == "" <==> s == "")
    && (s != "" ==> (EndsBlank(t) <==> IsSpace(s[|s| - 1])))
  }

  lemma SqueezedNext(s: string, c: char)
    requires SqueezedWell(s) && (s == "" ==> !IsSpace(c))
    ensures SqueezedWell(s + [c])
    ensures Squeezed(Lowered(s + [c])) ==
            if !IsSpace(c) then Squeezed(Lowered(s)) + Lower(c)
            else if s != "" && IsSpace(s[|s| - 1]) then Squeezed(Lowered(s)) else Squeezed(Lowered(s)) + " "
  {
    hide Squeezed, Lowered, PlainText, Word;
    var t := Squeezed(Lowered(s));
    LoweredStep(s, c);
    if IsSpace(c) {
      assert Lower(c) == [c];
      SqueezedStep(Lowered(s), c);
      if !EndsBlank(t) {
        PlainBlank(t);
      }
    } else {
      LowerIsWord(c);
      SqueezedWord(Lowered(s), Lower(c));
      PlainWord(t, Lower(c));
    }
  }

  lemma SqueezedNothing()
    ensures SqueezedWell("")
  {
  }

  lemma {:induction false} SqueezedIsWell(s: string)
    requires s != "" ==> !IsSpace(s[0])
    ensures SqueezedWell(s)
  {
    hide *;
    if s == "" {
      SqueezedNothing();
    } else {
      SqueezedIsWell(s[..|s| - 1]);
      SqueezedNext(s[..|s| - 1], s[|s| - 1]);
      assert s[..|s| - 1] + [s[|s| - 1]] == s;
    }
  }

  lemma {:induction false} RightTrimmedEnds(s: string)
    ensures RightTrimmed(s) > 0 ==> !IsSpace(s[RightTrimmed(s) - 1])
    ensures forall k | RightTrimmed(s) <= k < |s| :: IsSpace(s[k])
  {
    if s != "" && IsSpace(s[|s| - 1]) {
      RightTrimmedEnds(s[..|s| - 1]);
    }
  }

  /** Stripping leaves the part from the first to the last character that is not space. */
  lemma {:induction false} LeftTrimmedPart(s: string) returns (a: nat)
    ensures a <= |s| && LeftTrimmed(s) == s[a..]
    ensures forall k | 0 <= k < a :: IsSpace(s[k])
    ensures a < |s| ==> !IsSpace(s[a])
  {
    a := 0;
    if s != "" && IsSpace(s[0]) {
      var rest := LeftTrimmedPart(s[1..]);
      a := rest + 1;
    }
  }

  lemma StrippedPart(s: string) returns (a: nat, b: nat)
    ensures a <= b <= |s| && Stripped(s) == s[a..b]
    ensures a < b ==> !IsSpace(s[a]) && !IsSpace(s[b - 1])
    ensures a == b <==> forall k | 0 <= k < |s| :: IsSpace(s[k])
    ensures forall k | 0 <= k < a || b <= k < |s| :: IsSpace(s[k])
  {
    hide IsSpace;
    b := RightTrimmed(s);
    RightTrimmedEnds(s);
    var cut := s[..b];
    a := LeftTrimmedPart(cut);
    assert cut[a..] == s[a..b];
    assert forall k | 0 <= k < a :: s[k] == cut[k];
    assert b > 0 ==> cut[b - 1] == s[b - 1];
  }

  /** Every searched quote is plain, and searching it again changes nothing. */
  lemma NormIsPlain(quote: string)
    ensures PlainQuote(Norm(quote)) && Norm(Norm(quote)) == Norm(quote)
  {
    var a, b := StrippedPart(quote);
    var s := quote[a..b];
    assert s != "" ==> (IsSpace(Finals(s)[0]) <==> IsSpace(s[0])) && (IsSpace(Finals(s)[|s| - 1]) <==> IsSpace(s[|s| - 1]));
    hide Squeezed, Lowered, Stripped, IsSpace, Finals;
    SqueezedIsWell(Finals(s));
    assert PlainQuote(Norm(quote));
    NormPlain(Norm(quote));
  }

  // ----- The searchable text is plain

  /** What has been kept, as text. */
  ghost predicate KeptWell(raw: string, n: nat)
    requires n <= |raw|
  {
    var idx, t := Kept(raw, n), Expand(raw, Kept(raw, n));
    && PlainText(t) && (t == "" <==> idx == []) && (EndsSpace(raw, idx) <==> t == "" || EndsBlank(t))
  }

  lemma ExpandStep(raw: string, idx: seq<nat>, p: nat)
    requires p < |raw| && forall k | 0 <= k < |idx| :: idx[k] < |raw|
    ensures Expand(raw, idx + [p]) == Expand(raw, idx) + Piece(raw[p])
  {
    assert (idx + [p])[..|idx|] == idx;
  }

  lemma KeptNext(raw: string, n: nat)
    requires n < |raw| && KeptWell(raw, n)
    ensures KeptWell(raw, n + 1)
    ensures var t := Expand(raw, Kept(raw, n));
            Expand(raw, Kept(raw, n + 1)) ==
            if !Content(raw, 0, n) then t
            else if !IsSpace(raw[n]) then t + Lower(raw[n])
            else if t == "" || EndsBlank(t) then t else t + " "
    ensures Content(raw, 0, n) ==> (EndsSpace(raw, Kept(raw, n + 1)) <==> IsSpace(raw[n]))
  {
    hide Content, PlainText, Word, Expand;
    var idx := Kept(raw, n);
    var t := Expand(raw, idx);
    KeptStep(raw, n + 1);
    ExpandStep(raw, idx, n);
    if !IsSpace(raw[n]) {
      LowerIsWord(raw[n]);
      PlainWord(t, Lower(raw[n]));
    } else if t != "" && !EndsBlank(t) {
      PlainBlank(t);
    }
  }

  lemma KeptNothing(raw: string)
    ensures KeptWell(raw, 0)
  {
  }

  lemma {:induction false} KeptIsWell(raw: string, n: nat)
    requires n <= |raw|
    ensures KeptWell(raw, n)
  {
    hide *;
    if n == 0 {
      KeptNothing(raw);
    } else {
      KeptIsWell(raw, n - 1);
      KeptNext(raw, n - 1);
    }
  }

  lemma SearchIsPlain(raw: string)
    ensures PlainText(Search(raw))
  {
    KeptIsWell(raw, |raw|);
  }

  lemma {:induction false} KeptGrows(raw: string, m: nat, n: nat)
    requires m <= n <= |raw|
    ensures Expand(raw, Kept(raw, m)) <= Expand(raw, Kept(raw, n))
    decreases n
  {
    hide *;
    if m < n {
      KeptGrows(raw, m, n - 1);
      KeptIsWell(raw, n - 1);
      KeptNext(raw, n - 1);
    }
  }

  // ----- A passage copied from the content is in the searchable text

  /** The passage raw[a..n], whose first character is not space, as kept and as searched. */
  lemma {:induction false} PassageKept(raw: string, a: nat, n: nat)
    requires a < n <= |raw| && !IsSpace(raw[a]) && forall p: nat | a <= p < n :: Content(raw, 0, p)
    ensures Expand(raw, Kept(raw, n)) == Expand(raw, Kept(raw, a)) + Squeezed(Lowered(raw[a..n]))
    decreases n
  {
    hide *;
    KeptIsWell(raw, n - 1);
    KeptNext(raw, n - 1);
    assert raw[a..n] == raw[a..n - 1] + [raw[n - 1]];
    SqueezedIsWell(raw[a..n - 1]);
    SqueezedNext(raw[a..n - 1], raw[n - 1]);
    var before, passage := Expand(raw, Kept(raw, a)), Squeezed(Lowered(raw[a..n - 1]));
    if n == a + 1 {
      WellNothing(raw[a..n - 1]);
      assert before + ("" + Lower(raw[a])) == before + Lower(raw[a]);
    } else {
      PassageKept(raw, a, n - 1);
      WellEnds(raw[a..n - 1], before);
      assert raw[a..n - 1][|raw[a..n - 1]| - 1] == raw[n - 2];
      assert (before + passage) + Lower(raw[n - 1]) == before + (passage + Lower(raw[n - 1]));
      assert (before + passage) + " " == before + (passage + " ");
    }
  }

  lemma WellNothing(s: string)
    requires s == ""
    ensures Squeezed(Lowered(s)) == ""
  {
  }

  lemma WellEnds(s: string, before: string)
    requires SqueezedWell(s) && s != ""
    ensures before + Squeezed(Lowered(s)) != ""
    ensures EndsBlank(before + Squeezed(Lowered(s))) <==> IsSpace(s[|s| - 1])
  {
    hide Squeezed, Lowered, PlainText, IsSpace;
  }

  /** Two texts that differ in final sigmas only. */
  ghost predicate SigmasApart(s: string, t: string) {
    |t| == |s| && forall i | 0 <= i < |s| :: t[i] == s[i] || (s[i] == SIGMA && t[i] == FINAL_SIGMA)
  }

  /** Lowercased and squeezed they have one length, and they read the same only if they are. */
  lemma {:induction false} SigmasShow(s: string, t: string)
    requires SigmasApart(s, t) && (s != "" ==> !IsSpace(s[0]))
    ensures |Squeezed(Lowered(s))| == |Squeezed(Lowered(t))|
    ensures Squeezed(Lowered(s)) == Squeezed(Lowered(t)) <==> s == t
  {
    SigmasAreNoSpace(s, t);
    if s == "" {
      assert t == "";
    } else {
      var n := |s| - 1;
      assert s[..n] + [s[n]] == s && t[..n] + [t[n]] == t;
      hide Squeezed, Lowered, IsSpace, SqueezedWell, Lower;
      SigmasShow(s[..n], t[..n]);
      SigmasNext(s[..n], t[..n], s[n], t[n]);
    }
  }

  lemma SigmasAreNoSpace(s: string, t: string)
    requires SigmasApart(s, t)
    ensures forall i | 0 <= i < |s| :: IsSpace(s[i]) <==> IsSpace(t[i])
  {
  }

  lemma SigmasNext(s: string, t: string, c: char, d: char)
    requires |s| == |t| && (s != "" ==> !IsSpace(s[0]) && !IsSpace(t[0])) && (s == "" ==> !IsSpace(c) && !IsSpace(d))
    requires s != "" ==> (IsSpace(s[|s| - 1]) <==> IsSpace(t[|s| - 1]))
    requires d == c || (c == SIGMA && d == FINAL_SIGMA)
    requires |Squeezed(Lowered(s))| == |Squeezed(Lowered(t))|
    ensures |Squeezed(Lowered(s + [c]))| == |Squeezed(Lowered(t + [d]))|
    ensures Squeezed(Lowered(s + [c])) == Squeezed(Lowered(t + [d])) <==>
            Squeezed(Lowered(s)) == Squeezed(Lowered(t)) && c == d
  {
    SqueezedIsWell(s);
    SqueezedIsWell(t);
    SqueezedNext(s, c);
    SqueezedNext(t, d);
    var x, y := Squeezed(Lowered(s)), Squeezed(Lowered(t));
    SigmaAppended(x, y, c, d);
    hide Squeezed, Lowered, SqueezedWell, Lower;
  }

  lemma SigmaAppended(x: string, y: string, c: char, d: char)
    requires |x| == |y| && (d == c || (c == SIGMA && d == FINAL_SIGMA))
    ensures IsSpace(c) ==> d == c
    ensures |Lower(c)| == |Lower(d)| && (x + Lower(c) == y + Lower(d) <==> x == y && c == d)
    ensures x + " " == y + " " <==> x == y
  {
    assert (x + Lower(c))[..|x|] == x && (y + Lower(d))[..|x|] == y && (x + Lower(c))[|x|] == Lower(c)[0];
    assert (y + Lower(d))[|x|] == Lower(d)[0] && (x + " ")[..|x|] == x && (y + " ")[..|x|] == y;
  }

  /** A quote copied from the content, timestamps, comments and headers between not included,
      stands in the searchable text where it was copied from, as it is searched, if and only if no
      capital sigma ends a word in it: there the searchable text has the other small sigma. */
  lemma VerbatimIsFound(raw: string, a: nat, b: nat) returns (at: nat)
    requires a <= b <= |raw| && forall p: nat | a <= p < b :: Content(raw, 0, p)
    requires exists p :: a <= p < b && !IsSpace(raw[p])
    ensures exists from :: a <= from < b && !IsSpace(raw[from]) && at == |Expand(raw, Kept(raw, from))|
                           && forall p | a <= p < from :: IsSpace(raw[p])
    ensures var q := Norm(raw[a..b]);
            && q != "" && at + |q| <= |Search(raw)|
            && (Search(raw)[at..at + |q|] == q <==> NoFinalSigma(Stripped(raw[a..b])))
  {
    hide *;
    var from, upto := CopiedPart(raw, a, b);
    PassageKept(raw, from, upto);
    KeptGrows(raw, upto, |raw|);
    SearchIs(raw);
    NormIs(raw[a..b]);
    SqueezedIsWell(raw[from..upto]);
    WellNotEmpty(raw[from..upto]);
    FinalsApart(raw[from..upto]);
    FinalsSame(raw[from..upto]);
    SigmasShow(raw[from..upto], Finals(raw[from..upto]));
    at := |Expand(raw, Kept(raw, from))|;
  }

  lemma FinalsApart(s: string)
    ensures SigmasApart(s, Finals(s))
  {
  }

  lemma SliceAt(raw: string, a: nat, b: nat, i: nat)
    requires a <= b <= |raw| && i < b - a
    ensures raw[a..b][i] == raw[a + i]
  {
  }

  lemma SlicePart(raw: string, a: nat, b: nat, f: nat, u: nat)
    requires a <= b <= |raw| && f <= u <= b - a
    ensures raw[a..b][f..u] == raw[a + f..a + u]
  {
    var whole, part := raw[a..b], raw[a + f..a + u];
    forall i | 0 <= i < u - f ensures whole[f..u][i] == part[i] {
      SliceAt(raw, a, b, f + i);
    }
  }

  /** Stripping a copied passage leaves a shorter passage. */
  lemma CopiedPart(raw: string, a: nat, b: nat) returns (from: nat, upto: nat)
    requires a <= b <= |raw| && exists p :: a <= p < b && !IsSpace(raw[p])
    ensures a <= from < upto <= b && Stripped(raw[a..b]) == raw[from..upto] && !IsSpace(raw[from])
    ensures forall p | a <= p < from :: IsSpace(raw[p])
  {
    hide *;
    var s := raw[a..b];
    var f, u := StrippedPart(s);
    var p :| a <= p < b && !IsSpace(raw[p]);
    SliceAt(raw, a, b, p - a);
    assert f < u;
    SliceAt(raw, a, b, f);
    SlicePart(raw, a, b, f, u);
    from, upto := a + f, a + u;
    forall p | a <= p < from ensures IsSpace(raw[p]) {
      SliceAt(raw, a, b, p - a);
    }
  }

  lemma SearchIs(raw: string)
    ensures Map(raw) == Kept(raw, |raw|) && Search(raw) == Expand(raw, Map(raw))
  {
  }

  lemma NormIs(quote: string)
    ensures Norm(quote) == Squeezed(Lowered(Finals(Stripped(quote))))
  {
  }

  lemma WellNotEmpty(s: string)
    requires SqueezedWell(s) && s != ""
    ensures Squeezed(Lowered(s)) != ""
  {
  }

  // ----- Every plain text is the searchable form of some text

  /** A transcript line with this content. */
  function Framed(t: string): string { "00:00:00.0 " + t }

  lemma FramedContent(t: string)
    requires PlainText(t)
    ensures forall p: nat :: Content(Framed(t), 0, p) <==> 11 <= p < 11 + |t|
  {
    var raw := Framed(t);
    NoNewline(t);
    assert LineEnd(raw, 0) == |raw|;
    assert raw[0..|raw|] == raw;
    NotFraming(t);
    assert forall p: nat :: InLine(raw, 0, p) <==> 11 <= p < |raw|;
  }

  lemma NoNewline(t: string)
    requires PlainText(t)
    ensures forall i | 0 <= i < |Framed(t)| :: Framed(t)[i] != '\n'
  {
    forall i | 0 <= i < |t| ensures t[i] != '\n' {
      PlainChars(t[i]);
    }
  }

  lemma NotFraming(t: string)
    ensures !IsFraming(Framed(t)) && StampLength(Framed(t)) == 11
  {
    var raw := Framed(t);
    assert raw[0] == '0' && raw[10] == ' ';
    StartsElsewhere(raw, "<!--");
    StartsElsewhere(raw, "#");
    assert LeftTrimmed(raw) == raw;
    assert DigitRun(raw, 10) == 10;
  }

  lemma StartsElsewhere(s: string, p: string)
    requires s != "" && p != "" && s[0] != p[0]
    ensures !StartsWith(s, p)
  {
    assert |p| <= |s| ==> s[..|p|][0] == s[0];
  }

  lemma {:induction false} FramedKept(t: string, n: nat)
    requires PlainText(t) && n <= |t|
    ensures 11 + n <= |Framed(t)| && Expand(Framed(t), Kept(Framed(t), 11 + n)) == t[..n]
  {
    hide *;
    FramedShape(t);
    FramedContent(t);
    var raw := Framed(t);
    if n == 0 {
      FramedStart(t, 11);
    } else {
      FramedKept(t, n - 1);
      KeptIsWell(raw, 10 + n);
      KeptNext(raw, 10 + n);
      PlainNext(t, n);
      assert t[..n] == t[..n - 1] + [t[n - 1]];
    }
  }

  lemma FramedShape(t: string)
    ensures |Framed(t)| == 11 + |t| && forall i | 0 <= i < |t| :: Framed(t)[11 + i] == t[i]
  {
  }

  lemma {:induction false} FramedStart(t: string, n: nat)
    requires PlainText(t) && n <= 11
    ensures n <= |Framed(t)| && Expand(Framed(t), Kept(Framed(t), n)) == ""
  {
    hide *;
    FramedShape(t);
    FramedContent(t);
    if n == 0 {
      ExpandNothing(Framed(t));
    } else {
      FramedStart(t, n - 1);
      KeptIsWell(Framed(t), n - 1);
      KeptNext(Framed(t), n - 1);
    }
  }

  lemma ExpandNothing(raw: string)
    ensures Expand(raw, Kept(raw, 0)) == ""
  {
  }

  /** The next character of a plain text is kept as it is. */
  lemma PlainNext(t: string, n: nat)
    requires PlainText(t) && 0 < n <= |t|
    ensures !IsSpace(t[n - 1]) ==> Lower(t[n - 1]) == [t[n - 1]]
    ensures IsSpace(t[n - 1]) ==> t[n - 1] == ' ' && t[..n - 1] != "" && !EndsBlank(t[..n - 1])
  {
    PlainChars(t[n - 1]);
  }

  /** So the plain texts are exactly the searchable forms. */
  lemma PlainIffSearchable(t: string)
    ensures PlainText(t) <==> exists raw :: Search(raw) == t
    ensures PlainText(t) ==> Search(Framed(t)) == t
  {
    if raw :| Search(raw) == t {
      SearchIsPlain(raw);
    }
    if PlainText(t) {
      FramedKept(t, |t|);
      FramedShape(t);
      SearchIs(Framed(t));
      assert t[..|t|] == t;
    }
  }
}
