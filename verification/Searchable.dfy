/** The searchable form of a text and its map back to raw offsets.

    Whitespace is ASCII and Latin-1; lowercasing is ASCII plus two characters: capital I with
    dot above, whose lowercase form has two characters, and capital sigma, which has another
    lowercase form at the end of a word. */
module Searchable {

  predicate IsSpace(c: char) {
    var n := c as int;
    9 <= n <= 13 || 28 <= n <= 32 || n == 0x85 || n == 0xA0
  }

  predicate IsDigit(c: char) {
    '0' <= c <= '9'
  }

  const DOTTED_I := '\U{0130}'
  const SIGMA := '\U{03A3}'
  const SMALL_SIGMA := '\U{03C3}'
  const FINAL_SIGMA := '\U{03C2}'

  /** A character lowercased by itself. */
  function Lower(c: char): (s: string)
    ensures |s| >= 1 && (|s| == 1 <==> c != DOTTED_I)
  {
    if 'A' <= c <= 'Z' then [(c as int + 32) as char]
    else if c == DOTTED_I then ['i', '\U{0307}']
    else if c == SIGMA then [SMALL_SIGMA]
    else [c]
  }

  // ----- The characters, one by one

  const CAPITALS := "ABCDEFGHIJKLMNOPQRSTUVWXYZ"
  const SMALLS := "abcdefghijklmnopqrstuvwxyz"

  /** The white space of ASCII and Latin-1: tab to carriage return, the four separators, blank,
      next line and no-break space. */
  lemma SpaceIs(c: char)
    ensures IsSpace(c) <==>
            c in ['\t', '\n', '\U{0B}', '\U{0C}', '\r', '\U{1C}', '\U{1D}', '\U{1E}', '\U{1F}', ' ', '\U{85}', '\U{A0}']
  {
  }

  lemma DigitIs(c: char)
    ensures IsDigit(c) <==> c in "0123456789"
  {
  }

  lemma LetterCodes()
    ensures |CAPITALS| == |SMALLS| == 26
    ensures forall k | 0 <= k < 26 :: CAPITALS[k] as int == 65 + k && SMALLS[k] as int == 97 + k
  {
  }

  lemma LettersAre(c: char)
    ensures c in CAPITALS <==> 'A' <= c <= 'Z'
    ensures c in SMALLS <==> 'a' <= c <= 'z'
    ensures |CAPITALS| == |SMALLS| == 26
    ensures forall k | 0 <= k < 26 :: CAPITALS[k] as int == 65 + k && SMALLS[k] as int == 97 + k
  {
    LetterCodes();
    hide CAPITALS, SMALLS;
    if 'A' <= c <= 'Z' {
      assert CAPITALS[c as int - 65] == c;
    }
    if 'a' <= c <= 'z' {
      assert SMALLS[c as int - 97] == c;
    }
  }

  /** Each capital becomes the small letter in its place; two more characters change, and no others. */
  lemma LowerIs(c: char)
    ensures forall k | 0 <= k < 26 && c == CAPITALS[k] :: Lower(c) == [SMALLS[k]]
    ensures c == '\U{0130}' ==> Lower(c) == "i\U{0307}"
    ensures c == '\U{03A3}' ==> Lower(c) == "\U{03C3}"
    ensures c !in CAPITALS + "\U{0130}\U{03A3}" ==> Lower(c) == [c]
  {
    LettersAre(c);
    hide CAPITALS, SMALLS;
  }

  // ----- Lines and their framing

  /** One past the line that starts at b: after its newline, or the end of the text. */
  function LineEnd(text: string, b: nat): (e: nat)
    requires b < |text|
    ensures b < e <= |text|
    ensures forall k | b <= k < e - 1 :: text[k] != '\n'
    ensures e < |text| ==> text[e - 1] == '\n'
    decreases |text| - b
  {
    if text[b] == '\n' || b + 1 == |text| then b + 1 else LineEnd(text, b + 1)
  }

  function RightTrimmed(line: string): (n: nat)
    ensures n <= |line|
  {
    if line != "" && IsSpace(line[|line| - 1]) then RightTrimmed(line[..|line| - 1]) else |line|
  }

  function LeftTrimmed(line: string): string {
    if line != "" && IsSpace(line[0]) then LeftTrimmed(line[1..]) else line
  }

  /** Without the space at both ends. */
  function Stripped(s: string): string { LeftTrimmed(s[..RightTrimmed(s)]) }

  /** Lowercased character by character. */
  function Lowered(s: string): string {
    if s == "" then "" else Lowered(s[..|s| - 1]) + Lower(s[|s| - 1])
  }

  predicate StartsWith(s: string, p: string) {
    |p| <= |s| && s[..|p|] == p
  }

  predicate IsComment(line: string) {
    var n := RightTrimmed(line);
    n <= |line| && n >= 7 && StartsWith(line, "<!--") && line[n - 3..n] == "-->"
  }

  predicate IsHeader(line: string) {
    StartsWith(LeftTrimmed(line), "#")
  }

  predicate IsFraming(line: string) {
    IsComment(line) || IsHeader(line)
  }

  function DigitRun(line: string, i: nat): (j: nat)
    requires i <= |line|
    ensures i <= j <= |line|
    decreases |line| - i
  {
    if i < |line| && IsDigit(line[i]) then DigitRun(line, i + 1) else i
  }

  /** Length of a leading hh:mm:ss.d timestamp and the one space after it, or 0. */
  function StampLength(line: string): (n: nat)
    ensures n <= |line|
  {
    if |line| >= 10 && IsDigit(line[0]) && IsDigit(line[1]) && line[2] == ':'
       && IsDigit(line[3]) && IsDigit(line[4]) && line[5] == ':'
       && IsDigit(line[6]) && IsDigit(line[7]) && line[8] == '.' && IsDigit(line[9])
    then
      var n := DigitRun(line, 10);
      if n < |line| && IsSpace(line[n]) then n + 1 else n
    else 0
  }

  // ----- Content offsets, line by line

  /** The offsets of a line that belong to the content: none of a framing line, everything
      after the timestamp of another. */
  predicate InLine(text: string, b: nat, p: nat)
    requires b < |text|
  {
    var line := text[b..LineEnd(text, b)];
    !IsFraming(line) && b + StampLength(line) <= p < LineEnd(text, b)
  }

  /** Whether offset p, in or after the line starting at b, is content. */
  ghost predicate Content(text: string, b: nat, p: nat)
    decreases |text| - b
  {
    b < |text| && (InLine(text, b, p) || Content(text, LineEnd(text, b), p))
  }

  /** The searchable piece of one kept character. */
  function Piece(c: char): (s: string)
    ensures |s| >= 1 && (|s| == 1 <==> c != DOTTED_I)
  {
    if IsSpace(c) then " " else Lower(c)
  }

  ghost predicate Increasing(idx: seq<nat>) {
    forall i, j | 0 <= i < j < |idx| :: idx[i] < idx[j]
  }

  /** The concatenated pieces of the kept offsets. */
  ghost function Expand(text: string, idx: seq<nat>): string
    requires forall k | 0 <= k < |idx| :: idx[k] < |text|
  {
    if idx == [] then "" else Expand(text, idx[..|idx| - 1]) + Piece(text[idx[|idx| - 1]])
  }

  /** No kept space comes first or follows another kept space. */
  ghost predicate Collapsed(text: string, idx: seq<nat>)
    requires forall k | 0 <= k < |idx| :: idx[k] < |text|
  {
    forall k | 0 <= k < |idx| && IsSpace(text[idx[k]]) :: k > 0 && !IsSpace(text[idx[k - 1]])
  }

  /** Whether a space at the next offset would be dropped. */
  predicate EndsSpace(text: string, idx: seq<nat>)
    requires forall k | 0 <= k < |idx| :: idx[k] < |text|
  {
    idx == [] || IsSpace(text[idx[|idx| - 1]])
  }

  /** The kept offsets below n: the content, without a space that comes first or after a space. */
  ghost function Kept(text: string, n: nat): (idx: seq<nat>)
    requires n <= |text|
    ensures forall k | 0 <= k < |idx| :: idx[k] < n
  {
    if n == 0 then []
    else
      var before := Kept(text, n - 1);
      if Content(text, 0, n - 1) && !(IsSpace(text[n - 1]) && EndsSpace(text, before)) then before + [n - 1] else before
  }

  /** The searchable text, and the raw offset behind each of its characters. */
  ghost function Map(text: string): (idx: seq<nat>)
    ensures forall k | 0 <= k < |idx| :: idx[k] < |text|
  {
    Kept(text, |text|)
  }

  ghost function Search(text: string): string {
    Expand(text, Map(text))
  }

  /** An offset that is kept after others keeps them in order and no two spaces in a row. */
  lemma AppendKept(text: string, idx: seq<nat>, p: nat)
    requires p < |text| && (forall k | 0 <= k < |idx| :: idx[k] < p) && Increasing(idx) && Collapsed(text, idx)
    requires !(IsSpace(text[p]) && EndsSpace(text, idx))
    ensures Increasing(idx + [p]) && Collapsed(text, idx + [p])
  {
    hide IsSpace;
    var more := idx + [p];
    forall k | 0 <= k < |more| && IsSpace(text[more[k]]) ensures k > 0 && !IsSpace(text[more[k - 1]]) {
      assert k < |idx| ==> more[k] == idx[k] && (k > 0 ==> more[k - 1] == idx[k - 1]);
    }
  }

  lemma {:induction false} KeptInOrder(text: string, n: nat)
    requires n <= |text|
    ensures Increasing(Kept(text, n)) && Collapsed(text, Kept(text, n))
  {
    hide *;
    KeptStep(text, n);
    if n == 0 {
      NothingKept(text);
    } else {
      KeptInOrder(text, n - 1);
      if Kept(text, n) != Kept(text, n - 1) {
        AppendKept(text, Kept(text, n - 1), n - 1);
      }
    }
  }

  lemma NothingKept(text: string)
    ensures Increasing([]) && Collapsed(text, [])
  {
  }

  lemma {:induction false} KeptIsContent(text: string, n: nat)
    requires n <= |text|
    ensures forall p | p in Kept(text, n) :: Content(text, 0, p)
    ensures forall p: nat | p < n && Content(text, 0, p) && !IsSpace(text[p]) :: p in Kept(text, n)
  {
    hide *;
    KeptStep(text, n);
    if n > 0 {
      KeptIsContent(text, n - 1);
    }
  }

  lemma KeptStep(text: string, n: nat)
    requires n <= |text|
    ensures n == 0 ==> Kept(text, n) == []
    ensures n > 0 ==>
            var before := Kept(text, n - 1);
            Kept(text, n) == if Content(text, 0, n - 1) && !(IsSpace(text[n - 1]) && EndsSpace(text, before))
                             then before + [n - 1] else before
  {
  }

  // ----- The scan

  /** The line that starts at b decides its own offsets, and later lines the later ones. */
  ghost predicate AtLine(text: string, b: nat) {
    forall p: nat | b <= p :: Content(text, 0, p) <==> Content(text, b, p)
  }

  lemma {:induction false} ContentLater(text: string, b: nat, p: nat)
    requires Content(text, b, p)
    ensures b <= p < |text|
    decreases |text| - b
  {
    hide IsFraming, StampLength;
    if !InLine(text, b, p) {
      ContentLater(text, LineEnd(text, b), p);
    }
  }

  lemma NextLine(text: string, b: nat)
    requires b < |text| && AtLine(text, b)
    ensures AtLine(text, LineEnd(text, b))
    ensures forall p: nat | b <= p < LineEnd(text, b) :: Content(text, 0, p) <==> InLine(text, b, p)
  {
    hide IsFraming, StampLength;
    var e := LineEnd(text, b);
    forall p: nat | b <= p
      ensures e <= p ==> (Content(text, 0, p) <==> Content(text, e, p))
      ensures p < e ==> (Content(text, 0, p) <==> InLine(text, b, p))
    {
      if Content(text, e, p) {
        ContentLater(text, e, p);
      }
    }
  }

  /** What the scan has kept when it stands at offset `at`. */
  ghost predicate Scanned(text: string, out: string, idx: seq<nat>, prevSpace: bool, at: nat) {
    && at <= |text| && idx == Kept(text, at) && out == Expand(text, idx) && (prevSpace <==> EndsSpace(text, idx))
  }

  lemma ScanStep(text: string, out: string, idx: seq<nat>, prevSpace: bool, p: nat)
    requires p < |text| && Scanned(text, out, idx, prevSpace, p)
    ensures !Content(text, 0, p) ==> Scanned(text, out, idx, prevSpace, p + 1)
    ensures Content(text, 0, p) ==>
              if IsSpace(text[p]) && prevSpace then Scanned(text, out, idx, prevSpace, p + 1)
              else Scanned(text, out + Piece(text[p]), idx + [p], IsSpace(text[p]), p + 1)
  {
    hide Content, Piece;
    assert (idx + [p])[..|idx|] == idx;
  }

  /** Nothing is kept of what is not content. */
  lemma {:induction false} ScanSkips(text: string, out: string, idx: seq<nat>, prevSpace: bool, at: nat, later: nat)
    requires at <= later <= |text| && Scanned(text, out, idx, prevSpace, at)
    requires forall p: nat | at <= p < later :: !Content(text, 0, p)
    ensures Scanned(text, out, idx, prevSpace, later)
    decreases later - at
  {
    hide Scanned, Content;
    if at < later {
      ScanStep(text, out, idx, prevSpace, at);
      ScanSkips(text, out, idx, prevSpace, at + 1, later);
    }
  }

  method ScanLine(text: string, base: nat, end: nat, out0: string, idx0: seq<nat>, prev0: bool)
    returns (out: string, idx: seq<nat>, prevSpace: bool)
    requires base <= end <= |text| && Scanned(text, out0, idx0, prev0, base)
    requires forall p: nat | base <= p < end :: Content(text, 0, p)
    ensures Scanned(text, out, idx, prevSpace, end)
  {
    out, idx, prevSpace := out0, idx0, prev0;
    hide Scanned, Content;
    for p := base to end
      invariant Scanned(text, out, idx, prevSpace, p)
    {
      ScanStep(text, out, idx, prevSpace, p);
      if IsSpace(text[p]) {
        if prevSpace {
          continue;
        }
        out, idx, prevSpace := out + " ", idx + [p], true;
      } else {
        out, idx, prevSpace := out + Lower(text[p]), idx + [p], false;
      }
    }
  }

  lemma StartScan(text: string)
    ensures Scanned(text, "", [], true, 0) && AtLine(text, 0)
  {
  }

  lemma LineOffsets(text: string, b: nat)
    requires b < |text| && AtLine(text, b)
    ensures var e := LineEnd(text, b);
            var line := text[b..e];
            && AtLine(text, e) && e <= |text| && b + StampLength(line) <= e
            && (IsFraming(line) ==> forall p: nat | b <= p < e :: !Content(text, 0, p))
            && (!IsFraming(line) ==>
                  && (forall p: nat | b <= p < b + StampLength(line) :: !Content(text, 0, p))
                  && forall p: nat | b + StampLength(line) <= p < e :: Content(text, 0, p))
  {
    NextLine(text, b);
    hide IsFraming, StampLength, Content;
  }

  // ----- What is content, in characters and line positions

  /** text[b..e] is a whole line, with its newline if it has one. */
  ghost predicate IsLine(text: string, b: nat, e: nat) {
    && b < e <= |text| && (b == 0 || text[b - 1] == '\n') && (e == |text| || text[e - 1] == '\n')
    && forall k | b <= k < e - 1 :: text[k] != '\n'
  }

  /** The first character of the line that is not space is a hash. */
  ghost predicate Heading(text: string, b: nat, e: nat)
    requires b <= e <= |text|
  {
    exists k | b <= k < e :: text[k] == '#' && forall i | b <= i < k :: IsSpace(text[i])
  }

  /** The line starts with a comment mark, and before the space at its end stands the closing one. */
  ghost predicate Comment(text: string, b: nat, e: nat)
    requires b <= e <= |text|
  {
    b + 7 <= e && text[b..b + 4] == "<!--" && exists m | b + 7 <= m <= e :: Closes(text, e, m)
  }

  /** The closing mark ends at m, and only space follows on the line. */
  ghost predicate Closes(text: string, e: nat, m: nat)
    requires 3 <= m <= e <= |text|
  {
    text[m - 3..m] == "-->" && forall i | m <= i < e :: IsSpace(text[i])
  }

  /** The line starts with a dd:dd:dd.d+ stamp that ends at j, with all the digits there are. */
  ghost predicate StampTo(text: string, b: nat, e: nat, j: nat)
    requires b <= e <= |text|
  {
    && b + 10 <= j <= e && (j == e || !IsDigit(text[j]))
    && IsDigit(text[b]) && IsDigit(text[b + 1]) && text[b + 2] == ':'
    && IsDigit(text[b + 3]) && IsDigit(text[b + 4]) && text[b + 5] == ':'
    && IsDigit(text[b + 6]) && IsDigit(text[b + 7]) && text[b + 8] == '.'
    && forall i | b + 9 <= i < j :: IsDigit(text[i])
  }

  /** Offset p lies in the line's stamp or is the one space after it. */
  ghost predicate InStamp(text: string, b: nat, e: nat, p: nat)
    requires b <= e <= |text| && b <= p < e
  {
    exists j :: StampTo(text, b, e, j) && (p < j || (p == j && IsSpace(text[p])))
  }

  /** Offset p lies in a line that is no heading and no comment, behind its stamp if it has one. */
  ghost predicate Shown(text: string, p: nat) {
    exists b, e :: ShownIn(text, b, e, p)
  }

  ghost predicate ShownIn(text: string, b: nat, e: nat, p: nat) {
    IsLine(text, b, e) && b <= p < e && !Heading(text, b, e) && !Comment(text, b, e) && !InStamp(text, b, e, p)
  }

  lemma {:induction false} TrimmedAt(line: string, k: nat)
    requires k <= |line| && forall i | 0 <= i < k :: IsSpace(line[i])
    ensures LeftTrimmed(line) == LeftTrimmed(line[k..])
  {
    if k > 0 {
      TrimmedAt(line[1..], k - 1);
      assert line[1..][k - 1..] == line[k..];
    } else {
      assert line[0..] == line;
    }
  }

  lemma {:induction false} TrimmedFrom(line: string) returns (k: nat)
    ensures k <= |line| && LeftTrimmed(line) == line[k..] && (k < |line| ==> !IsSpace(line[k]))
    ensures forall i | 0 <= i < k :: IsSpace(line[i])
  {
    k := 0;
    if line != "" && IsSpace(line[0]) {
      var rest := TrimmedFrom(line[1..]);
      k := rest + 1;
    }
  }

  lemma HeaderIs(text: string, b: nat, e: nat)
    requires b <= e <= |text|
    ensures IsHeader(text[b..e]) <==> Heading(text, b, e)
  {
    var line := text[b..e];
    var k := TrimmedFrom(line);
    assert !IsSpace('#');
    hide IsSpace;
    if k < |line| {
      assert line[k..][0] == line[k] == text[b + k];
      assert line[k..][..1] == [line[k]];
    }
    if Heading(text, b, e) {
      var h :| b <= h < e && text[h] == '#' && forall i | b <= i < h :: IsSpace(text[i]);
      assert line[h - b] == '#' && forall i | 0 <= i < h - b :: line[i] == text[b + i];
      assert k == h - b;
    }
    if IsHeader(line) {
      assert forall i | b <= i < b + k :: line[i - b] == text[i];
    }
  }

  lemma {:induction false} RightTrimmedAt(line: string)
    ensures RightTrimmed(line) > 0 ==> !IsSpace(line[RightTrimmed(line) - 1])
    ensures forall k | RightTrimmed(line) <= k < |line| :: IsSpace(line[k])
  {
    if line != "" && IsSpace(line[|line| - 1]) {
      RightTrimmedAt(line[..|line| - 1]);
    }
  }

  lemma CommentIs(text: string, b: nat, e: nat)
    requires b <= e <= |text|
    ensures IsComment(text[b..e]) <==> Comment(text, b, e)
  {
    var line := text[b..e];
    var n := RightTrimmed(line);
    RightTrimmedAt(line);
    assert !IsSpace('>');
    hide IsSpace, RightTrimmed;
    if |line| >= 4 {
      SlicesAgree(text, b, e, 0, 4);
    }
    if n >= 7 {
      SlicesAgree(text, b, e, n - 3, n);
      SpaceAgrees(text, b, e, n);
      assert line[n - 3..n] == "-->" ==> Closes(text, e, b + n);
    }
    if Comment(text, b, e) {
      var m :| b + 7 <= m <= e && Closes(text, e, m);
      CloseIsTrim(text, b, e, m, n);
    }
  }

  lemma SlicesAgree(text: string, b: nat, e: nat, i: nat, j: nat)
    requires b <= e <= |text| && i <= j <= e - b
    ensures text[b..e][i..j] == text[b + i..b + j]
  {
    var line, part := text[b..e], text[b + i..b + j];
    assert forall k | 0 <= k < j - i :: line[i..j][k] == line[i + k] == text[b + i + k] == part[k];
  }

  lemma SpaceAgrees(text: string, b: nat, e: nat, n: nat)
    requires b <= e <= |text| && n <= e - b
    requires forall k | n <= k < e - b :: IsSpace(text[b..e][k])
    ensures forall i | b + n <= i < e :: IsSpace(text[i])
  {
    hide IsSpace;
    assert forall i | b + n <= i < e :: text[b..e][i - b] == text[i];
  }

  lemma CloseIsTrim(text: string, b: nat, e: nat, m: nat, n: nat)
    requires b + 7 <= m <= e <= |text| && Closes(text, e, m) && n <= e - b
    requires n > 0 ==> !IsSpace(text[b..e][n - 1])
    requires forall k | n <= k < e - b :: IsSpace(text[b..e][k])
    ensures n == m - b
  {
    assert text[m - 3..m][2] == text[m - 1] == '>' && !IsSpace('>');
    hide IsSpace;
    var line := text[b..e];
    assert line[m - 1 - b] == '>';
    assert forall k | m - b <= k < e - b :: line[k] == text[b + k];
  }

  lemma {:induction false} DigitRunIs(line: string, i: nat)
    requires i <= |line|
    ensures forall k | i <= k < DigitRun(line, i) :: IsDigit(line[k])
    ensures DigitRun(line, i) < |line| ==> !IsDigit(line[DigitRun(line, i)])
    decreases |line| - i
  {
    if i < |line| && IsDigit(line[i]) {
      DigitRunIs(line, i + 1);
    }
  }

  lemma StampIs(text: string, b: nat, e: nat, p: nat)
    requires b <= e <= |text| && b <= p < e
    ensures p < b + StampLength(text[b..e]) <==> InStamp(text, b, e, p)
  {
    var line := text[b..e];
    assert forall i | 0 <= i < |line| :: line[i] == text[b + i];
    if |line| >= 10 {
      DigitRunIs(line, 10);
    }
    hide IsSpace, IsDigit, DigitRun;
    if InStamp(text, b, e, p) {
      var j: nat :| StampTo(text, b, e, j) && (p < j || (p == j && IsSpace(text[p])));
      assert IsDigit(line[9]) && forall i | 10 <= i < j - b :: IsDigit(line[i]);
      assert j < e ==> !IsDigit(line[j - b]);
      assert DigitRun(line, 10) == j - b;
    }
    if p < b + StampLength(line) {
      StampReaches(text, b, e, b + DigitRun(line, 10));
    }
  }

  lemma StampReaches(text: string, b: nat, e: nat, j: nat)
    requires b + 10 <= e <= |text| && j == b + DigitRun(text[b..e], 10) && StampLength(text[b..e]) > 0
    ensures StampTo(text, b, e, j)
  {
    var line := text[b..e];
    DigitRunIs(line, 10);
    hide IsSpace, IsDigit, DigitRun;
    assert forall i | b <= i < e :: line[i - b] == text[i];
    assert j < e ==> line[j - b] == text[j];
  }

  /** A line starts at 0 and behind every newline, and the scan comes to all of them. */
  lemma {:induction false} LineStarts(text: string, from: nat, b: nat)
    requires from <= b < |text| && AtLine(text, from) && (b == from || text[b - 1] == '\n')
    ensures AtLine(text, b)
    decreases b - from
  {
    hide AtLine;
    if from < b {
      NextLine(text, from);
      assert LineEnd(text, from) <= b;
      LineStarts(text, LineEnd(text, from), b);
    }
  }

  /** Content is exactly what the lines show. */
  lemma ContentIsShown(text: string, p: nat)
    requires p < |text|
    ensures Content(text, 0, p) <==> Shown(text, p)
  {
    var b := LineOf(text, p);
    var e := LineEnd(text, b);
    StartScan(text);
    LineStarts(text, 0, b);
    NextLine(text, b);
    HeaderIs(text, b, e);
    CommentIs(text, b, e);
    StampIs(text, b, e, p);
    assert Content(text, 0, p) <==> ShownIn(text, b, e, p) by {
      hide AtLine, Heading, Comment, InStamp, StampLength, IsComment, IsHeader;
    }
    hide Content, AtLine, Heading, Comment, InStamp;
    if Shown(text, p) {
      var b', e' :| ShownIn(text, b', e', p);
      OneLineOf(text, p, b, e, b', e');
    }
  }

  lemma {:induction false} LineOf(text: string, p: nat) returns (b: nat)
    requires p < |text|
    ensures b <= p < LineEnd(text, b) && (b == 0 || text[b - 1] == '\n') && IsLine(text, b, LineEnd(text, b))
  {
    b := p;
    while b > 0 && text[b - 1] != '\n'
      invariant b <= p && forall k | b <= k < p :: text[k] != '\n'
    {
      b := b - 1;
    }
  }

  lemma OneLineOf(text: string, p: nat, b: nat, e: nat, b': nat, e': nat)
    requires IsLine(text, b, e) && IsLine(text, b', e') && b <= p < e && b' <= p < e'
    ensures b == b' && e == e'
  {
  }

  /** The source's scan: the searchable text and the raw offset behind each kept character. */
  method BuildSearch(text: string) returns (out: string, idx: seq<nat>)
    ensures idx == Map(text) && out == Search(text)
    ensures forall k | 0 <= k < |idx| :: idx[k] < |text|
    ensures out == Expand(text, idx) && Increasing(idx) && Collapsed(text, idx)
    ensures forall p | p in idx :: Shown(text, p)
    ensures forall p: nat | p < |text| && Shown(text, p) && !IsSpace(text[p]) :: p in idx
    ensures forall p: nat | p < |text| && Shown(text, p) && IsSpace(text[p]) :: p in idx <==> AfterWord(text, p)
  {
    hide *;
    out, idx := "", [];
    var base, prevSpace := 0, true;
    StartScan(text);
    while base < |text|
      invariant base <= |text| && Scanned(text, out, idx, prevSpace, base) && AtLine(text, base)
    {
      var end := LineEnd(text, base);
      var line := text[base..end];
      LineOffsets(text, base);
      if !IsFraming(line) {
        ScanSkips(text, out, idx, prevSpace, base, base + StampLength(line));
        out, idx, prevSpace := ScanLine(text, base + StampLength(line), end, out, idx, prevSpace);
      } else {
        ScanSkips(text, out, idx, prevSpace, base, end);
      }
      base := end;
    }
    ScannedAll(text, out, idx, prevSpace);
    KeptInOrder(text, |text|);
    KeptIsContent(text, |text|);
    forall p: nat | p < |text| ensures Content(text, 0, p) <==> Shown(text, p) {
      ContentIsShown(text, p);
    }
    forall p: nat | p < |text| && Shown(text, p) && IsSpace(text[p]) ensures p in idx <==> AfterWord(text, p) {
      SpaceIsKept(text, p);
    }
  }

  /** The last content before offset p is there and not space. */
  ghost predicate AfterWord(text: string, p: nat)
    requires p <= |text|
  {
    exists q: nat :: q < p && Shown(text, q) && !IsSpace(text[q]) && forall r: nat | q < r < p :: !Shown(text, r)
  }

  lemma {:induction false} EndsSpaceIff(text: string, n: nat)
    requires n <= |text|
    ensures EndsSpace(text, Kept(text, n)) <==> !AfterWord(text, n)
  {
    hide *;
    KeptStep(text, n);
    if n == 0 {
      NothingBefore(text);
    } else {
      EndsSpaceIff(text, n - 1);
      ContentIsShown(text, n - 1);
      WordStep(text, n - 1);
      EndsSpaceStep(text, Kept(text, n - 1), n - 1);
    }
  }

  lemma NothingBefore(text: string)
    ensures EndsSpace(text, []) && !AfterWord(text, 0)
  {
  }

  lemma WordStep(text: string, p: nat)
    requires p < |text|
    ensures AfterWord(text, p + 1) <==> if Shown(text, p) then !IsSpace(text[p]) else AfterWord(text, p)
  {
    hide Shown, IsSpace;
  }

  lemma EndsSpaceStep(text: string, idx: seq<nat>, p: nat)
    requires p < |text| && forall k | 0 <= k < |idx| :: idx[k] < |text|
    ensures EndsSpace(text, idx + [p]) <==> IsSpace(text[p])
  {
    hide IsSpace;
  }

  lemma SpaceIsKept(text: string, p: nat)
    requires p < |text| && Shown(text, p) && IsSpace(text[p])
    ensures p in Map(text) <==> AfterWord(text, p)
  {
    hide *;
    ContentIsShown(text, p);
    EndsSpaceIff(text, p);
    KeptStep(text, p + 1);
    MapIs(text);
    KeptLater(text, p + 1, |text|, p);
    assert p !in Kept(text, p);
  }

  lemma MapIs(text: string)
    ensures Map(text) == Kept(text, |text|)
  {
  }

  lemma {:induction false} KeptLater(text: string, n: nat, m: nat, p: nat)
    requires p < n <= m <= |text|
    ensures p in Kept(text, m) <==> p in Kept(text, n)
    decreases m - n
  {
    hide *;
    if n < m {
      KeptStep(text, m);
      KeptLater(text, n, m - 1, p);
    }
  }

  lemma ScannedAll(text: string, out: string, idx: seq<nat>, prevSpace: bool)
    requires Scanned(text, out, idx, prevSpace, |text|)
    ensures idx == Map(text) == Kept(text, |text|) && out == Search(text) == Expand(text, idx)
  {
  }

  // ----- When the map lines up with the string

  ghost predicate OneToOne(text: string, idx: seq<nat>)
    requires forall k | 0 <= k < |idx| :: idx[k] < |text|
  {
    forall k | 0 <= k < |idx| :: text[idx[k]] != DOTTED_I
  }

  /** The string has one character per mapped offset exactly when no kept character lowers to
      two; otherwise the string is longer than its map. */
  lemma {:induction false} AlignedIff(text: string, idx: seq<nat>)
    requires forall k | 0 <= k < |idx| :: idx[k] < |text|
    ensures |Expand(text, idx)| >= |idx|
    ensures |Expand(text, idx)| == |idx| <==> OneToOne(text, idx)
    ensures OneToOne(text, idx) ==> forall k | 0 <= k < |idx| :: Expand(text, idx)[k] == Piece(text[idx[k]])[0]
  {
    if idx != [] {
      AlignedIff(text, idx[..|idx| - 1]);
      assert OneToOne(text, idx) <==> OneToOne(text, idx[..|idx| - 1]) && text[idx[|idx| - 1]] != DOTTED_I by {
        if OneToOne(text, idx) {
          assert forall k | 0 <= k < |idx| - 1 :: idx[..|idx| - 1][k] == idx[k];
        }
        if OneToOne(text, idx[..|idx| - 1]) && text[idx[|idx| - 1]] != DOTTED_I {
          assert forall k | 0 <= k < |idx| - 1 :: idx[..|idx| - 1][k] == idx[k];
        }
      }
    }
  }
}
