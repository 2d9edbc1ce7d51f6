/** Cutting a document into chunks at natural boundaries, chapter by chapter where it has
    chapters. */
module Chunking {
  import opened Options

  const CHUNK_HARD_MAX := 150_000
  const CHUNK_MIN_CHARS := 20_000
  const CHAPTER_MIN_CHARS := 50_000

  const PAGE := "\n<!-- file_page: "
  const HEADING := "\n## "
  const PARAGRAPH := "\n\n"
  const LINE := "\n"
  const CHAPTER := "<!-- chapter: "

  predicate At(s: string, i: nat, p: string) {
    i + |p| <= |s| && s[i..i + |p|] == p
  }

  /** The last occurrence of p at or before position n, if any. */
  function LastAt(s: string, p: string, n: nat): (i: Option<nat>)
    ensures i.Some? ==> i.value <= n && At(s, i.value, p)
    ensures i.Some? ==> forall j | i.value < j <= n :: !At(s, j, p)
    ensures i.None? ==> forall j: nat | j <= n :: !At(s, j, p)
  {
    if At(s, n, p) then Some(n) else if n == 0 then None else LastAt(s, p, n - 1)
  }

  /** The last occurrence of p in the window text[lo..hi] past its first character. */
  ghost predicate LastInWindow(text: string, lo: nat, hi: nat, p: string, i: nat) {
    && lo < i && i + |p| <= hi && At(text, i, p)
    && forall j: nat | i < j && j + |p| <= hi :: !At(text, j, p)
  }

  ghost predicate NotInWindow(text: string, lo: nat, hi: nat, p: string) {
    forall j: nat | lo < j && j + |p| <= hi :: !At(text, j, p)
  }

  /** Where a text may be cut, most preferred first. */
  const PATTERNS := [PAGE, HEADING, PARAGRAPH, LINE]

  /** The window's cut: after the newline of the last page marker, else of the last heading, else
      of the last blank line, else of the last line end; none if no line ends in the window. */
  ghost predicate Cut(text: string, lo: nat, hi: nat, cut: Option<nat>) {
    var page, heading, blank, line := "\n<!-- file_page: ", "\n## ", "\n\n", "\n";
    match cut
    case None => NotInWindow(text, lo, hi, line)
    case Some(at) =>
      && at > 0
      && if !NotInWindow(text, lo, hi, page) then LastInWindow(text, lo, hi, page, at - 1)
         else if !NotInWindow(text, lo, hi, heading) then LastInWindow(text, lo, hi, heading, at - 1)
         else if !NotInWindow(text, lo, hi, blank) then LastInWindow(text, lo, hi, blank, at - 1)
         else LastInWindow(text, lo, hi, line, at - 1)
  }

  lemma CutAt(text: string, lo: nat, hi: nat, k: nat, i: nat)
    requires k < |PATTERNS| && LastInWindow(text, lo, hi, PATTERNS[k], i)
    requires forall m | 0 <= m < k :: NotInWindow(text, lo, hi, PATTERNS[m])
    ensures Cut(text, lo, hi, Some(i + 1))
  {
    hide LastInWindow, NotInWindow;
    assert !NotInWindow(text, lo, hi, PATTERNS[k]) by { LastIsIn(text, lo, hi, PATTERNS[k], i); }
    assert k > 0 ==> NotInWindow(text, lo, hi, PATTERNS[0]);
    assert k > 1 ==> NotInWindow(text, lo, hi, PATTERNS[1]);
    assert k > 2 ==> NotInWindow(text, lo, hi, PATTERNS[2]);
  }

  lemma LastIsIn(text: string, lo: nat, hi: nat, p: string, i: nat)
    requires LastInWindow(text, lo, hi, p, i)
    ensures !NotInWindow(text, lo, hi, p)
  {
  }

  /** The cut of a window follows the last of some boundary, and each boundary is a newline first. */
  lemma CutIsAtBoundary(text: string, lo: nat, hi: nat, at: nat) returns (p: string)
    requires Cut(text, lo, hi, Some(at))
    ensures at > 0 && p != "" && p[0] == '\n' && LastInWindow(text, lo, hi, p, at - 1)
  {
    hide LastInWindow, NotInWindow;
    p := if LastInWindow(text, lo, hi, PAGE, at - 1) then PAGE
         else if LastInWindow(text, lo, hi, HEADING, at - 1) then HEADING
         else if LastInWindow(text, lo, hi, PARAGRAPH, at - 1) then PARAGRAPH else LINE;
  }

  /** A Python slice: bounds past the end, or in the wrong order, are clamped. */
  function Slice(text: string, lo: nat, hi: nat): (s: string)
    ensures lo <= hi <= |text| ==> s == text[lo..hi]
  {
    var b := if hi <= |text| then hi else |text|;
    if lo <= b then text[lo..b] else ""
  }

  method FindSplitPoint(text: string, lo: nat, hi: nat) returns (cut: Option<nat>)
    requires hi <= |text|
    ensures Cut(text, lo, hi, cut)
  {
    var window := Slice(text, lo, hi);
    for k := 0 to |PATTERNS|
      invariant forall m | 0 <= m < k :: NotInWindow(text, lo, hi, PATTERNS[m])
    {
      var found := LastAt(window, PATTERNS[k], |window|);
      Window(text, lo, hi, PATTERNS[k], found);
      if found.Some? && found.value > 0 {
        CutAt(text, lo, hi, k, lo + found.value);
        return Some(lo + found.value + 1);
      }
    }
    cut := None;
    assert NotInWindow(text, lo, hi, PATTERNS[3]);
  }

  lemma Window(text: string, lo: nat, hi: nat, p: string, found: Option<nat>)
    requires hi <= |text| && found == LastAt(Slice(text, lo, hi), p, |Slice(text, lo, hi)|) && p != ""
    ensures found.Some? && found.value > 0 ==> LastInWindow(text, lo, hi, p, lo + found.value)
    ensures found.None? || found.value == 0 ==> NotInWindow(text, lo, hi, p)
  {
    var w := Slice(text, lo, hi);
    forall j: nat | lo < j && j + |p| <= hi ensures At(text, j, p) <==> At(w, j - lo, p) {
      SameAt(text, lo, hi, p, j);
    }
    if found.Some? && found.value > 0 {
      SameAt(text, lo, hi, p, lo + found.value);
    }
    hide At, Slice;
    forall j: nat | lo < j && j + |p| <= hi && (found.None? || lo + found.value < j) ensures !At(text, j, p) {
      assert !At(w, j - lo, p);
    }
  }

  /** Inside the window, the slice and the text agree. */
  lemma SameAt(text: string, lo: nat, hi: nat, p: string, j: nat)
    requires hi <= |text| && lo < j && p != "" && j - lo + |p| <= |Slice(text, lo, hi)|
    ensures lo <= hi && (At(text, j, p) <==> At(Slice(text, lo, hi), j - lo, p))
  {
    var w := Slice(text, lo, hi);
    assert w == text[lo..hi];
    assert w[j - lo..j - lo + |p|] == text[j..j + |p|];
  }

  // ----- Windows

  function Concat(parts: seq<string>): string {
    if parts == [] then "" else Concat(parts[..|parts| - 1]) + parts[|parts| - 1]
  }

  /** A chunk from pos ends at the end of the text if that is within reach, and otherwise at the
      window's cut, or at its full width when nothing can be cut. */
  ghost predicate EndsWell(text: string, max: nat, min: nat, pos: nat, end: nat) {
    if pos + max >= |text| then end == |text|
    else exists cut: Option<nat> :: Cut(text, pos + min, pos + max, cut) && end == if cut.Some? then cut.value else pos + max
  }

  ghost predicate Piece(text: string, max: nat, min: nat, pos: nat, chunk: string) {
    && chunk != "" && pos + |chunk| <= |text| && chunk == text[pos..pos + |chunk|]
    && EndsWell(text, max, min, pos, pos + |chunk|)
  }

  /** Chunks laid end to end from the start of the text, each ending where it should. */
  ghost predicate Cutting(text: string, max: nat, min: nat, chunks: seq<string>) {
    chunks == []
    || (&& Cutting(text, max, min, chunks[..|chunks| - 1])
        && Piece(text, max, min, |Concat(chunks[..|chunks| - 1])|, chunks[|chunks| - 1]))
  }

  lemma CutInWindow(text: string, lo: nat, hi: nat, cut: Option<nat>)
    requires Cut(text, lo, hi, cut) && hi <= |text|
    ensures cut.Some? ==> lo + 2 <= cut.value <= hi && text[cut.value - 1] == '\n'
    ensures cut.None? ==> forall j | lo < j < hi :: text[j] != '\n'
  {
    match cut {
      case Some(at) =>
        var p := CutIsAtBoundary(text, lo, hi, at);
        assert text[at - 1] == text[at - 1..at - 1 + |p|][0];
      case None =>
        forall j | lo < j < hi ensures text[j] != '\n' {
          assert !At(text, j, LINE);
          assert text[j..j + 1] == [text[j]];
        }
    }
  }

  /** With no room for a character a window ends where it starts, so the loop never moves. */
  lemma StallsAtZero(text: string, min: nat, pos: nat, end: nat)
    requires pos < |text| && EndsWell(text, 0, min, pos, end)
    ensures end == pos
  {
    var cut: Option<nat> :| Cut(text, pos + min, pos, cut) && end == if cut.Some? then cut.value else pos;
    CutInWindow(text, pos + min, pos, cut);
  }

  /** Every window has an end. */
  lemma SomeEnd(text: string, min: nat, pos: nat)
    requires pos < |text|
    ensures EndsWell(text, 0, min, pos, pos)
  {
    assert NotInWindow(text, pos + min, pos, LINE);
    var none: Option<nat> := None;
    assert Cut(text, pos + min, pos + 0, none);
  }

  /** The loop moves forward from every position exactly when a chunk may hold a character. */
  lemma ProgressIff(text: string, max: nat, min: nat, pos: nat)
    requires pos < |text|
    ensures (forall end | EndsWell(text, max, min, pos, end) :: pos < end) <==> max >= 1
  {
    if max == 0 {
      SomeEnd(text, min, pos);
    } else {
      forall end | EndsWell(text, max, min, pos, end) ensures pos < end {
        if pos + max < |text| {
          var cut: Option<nat> :|
            Cut(text, pos + min, pos + max, cut) && end == if cut.Some? then cut.value else pos + max;
          CutInWindow(text, pos + min, pos + max, cut);
        }
      }
    }
  }

  method ChunkText(text: string, max: nat, min: nat) returns (chunks: seq<string>)
    requires text != "" ==> max >= 1  // otherwise the source never returns: see StallsAtZero
    ensures Concat(chunks) == text
    ensures if |text| <= max then chunks == [text] else Cutting(text, max, min, chunks)
  {
    hide Cut, EndsWell, Piece, Cutting, Concat;
    if |text| <= max {
      ConcatAppend([], text);
      return [text];
    }
    chunks := [];
    CuttingNone(text, max, min);
    var pos := 0;
    while pos < |text|
      invariant 0 <= pos <= |text|
      invariant Cutting(text, max, min, chunks) && Concat(chunks) == text[..pos]
    {
      var end := if pos + max < |text| then pos + max else |text|;
      if end < |text| {
        var split := FindSplitPoint(text, pos + min, end);
        CutInWindow(text, pos + min, end, split);
        EndsAtCut(text, max, min, pos, split);
        if split.Some? {
          end := split.value;
        }
      } else {
        EndsAtEnd(text, max, min, pos);
      }
      ConcatAppend(chunks, text[pos..end]);
      CuttingAppend(text, max, min, chunks, text[pos..end]);
      chunks := chunks + [text[pos..end]];
      assert text[..pos] + text[pos..end] == text[..end];
      pos := end;
    }
    assert text[..pos] == text;
  }

  lemma ConcatAppend(chunks: seq<string>, c: string)
    ensures Concat(chunks + [c]) == Concat(chunks) + c
    ensures Concat([]) == "" && Concat([c]) == c
  {
    assert (chunks + [c])[..|chunks|] == chunks;
  }

  lemma CuttingNone(text: string, max: nat, min: nat)
    ensures Cutting(text, max, min, []) && Concat([]) == ""
  {
  }

  lemma EndsAtCut(text: string, max: nat, min: nat, pos: nat, cut: Option<nat>)
    requires pos + max < |text| && Cut(text, pos + min, pos + max, cut)
    ensures EndsWell(text, max, min, pos, if cut.Some? then cut.value else pos + max)
  {
  }

  lemma EndsAtEnd(text: string, max: nat, min: nat, pos: nat)
    requires pos + max >= |text|
    ensures EndsWell(text, max, min, pos, |text|)
  {
  }

  lemma CuttingAppend(text: string, max: nat, min: nat, chunks: seq<string>, c: string)
    requires Cutting(text, max, min, chunks) && c != "" && |Concat(chunks)| + |c| <= |text|
    requires c == text[|Concat(chunks)|..|Concat(chunks)| + |c|]
    requires EndsWell(text, max, min, |Concat(chunks)|, |Concat(chunks)| + |c|)
    ensures Cutting(text, max, min, chunks + [c])
  {
    hide EndsWell, Concat;
    assert (chunks + [c])[..|chunks|] == chunks;
  }

  // ----- What windows promise

  /** The size and the ending of one chunk. */
  ghost predicate WellCut(max: nat, min: nat, chunk: string, last: bool) {
    && 1 <= |chunk| <= max
    && (!last ==> min <= max ==> |chunk| >= min)
    && (!last ==> chunk[|chunk| - 1] == '\n' || |chunk| == max)
  }

  lemma PieceIsWellCut(text: string, max: nat, min: nat, pos: nat, chunk: string)
    requires Piece(text, max, min, pos, chunk)
    ensures WellCut(max, min, chunk, pos + |chunk| == |text|)
    ensures pos + |chunk| < |text| && chunk[|chunk| - 1] != '\n' ==>
              forall j | pos + min < j < pos + max :: text[j] != '\n'
  {
    hide Cut;
    if pos + max < |text| {
      var cut: Option<nat> :|
        Cut(text, pos + min, pos + max, cut) && pos + |chunk| == if cut.Some? then cut.value else pos + max;
      CutInWindow(text, pos + min, pos + max, cut);
    }
  }

  lemma {:induction false} CuttingPieces(text: string, max: nat, min: nat, chunks: seq<string>, i: nat)
    requires Cutting(text, max, min, chunks) && i < |chunks|
    ensures Piece(text, max, min, |Concat(chunks[..i])|, chunks[i])
    ensures i + 1 < |chunks| ==> |Concat(chunks[..i])| + |chunks[i]| < |text|
    decreases |chunks|
  {
    hide Piece;
    if i + 1 < |chunks| {
      var init := chunks[..|chunks| - 1];
      CuttingPieces(text, max, min, init, i);
      assert init[..i] == chunks[..i];
      if i + 2 == |chunks| {
        assert chunks[..i] + [chunks[i]] == init;
        ConcatAppend(chunks[..i], chunks[i]);
        PieceFits(text, max, min, |Concat(init)|, chunks[i + 1]);
      }
    }
  }

  lemma PieceFits(text: string, max: nat, min: nat, pos: nat, chunk: string)
    requires Piece(text, max, min, pos, chunk)
    ensures |chunk| > 0 && pos + |chunk| <= |text|
  {
  }

  /** Every chunk fits the limit and is not empty, and every chunk but the last is at least the
      minimum and ends with a line, unless it fills the limit and its window has no line end. */
  lemma ChunksAreWellCut(text: string, max: nat, min: nat, chunks: seq<string>, i: nat)
    requires Cutting(text, max, min, chunks) && i < |chunks|
    ensures WellCut(max, min, chunks[i], i + 1 == |chunks|)
  {
    hide Cutting, Concat, Piece;
    CuttingPieces(text, max, min, chunks, i);
    PieceIsWellCut(text, max, min, |Concat(chunks[..i])|, chunks[i]);
  }

  /** So a text of a given length has a bounded number of chunks. */
  lemma {:induction false} ChunkCount(text: string, max: nat, min: nat, chunks: seq<string>)
    requires Cutting(text, max, min, chunks) && min <= max && chunks != []
    ensures min * (|chunks| - 1) < |text|
  {
    var init := chunks[..|chunks| - 1];
    LongPrefix(text, max, min, chunks, |chunks| - 1);
    PieceFits(text, max, min, |Concat(init)|, chunks[|chunks| - 1]);
  }

  lemma {:induction false} LongPrefix(text: string, max: nat, min: nat, chunks: seq<string>, n: nat)
    requires Cutting(text, max, min, chunks) && min <= max && n < |chunks|
    ensures min * n <= |Concat(chunks[..n])|
  {
    hide Cutting, WellCut;
    if n > 0 {
      LongPrefix(text, max, min, chunks, n - 1);
      ChunksAreWellCut(text, max, min, chunks, n - 1);
      NotLast(max, min, chunks[n - 1]);
      assert chunks[..n] == chunks[..n - 1] + [chunks[n - 1]];
      ConcatAppend(chunks[..n - 1], chunks[n - 1]);
      assert min * n == min * (n - 1) + min;
    }
  }

  lemma NotLast(max: nat, min: nat, chunk: string)
    requires WellCut(max, min, chunk, false) && min <= max
    ensures |chunk| >= min
  {
  }

  // ----- Chapters

  predicate Mark(text: string, i: nat) {
    i < |text| && text[i] == '\n' && At(text, i + 1, CHAPTER)
  }

  /** The first chapter boundary at or after i. */
  function NextMark(text: string, i: nat): (m: Option<nat>)
    requires i <= |text|
    ensures m.Some? ==> i <= m.value && Mark(text, m.value) && forall j | i <= j < m.value :: !Mark(text, j)
    ensures m.None? ==> forall j: nat | i <= j :: !Mark(text, j)
    decreases |text| - i
  {
    if i == |text| then None else if Mark(text, i) then Some(i) else NextMark(text, i + 1)
  }

  /** The text without its boundary newlines, cut at each of them. */
  function Chapters(text: string): (parts: seq<string>)
    ensures parts != []
    decreases |text|
  {
    var m := NextMark(text, 0);
    if m.None? then [text] else [text[..m.value]] + Chapters(text[m.value + 1..])
  }

  function Join(parts: seq<string>): string {
    if parts == [] then "" else if |parts| == 1 then parts[0] else parts[0] + "\n" + Join(parts[1..])
  }

  /** No line after the first starts a chapter. */
  ghost predicate Unmarked(text: string) {
    forall j: nat :: !At(text, j, "\n<!-- chapter: ")
  }

  lemma MarkIs(text: string, j: nat)
    ensures Mark(text, j) <==> At(text, j, "\n<!-- chapter: ")
  {
    var whole := "\n<!-- chapter: ";
    assert whole == "\n" + CHAPTER;
    if j + |whole| <= |text| {
      assert text[j..j + |whole|] == [text[j]] + text[j + 1..j + 1 + |CHAPTER|];
      assert whole[1..] == CHAPTER && text[j..j + |whole|][1..] == text[j + 1..j + 1 + |CHAPTER|];
      assert whole[0] == '\n';
    }
  }

  lemma NoMarkIsUnmarked(text: string)
    requires forall j: nat :: !Mark(text, j)
    ensures Unmarked(text)
  {
    hide Mark;
    forall j: nat ensures !At(text, j, "\n<!-- chapter: ") {
      MarkIs(text, j);
    }
  }

  lemma BeforeMark(text: string, m: nat)
    requires m < |text| && forall j: nat | j < m :: !Mark(text, j)
    ensures Unmarked(text[..m])
  {
    forall j: nat ensures !Mark(text[..m], j) {
      if j + 1 + |CHAPTER| <= m {
        assert text[..m][j + 1..j + 1 + |CHAPTER|] == text[j + 1..j + 1 + |CHAPTER|];
        assert !Mark(text, j);
      }
    }
    NoMarkIsUnmarked(text[..m]);
  }

  /** A chapter marker is one line, so cutting before the next one leaves it whole. */
  lemma FirstPartStarts(text: string)
    requires At(text, 0, CHAPTER)
    ensures At(Chapters(text)[0], 0, CHAPTER)
  {
    var m := NextMark(text, 0);
    if m.Some? {
      assert forall j | 0 <= j < |CHAPTER| :: text[j] == text[0..|CHAPTER|][j] == CHAPTER[j] != '\n';
      assert text[..m.value][0..|CHAPTER|] == text[0..|CHAPTER|];
    }
  }

  lemma AfterMark(text: string, m: nat)
    requires Mark(text, m)
    ensures At(text[m + 1..], 0, CHAPTER)
  {
    assert text[m + 1..][0..|CHAPTER|] == text[m + 1..m + 1 + |CHAPTER|];
  }

  lemma ChaptersUnfold(text: string)
    ensures var m := NextMark(text, 0);
            Chapters(text) == if m.None? then [text] else [text[..m.value]] + Chapters(text[m.value + 1..])
  {
  }

  lemma JoinPrepend(part: string, parts: seq<string>)
    requires parts != []
    ensures Join([part] + parts) == part + "\n" + Join(parts)
    ensures Join([part]) == part
  {
    assert ([part] + parts)[1..] == parts;
  }

  /** The chapters rejoin to the text, none holds a boundary, and each after the first starts one. */
  lemma {:induction false} ChaptersRejoin(text: string)
    ensures Join(Chapters(text)) == text
    ensures forall i | 0 <= i < |Chapters(text)| :: Unmarked(Chapters(text)[i])
    ensures forall i | 0 < i < |Chapters(text)| :: At(Chapters(text)[i], 0, "<!-- chapter: ")
    decreases |text|
  {
    hide Unmarked, At, Join, Chapters, Mark;
    ChaptersUnfold(text);
    var m := NextMark(text, 0);
    if m.Some? {
      MarkIsNewline(text, m.value);
      var rest := text[m.value + 1..];
      ChaptersRejoin(rest);
      BeforeMark(text, m.value);
      AfterMark(text, m.value);
      FirstPartStarts(rest);
      JoinPrepend(text[..m.value], Chapters(rest));
    } else {
      NoMark(text);
      JoinPrepend(text, [text]);
    }
  }

  lemma NoMark(text: string)
    requires NextMark(text, 0).None?
    ensures Unmarked(text)
  {
    NoMarkIsUnmarked(text);
  }

  lemma MarkIsNewline(text: string, m: nat)
    requires Mark(text, m)
    ensures m < |text| && text == text[..m] + "\n" + text[m + 1..]
  {
  }

  // ----- Building chunks

  function Flatten(groups: seq<seq<string>>): seq<string> {
    if groups == [] then [] else Flatten(groups[..|groups| - 1]) + groups[|groups| - 1]
  }

  function Rejoined(groups: seq<seq<string>>): seq<string> {
    seq(|groups|, i requires 0 <= i < |groups| => Concat(groups[i]))
  }

  function HardMax(maxChars: int): (m: nat)
    ensures maxChars <= 20_000 ==> m == 20_000
    ensures 20_000 <= maxChars <= 150_000 ==> m == maxChars
    ensures 150_000 <= maxChars ==> m == 150_000
  {
    var wanted := if maxChars > CHUNK_MIN_CHARS then maxChars else CHUNK_MIN_CHARS;
    if wanted < CHUNK_HARD_MAX then wanted else CHUNK_HARD_MAX
  }

  /** The chunks of one chapter: itself if it fits, windows otherwise. */
  ghost predicate Chunked(text: string, max: nat, min: nat, chunks: seq<string>) {
    Concat(chunks) == text && if |text| <= max then chunks == [text] else Cutting(text, max, min, chunks)
  }

  ghost predicate GroupsChunked(chapters: seq<string>, max: nat, min: nat, groups: seq<seq<string>>) {
    |groups| <= |chapters| && forall i | 0 <= i < |groups| :: Chunked(chapters[i], max, min, groups[i])
  }

  /** `groups` are the chunks of each chapter in turn. */
  method BuildChunks(text: string, maxChars: int) returns (chunks: seq<string>, ghost groups: seq<seq<string>>)
    ensures chunks == Flatten(groups) && |groups| == |Chapters(text)|
    ensures var max: nat := if maxChars <= 20_000 then 20_000 else if maxChars <= 150_000 then maxChars else 150_000;
            var min: nat := if |Chapters(text)| == 1 then 20_000 else if max < 50_000 then max else 50_000;
            && GroupsChunked(Chapters(text), max, min, groups)
            && forall i | 0 <= i < |chunks| :: |chunks[i]| <= max
    ensures Join(Rejoined(groups)) == text
  {
    hide Chunked, Chapters, Cutting, Concat, Rejoined, Join;
    var hardMax := HardMax(maxChars);
    var chapters := Chapters(text);
    var min: nat := CHUNK_MIN_CHARS;
    if |chapters| == 1 {
      chunks := ChunkText(text, hardMax, min);
      groups := [chunks];
      OneChapter(text);
      WasChunked(text, hardMax, min, chunks);
    } else {
      min := if hardMax < CHAPTER_MIN_CHARS then hardMax else CHAPTER_MIN_CHARS;
      chunks, groups := [], [];
      for i := 0 to |chapters|
        invariant |groups| == i && chunks == Flatten(groups) && GroupsChunked(chapters, hardMax, min, groups)
      {
        var part := [chapters[i]];
        if |chapters[i]| > hardMax {
          part := ChunkText(chapters[i], hardMax, min);
        } else {
          ConcatAppend([], chapters[i]);
        }
        WasChunked(chapters[i], hardMax, min, part);
        assert (groups + [part])[..|groups|] == groups;
        chunks, groups := chunks + part, groups + [part];
      }
    }
    GroupsRejoin(text, hardMax, min, groups);
    GroupsFit(chapters, hardMax, min, groups);
  }

  lemma OneChapter(text: string)
    requires |Chapters(text)| == 1
    ensures Chapters(text) == [text]
  {
  }

  lemma WasChunked(text: string, max: nat, min: nat, chunks: seq<string>)
    requires Concat(chunks) == text
    requires if |text| <= max then chunks == [text] else Cutting(text, max, min, chunks)
    ensures Chunked(text, max, min, chunks)
  {
  }

  lemma GroupsRejoin(text: string, max: nat, min: nat, groups: seq<seq<string>>)
    requires GroupsChunked(Chapters(text), max, min, groups) && |groups| == |Chapters(text)|
    ensures Join(Rejoined(groups)) == text
  {
    hide Join, Concat, Chapters, Cutting;
    ChaptersRejoin(text);
    assert Rejoined(groups) == Chapters(text);
  }

  lemma {:induction false} GroupsFit(chapters: seq<string>, max: nat, min: nat, groups: seq<seq<string>>)
    requires GroupsChunked(chapters, max, min, groups)
    ensures forall i | 0 <= i < |Flatten(groups)| :: |Flatten(groups)[i]| <= max
  {
    hide Chunked;
    if groups != [] {
      GroupsFit(chapters, max, min, groups[..|groups| - 1]);
      ChunkedFits(chapters[|groups| - 1], max, min, groups[|groups| - 1]);
    }
  }

  lemma ChunkedFits(text: string, max: nat, min: nat, chunks: seq<string>)
    requires Chunked(text, max, min, chunks)
    ensures forall i | 0 <= i < |chunks| :: |chunks[i]| <= max
  {
    hide Concat, Cutting;
    if |text| > max {
      forall i | 0 <= i < |chunks| ensures |chunks[i]| <= max {
        ChunksAreWellCut(text, max, min, chunks, i);
      }
    }
  }
}
