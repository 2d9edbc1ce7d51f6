/** Two-stage entailment verdicts: which claims a pass judges, what it writes on each, and what
    it counts. */
module Verdicts {
  import opened Options
  import Searchable

  datatype Verdict = Verdict(says: string, score: real, model: string, premise: string)

  datatype Claim = Claim(
    quote: Option<string>, text: Option<string>, speaker: Option<string>, location: Option<string>,
    entailment: Option<Verdict>)

  /** One probability per label, in label order. */
  datatype Row = Row(entails: real, neutral: real, contradicts: real)

  type Rows = (string, string) -> Row

  /** The second stage: absent without a classifier or a record body; otherwise a locator that
      gives a claim's premise window, and a classifier. */
  datatype Later = Absent | Present(window: (string, Option<string>) -> Option<string>, rows: Rows)

  datatype Models = Models(stage1: string, stage2: string)

  datatype Run = Run(force: bool, redo: bool, stage1: Rows, later: Later, models: Models)

  predicate Blank(s: string) {
    forall i | 0 <= i < |s| :: Searchable.IsSpace(s[i])
  }

  predicate Eligible(c: Claim) {
    c.quote.Some? && !Blank(c.quote.value) && c.text.Some? && !Blank(c.text.value)
  }

  predicate Assessed(c: Claim) {
    c.entailment.Some? && c.entailment.value.says in {"entails", "neutral", "contradicts"}
  }

  /** Stage 1 said neutral and no window was read. */
  predicate Unlocated(c: Claim) {
    c.entailment.Some? && c.entailment.value.says == "neutral" && c.entailment.value.premise == "quote"
  }

  predicate NeedsCheck(doc: seq<Claim>) {
    exists k :: 0 <= k < |doc| && Eligible(doc[k]) && !Assessed(doc[k])
  }

  /** The first largest probability wins. */
  function Decide(r: Row): (string, real) {
    if r.entails >= r.neutral && r.entails >= r.contradicts then ("entails", r.entails)
    else if r.neutral >= r.contradicts then ("neutral", r.neutral)
    else ("contradicts", r.contradicts)
  }

  function Premise(speaker: Option<string>, body: string): string {
    if speaker.Some? && speaker.value != "" then speaker.value + ": " + body else body
  }

  function Judgement(r: Row, model: string, premise: string): Option<Verdict> {
    Some(Verdict(Decide(r).0, Decide(r).1, model, premise))
  }

  // ----- What a pass should do with one claim

  predicate Chosen(run: Run, c: Claim) {
    Eligible(c) && (if run.redo then Unlocated(c) else !Assessed(c) || run.force)
  }

  function First(run: Run, c: Claim): Claim
    requires Eligible(c)
  {
    c.(entailment := Judgement(run.stage1(Premise(c.speaker, c.quote.value), c.text.value), run.models.stage1, "quote"))
  }

  predicate Located(later: Later, c: Claim)
    requires Eligible(c)
  {
    later.Present? && later.window(c.quote.value, c.location).Some?
  }

  function Second(run: Run, c: Claim): Claim
    requires Eligible(c) && Located(run.later, c)
  {
    c.(entailment := Judgement(
      run.later.rows(Premise(c.speaker, run.later.window(c.quote.value, c.location).value), c.text.value),
      run.models.stage2, "window"))
  }

  /** The verdict after both stages. */
  function Judged(run: Run, c: Claim): Claim
    requires Eligible(c)
  {
    var d := if run.redo then c else First(run, c);
    if Unlocated(d) && Located(run.later, d) then Second(run, d) else d
  }

  function After(run: Run, c: Claim): Claim {
    if Chosen(run, c) then Judged(run, c) else c
  }

  // ----- What that comes to, row by row

  /** The greatest of the three probabilities, with the first label that has it. */
  ghost predicate Greatest(r: Row, says: string, score: real) {
    && r.entails <= score && r.neutral <= score && r.contradicts <= score
    && (|| (says == "entails" && score == r.entails)
        || (says == "neutral" && score == r.neutral && r.entails < score)
        || (says == "contradicts" && score == r.contradicts && r.entails < score && r.neutral < score))
  }

  /** A text with something in it. */
  ghost predicate HasWords(s: Option<string>) {
    s.Some? && exists i | 0 <= i < |s.value| :: !Searchable.IsSpace(s.value[i])
  }

  /** A body of words as its speaker says it. */
  ghost function Spoken(c: Claim, body: string): string {
    if c.speaker == None || c.speaker == Some("") then body else c.speaker.value + ": " + body
  }

  ghost predicate SaysNeutralOfQuote(c: Claim) {
    c.entailment.Some? && c.entailment.value.says == "neutral" && c.entailment.value.premise == "quote"
  }

  /** A claim with a quote and a text that the pass is for: without a verdict or all when forced,
      and in a redo only those neutral by their quote. */
  ghost predicate Wants(run: Run, c: Claim) {
    && HasWords(c.quote) && HasWords(c.text)
    && if run.redo then SaysNeutralOfQuote(c)
       else run.force || c.entailment.None? || c.entailment.value.says !in {"entails", "neutral", "contradicts"}
  }

  /** Only the verdict of the claim is new, and it is the row's. */
  ghost predicate Told(was: Claim, now: Claim, r: Row, model: string, premise: string) {
    && now == was.(entailment := now.entailment) && now.entailment.Some?
    && now.entailment.value.model == model && now.entailment.value.premise == premise
    && Greatest(r, now.entailment.value.says, now.entailment.value.score)
  }

  ghost predicate HasWindow(run: Run, c: Claim) {
    c.quote.Some? && run.later.Present? && run.later.window(c.quote.value, c.location).Some?
  }

  /** A claim before and after a pass.  Its quote is judged by the first classifier, unless this is
      a redo.  Where that finds neutral likelier than entails and no less likely than contradicts,
      and the quote has a window, the window is judged by the second one instead. */
  ghost predicate Passed(run: Run, was: Claim, now: Claim) {
    if !Wants(run, was) then now == was
    else
      var quoted := run.stage1(Spoken(was, was.quote.value), was.text.value);
      var open := run.redo || (quoted.neutral > quoted.entails && quoted.neutral >= quoted.contradicts);
      if open && HasWindow(run, was) then
        var w := run.later.window(was.quote.value, was.location).value;
        Told(was, now, run.later.rows(Spoken(was, w), was.text.value), run.models.stage2, "window")
      else if run.redo then now == was
      else Told(was, now, quoted, run.models.stage1, "quote")
  }

  lemma DecideMeans(r: Row)
    ensures Greatest(r, Decide(r).0, Decide(r).1)
    ensures Decide(r).0 == "neutral" <==> r.neutral > r.entails && r.neutral >= r.contradicts
  {
  }

  lemma ChosenMeans(run: Run, c: Claim)
    ensures Eligible(c) <==> HasWords(c.quote) && HasWords(c.text)
    ensures Chosen(run, c) <==> Wants(run, c)
  {
  }

  lemma AfterMeans(run: Run, c: Claim)
    ensures Passed(run, c, After(run, c))
  {
    ChosenMeans(run, c);
    hide Blank, HasWords, Wants, Chosen, Greatest, Assessed;
    if Chosen(run, c) {
      EligibleParts(run, c);
      DecideMeans(run.stage1(Premise(c.speaker, c.quote.value), c.text.value));
      if Located(run.later, c) {
        var w := run.later.window(c.quote.value, c.location).value;
        DecideMeans(run.later.rows(Premise(c.speaker, w), c.text.value));
      }
      hide Decide;
    }
  }

  lemma EligibleParts(run: Run, c: Claim)
    requires Chosen(run, c)
    ensures Eligible(c) && c.quote.Some? && c.text.Some? && (run.redo ==> Unlocated(c))
  {
  }

  // ----- Counting

  /** How many of the first n claims satisfy p. */
  ghost function Tally(doc: seq<Claim>, n: nat, p: Claim -> bool): nat
    requires n <= |doc|
  {
    if n == 0 then 0 else Tally(doc, n - 1, p) + if p(doc[n - 1]) then 1 else 0
  }

  /** The positions among the first n that satisfy p. */
  ghost function Where(doc: seq<Claim>, n: nat, p: Claim -> bool): (w: seq<int>)
    requires n <= |doc|
    ensures |w| == Tally(doc, n, p)
    ensures forall j | 0 <= j < |w| :: 0 <= w[j] < n && p(doc[w[j]])
    ensures forall i, j | 0 <= i < j < |w| :: w[i] < w[j]
    ensures forall k | 0 <= k < n && p(doc[k]) :: k in w
  {
    if n == 0 then []
    else if p(doc[n - 1]) then Where(doc, n - 1, p) + [n - 1]
    else Where(doc, n - 1, p)
  }

  /** The positions of a list whose claims satisfy q. */
  ghost function Filter(doc: seq<Claim>, idx: seq<int>, q: Claim -> bool): seq<int>
    requires Positions(idx, |doc|)
  {
    if idx == [] then []
    else
      var rest := Filter(doc, idx[..|idx| - 1], q);
      if q(doc[idx[|idx| - 1]]) then rest + [idx[|idx| - 1]] else rest
  }

  ghost predicate Positions(idx: seq<int>, n: nat) {
    && (forall j | 0 <= j < |idx| :: 0 <= idx[j] < n)
    && forall i, j | 0 <= i < j < |idx| :: idx[i] < idx[j]
  }

  /** Filtering the chosen positions gives the positions that satisfy both conditions. */
  lemma {:induction false} FilterWhere(doc: seq<Claim>, n: nat, p: Claim -> bool, q: Claim -> bool, both: Claim -> bool)
    requires n <= |doc| && forall k | 0 <= k < n :: both(doc[k]) <==> p(doc[k]) && q(doc[k])
    ensures Filter(doc, Where(doc, n, p), q) == Where(doc, n, both)
  {
    if n == 0 {
      FilterNone(doc, q);
    } else {
      FilterWhere(doc, n - 1, p, q, both);
      FilterWhereStep(doc, n, p, q, both);
    }
  }

  /** One more claim: filtered out, passed over, or kept by both. */
  lemma FilterWhereStep(doc: seq<Claim>, n: nat, p: Claim -> bool, q: Claim -> bool, both: Claim -> bool)
    requires 0 < n <= |doc| && (both(doc[n - 1]) <==> p(doc[n - 1]) && q(doc[n - 1]))
    requires Filter(doc, Where(doc, n - 1, p), q) == Where(doc, n - 1, both)
    ensures Filter(doc, Where(doc, n, p), q) == Where(doc, n, both)
  {
    hide *;
    WhereStep(doc, n, p);
    WhereStep(doc, n, both);
    WhereStep(doc, n - 1, p);
    if p(doc[n - 1]) {
      FilterAppend(doc, Where(doc, n - 1, p), n - 1, q);
    }
  }

  lemma WhereStep(doc: seq<Claim>, n: nat, p: Claim -> bool)
    requires n <= |doc|
    ensures Positions(Where(doc, n, p), |doc|)
    ensures n == 0 ==> Where(doc, n, p) == []
    ensures n > 0 ==> Where(doc, n, p) == if p(doc[n - 1]) then Where(doc, n - 1, p) + [n - 1] else Where(doc, n - 1, p)
  {
  }

  lemma FilterNone(doc: seq<Claim>, q: Claim -> bool)
    ensures Filter(doc, [], q) == []
  {
  }

  lemma FilterAppend(doc: seq<Claim>, idx: seq<int>, k: int, q: Claim -> bool)
    requires Positions(idx + [k], |doc|) && Positions(idx, |doc|)
    ensures 0 <= k < |doc|
    ensures Filter(doc, idx + [k], q) == if q(doc[k]) then Filter(doc, idx, q) + [k] else Filter(doc, idx, q)
  {
    assert (idx + [k])[..|idx|] == idx && (idx + [k])[|idx|] == k;
  }

  lemma FilterStep(doc: seq<Claim>, idx: seq<int>, j: nat, q: Claim -> bool)
    requires Positions(idx, |doc|) && j < |idx|
    ensures Filter(doc, idx[..j + 1], q) == Filter(doc, idx[..j], q) + if q(doc[idx[j]]) then [idx[j]] else []
  {
    assert idx[..j + 1][..j] == idx[..j];
  }

  datatype Counts = Counts(assessed: nat, skipped: nat, ineligible: nat, unlocated: nat, labels: map<string, nat>)

  function Get(labels: map<string, nat>, key: string): nat {
    if key in labels then labels[key] else 0
  }

  function Ineligible(): Claim -> bool { c => !Eligible(c) }

  function ChosenBy(run: Run): Claim -> bool { c => Chosen(run, c) }

  function SkippedBy(run: Run): Claim -> bool { c => Eligible(c) && !Chosen(run, c) }

  /** What goes on to stage 2. */
  function Neutral(run: Run): Claim -> bool { c => Eligible(c) && (run.redo || Unlocated(First(run, c))) }

  function NoWindow(run: Run): Claim -> bool { c => Eligible(c) && !Located(run.later, c) }

  function SecondBy(run: Run): Claim -> bool { c => Chosen(run, c) && Neutral(run)(c) }

  /** Chosen, and still without the window verdict it needs. */
  function StillUnlocated(run: Run): Claim -> bool { c => Chosen(run, c) && Unlocated(Judged(run, c)) }

  /** In a redo, a claim whose quote is still unlocated is not counted again. */
  function Judges(run: Run): Claim -> bool { c => Eligible(c) && !(run.redo && Unlocated(Judged(run, c))) }

  function AssessedBy(run: Run): Claim -> bool { c => Chosen(run, c) && Judges(run)(c) }

  function Key(c: Claim): string {
    if c.entailment.Some? then c.entailment.value.says + "/" + c.entailment.value.premise else ""
  }

  function Keyed(run: Run, key: string): Claim -> bool { c => Judges(run)(c) && Key(Judged(run, c)) == key }

  function AssessedAs(run: Run, key: string): Claim -> bool { c => Chosen(run, c) && Keyed(run, key)(c) }

  /** The counts of a pass over a document. */
  ghost predicate CountsAre(run: Run, doc: seq<Claim>, counts: Counts) {
    && counts.assessed == Tally(doc, |doc|, AssessedBy(run))
    && counts.skipped == Tally(doc, |doc|, SkippedBy(run))
    && counts.ineligible == Tally(doc, |doc|, Ineligible())
    && counts.unlocated == Tally(doc, |doc|, StillUnlocated(run))
    && forall key :: Get(counts.labels, key) == Tally(doc, |doc|, AssessedAs(run, key))
  }

  // ----- The pass

  /** The first loop: which claims to judge. */
  method Choose(run: Run, doc: seq<Claim>) returns (todo: seq<int>, skipped: nat, ineligible: nat)
    ensures todo == Where(doc, |doc|, ChosenBy(run))
    ensures skipped == Tally(doc, |doc|, SkippedBy(run)) && ineligible == Tally(doc, |doc|, Ineligible())
  {
    todo, skipped, ineligible := [], 0, 0;
    for k := 0 to |doc|
      invariant todo == Where(doc, k, ChosenBy(run))
      invariant skipped == Tally(doc, k, SkippedBy(run)) && ineligible == Tally(doc, k, Ineligible())
    {
      var c := doc[k];
      if !Eligible(c) {
        ineligible := ineligible + 1;
      } else if run.redo {
        if Unlocated(c) {
          todo := todo + [k];
        } else {
          skipped := skipped + 1;
        }
      } else if Assessed(c) && !run.force {
        skipped := skipped + 1;
      } else {
        todo := todo + [k];
      }
    }
  }

  /** Only the entailment block of a claim is ever written. */
  ghost predicate SameBut(doc: seq<Claim>, was: seq<Claim>) {
    |doc| == |was| && forall k | 0 <= k < |doc| :: doc[k].(entailment := was[k].entailment) == was[k]
  }

  ghost predicate AllEligible(doc: seq<Claim>, idx: seq<int>) {
    Positions(idx, |doc|) && forall j | 0 <= j < |idx| :: Eligible(doc[idx[j]])
  }

  /** A classifier answers a list of questions one for one. */
  function Ask(rows: Rows, questions: seq<(string, string)>): (r: seq<Row>)
    ensures |r| == |questions| && forall j | 0 <= j < |r| :: r[j] == rows(questions[j].0, questions[j].1)
  {
    seq(|questions|, j requires 0 <= j < |questions| => rows(questions[j].0, questions[j].1))
  }

  function Quoted(c: Claim): (string, string)
    requires Eligible(c)
  {
    (Premise(c.speaker, c.quote.value), c.text.value)
  }

  /** The questions of stage 1, in the order of the chosen claims. */
  method AskQuotes(doc: seq<Claim>, todo: seq<int>) returns (questions: seq<(string, string)>)
    requires AllEligible(doc, todo)
    ensures |questions| == |todo| && forall i | 0 <= i < |todo| :: questions[i] == Quoted(doc[todo[i]])
  {
    questions := [];
    for j := 0 to |todo|
      invariant |questions| == j && forall i | 0 <= i < j :: questions[i] == Quoted(doc[todo[i]])
    {
      questions := questions + [Quoted(doc[todo[j]])];
    }
  }

  /** Stage 1: every row lands on its own claim, and the neutral ones go on. */
  method StageOne(run: Run, doc: array<Claim>, todo: seq<int>) returns (second: seq<int>)
    requires !run.redo && AllEligible(doc[..], todo)
    modifies doc
    ensures forall k | 0 <= k < doc.Length ::
              doc[k] == if k in todo then First(run, old(doc[k])) else old(doc[k])
    ensures second == Filter(old(doc[..]), todo, Neutral(run))
  {
    ghost var was := doc[..];
    var questions := AskQuotes(doc[..], todo);
    var rows := Ask(run.stage1, questions);
    second := [];
    hide Filter, Neutral, Judgement, First, Unlocated, Quoted, Blank, Assessed;
    FilterNone(was, Neutral(run));
    for j := 0 to |todo|
      invariant forall k | 0 <= k < doc.Length ::
                  doc[k] == if k in todo[..j] then First(run, was[k]) else was[k]
      invariant second == Filter(was, todo[..j], Neutral(run))
    {
      FilterStep(was, todo, j, Neutral(run));
      assert todo[..j + 1] == todo[..j] + [todo[j]];
      assert todo[j] !in todo[..j];
      FirstWritten(run, was[todo[j]], rows[j]);
      doc[todo[j]] := doc[todo[j]].(entailment := Judgement(rows[j], run.models.stage1, "quote"));
      if Decide(rows[j]).0 == "neutral" {
        second := second + [todo[j]];
      }
    }
    assert todo[..|todo|] == todo;
  }

  lemma FirstWritten(run: Run, c: Claim, row: Row)
    requires !run.redo && Eligible(c) && row == run.stage1(Quoted(c).0, Quoted(c).1)
    ensures First(run, c) == c.(entailment := Judgement(row, run.models.stage1, "quote"))
    ensures Neutral(run)(c) <==> Decide(row).0 == "neutral"
  {
  }

  function Windowed(run: Run, c: Claim): (string, string)
    requires Eligible(c) && Located(run.later, c)
  {
    (Premise(c.speaker, run.later.window(c.quote.value, c.location).value), c.text.value)
  }

  /** The located claims of a list of positions, each with its question. */
  ghost predicate Gathered(run: Run, doc: seq<Claim>, idx: seq<int>, targets: seq<int>, questions: seq<(string, string)>)
    requires AllEligible(doc, idx)
  {
    && (forall k :: k in targets <==> k in idx && 0 <= k < |doc| && Asks(run, doc[k]))
    && Positions(targets, |doc|) && |questions| == |targets|
    && forall i | 0 <= i < |targets| :: Asked(run, doc[targets[i]], questions[i])
  }

  predicate Asks(run: Run, c: Claim) { Eligible(c) && Located(run.later, c) }

  ghost predicate Asked(run: Run, c: Claim, question: (string, string)) {
    Asks(run, c) && question == Windowed(run, c)
  }

  lemma EligiblePrefix(doc: seq<Claim>, idx: seq<int>, j: nat)
    requires AllEligible(doc, idx) && j <= |idx|
    ensures AllEligible(doc, idx[..j])
  {
  }

  /** The next position is either a new last target or no target. */
  lemma GatherStep(run: Run, doc: seq<Claim>, idx: seq<int>, j: nat, targets: seq<int>, questions: seq<(string, string)>)
    requires AllEligible(doc, idx) && j < |idx| && AllEligible(doc, idx[..j]) && AllEligible(doc, idx[..j + 1])
    requires Gathered(run, doc, idx[..j], targets, questions)
    ensures !Asks(run, doc[idx[j]]) ==> Gathered(run, doc, idx[..j + 1], targets, questions)
    ensures Asks(run, doc[idx[j]]) ==>
              Gathered(run, doc, idx[..j + 1], targets + [idx[j]], questions + [Windowed(run, doc[idx[j]])])
  {
    hide Eligible, Located, Windowed;
    assert idx[..j + 1] == idx[..j] + [idx[j]];
    forall i | 0 <= i < |targets| ensures targets[i] < idx[j] {
      assert targets[i] in idx[..j];
    }
  }

  /** The located claims of stage 2 and what is asked about each. */
  method Gather(run: Run, doc: seq<Claim>, second: seq<int>, ghost was: seq<Claim>)
    returns (targets: seq<int>, questions: seq<(string, string)>, unlocated: nat)
    requires run.later.Present? && AllEligible(doc, second) && |doc| == |was| && SameBut(doc, was)
    ensures Gathered(run, doc, second, targets, questions)
    ensures unlocated == |Filter(was, second, NoWindow(run))|
  {
    hide Eligible, Located, Windowed, Gathered, SameBut, Asks;
    targets, questions, unlocated := [], [], 0;
    EligiblePrefix(doc, second, 0);
    GatheredNone(run, doc, second[..0]);
    for j := 0 to |second|
      invariant AllEligible(doc, second[..j]) && Gathered(run, doc, second[..j], targets, questions)
      invariant unlocated == |Filter(was, second[..j], NoWindow(run))|
    {
      FilterStep(was, second, j, NoWindow(run));
      EligiblePrefix(doc, second, j + 1);
      GatherStep(run, doc, second, j, targets, questions);
      NoWindowMeans(run, doc, was, second[j]);
      var c := doc[second[j]];
      if !Located(run.later, c) {
        unlocated := unlocated + 1;
      } else {
        questions, targets := questions + [Windowed(run, c)], targets + [second[j]];
      }
    }
    assert second[..|second|] == second;
  }

  lemma GatheredNone(run: Run, doc: seq<Claim>, idx: seq<int>)
    requires idx == []
    ensures AllEligible(doc, idx) && Gathered(run, doc, idx, [], [])
  {
  }

  lemma NoWindowMeans(run: Run, doc: seq<Claim>, was: seq<Claim>, k: int)
    requires SameBut(doc, was) && 0 <= k < |doc| && Eligible(doc[k])
    ensures NoWindow(run)(was[k]) <==> !Located(run.later, doc[k])
    ensures Asks(run, doc[k]) <==> Located(run.later, doc[k])
  {
    assert doc[k].(entailment := was[k].entailment) == was[k];
  }

  /** Stage 2: each located claim gets its own window verdict; nothing else changes. */
  method StageTwo(run: Run, doc: array<Claim>, second: seq<int>, ghost was: seq<Claim>) returns (unlocated: nat)
    requires AllEligible(doc[..], second) && SameBut(doc[..], was)
    modifies doc
    ensures forall k | 0 <= k < doc.Length ::
              doc[k] == if k in second && Located(run.later, old(doc[k])) then Second(run, old(doc[k])) else old(doc[k])
    ensures unlocated == |Filter(was, second, NoWindow(run))|
  {
    if run.later.Absent? {
      unlocated := |second|;
      FilterAll(was, second, NoWindow(run));
      return;
    }
    hide Blank, Assessed, Unlocated;
    ghost var had := doc[..];
    var targets, questions, missing := Gather(run, doc[..], second, was);
    unlocated := missing;
    var rows := Ask(run.later.rows, questions);
    for j := 0 to |targets|
      invariant forall k | 0 <= k < doc.Length ::
                  doc[k] == if k in targets[..j] && Asks(run, had[k]) then Second(run, had[k]) else had[k]
    {
      assert targets[..j + 1] == targets[..j] + [targets[j]];
      assert targets[j] !in targets[..j] && Asked(run, had[targets[j]], questions[j]);
      doc[targets[j]] := doc[targets[j]].(entailment := Judgement(rows[j], run.models.stage2, "window"));
    }
    assert targets[..|targets|] == targets;
  }

  lemma {:induction false} FilterAll(doc: seq<Claim>, idx: seq<int>, q: Claim -> bool)
    requires Positions(idx, |doc|) && forall j | 0 <= j < |idx| :: q(doc[idx[j]])
    ensures Filter(doc, idx, q) == idx
  {
    if idx != [] {
      FilterAll(doc, idx[..|idx| - 1], q);
    }
  }

  /** The last loop: the label mix of the judged claims. */
  method Count(run: Run, doc: seq<Claim>, todo: seq<int>, ghost was: seq<Claim>)
    returns (assessed: nat, labels: map<string, nat>)
    requires AllEligible(was, todo) && |doc| == |was|
    requires forall j | 0 <= j < |todo| :: doc[todo[j]] == Judged(run, was[todo[j]]) && doc[todo[j]].entailment.Some?
    requires run.redo ==> forall j | 0 <= j < |todo| :: Unlocated(was[todo[j]])
    ensures assessed == |Filter(was, todo, Judges(run))|
    ensures forall key :: Get(labels, key) == |Filter(was, todo, Keyed(run, key))|
  {
    assessed, labels := 0, map[];
    for j := 0 to |todo|
      invariant assessed == |Filter(was, todo[..j], Judges(run))|
      invariant forall key :: Get(labels, key) == |Filter(was, todo[..j], Keyed(run, key))|
    {
      var c := doc[todo[j]];
      FilterStep(was, todo, j, Judges(run));
      forall key {
        FilterStep(was, todo, j, Keyed(run, key));
      }
      if !run.redo || c.entailment.value.premise == "window" {
        assessed := assessed + 1;
        labels := labels[Key(c) := Get(labels, Key(c)) + 1];
      }
    }
    assert todo[..|todo|] == todo;
  }

  lemma TodoEligible(run: Run, doc: seq<Claim>)
    ensures AllEligible(doc, Where(doc, |doc|, ChosenBy(run)))
    ensures forall k | 0 <= k < |doc| :: k in Where(doc, |doc|, ChosenBy(run)) <==> Chosen(run, doc[k])
  {
  }

  /** A sublist of the chosen positions keeps what made them usable. */
  lemma {:induction false} FilterOf(doc: seq<Claim>, idx: seq<int>, q: Claim -> bool)
    requires Positions(idx, |doc|)
    ensures Positions(Filter(doc, idx, q), |doc|)
    ensures forall k :: k in Filter(doc, idx, q) <==> k in idx && q(doc[k])
  {
    if idx != [] {
      var last := idx[|idx| - 1];
      FilterOf(doc, idx[..|idx| - 1], q);
      assert idx == idx[..|idx| - 1] + [last];
      var rest := Filter(doc, idx[..|idx| - 1], q);
      forall j | 0 <= j < |rest| ensures rest[j] < last {
        assert rest[j] in idx[..|idx| - 1];
      }
    }
  }

  /** One claim through both stages. */
  lemma StagesJudge(run: Run, c: Claim, d: Claim, e: Claim)
    requires Eligible(c) && d == (if run.redo then c else First(run, c))
    requires run.redo ==> Unlocated(c)
    requires e == if Neutral(run)(c) && Asks(run, d) then Second(run, d) else d
    ensures e == Judged(run, c) && e.entailment.Some?
    ensures Neutral(run)(c) && NoWindow(run)(c) <==> Unlocated(Judged(run, c))
  {
  }

  /** The counts of the lists are the counts of the document. */
  lemma ListsCount(run: Run, doc: seq<Claim>, key: string)
    ensures var todo := Where(doc, |doc|, ChosenBy(run));
            && |Filter(doc, todo, Judges(run))| == Tally(doc, |doc|, AssessedBy(run))
            && |Filter(doc, todo, Keyed(run, key))| == Tally(doc, |doc|, AssessedAs(run, key))
            && Filter(doc, todo, Neutral(run)) == Where(doc, |doc|, SecondBy(run))
            && |Filter(doc, Where(doc, |doc|, SecondBy(run)), NoWindow(run))| == Tally(doc, |doc|, StillUnlocated(run))
  {
    FilterWhere(doc, |doc|, ChosenBy(run), Judges(run), AssessedBy(run));
    FilterWhere(doc, |doc|, ChosenBy(run), Keyed(run, key), AssessedAs(run, key));
    FilterWhere(doc, |doc|, ChosenBy(run), Neutral(run), SecondBy(run));
    FilterWhere(doc, |doc|, SecondBy(run), NoWindow(run), StillUnlocated(run));
  }

  /** After stage 1 only entailment blocks have changed, and the right claims go on. */
  lemma BetweenStages(run: Run, was: seq<Claim>, mid: seq<Claim>, todo: seq<int>, second: seq<int>)
    requires todo == Where(was, |was|, ChosenBy(run)) && |mid| == |was|
    requires forall k | 0 <= k < |was| ::
               mid[k] == if !run.redo && k in todo then First(run, was[k]) else was[k]
    requires second == if run.redo then todo else Filter(was, todo, Neutral(run))
    ensures second == Filter(was, todo, Neutral(run))
    ensures AllEligible(mid, second) && SameBut(mid, was) && Positions(second, |was|)
  {
    hide Unlocated, Assessed, Judgement, Blank, Filter, Where, Chosen;
    TodoEligible(run, was);
    if run.redo {
      FilterAll(was, todo, Neutral(run));
    }
    FilterOf(was, todo, Neutral(run));
    forall j | 0 <= j < |second| ensures Eligible(mid[second[j]]) {
      assert second[j] in second && second[j] in todo;
      EligibleIn(was, todo, second[j]);
    }
  }

  lemma EligibleIn(doc: seq<Claim>, idx: seq<int>, k: int)
    requires AllEligible(doc, idx) && k in idx
    ensures 0 <= k < |doc| && Eligible(doc[k])
  {
  }

  /** After stage 2 every chosen claim holds its verdict. */
  lemma EveryoneJudged(run: Run, was: seq<Claim>, mid: seq<Claim>, after: seq<Claim>, todo: seq<int>, second: seq<int>)
    requires todo == Where(was, |was|, ChosenBy(run)) && |mid| == |was| == |after|
    requires forall k | 0 <= k < |was| ::
               mid[k] == if !run.redo && k in todo then First(run, was[k]) else was[k]
    requires second == Filter(was, todo, Neutral(run)) && AllEligible(mid, second)
    requires forall k | 0 <= k < |was| ::
               after[k] == if k in second && Located(run.later, mid[k]) then Second(run, mid[k]) else mid[k]
    ensures forall k | 0 <= k < |was| :: after[k] == After(run, was[k])
    ensures AllEligible(was, todo)
    ensures forall j | 0 <= j < |todo| :: after[todo[j]] == Judged(run, was[todo[j]]) && after[todo[j]].entailment.Some?
    ensures run.redo ==> forall j | 0 <= j < |todo| :: Unlocated(was[todo[j]])
  {
    TodoEligible(run, was);
    FilterOf(was, todo, Neutral(run));
    forall k | 0 <= k < |was|
      ensures after[k] == After(run, was[k])
      ensures k in todo ==> Chosen(run, was[k]) && after[k] == Judged(run, was[k]) && after[k].entailment.Some?
    {
      if k in todo {
        StagesJudge(run, was[k], mid[k], after[k]);
      }
    }
  }

  lemma CountsFollow(run: Run, was: seq<Claim>, todo: seq<int>, second: seq<int>, counts: Counts)
    requires todo == Where(was, |was|, ChosenBy(run)) && second == Filter(was, todo, Neutral(run))
    requires Positions(second, |was|)
    requires counts.skipped == Tally(was, |was|, SkippedBy(run))
    requires counts.ineligible == Tally(was, |was|, Ineligible())
    requires counts.unlocated == |Filter(was, second, NoWindow(run))|
    requires counts.assessed == |Filter(was, todo, Judges(run))|
    requires forall key :: Get(counts.labels, key) == |Filter(was, todo, Keyed(run, key))|
    ensures CountsAre(run, was, counts)
  {
    hide Judges, Keyed, Neutral, NoWindow, Filter, Where, Tally, Get, ChosenBy, AssessedBy, AssessedAs, StillUnlocated;
    ListsCount(run, was, "");
    forall key ensures Get(counts.labels, key) == Tally(was, |was|, AssessedAs(run, key)) {
      ListsCount(run, was, key);
    }
  }

  /** The counts in terms of the document before and after. */
  ghost predicate CountsSay(run: Run, was: seq<Claim>, now: seq<Claim>, counts: Counts)
    requires |now| == |was|
  {
    && counts.ineligible == |set k | 0 <= k < |was| && !(HasWords(was[k].quote) && HasWords(was[k].text))|
    && counts.skipped
       == |set k | 0 <= k < |was| && HasWords(was[k].quote) && HasWords(was[k].text) && !Wants(run, was[k])|
    && counts.unlocated == |set k | 0 <= k < |was| && Wants(run, was[k]) && SaysNeutralOfQuote(now[k])|
    && counts.assessed == |set k | 0 <= k < |was| && Wants(run, was[k]) && !(run.redo && SaysNeutralOfQuote(now[k]))|
    && forall key :: Get(counts.labels, key) ==
         |set k | 0 <= k < |was| && Wants(run, was[k]) && !(run.redo && SaysNeutralOfQuote(now[k]))
                  && LabelOf(now[k]) == key|
  }

  /** Label and premise, as the label mix names them. */
  ghost function LabelOf(c: Claim): string {
    match c.entailment
    case Some(v) => v.says + "/" + v.premise
    case None => ""
  }

  ghost function Those(doc: seq<Claim>, n: nat, p: Claim -> bool): set<int>
    requires n <= |doc|
  {
    set k | 0 <= k < n && p(doc[k])
  }

  lemma {:induction false} TallySize(doc: seq<Claim>, n: nat, p: Claim -> bool)
    requires n <= |doc|
    ensures Tally(doc, n, p) == |Those(doc, n, p)|
  {
    if n == 0 {
      assert Those(doc, 0, p) == {};
    } else {
      TallySize(doc, n - 1, p);
      var before := Those(doc, n - 1, p);
      if p(doc[n - 1]) {
        assert Those(doc, n, p) == before + {n - 1};
      } else {
        assert Those(doc, n, p) == before;
      }
    }
  }

  lemma CountsMean(run: Run, was: seq<Claim>, now: seq<Claim>, counts: Counts)
    requires CountsAre(run, was, counts) && |now| == |was|
    requires forall k | 0 <= k < |was| :: now[k] == After(run, was[k])
    ensures CountsSay(run, was, now, counts)
  {
    forall k | 0 <= k < |was|
      ensures Ineligible()(was[k]) <==> !(HasWords(was[k].quote) && HasWords(was[k].text))
      ensures SkippedBy(run)(was[k]) <==> HasWords(was[k].quote) && HasWords(was[k].text) && !Wants(run, was[k])
      ensures StillUnlocated(run)(was[k]) <==> Wants(run, was[k]) && SaysNeutralOfQuote(now[k])
      ensures AssessedBy(run)(was[k]) <==> Wants(run, was[k]) && !(run.redo && SaysNeutralOfQuote(now[k]))
      ensures forall key :: AssessedAs(run, key)(was[k]) <==>
                Wants(run, was[k]) && !(run.redo && SaysNeutralOfQuote(now[k])) && LabelOf(now[k]) == key
    {
      ClaimCounts(run, was[k], now[k]);
    }
    hide HasWords, Wants, SaysNeutralOfQuote, LabelOf, After, Tally, Get;
    SizesMean(run, was, now, counts);
  }

  lemma ClaimCounts(run: Run, was: Claim, now: Claim)
    requires now == After(run, was)
    ensures Ineligible()(was) <==> !(HasWords(was.quote) && HasWords(was.text))
    ensures SkippedBy(run)(was) <==> HasWords(was.quote) && HasWords(was.text) && !Wants(run, was)
    ensures StillUnlocated(run)(was) <==> Wants(run, was) && SaysNeutralOfQuote(now)
    ensures AssessedBy(run)(was) <==> Wants(run, was) && !(run.redo && SaysNeutralOfQuote(now))
    ensures forall key :: AssessedAs(run, key)(was) <==>
              Wants(run, was) && !(run.redo && SaysNeutralOfQuote(now)) && LabelOf(now) == key
  {
    ChosenMeans(run, was);
    AssessedMeans(run, was);
    hide Blank, HasWords, Wants, Assessed, Judged;
    assert Chosen(run, was) ==> (Settled(run)(was) <==> !SaysNeutralOfQuote(now));
    forall key ensures AssessedAs(run, key)(was) <==> AssessedBy(run)(was) && LabelOf(now) == key {
      if Chosen(run, was) {
        assert Eligible(was) && now == Judged(run, was) && Key(now) == LabelOf(now);
        assert Keyed(run, key)(was) <==> Judges(run)(was) && Key(now) == key;
      }
    }
  }

  lemma SizesMean(run: Run, was: seq<Claim>, now: seq<Claim>, counts: Counts)
    requires CountsAre(run, was, counts) && |now| == |was|
    requires forall k | 0 <= k < |was| ::
               && (Ineligible()(was[k]) <==> !(HasWords(was[k].quote) && HasWords(was[k].text)))
               && (SkippedBy(run)(was[k]) <==> HasWords(was[k].quote) && HasWords(was[k].text) && !Wants(run, was[k]))
               && (StillUnlocated(run)(was[k]) <==> Wants(run, was[k]) && SaysNeutralOfQuote(now[k]))
               && (AssessedBy(run)(was[k]) <==> Wants(run, was[k]) && !(run.redo && SaysNeutralOfQuote(now[k])))
               && (forall key :: AssessedAs(run, key)(was[k]) <==>
                     Wants(run, was[k]) && !(run.redo && SaysNeutralOfQuote(now[k])) && LabelOf(now[k]) == key)
    ensures CountsSay(run, was, now, counts)
  {
    hide HasWords, Wants, SaysNeutralOfQuote, LabelOf, Tally, Get, Ineligible, SkippedBy, StillUnlocated, AssessedBy,
      AssessedAs;
    var n := |was|;
    TallySize(was, n, Ineligible());
    assert Those(was, n, Ineligible()) == set k | 0 <= k < n && !(HasWords(was[k].quote) && HasWords(was[k].text));
    TallySize(was, n, SkippedBy(run));
    assert Those(was, n, SkippedBy(run))
        == set k | 0 <= k < n && HasWords(was[k].quote) && HasWords(was[k].text) && !Wants(run, was[k]);
    TallySize(was, n, StillUnlocated(run));
    assert Those(was, n, StillUnlocated(run))
        == set k | 0 <= k < n && Wants(run, was[k]) && SaysNeutralOfQuote(now[k]);
    TallySize(was, n, AssessedBy(run));
    assert Those(was, n, AssessedBy(run))
        == set k | 0 <= k < n && Wants(run, was[k]) && !(run.redo && SaysNeutralOfQuote(now[k]));
    forall key
      ensures Get(counts.labels, key) ==
              |set k | 0 <= k < n && Wants(run, was[k]) && !(run.redo && SaysNeutralOfQuote(now[k]))
                       && LabelOf(now[k]) == key|
    {
      TallySize(was, n, AssessedAs(run, key));
      assert Those(was, n, AssessedAs(run, key))
          == set k | 0 <= k < n && Wants(run, was[k]) && !(run.redo && SaysNeutralOfQuote(now[k]))
                     && LabelOf(now[k]) == key;
    }
  }

  /** Judges every chosen claim of a document in place. */
  method Annotate(doc: array<Claim>, run: Run) returns (counts: Counts)
    modifies doc
    ensures forall k | 0 <= k < doc.Length :: Passed(run, old(doc[k]), doc[k])
    ensures CountsSay(run, old(doc[..]), doc[..], counts)
    ensures forall k | 0 <= k < doc.Length :: doc[k] == After(run, old(doc[k]))
    ensures CountsAre(run, old(doc[..]), counts)
  {
    hide *;
    ghost var was := doc[..];
    var todo, skipped, ineligible := Choose(run, doc[..]);
    TodoEligible(run, was);
    var second := todo;
    if !run.redo {
      second := StageOne(run, doc, todo);
    }
    ghost var mid := doc[..];
    BetweenStages(run, was, mid, todo, second);
    var unlocated := StageTwo(run, doc, second, was);
    EveryoneJudged(run, was, mid, doc[..], todo, second);
    var assessed, labels := Count(run, doc[..], todo, was);
    counts := Counts(assessed, skipped, ineligible, unlocated, labels);
    CountsFollow(run, was, todo, second, counts);
    forall k | 0 <= k < doc.Length ensures Passed(run, was[k], doc[k]) {
      AfterMeans(run, was[k]);
    }
    CountsMean(run, was, doc[..], counts);
  }

  // ----- What a pass promises

  lemma {:induction false} TallyBounds(doc: seq<Claim>, n: nat, p: Claim -> bool)
    requires n <= |doc|
    ensures Tally(doc, n, p) == 0 <==> forall k | 0 <= k < n :: !p(doc[k])
  {
    if n > 0 {
      TallyBounds(doc, n - 1, p);
    }
  }

  /** A condition splits a count in two. */
  lemma {:induction false} TallySplits(doc: seq<Claim>, n: nat, p: Claim -> bool, q: Claim -> bool, whole: Claim -> bool)
    requires n <= |doc|
    requires forall k | 0 <= k < n :: whole(doc[k]) == (p(doc[k]) || q(doc[k])) && !(p(doc[k]) && q(doc[k]))
    ensures Tally(doc, n, p) + Tally(doc, n, q) == Tally(doc, n, whole)
  {
    if n > 0 {
      TallySplits(doc, n - 1, p, q, whole);
    }
  }

  function Everything(): Claim -> bool { c => true }

  function Unchosen(run: Run): Claim -> bool { c => !Chosen(run, c) }

  /** Chosen and not left unlocated. */
  function Settled(run: Run): Claim -> bool { c => Chosen(run, c) && !Unlocated(Judged(run, c)) }

  lemma {:induction false} TallyAll(doc: seq<Claim>, n: nat)
    requires n <= |doc|
    ensures Tally(doc, n, Everything()) == n
  {
    if n > 0 {
      TallyAll(doc, n - 1);
    }
  }

  lemma {:induction false} TallySame(doc: seq<Claim>, n: nat, p: Claim -> bool, q: Claim -> bool)
    requires n <= |doc| && forall k | 0 <= k < n :: p(doc[k]) == q(doc[k])
    ensures Tally(doc, n, p) == Tally(doc, n, q)
  {
    if n > 0 {
      TallySame(doc, n - 1, p, q);
    }
  }

  lemma AssessedMeans(run: Run, c: Claim)
    ensures AssessedBy(run)(c) <==> if run.redo then Settled(run)(c) else ChosenBy(run)(c)
  {
    if Chosen(run, c) {
      assert Judges(run)(c) <==> !(run.redo && Unlocated(Judged(run, c)));
    }
  }

  lemma ChosenSplits(run: Run, doc: seq<Claim>)
    ensures Tally(doc, |doc|, StillUnlocated(run)) + Tally(doc, |doc|, Settled(run)) == Tally(doc, |doc|, ChosenBy(run))
    ensures Tally(doc, |doc|, AssessedBy(run)) ==
            if run.redo then Tally(doc, |doc|, Settled(run)) else Tally(doc, |doc|, ChosenBy(run))
  {
    hide Tally, Unlocated, Judged, Eligible, AssessedBy;
    TallySplits(doc, |doc|, StillUnlocated(run), Settled(run), ChosenBy(run));
    forall k | 0 <= k < |doc|
      ensures AssessedBy(run)(doc[k]) == if run.redo then Settled(run)(doc[k]) else ChosenBy(run)(doc[k])
    {
      AssessedMeans(run, doc[k]);
    }
    if run.redo {
      TallySame(doc, |doc|, AssessedBy(run), Settled(run));
    } else {
      TallySame(doc, |doc|, AssessedBy(run), ChosenBy(run));
    }
  }

  /** Every claim is counted once: judged, skipped or ineligible; in a redo the claims whose quote
      is still unlocated are counted as that instead of as judged. */
  lemma CountsAddUp(run: Run, doc: seq<Claim>, counts: Counts)
    requires CountsAre(run, doc, counts)
    ensures counts.assessed + counts.skipped + counts.ineligible + (if run.redo then counts.unlocated else 0) == |doc|
    ensures counts.unlocated + counts.skipped + counts.ineligible <= |doc|
  {
    hide Tally, Eligible, Unlocated, Judged, Assessed, AssessedBy, Settled, StillUnlocated;
    TallySplits(doc, |doc|, SkippedBy(run), Ineligible(), Unchosen(run));
    TallySplits(doc, |doc|, ChosenBy(run), Unchosen(run), Everything());
    TallyAll(doc, |doc|);
    ChosenSplits(run, doc);
  }

  /** A pass that is not a redo leaves nothing to check, whatever the classifiers answered and
      whether or not a second stage ran. */
  lemma NothingLeftToCheck(run: Run, doc: seq<Claim>, after: seq<Claim>)
    requires !run.redo && |after| == |doc|
    requires forall k | 0 <= k < |doc| :: after[k] == After(run, doc[k])
    ensures !NeedsCheck(after)
  {
    forall k | 0 <= k < |after| ensures Eligible(after[k]) ==> Assessed(after[k]) {
      assert after[k] == After(run, doc[k]);
    }
  }

  lemma JudgedOnes(run: Run, doc: seq<Claim>, now: seq<Claim>, counts: Counts) returns (judged: set<int>)
    requires |now| == |doc| && CountsSay(run, doc, now, counts)
    ensures counts.assessed == |judged|
    ensures forall k | k in judged :: 0 <= k < |doc|
    ensures forall k | 0 <= k < |doc| ::
              k in judged <==> Wants(run, doc[k]) && !(run.redo && SaysNeutralOfQuote(now[k]))
  {
    judged := set k | 0 <= k < |doc| && Wants(run, doc[k]) && !(run.redo && SaysNeutralOfQuote(now[k]));
  }

  /** The queue's test is exact: a document needs a check if and only if an ordinary pass would
      judge some claim of it. */
  lemma NeedsCheckIff(run: Run, doc: seq<Claim>, now: seq<Claim>, counts: Counts)
    requires !run.redo && !run.force && |now| == |doc| && CountsSay(run, doc, now, counts)
    ensures NeedsCheck(doc) <==> counts.assessed > 0
  {
    var judged := JudgedOnes(run, doc, now, counts);
    hide CountsSay, SaysNeutralOfQuote, HasWords, Wants;
    forall k | 0 <= k < |doc| ensures k in judged <==> Eligible(doc[k]) && !Assessed(doc[k]) {
      ChosenMeans(run, doc[k]);
    }
    if NeedsCheck(doc) {
      var k :| 0 <= k < |doc| && Eligible(doc[k]) && !Assessed(doc[k]);
      assert k in judged;
    }
    if counts.assessed > 0 {
      var k :| k in judged;
    }
  }

  /** Running the same pass again without force changes nothing and judges nothing. */
  lemma SecondPassSkips(run: Run, doc: seq<Claim>, after: seq<Claim>, counts: Counts)
    requires !run.redo && !run.force && |after| == |doc|
    requires forall k | 0 <= k < |doc| :: after[k] == After(run, doc[k])
    requires CountsAre(run, after, counts)
    ensures forall k | 0 <= k < |after| :: After(run, after[k]) == after[k]
    ensures counts.assessed == 0 && counts.skipped + counts.ineligible == |doc|
    ensures forall key :: Get(counts.labels, key) == 0
  {
    forall k | 0 <= k < |after| ensures !Chosen(run, after[k]) {
      assert after[k] == After(run, doc[k]);
    }
    TallyBounds(after, |after|, AssessedBy(run));
    forall key ensures Get(counts.labels, key) == 0 {
      TallyBounds(after, |after|, AssessedAs(run, key));
    }
    CountsAddUp(run, after, counts);
  }

  /** The later locator finds every quote the earlier one found, where that one found it, and the
      same classifier reads the window. */
  ghost predicate Improves(earlier: Later, later: Later) {
    earlier.Present? ==>
      && later.Present? && later.rows == earlier.rows
      && forall quote, location {:trigger earlier.window(quote, location)} | earlier.window(quote, location).Some? ::
           later.window(quote, location) == earlier.window(quote, location)
  }

  /** A redo with an improved locator, or with a second stage where there was none, ends with the
      verdicts a full pass with that locator would have given. */
  lemma RedoCatchesUp(run: Run, redo: Run, full: Run, c: Claim)
    requires run == Run(true, false, full.stage1, run.later, full.models) && Improves(run.later, full.later)
    requires redo == Run(false, true, full.stage1, full.later, full.models)
    requires full.force && !full.redo && Eligible(c)
    ensures After(redo, After(run, c)) == After(full, c)
  {
    var d := First(full, c);
    assert First(run, c) == d;
    if Unlocated(d) && Located(run.later, d) {
      assert run.later.window(c.quote.value, c.location).Some?;
      assert Second(run, d) == Second(full, d) && !Unlocated(Second(run, d));
    }
  }
}
