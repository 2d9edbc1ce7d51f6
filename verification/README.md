# Verified model of the digester's scoring and planning machinery

The digester extracts claims, accounts and chronologies from records with language models, and
then scores, locates, chunks, budgets and registers them with ordinary deterministic code.  This
project models that deterministic code in Dafny and proves what it promises.  A model's answer is
an arbitrary oracle everywhere; only the machinery around it is modelled.

`dafny verify dfyconfig.toml` checks the whole project.

## How the project is laid out

| file | what it models |
|---|---|
| `Assignment.dfy` | the rectangular Hungarian algorithm: potentials, search tree, in-place augmentation, and its optimality by duality |
| `AccountMatching.dfy`, `AccountScore.dfy` | optimal one-to-one account matching, and the account scorer that uses it |
| `SolverRun.dfy`, `TieBreak.dfy`, `BonusLimit.dfy` | the solver's run step by step, and with it the matching it returns: on every two-by-two grid, and where scores add up to exactly the bonus |
| `ChronologyDocument.dfy`, `ChronologyValidation.dfy` | reading and accepting a chronology document: spans, parent forest, claim placement, edges, labels |
| `Closure.dfy`, `SpanIou.dfy` | transitive closure of "before" edges; intersection over union of interrupted spans |
| `ChronologyScore.dfy`, `ChronologySelfScore.dfy` | scoring a predicted chronology, conservation of its counters, and gold scored against itself |
| `Searchable.dfy`, `Normalising.dfy` | the searchable text with its map to raw offsets; the form in which quotes are searched, and which texts are searchable forms |
| `Splitting.dfy`, `QuoteSearch.dfy`, `Locating.dfy` | quotes split at their ellipses; the search for quotes and ordered fragments in any text; the same search in a record body |
| `Coverage.dfy`, `Highlights.dfy`, `ContextLinks.dfy` | highlight markers, coverage-weighted recall, context closures |
| `SpendScheduler.dfy` | the benchmark runner's spend ceiling with five runs in flight |
| `ConfigRegistry.dfy` | the configuration registry as a protocol of concurrent writers, readers and crashes |
| `Batching.dfy`, `Verdicts.dfy` | the entailment classifier's batching with retry, and the two-stage verdict pass |
| `Extraction.dfy`, `Chunking.dfy` | the iterate-and-deduplicate loops, claim identity, and the chunker |
| `PermutationTest.dfy` | the exact permutation test of the grid report |
| `Timecodes.dfy` | the timecode printer and its three readers |
| `Spans.dfy`, `SetFacts.dfy`, `Sorting.dfy`, `Fractions.dfy`, `Options.dfy` | shared definitions |

Scores, costs and seconds are real numbers; a value the code calls infinite is an explicit
"not yet set".  Dictionaries and lists are maps and sequences; the Hungarian arrays, the digest's
claims and the classifier's settings are updated in place as in the source.

## Where the code does not do what it says

- The claim key is documented to see provenance, so that a bare claim never suppresses the same
  proposition where its source is named.  It sees the chain only for an anonymous origin: an
  unattributed claim drops the later one that names its source (`NamedSourceIsDropped`).  A claim
  said before with another chain is dropped in every stream exactly when both chains name the same
  anonymous source or neither names one (`SuppressedIffSameRoot`, `BareSuppresses`).
- Account matching is documented as "maximum-cardinality, then maximum-score".  It maximises the
  sum of 1000 plus the score.  The matchings it returns keep the promise on all grids of a size
  exactly when the highest possible score times (matching size - 1) stays below 1000
  (`ReturnedPromiseIff`).  From there on it returns one pair too few on a grid of every size
  (`ReturnedIsBestIff`, `MatchStaircase`).  The two callers stay below up to 500 and 1000 accounts
  respectively.
- Equal optima are documented to resolve by prediction index, then gold index: of the heaviest
  matchings the first prediction that two of them place differently should have the earlier
  account, and any account rather than none.  On two predictions and two accounts, eligible or not,
  the returned matching is that one except exactly on two kinds of tie (`OrderKeptIff`): the first
  prediction fits the first account and scores higher with the second, or it fits neither and the
  second prediction scores alike with both (`OrderFails`).
- The ordered fragment search is not complete: when a fragment other than the last can lose
  trailing punctuation there is always a record in which the search misses a placement
  (`CompleteIff`, `ElidedCompleteIff`).
- A located quote is meant to be where the quote stands.  For all quotes of a record this holds
  exactly when no character kept from it lowercases to two (`QuotesSpellIff`).  Behind a capital I
  with a dot above, a quote is silently placed on other characters, or found past the end of the
  map, where the source raises IndexError (`DottedIMisplacesQuotes`).
- A passage copied from a record is meant to be found in it.  The record is lowercased character by
  character and the quote as one text, so the passage reads as searched exactly when no capital
  sigma ends a word in it (`VerbatimIsFound`); otherwise it may be missed (`SigmaIsMissed`).
- The runner's comment says the ceiling bounds what a run can cost.  Over all pending lists drawn
  from the models, all ceilings and all completion orders, it does exactly when no model costs more
  than its estimate (`CeilingHoldsIff`).  An unpriced model is estimated at nothing, so it
  overspends whenever it alone costs more than the ceiling (`RunSingle`).
- `claim_position` reads a written location of one hundred hours or more modulo one hundred hours
  (`LocationRoundTrip`), and `parse_seconds` refuses it (`ParseRoundTrip`).
- `_chunk_text` never returns for a non-empty text when its limit is zero: it moves forward exactly
  when the limit is at least one (`ProgressIff`, `StallsAtZero`).  Its callers never pass zero
  (`HardMax`).

## Model

| member | source | states |
|---|---|---|
| Assignment.Scan | workspace/digester/account_score.py:192-205 | one pass over the unused columns leaves each column the lesser of its minimum and its reduced cost, with its predecessor, and returns the first column of the least minimum; used columns are untouched |
| Assignment.Shift | workspace/digester/account_score.py:206-211 | every row of the tree rises and every used column falls by delta, every unused minimum falls by delta, nothing else moves |
| Assignment.ShiftFeasible | workspace/digester/account_score.py:206-211 | the dual update leaves no reduced cost negative, and makes the new row feasible in its first step |
| Assignment.ShiftTight | workspace/digester/account_score.py:206-211 | the dual update keeps every matched edge and every tree edge tight |
| Assignment.ShiftKeeps | workspace/digester/account_score.py:187-214 | after the dual update the least column may enter the tree: the whole search invariant holds again |
| Assignment.SomeColumnUnused | workspace/digester/account_score.py:187-214 | the tree never swallows every column, so the search always finds a next one |
| Assignment.Grow | workspace/digester/account_score.py:187-214 | one step of the search marks exactly one more column used and keeps the invariant, so the search terminates; on values it is one step of the run |
| Assignment.GrownIsAugmenting | workspace/digester/account_score.py:212-214 | a tree that reached a free column is an alternating path of tight edges back to the new row |
| Assignment.Augment | workspace/digester/account_score.py:215-218 | shifting the matching along the path keeps it one-to-one and tight and ends with the new row matched; every column of the path takes the row of the next, and no other row moves |
| Assignment.PlaceRow | workspace/digester/account_score.py:182-218 | one outer iteration matches one more row: dual feasible, matched edges tight, column potentials non-positive and zero on free columns |
| Assignment.CostVersusPotentials | workspace/digester/account_score.py:176-218 | any assignment costs at least its potentials, and exactly those when its cells are tight |
| Assignment.SettledIsOptimal | workspace/digester/account_score.py:176-218 | duality: the settled matching costs no more than any injective assignment of rows to columns |
| Assignment.Solve | workspace/digester/account_score.py:176-218 | every row ends matched to its own column, the total cost is least over all injective assignments, and the states between the rows are a run of the solver by its steps |
| AccountMatching.BuildCosts | workspace/digester/account_score.py:162-174 | the cost table holds minus (1000 + score) on eligible pairs and zero on all other cells, with one unmatched slot per prediction |
| AccountMatching.LastGivenCounts | workspace/digester/account_score.py:158-161 | of the candidates about two accounts the last one given is the one matched on |
| AccountMatching.CheapestIsHeaviest | workspace/digester/account_score.py:162-226 | a cheapest assignment keeps a heaviest eligible matching: any rival, filled up with unmatched slots, is an assignment |
| AccountMatching.Select | workspace/digester/account_score.py:220-226 | the closing loop lists exactly the eligible pairs of the solved matching, one-to-one, in gold order |
| AccountMatching.OptimalMatches | workspace/digester/account_score.py:152-226 | the selected candidates are eligible, one-to-one, in gold order, of the greatest total of 1000 plus score over all eligible matchings, and those the run of the solver keeps |
| AccountMatching.ReturnedIsHeaviest | workspace/digester/account_score.py:152-226 | whatever a run of the solver keeps of a grid is a heaviest matching of it |
| AccountMatching.HeaviestIsBest | workspace/digester/account_score.py:155-155 | below the bound a heaviest matching has the most pairs, and the most score among those with as many |
| AccountMatching.PromiseIffBelowBonus | workspace/digester/account_score.py:155-172 | every heaviest matching of every grid of a size has the most pairs, then the most score, if and only if top score x (size - 1) < 1000 |
| AccountMatching.AboveBonusBreaksPromise | workspace/digester/account_score.py:155-172 | strictly above the bound every heaviest matching of the staircase grid misses a pair it could have |
| SolverRun.StepFacts | workspace/digester/account_score.py:187-214 | a step of the run: the first column of the least reduced cost is next, minima fall by that cost, a link changes only where the scanned row reaches a column at strictly less, duals move on used rows and columns only |
| BonusLimit.IdleRow | workspace/digester/account_score.py:182-218 | a prediction with nothing eligible takes a free column and moves nobody, whatever was placed before |
| BonusLimit.LeavesOne | workspace/digester/account_score.py:176-226 | where the scores of the staircase add up to exactly the bonus, the solver leaves its last step unmatched, at every size |
| BonusLimit.ReturnedIsBestIff | workspace/digester/account_score.py:155-226 | on the staircase the returned matching has the most pairs, then the most score, if and only if top score x (size - 1) < 1000 |
| BonusLimit.ReturnedPromiseIff | workspace/digester/account_score.py:155-226 | "most pairs, then most score" holds of what is returned on every grid of a size if and only if top score x (size - 1) < 1000 |
| BonusLimit.MatchStaircase | workspace/digester/account_score.py:152-226 | the matcher run on the staircase keeps the promise exactly below the bonus |
| TieBreak.SolvesTwo | workspace/digester/account_score.py:176-218 | on every two-row table the solver crosses where that is cheaper, and on a tie exactly when the first row is nearer to the second column |
| TieBreak.HeaviestOfTwo | workspace/digester/account_score.py:152-174 | the heaviest matchings of a two-by-two grid are the cheaper of the two ways round, as far as eligible, and both on a tie |
| TieBreak.OrderKeptIff | workspace/digester/account_score.py:176-177 | the matching returned on a two-by-two grid is the first of the heaviest by prediction index, then gold index, if and only if the grid is not one of the two kinds of tie |
| TieBreak.MatchTwo | workspace/digester/account_score.py:152-226 | the matcher on two predictions and two accounts: its pairs for every grid, and when they keep the documented order |
| TieBreak.OrderFails | workspace/digester/account_score.py:176-177 | one grid of each of the two kinds |
| AccountScore.SemanticIsBetterField | workspace/digester/account_score.py:126-130 | the weighted mix of title and subject never exceeds the better of the two, so the semantic score is that one, in [0, 1] |
| AccountScore.BoundaryCounts | workspace/digester/account_score.py:91-115 | the boundary arithmetic counts the lines that lie in both ranges, and divides them by the lines from the first to the last of either |
| AccountScore.CandidateWeighs | workspace/digester/account_score.py:118-149 | a candidate is eligible exactly when the overlap of titles or of subjects reaches the threshold and known ranges share a line, and scores the larger overlap plus the share of common lines |
| AccountScore.BuildCandidates | workspace/digester/account_score.py:118-149 | every gold-prediction pair has exactly one candidate; it is eligible if and only if titles or subjects overlap to the threshold and, where both ranges are known, some line lies in both; its score is the larger overlap plus shared lines over the lines from the first to the last of either |
| AccountScore.ScoresAtMostTwo | workspace/digester/account_score.py:131-149 | a candidate's score lies in [0, 2] |
| AccountScore.Score | workspace/digester/account_score.py:229-313 | every reported match reaches the threshold in titles or subjects and shares a line where both ranges are known; matched and missed are all the gold accounts, matched and extra all the predictions, both in order; the matching is the documented best up to 500 accounts |
| ChronologyDocument.NormaliseSpans | workspace/benchmarks/account_chronology_eval.py:113-135 | spans are accepted exactly when there are some, each is forward and non-negative, and no two overlap; then they come back sorted |
| ChronologyDocument.SortedDecides | workspace/benchmarks/account_chronology_eval.py:127-135 | comparing sorted neighbours decides disjointness of all pairs, in whatever order the spans were given |
| ChronologyDocument.ReadAccounts | workspace/benchmarks/account_chronology_eval.py:221-231 | accounts are accepted exactly when ids are distinct and all spans are acceptable |
| ChronologyDocument.CheckParents | workspace/benchmarks/account_chronology_eval.py:232-239 | parents are accepted exactly when each is another known account with each of its child's spans inside one of its own |
| ChronologyDocument.CheckForest | workspace/benchmarks/account_chronology_eval.py:240-247 | the walk up the parents accepts exactly the acyclic parent maps |
| ChronologyDocument.DescendantNarrower | workspace/benchmarks/account_chronology_eval.py:232-247 | an account is at least as wide as every account nested in it at any depth, and covers it |
| ChronologyDocument.ReadClaims | workspace/benchmarks/account_chronology_eval.py:249-274 | claims are accepted exactly when distinct, of this record and at no negative position |
| ChronologyValidation.CheckBound | workspace/benchmarks/account_chronology_eval.py:289-313 | a bound claim is accepted exactly when its account is the one narrowest account holding its position |
| ChronologyValidation.ReadAssignments | workspace/benchmarks/account_chronology_eval.py:276-328 | assignments are accepted exactly when every claim is assigned once and placed by the rule |
| ChronologyValidation.ReadEdges | workspace/benchmarks/account_chronology_eval.py:146-170 | edges are accepted exactly when distinct, between distinct claims, of the one account both are bound to |
| ChronologyValidation.LabelsStayInside | workspace/benchmarks/account_chronology_eval.py:146-196 | an edge is taken exactly when it joins two different claims the document binds to its account, a pair exactly when it names two such claims |
| ChronologyValidation.ContradictionMeans | workspace/benchmarks/account_chronology_eval.py:331-342 | labels contradict exactly when two claims are listed as unordered and as simultaneous, or as either while a chain of edges leads from one to the other |
| ChronologyValidation.AcceptedLabels | workspace/benchmarks/account_chronology_eval.py:330-342 | the labels of a document with accepted assignments are accepted if and only if no edge is repeated, every label keeps to two claims bound to its account, no chain of edges comes back, and no two claims carry two labels |
| ChronologyValidation.Validate | workspace/benchmarks/account_chronology_eval.py:199-357 | a document is accepted if and only if it meets every stated requirement, and the result describes it with its closed order |
| ChronologyValidation.AcceptanceFixesAssignments | workspace/benchmarks/account_chronology_eval.py:276-328 | two accepted documents with the same accounts and claims bind every claim to the same account with the same status |
| ChronologyValidation.BoundToDeepest | workspace/benchmarks/account_chronology_eval.py:232-313 | a claim bound to an account lies in no account nested inside it, at any depth |
| Closure.RoundDoubles | workspace/benchmarks/account_chronology_eval.py:360-374 | a round of joining doubles the length of the chains held |
| Closure.Close | workspace/benchmarks/account_chronology_eval.py:360-374 | the loop terminates with exactly the pairs joined by a non-empty chain of one account's edges; after k rounds all chains up to 2^k are held |
| Closure.ClosureIsLeast | workspace/benchmarks/account_chronology_eval.py:360-374 | the result is the least transitive set that contains the edges |
| Closure.ReflexiveIffCyclic | workspace/benchmarks/account_chronology_eval.py:335-337 | the reflexive-pair test rejects if and only if the edges contain a cycle |
| Closure.NoReverse | workspace/benchmarks/account_chronology_eval.py:335-337 | in an accepted closure no pair is contradicted by its reverse |
| SpanIou.IntersectionIsSize | workspace/benchmarks/account_chronology_eval.py:377-383 | the sum over endpoint pairs counts the points two span lists share |
| SpanIou.IouIsJaccard | workspace/benchmarks/account_chronology_eval.py:377-383 | the endpoint arithmetic is the Jaccard index of the two point sets |
| SpanIou.IouRange | workspace/benchmarks/account_chronology_eval.py:377-383 | it lies in [0, 1], is symmetric, is 1 exactly for equal non-empty point sets and 0 exactly for disjoint ones |
| ChronologyScore.MappedSize | workspace/benchmarks/account_chronology_eval.py:443-447 | renaming predicted edges to gold accounts loses none, because the matching is one-to-one |
| ChronologyScore.GoldConserved | workspace/benchmarks/account_chronology_eval.py:457-463 | every gold edge is correct, wrong direction or abstained, and only one of them |
| ChronologyScore.MappedConserved | workspace/benchmarks/account_chronology_eval.py:464-475 | every mapped edge is correct, wrong direction, on an unknown pair, on a simultaneous pair or unsupported, and only one of them |
| ChronologyScore.TallyBindings | workspace/benchmarks/account_chronology_eval.py:428-441 | correct are the claims left out alike in both documents and those whose predicted account is matched to the gold one; abstained are those with a gold account and no predicted one; wrong are the rest |
| ChronologyScore.JudgedMeans | workspace/benchmarks/account_chronology_eval.py:428-441 | every claim is judged by those three cases, and only one of them applies |
| ChronologyScore.TallyGold | workspace/benchmarks/account_chronology_eval.py:457-463 | the gold loop counts exactly the agreed, reversed and missing edges |
| ChronologyScore.TallyMapped | workspace/benchmarks/account_chronology_eval.py:464-475 | the prediction loop counts exactly the edges on unknown pairs, on simultaneous pairs, and on no gold pair |
| ChronologyScore.MatchAccounts | workspace/benchmarks/account_chronology_eval.py:401-419 | accounts are matched one-to-one among pairs at or above the threshold, best possible up to 1000 accounts |
| ChronologyScore.CountsAreConserved | workspace/benchmarks/account_chronology_eval.py:428-478 | for accepted documents the counters of the report conserve all gold edges, all mapped edges and all predicted edges |
| ChronologyScore.ScoreDocuments | workspace/benchmarks/account_chronology_eval.py:386-495 | a score exists exactly for two accepted documents about the same record and claims; its binding counters are the numbers of claims bound right, not bound and bound wrong, and its other counters are conserved |
| ChronologySelfScore.SelfScoreIsPerfect | workspace/benchmarks/account_chronology_eval.py:386-495 | against any heaviest matching of a document with itself every account is matched and every claim and edge counts as correct, nothing against it |
| ChronologySelfScore.DescribesOnce | workspace/benchmarks/account_chronology_eval.py:199-357 | a document has one validated form |
| ChronologySelfScore.ScoreAgainstItself | workspace/benchmarks/account_chronology_eval.py:386-495 | the scorer run on one document twice gives a report exactly when the document is accepted, and the report is perfect |
| Searchable.BuildSearch | workspace/digester/eval.py:83-114 | of the characters shown - in lines that are neither a heading nor a comment, after their leading timestamp and its space - every one that is not space is kept, and a space exactly when the last one shown before it is not space; the text is their lowercase |
| Searchable.ContentIsShown | workspace/digester/eval.py:83-114 | what the line loop drops: the lines whose first character that is not space is #, the lines that open with <!-- and before trailing space close with -->, and in the others a leading dd:dd:dd.d+ stamp with one space after it |
| Searchable.SpaceIsKept | workspace/digester/eval.py:105-114 | a shown space is kept exactly when the last shown character before it is not space |
| Searchable.LowerIs | workspace/digester/eval.py:111-111 | each of the 26 capitals becomes the small letter in its place, two further characters change, and no other |
| Searchable.AlignedIff | workspace/digester/eval.py:83-114 | the text has one character per kept offset if and only if no kept character lowercases to two |
| Normalising.NormIsPlain | workspace/digester/eval.py:117-118 | a normalised quote has no space at its ends, single blanks only and no character that lowercases further; normalising it again changes nothing |
| Normalising.FinalsAt | workspace/digester/eval.py:117-118 | lowercased as one text, a capital sigma becomes a final one exactly when a letter stands before it and none after, over whatever is passed over |
| Normalising.SearchIsPlain | workspace/digester/eval.py:83-114 | the searchable form of every text is plain in the same sense, but may end with a blank |
| Normalising.PlainIffSearchable | workspace/digester/eval.py:83-114 | and every such text is the searchable form of some text: of a transcript line that holds it |
| Normalising.VerbatimIsFound | workspace/digester/eval.py:83-118 | a quote copied from unbroken content reads, where it was copied from, as it is searched if and only if no capital sigma ends a word in it |
| QuoteSearch.HitIsLeftmost | workspace/digester/eval.py:121-136 | a hit is the leftmost occurrence, and the quote without trailing punctuation is tried only when the whole quote does not occur |
| QuoteSearch.MissMeansAbsent | workspace/digester/eval.py:121-136 | a miss means neither form of the quote occurs |
| QuoteSearch.SpanIsExact | workspace/digester/eval.py:139-148 | the raw span of a hit holds the offsets of the matched characters and of no other kept character |
| QuoteSearch.LocateSpells | workspace/digester/eval.py:139-148 | over an aligned map every found quote has a raw span, whose kept characters spell the matched form, in any text |
| Locating.LocateQuote | workspace/digester/eval.py:139-148 | a quote is normalised and searched in the searchable form of the record, and its span read off the map |
| Locating.QuotesSpellIff | workspace/digester/eval.py:83-148 | every quote found from any start has a raw span whose kept characters spell it, if and only if no character kept from the record lowercases to two |
| Locating.DottedIMisplacesQuotes | workspace/digester/eval.py:83-148 | a concrete record in which one quote is placed on another letter and the next is found but off the map |
| Locating.VerbatimLocates | workspace/digester/eval.py:83-148 | a passage copied from unbroken content in which no capital sigma ends a word is found whole, and over an aligned map the span spells it |
| Locating.SigmaIsMissed | workspace/digester/eval.py:83-148 | a concrete record whose only word is not found in it |
| Locating.LocateClaim | workspace/digester/eval.py:535-567 | a claim quote is found whole, or apart as a placement of its fragments in source order exactly when there are two or more and the greedy search succeeds; it is out of order exactly when the first fragment missing from where the search stands occurs from the start |
| QuoteSearch.SearchFragments | workspace/digester/eval.py:550-565 | the fragment loop succeeds exactly when the greedy search does, its spans are the fragments' raw spans, and success is a placement of all fragments in source order |
| QuoteSearch.PlacedSpansApart | workspace/digester/highlight_gold.py:226-241 | the raw spans of placed fragments are disjoint and in source order |
| QuoteSearch.PlacementIsFound | workspace/digester/eval.py:478-490 | greedy-leftmost search finds a placement whenever one exists, as long as only the last fragment may lose punctuation |
| QuoteSearch.StrippableMisleads | workspace/digester/eval.py:121-136 | for every list with an earlier strippable fragment there is a text holding a placement that the search misses, given piece by piece |
| Splitting.FragmentsIff | workspace/digester/eval.py:550-556 | the lists of fragments that quotes are split into are exactly the lists of normalised quotes without a separator in them |
| Splitting.FragmentsAre | workspace/digester/eval.py:545-546 | a quote is searched as its parts between three dots or an ellipsis, separators taken from the left, that are not all space, in order, each stripped and normalised |
| Splitting.SplitsOnce | workspace/digester/eval.py:545-546 | a text falls apart at its separators in one way |
| Locating.TrapIsPlain | workspace/digester/eval.py:83-136 | the misleading text is plain, so some record has it as its searchable form |
| Locating.CompleteIff | workspace/digester/eval.py:550-565 | the search finds every placement of normalised fragments in every record if and only if no fragment but the last can lose trailing punctuation |
| Locating.ElidedCompleteIff | workspace/digester/eval.py:550-565 | the same for the fragments of any quote |
| Coverage.Overlap | workspace/digester/eval.py:248-274 | the sweep counts exactly the offsets of the span that lie in the union of the intervals, in any order and with any overlap |
| Coverage.UnitFraction | workspace/digester/eval.py:579-583 | a unit's coverage is its covered characters over its extent |
| Coverage.GradeRecall | workspace/digester/eval.py:575-594 | recall is the mean unit coverage, absent without gold, and the missed units are those under the threshold |
| Coverage.RecallInUnit | workspace/digester/eval.py:575-594 | recall lies in [0, 1] however many claims cover the same text |
| Coverage.RecallMonotone | workspace/digester/eval.py:575-594 | adding claims never lowers recall |
| Coverage.RepeatsDoNotCount | workspace/digester/eval.py:575-594 | repeating or reordering claims leaves recall unchanged |
| Coverage.FullFraction | workspace/digester/eval.py:579-583 | a unit scores 1 exactly when every one of its characters is covered |
| Coverage.OffTarget | workspace/digester/eval.py:597-603 | the off-target claims are exactly those sharing no character with the gold |
| Highlights.ParseHighlights | workspace/digester/eval.py:277-334 | each started id gives one highlight, in order of first start, and an offset of the body lies in one of its sorted disjoint parts exactly when the last marker of that id taking effect at or before it is a start, a start taking effect at its end and an end marker at its start; a part begins exactly where a start opens the id |
| Highlights.SortedAlready | workspace/digester/eval.py:320-334 | the closing sort of the parts never changes anything |
| ContextLinks.Ancestors | workspace/digester/eval.py:347-374 | the worklist ends on any link set and holds exactly the ids reached |
| ContextLinks.AncestorClosures | workspace/digester/eval.py:347-374 | each present highlight's closure is the present ids that links of the chains lead up to |
| ContextLinks.Dependencies | workspace/digester/eval.py:377-411 | the worklist ends, cyclic or dangling, with exactly the targets of backward present links reached, and exactly the unresolvable ones apart; it fails exactly when a link reached compares a highlight without parts |
| ContextLinks.ContextDependencies | workspace/digester/eval.py:377-411 | every present highlight gets the highlights that links lead back to, each starting earlier than the one before, and the targets of links on the way that do not go back; it fails exactly where a link met compares highlights one of which has no part, where the source raises |
| ContextLinks.ClosureMeans | workspace/digester/eval.py:377-411 | what the worklist over parents computes is what the chains and the starts of first parts say |
| ContextLinks.PartsSuffice | workspace/digester/eval.py:377-411 | nothing fails where every present highlight has a part |
| ContextLinks.ContextIsEarlier | workspace/digester/eval.py:377-411 | context always starts earlier, so no highlight is its own context |
| ContextLinks.ClosureContainsClosures | workspace/digester/eval.py:377-411 | the context of a context is context |
| ContextLinks.ClosuresAgree | workspace/digester/eval.py:347-411 | both closures agree when every link goes back to a present highlight, and then nothing is unresolved |
| SpendScheduler.AdmitWhileRoom | workspace/benchmarks/run_models.py:322-331 | models start in queue order while five are not in flight and the projection stays within the ceiling |
| SpendScheduler.HandleOne | workspace/benchmarks/run_models.py:341-367 | a completion is recorded once, and the queue is drained once actual spend passes the ceiling |
| SpendScheduler.RunPending | workspace/benchmarks/run_models.py:313-368 | under every completion order the loop ends, each model is finished, refused or drained and only one of them, those that started come first, spend passes the ceiling by at most the overrun of at most five runs in flight at the last admission, and the trace of its states is a run by the steps |
| SpendScheduler.RunKeeps | workspace/benchmarks/run_models.py:313-368 | every state of every run accounts for each model once and keeps the bound on spend |
| SpendScheduler.UpperEstimatesKeepCeiling | workspace/benchmarks/run_models.py:304-309 | with estimates that are upper bounds no state of any run is past the ceiling |
| SpendScheduler.RunSingle | workspace/benchmarks/run_models.py:310-368 | the loop on one model overspends exactly when its estimate is within the ceiling and its cost is not |
| SpendScheduler.OverpricedOverspends | workspace/benchmarks/run_models.py:304-368 | one model that costs more than its estimate overspends in some run |
| SpendScheduler.CeilingHoldsIff | workspace/benchmarks/run_models.py:304-368 | every pending list drawn from the models stays under every ceiling in every completion order if and only if no model costs more than its estimate |
| ConfigRegistry.Validate | workspace/digester/extraction_config_registry.py:41-72 | a document is accepted exactly when it is canonical or legacy with every key the fingerprint of its value, and all its entries come back |
| ConfigRegistry.ReplacePublishes | workspace/digester/extraction_config_registry.py:106-121 | replacing the file publishes the old entries and the new one in the canonical form, nothing lost, legacy files included |
| ConfigRegistry.StepKeeps | workspace/digester/extraction_config_registry.py:88-130 | every step of every caller, crash included, keeps a valid file, one lock holder and all stored configurations |
| ConfigRegistry.RegisteredIsNeverLost | workspace/digester/extraction_config_registry.py:75-130 | over every run, what a call registered is read back by every later lock-free reader under its fingerprint, with nothing else lost |
| ConfigRegistry.OneHolder | workspace/digester/extraction_config_registry.py:95-129 | at most one caller is between taking and releasing the lock |
| ConfigRegistry.CallGoesThrough | workspace/digester/extraction_config_registry.py:88-130 | a call that finds the lock free and an absent, canonical or legacy file it can read, without another configuration under its fingerprint, goes through: the file is the canonical one with the entry added, the lock is free, no other caller has moved |
| ConfigRegistry.CallIsRefused | workspace/digester/extraction_config_registry.py:88-130 | every other call fails with nothing written: at the read when the file cannot be read, before the write when another configuration has the fingerprint |
| ConfigRegistry.UnusableIsNeverOverwritten | workspace/digester/extraction_config_registry.py:98-105 | an invalid registry file is reported by every call and never replaced |
| Batching.OrderIsPermutation | workspace/digester/entailment.py:179-184 | processing order lists every input once, by characters of premise and hypothesis together, ties in input order |
| Batching.Classifier.BackOff | workspace/digester/entailment.py:190-200 | an out-of-memory failure halves the batch, or at one pair per batch moves to the CPU; the failures still possible decrease |
| Batching.Classifier.Probs | workspace/digester/entailment.py:170-205 | under any pattern of failures every pair is scored once, its row stands at its own input position, attempts are bounded by pairs plus possible failures, and every attempt takes a full batch or all that is left, at half the size after a failure, or off the card after one at a single pair |
| Verdicts.Choose | workspace/digester/entailment.py:302-326 | a pass chooses exactly the claims with words in quote and text that have no verdict, all of them when forced, and only unlocated neutrals in a redo |
| Verdicts.StageOne | workspace/digester/entailment.py:335-347 | each row's verdict lands on its own claim, and exactly the claims go on whose neutral probability exceeds entails and is at least contradicts |
| Verdicts.StageTwo | workspace/digester/entailment.py:349-367 | each located claim gets its own window verdict, the others are counted as unlocated, nothing else changes |
| Verdicts.Annotate | workspace/digester/entailment.py:276-376 | every claim judged carries the greatest probability of the row it was judged by and the label holding it, the earlier of entails, neutral and contradicts on a tie; the later row is that of the window, for exactly the claims with a window that were neutral on their quote; every count and the label mix are the numbers of such claims |
| Verdicts.AfterMeans | workspace/digester/entailment.py:243-245 | what a pass leaves of a claim, in terms of its probabilities alone |
| Verdicts.CountsMean | workspace/digester/entailment.py:302-376 | the reported counts are the numbers of claims with words, wanted, judged by stage and model, unlocated, and of each label |
| Verdicts.CountsAddUp | workspace/digester/entailment.py:276-376 | assessed, skipped and ineligible are all the claims; in a redo unlocated makes up the rest |
| Verdicts.NothingLeftToCheck | workspace/digester/entailment.py:262-273 | after a pass no claim needs a check, whatever the classifiers answered |
| Verdicts.NeedsCheckIff | workspace/digester/entailment.py:263-273 | a document is queued if and only if an ordinary pass would judge some claim of it |
| Verdicts.SecondPassSkips | workspace/digester/entailment.py:322-326 | the same pass run again judges nothing and changes nothing |
| Verdicts.RedoCatchesUp | workspace/digester/entailment.py:293-297 | after a pass with any locator that the new one extends, or with none, a redo ends with the verdicts a full pass with the new one would have given |
| Extraction.FirstsAreFirst | workspace/digester/extract.py:1752-1760 | what is kept is exactly the first item of every key, in stream order |
| Extraction.FirstsCoverKeys | workspace/digester/extract.py:1752-1760 | no two kept items share a key, and no key of the stream is lost |
| Extraction.AskChunk | workspace/digester/extract.py:1710-1771 | one chunk is asked until the model says it is complete or a round adds fewer than two, at most forty times |
| Extraction.Gather | workspace/digester/extract.py:1593-1650 | both passes merge exactly the first occurrences by key of everything the model returned, against any model |
| Extraction.MergedGrows | workspace/digester/extract.py:1752-1760 | nothing merged is ever dropped or reordered |
| Extraction.CallsBounded | workspace/digester/extract.py:1697-1773 | calls are at least one and at most forty per chunk, and beyond one per chunk at most one for every two items merged |
| Extraction.ScheduleIsUnique | workspace/digester/extract.py:1710-1771 | the stopping rule leaves no choice: a stream of answers has one schedule |
| Extraction.SameKey | workspace/digester/extract.py:604-624 | two claims are one exactly when contents and speakers agree up to surrounding space and case, types and attestations agree, and the anonymous sources named agree: the reference where it says something, the origin otherwise |
| Extraction.KeyPartsAreKept | workspace/digester/extract.py:604-624 | every combination of those five parts that was returned is kept |
| Extraction.SuppressedIffSameRoot | workspace/digester/extract.py:604-624 | a claim said before with another chain is dropped in every stream if and only if both chains name the same anonymous source or neither names one |
| Extraction.BareSuppresses | workspace/digester/extract.py:604-624 | a bare claim suppresses the attributed one, in the two-claim stream and in every stream, exactly when the attribution names no anonymous source |
| Extraction.NamedSourceIsDropped | workspace/digester/extract.py:604-624 | the documented case fails: of an unattributed claim and the same claim with its source named, the second is dropped |
| PermutationTest.ChoicesAreCombinations | reports/grid_analysis.py:66-73 | the enumeration lists every way to choose the first group |
| PermutationTest.CombinationsDistinct | reports/grid_analysis.py:66-73 | the enumeration lists no choice twice |
| PermutationTest.ReachesByTotal | reports/grid_analysis.py:67-73 | a split reaches the observed mean difference exactly when its first group has at least the observed total |
| PermutationTest.OneHitIffSeparated | reports/grid_analysis.py:49-74 | the observed split always counts, and is the only one exactly when min(a) > max(b) |
| PermutationTest.PermutationP | reports/grid_analysis.py:49-74 | p is the share of splits that reach the observed difference, at least 1 / C(n+m, n), and equal to it exactly when min(a) > max(b) |
| PermutationTest.SeparatedIffSmallest | reports/grid_analysis.py:77-79 | two groups are separated exactly when the test in one direction takes its smallest value |
| PermutationTest.ThreeArms | reports/grid_analysis.py:59-62 | with three arms each the smallest p is 0.05, reached exactly by complete separation |
| Chunking.FindSplitPoint | workspace/digester/extract.py:478-493 | the cut follows the newline of the last page marker in the window past its first character, else of the last heading, else of the last blank line, else of the last line end; there is none only without a line end |
| Chunking.ChunkText | workspace/digester/extract.py:496-520 | the chunks concatenate to the text, each ending at the window's cut, at the full width, or at the end; an empty text is its own chunk under any limit |
| Chunking.ProgressIff | workspace/digester/extract.py:510-520 | the loop moves forward from every position if and only if the limit is at least one |
| Chunking.StallsAtZero | workspace/digester/extract.py:510-520 | with a limit of zero a window can only end where it starts |
| Chunking.ChunksAreWellCut | workspace/digester/extract.py:496-520 | every chunk is non-empty and fits the limit; all but the last reach the minimum and end with a line unless they fill the limit |
| Chunking.ChunkCount | workspace/digester/extract.py:496-520 | so the number of chunks is bounded by the length over the minimum |
| Chunking.ChaptersRejoin | workspace/digester/extract.py:523-535 | chapters rejoin with newlines to the text, none holds a boundary, and each after the first starts with a marker |
| Chunking.BuildChunks | workspace/digester/extract.py:538-564 | the chunks of each chapter concatenate to it, the chapters rejoin to the text, no chunk exceeds min(150000, max(limit, 20000)), and the minimum is 20000, or with chapters min(50000, that) |
| Timecodes.PrinterMonotone | workspace/digester/realign.py:248-254 | the printed time keeps the order of times, is off by at most 0.05 s, and is zero for negative times |
| Timecodes.PrintedIs | workspace/digester/realign.py:248-254 | a time below one hundred hours is printed as two digits each of hours, minutes and seconds under sixty, and a tenth |
| Timecodes.MatchIsLongest | workspace/digester/accounts.py:57-69 | a match is the longest start of the text that spells a timecode, with its value, and there is one if any start does |
| Timecodes.ParsesIff | workspace/digester/accounts.py:48-54 | the strict reader takes exactly the texts that spell a timecode, space around it allowed, as its value |
| Timecodes.ParseRoundTrip | workspace/digester/accounts.py:48-54 | a printed time reads back exactly when it rounds to under one hundred hours, and is refused otherwise |
| Timecodes.ReadPrinted | workspace/digester/accounts.py:57-69 | the search for a timecode in a location reads the printed time modulo one hundred hours |
| Timecodes.LocationRoundTrip | workspace/digester/accounts.py:57-69 | a written location gives its start back if and only if the start rounds to under one hundred hours |
| Timecodes.MillisecondsOfLocation | workspace/benchmarks/account_chronology_eval.py:56-72 | in exact arithmetic the chronology reader gives one hundred milliseconds per tenth of a second for every written location |
| Timecodes.MillisecondsIff | workspace/benchmarks/account_chronology_eval.py:56-72 | the chronology reader gives a time exactly for ranges whose start, with a fraction of any length, is a whole number of milliseconds, and gives that number |
| Timecodes.LocationsTellTimesApart | workspace/digester/realign.py:277-280 | two starts written alike round to the same tenth |

## Left out

- Model calls, transports, allowances, ledgers, prompts and schemas: the model's answers are parameters.
- Floating-point rounding, including `round(x, 4)` of scores and `round(x, 3)` of verdicts: scores are real numbers.
- The tie-break between equally good account matchings of more than two predictions or accounts: the run of the solver fixes it, but when it follows the documented order is stated for two by two only.
- Line ranges of accounts and the tokens of titles are given values; deriving them from a body is not modelled.
- Precision, recall and mean ratios of the account and chronology reports, which divide counters modelled here.
- Field-by-field checks of a chronology document that do not touch accounts, claims, positions, edges or labels.
- Regular expressions and Unicode: whitespace is ASCII and Latin-1; lowercasing is ASCII, the dotted capital I and the capital sigma with its final form; the letters around a sigma are those, the characters passed over ASCII and the combining dot; digits are ASCII.
- Printing, manifests and the rows a benchmark run already had before it started.
- JSON, SHA-256 and the file system: a registry document is a value, the fingerprint an arbitrary function, replacement atomic, and a lock is released when its holder dies.
- Neural inference: a row is valid for a pair by an arbitrary relation; a claim's window is a given function of its quote and location.
- Main subjects, codenames and acronyms gathered beside the nodes, cancellation and route capacity checks.
- Character and chapter offsets in a location; a written location is a timecode range.
- Alignment of quotes to word streams and everything that depends on library block choice.
- Binding of claims to the smallest account span outside the chronology evaluation: it would repeat the placement rule proved here.
- Chunking.ChunkText: requires a limit of at least one character unless the text is empty, because with less the loop never ends.
- Batching.Classifier.constructor: requires a batch of at least one pair, because with none the loop never ends.
- Timecodes.MillisecondsOfLocation: exact integers; the source's decimals keep 28 digits, so times beyond that are rounded there.
