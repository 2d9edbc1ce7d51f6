/** Highlights in a record body: start and end markers matched by id into parts. */
module Highlights {
  import opened Sorting
  import opened Spans

  /** A start or end marker and the offsets its own text takes up. */
  datatype Marker = Marker(start: int, end: int, opens: bool, id: string)

  datatype Highlight = Highlight(id: string, parts: seq<Span>)

  /** Markers take up room, inside the body, and never overlap. */
  ghost predicate MarkersOk(markers: seq<Marker>, length: int) {
    && 0 <= length
    && (forall i | 0 <= i < |markers| :: 0 <= markers[i].start < markers[i].end <= length)
    && forall i, j | 0 <= i < j < |markers| ::
         markers[i].end <= markers[j].start || markers[j].end <= markers[i].start
  }

  predicate ByStart(a: Marker, b: Marker) {
    a.start <= b.start
  }

  /** Markers in body order. */
  ghost predicate InOrder(events: seq<Marker>, length: int) {
    && 0 <= length
    && (forall i | 0 <= i < |events| :: 0 <= events[i].start < events[i].end <= length)
    && forall i, j | 0 <= i < j < |events| :: events[i].end <= events[j].start
  }

  lemma SortedInOrder(markers: seq<Marker>, length: int)
    requires MarkersOk(markers, length)
    ensures InOrder(Sort(markers, ByStart), length)
  {
    hide Sort, Ordered;
    var events := Sort(markers, ByStart);
    ByStartTotal();
    SortOrdered(markers, ByStart);
    SortKeeps(markers, ByStart);
    OrderedInOrder(markers, events, length);
  }

  lemma ByStartTotal()
    ensures TotalPreorder(ByStart)
  {
  }

  lemma OrderedInOrder(markers: seq<Marker>, events: seq<Marker>, length: int)
    requires MarkersOk(markers, length) && multiset(events) == multiset(markers) && Ordered(events, ByStart)
    ensures InOrder(events, length)
  {
    assert 0 <= length;
    forall i | 0 <= i < |events| ensures 0 <= events[i].start < events[i].end <= length {
      MarkerOk(markers, events, length, i);
    }
    hide MarkersOk;
    forall i, j | 0 <= i < j < |events| ensures events[i].end <= events[j].start {
      ApartInSort(markers, events, length, i, j);
    }
  }

  lemma MarkerOk(markers: seq<Marker>, events: seq<Marker>, length: int, i: nat)
    requires MarkersOk(markers, length) && multiset(events) == multiset(markers) && i < |events|
    ensures 0 <= length && 0 <= events[i].start < events[i].end <= length
  {
    assert events[i] in multiset(events);
    var k := At(markers, events[i]);
  }

  lemma ApartInSort(markers: seq<Marker>, events: seq<Marker>, length: int, i: nat, j: nat)
    requires MarkersOk(markers, length) && multiset(events) == multiset(markers)
    requires i < j < |events| && ByStart(events[i], events[j])
    ensures events[i].end <= events[j].start
  {
    assert events[i] in multiset(events) && events[j] in multiset(events);
    var k := At(markers, events[i]);
    var l := At(markers, events[j]);
    if events[i] == events[j] {
      TwiceInSort(markers, events, i, j);
    }
  }

  lemma At(markers: seq<Marker>, x: Marker) returns (k: nat)
    requires x in multiset(markers)
    ensures k < |markers| && markers[k] == x
  {
    k :| k < |markers| && markers[k] == x;
  }

  /** Markers that take up room and never overlap do not repeat, sorted or not. */
  lemma TwiceInSort(markers: seq<Marker>, events: seq<Marker>, i: nat, j: nat)
    requires multiset(events) == multiset(markers) && i < j < |events| && events[i] == events[j]
    ensures exists k, l :: 0 <= k < l < |markers| && markers[k] == markers[l] == events[i]
  {
    var x := events[i];
    assert events == events[..j] + events[j..];
    assert x in multiset(events[..j]) by {
      assert events[..j][i] == x;
    }
    assert x in multiset(events[j..]) by {
      assert events[j..][0] == x;
    }
    assert multiset(markers)[x] >= 2;
    var k :| 0 <= k < |markers| && markers[k] == x;
    assert markers == markers[..k] + [x] + markers[k + 1..];
    assert x in multiset(markers[..k]) || x in multiset(markers[k + 1..]);
    if x in markers[..k] {
      var m :| 0 <= m < k && markers[..k][m] == x;
      assert markers[m] == markers[k] == x;
    } else {
      var m :| 0 <= m < |markers[k + 1..]| && markers[k + 1..][m] == x;
      assert markers[k] == markers[k + 1 + m] == x;
    }
  }

  // ----- What the parts of a highlight should be

  /** Where a marker takes effect: a start behind its own text, an end before it. */
  ghost function Effect(e: Marker): int {
    if e.opens then e.end else e.start
  }

  /** Whether the last marker of the highlight that takes effect at or before offset x is a start. */
  ghost predicate OpenAt(events: seq<Marker>, id: string, x: int) {
    if events == [] then false
    else
      var last := events[|events| - 1];
      if last.id == id && Effect(last) <= x then last.opens else OpenAt(events[..|events| - 1], id, x)
  }

  /** Whether a start of the highlight that finds it closed takes effect at x. */
  ghost predicate OpensAt(events: seq<Marker>, id: string, x: int) {
    exists i | 0 <= i < |events| ::
      events[i].opens && events[i].id == id && events[i].end == x && !OpenAt(events, id, events[i].start)
  }

  ghost predicate PartsInOrder(parts: seq<Span>) {
    && (forall k | 0 <= k < |parts| :: parts[k].start <= parts[k].end)
    && forall k, l | 0 <= k < l < |parts| :: parts[k].end < parts[l].start
  }

  // ----- The scan

  datatype State = State(open: map<string, int>, order: seq<string>, spans: map<string, seq<Span>>)

  function PartsOf(s: State, id: string): seq<Span> {
    if id in s.spans then s.spans[id] else []
  }

  /** Offset x counts as inside: in a closed part, or after the start that is still open. */
  predicate Inside(s: State, id: string, x: int) {
    Covered(PartsOf(s, id), x) || (id in s.open && s.open[id] <= x)
  }

  /** A part begins at x. */
  ghost predicate Begins(s: State, id: string, x: int) {
    BeginsIn(PartsOf(s, id), x) || (id in s.open && s.open[id] == x)
  }

  ghost predicate BeginsIn(parts: seq<Span>, x: int) {
    exists k | 0 <= k < |parts| :: parts[k].start == x
  }

  /** The scan's state for one id after some events, the last of which ends at `reach`. */
  ghost predicate Tracked(events: seq<Marker>, s: State, id: string, reach: int) {
    && PartsInOrder(PartsOf(s, id))
    && (id in s.open ==> 0 <= s.open[id] <= reach)
    && (forall p | p in PartsOf(s, id) :: 0 <= p.start && p.end <= reach && (id in s.open ==> p.end < s.open[id]))
    && (forall i | 0 <= i < |events| :: events[i].start < events[i].end <= reach)
    && (forall x :: Inside(s, id, x) <==> OpenAt(events, id, x))
    && (forall x :: Begins(s, id, x) <==> OpensAt(events, id, x))
    && (id in s.order <==> Starts(events, id))
    && (id in s.order <==> id in s.open || PartsOf(s, id) != [])
  }

  ghost predicate Starts(events: seq<Marker>, id: string) {
    exists i | 0 <= i < |events| :: events[i].opens && events[i].id == id
  }

  function Opened(s: State, e: Marker): State {
    if e.id in s.open then s
    else s.(open := s.open[e.id := e.end], order := if e.id in s.order then s.order else s.order + [e.id])
  }

  function Closed(s: State, e: Marker): State {
    if e.id !in s.open then s
    else s.(open := s.open - {e.id}, spans := s.spans[e.id := PartsOf(s, e.id) + [Span(s.open[e.id], e.start)]])
  }

  /** One event of the scan. */
  function Step(s: State, e: Marker): State {
    if e.opens then Opened(s, e) else Closed(s, e)
  }

  lemma EventsStep(events: seq<Marker>, e: Marker, id: string, x: int)
    ensures OpenAt(events + [e], id, x) <==> if e.id == id && Effect(e) <= x then e.opens else OpenAt(events, id, x)
    ensures Starts(events + [e], id) <==> Starts(events, id) || (e.opens && e.id == id)
  {
    var more := events + [e];
    assert more[..|events|] == events;
    assert forall i | 0 <= i < |events| :: more[i] == events[i];
    assert more[|events|] == e;
    if Starts(events, id) {
      var i :| 0 <= i < |events| && events[i].opens && events[i].id == id;
      assert more[i] == events[i];
    }
  }

  /** Later markers do not change where the highlight was opened. */
  lemma OpensStep(events: seq<Marker>, e: Marker, id: string, x: int)
    requires e.start < e.end && forall i | 0 <= i < |events| :: events[i].start < events[i].end <= e.start
    ensures OpensAt(events + [e], id, x) <==>
            OpensAt(events, id, x) || (e.opens && e.id == id && e.end == x && !OpenAt(events, id, e.start))
  {
    var more := events + [e];
    assert more[|events|] == e && forall i | 0 <= i < |events| :: more[i] == events[i];
    forall i | 0 <= i < |more| && more[i].opens
      ensures OpenAt(more, id, more[i].start) <==> OpenAt(events, id, more[i].start)
    {
      EventsStep(events, e, id, more[i].start);
    }
    if OpensAt(events, id, x) {
      var i :| 0 <= i < |events| && events[i].opens && events[i].id == id && events[i].end == x
               && !OpenAt(events, id, events[i].start);
      assert more[i].opens;
    }
  }

  lemma BeginsMore(parts: seq<Span>, p: Span, x: int)
    ensures BeginsIn(parts + [p], x) <==> BeginsIn(parts, x) || p.start == x
  {
    var more := parts + [p];
    assert more[|parts|] == p && forall k | 0 <= k < |parts| :: more[k] == parts[k];
    if BeginsIn(parts, x) {
      var k :| 0 <= k < |parts| && parts[k].start == x;
      assert more[k].start == x;
    }
  }

  /** A start while the highlight is open changes nothing; otherwise it opens it. */
  lemma OpenStep(events: seq<Marker>, s: State, e: Marker, id: string, reach: int)
    requires Tracked(events, s, id, reach) && e.opens && e.id == id && 0 <= reach <= e.start < e.end
    ensures Tracked(events + [e], Opened(s, e), id, e.end)
  {
    var s' := Opened(s, e);
    EventsStep(events, e, id, 0);
    forall x ensures Inside(s', id, x) <==> OpenAt(events + [e], id, x) {
      EventsStep(events, e, id, x);
      assert Inside(s, id, x) <==> OpenAt(events, id, x);
      if e.end <= x {
        assert !Covered(PartsOf(s, id), x);
      }
    }
    forall x ensures Begins(s', id, x) <==> OpensAt(events + [e], id, x) {
      OpensStep(events, e, id, x);
      assert Begins(s, id, x) <==> OpensAt(events, id, x);
      assert Inside(s, id, e.start) <==> OpenAt(events, id, e.start);
      assert !Covered(PartsOf(s, id), e.start);
    }
  }

  /** An end closes the open part at its own start; without one it is dropped. */
  lemma CloseStep(events: seq<Marker>, s: State, e: Marker, id: string, reach: int)
    requires Tracked(events, s, id, reach) && !e.opens && e.id == id && 0 <= reach <= e.start < e.end
    ensures Tracked(events + [e], Closed(s, e), id, e.end)
  {
    var s' := Closed(s, e);
    EventsStep(events, e, id, 0);
    forall x ensures Inside(s', id, x) <==> OpenAt(events + [e], id, x) {
      EventsStep(events, e, id, x);
      assert Inside(s, id, x) <==> OpenAt(events, id, x);
      if id in s.open {
        CoveredMore(PartsOf(s, id), Span(s.open[id], e.start), x);
      }
      if e.start <= x {
        assert !Covered(PartsOf(s, id), x);
      }
    }
    forall x ensures Begins(s', id, x) <==> OpensAt(events + [e], id, x) {
      OpensStep(events, e, id, x);
      assert Begins(s, id, x) <==> OpensAt(events, id, x);
      if id in s.open {
        BeginsMore(PartsOf(s, id), Span(s.open[id], e.start), x);
      }
    }
  }

  lemma CoveredMore(parts: seq<Span>, p: Span, x: int)
    ensures Covered(parts + [p], x) <==> Covered(parts, x) || p.Has(x)
  {
    assert p in parts + [p];
  }

  /** An event of another id leaves this one alone. */
  lemma OtherUnmoved(s: State, e: Marker, id: string)
    requires e.id != id
    ensures var s' := Step(s, e);
            && PartsOf(s', id) == PartsOf(s, id) && (id in s'.order <==> id in s.order)
            && (id in s'.open <==> id in s.open) && (id in s.open ==> s'.open[id] == s.open[id])
    ensures forall x :: (Inside(Step(s, e), id, x) <==> Inside(s, id, x)) && (Begins(Step(s, e), id, x) <==> Begins(s, id, x))
  {
  }

  lemma OtherEvents(events: seq<Marker>, e: Marker, id: string)
    requires e.id != id && e.start < e.end
    requires forall i | 0 <= i < |events| :: events[i].start < events[i].end <= e.start
    ensures forall x :: OpenAt(events + [e], id, x) <==> OpenAt(events, id, x)
    ensures forall x :: OpensAt(events + [e], id, x) <==> OpensAt(events, id, x)
    ensures Starts(events + [e], id) <==> Starts(events, id)
  {
    hide OpenAt, OpensAt, Starts;
    EventsStep(events, e, id, 0);
    forall x ensures OpenAt(events + [e], id, x) <==> OpenAt(events, id, x) {
      EventsStep(events, e, id, x);
    }
    forall x ensures OpensAt(events + [e], id, x) <==> OpensAt(events, id, x) {
      OpensStep(events, e, id, x);
    }
  }

  lemma OtherStep(events: seq<Marker>, s: State, e: Marker, id: string, reach: int)
    requires Tracked(events, s, id, reach) && e.id != id && 0 <= reach <= e.start < e.end
    ensures Tracked(events + [e], Step(s, e), id, e.end)
  {
    OtherUnmoved(s, e, id);
    OtherEvents(events, e, id);
    hide Step, Inside, Begins, OpenAt, OpensAt, Starts, PartsInOrder, PartsOf;
  }

  lemma TrackedStep(events: seq<Marker>, s: State, e: Marker, id: string, reach: int)
    requires Tracked(events, s, id, reach) && 0 <= reach <= e.start < e.end
    ensures Tracked(events + [e], Step(s, e), id, e.end)
  {
    hide Tracked;
    if e.id != id {
      OtherStep(events, s, e, id, reach);
    } else if e.opens {
      OpenStep(events, s, e, id, reach);
    } else {
      CloseStep(events, s, e, id, reach);
    }
  }

  /** Ids are listed once, in the order of their first start. */
  ghost predicate FirstStarts(events: seq<Marker>, order: seq<string>) {
    && (forall i, j | 0 <= i < j < |order| :: order[i] != order[j])
    && (forall i | 0 <= i < |order| :: Starts(events, order[i]))
    && forall i, j | 0 <= i < j < |order| :: StartsBefore(events, order[i], order[j])
  }

  /** Some start of a comes before every start of b. */
  ghost predicate StartsBefore(events: seq<Marker>, a: string, b: string) {
    exists k | 0 <= k < |events| ::
      && events[k].opens && events[k].id == a
      && forall m | 0 <= m < |events| && events[m].opens && events[m].id == b :: k < m
  }

  lemma StillBefore(events: seq<Marker>, e: Marker, a: string, b: string)
    requires StartsBefore(events, a, b)
    ensures StartsBefore(events + [e], a, b)
  {
    var k :| 0 <= k < |events| && events[k].opens && events[k].id == a
             && forall m | 0 <= m < |events| && events[m].opens && events[m].id == b :: k < m;
    var more := events + [e];
    assert more[k] == events[k];
    forall m | 0 <= m < |more| && more[m].opens && more[m].id == b ensures k < m {
      assert m < |events| ==> more[m] == events[m];
    }
  }

  lemma NewIsLast(events: seq<Marker>, e: Marker, a: string)
    requires Starts(events, a) && e.opens && !Starts(events, e.id)
    ensures StartsBefore(events + [e], a, e.id)
  {
    var more := events + [e];
    var k :| 0 <= k < |events| && events[k].opens && events[k].id == a;
    assert more[k] == events[k];
    assert forall m | 0 <= m < |events| :: more[m] == events[m] && !(events[m].opens && events[m].id == e.id);
  }

  lemma OrderStep(events: seq<Marker>, s: State, e: Marker)
    requires FirstStarts(events, s.order)
    requires e.id in s.order <==> Starts(events, e.id)
    requires e.id in s.open ==> e.id in s.order
    ensures FirstStarts(events + [e], Step(s, e).order)
  {
    var order := Step(s, e).order;
    forall i | 0 <= i < |order| ensures Starts(events + [e], order[i]) {
      EventsStep(events, e, order[i], 0);
    }
    forall i, j | 0 <= i < j < |order| ensures StartsBefore(events + [e], order[i], order[j]) {
      if j < |s.order| {
        StillBefore(events, e, s.order[i], s.order[j]);
      } else {
        NewIsLast(events, e, s.order[i]);
      }
    }
  }

  /** The state after a run of events in body order. */
  ghost predicate Scanned(events: seq<Marker>, s: State, reach: int) {
    && (forall id :: Tracked(events, s, id, reach))
    && FirstStarts(events, s.order)
  }

  lemma ScanStep(events: seq<Marker>, s: State, e: Marker, reach: int)
    requires Scanned(events, s, reach) && 0 <= reach <= e.start < e.end
    ensures Scanned(events + [e], Step(s, e), e.end)
  {
    forall id ensures Tracked(events + [e], Step(s, e), id, e.end) {
      assert Tracked(events, s, id, reach);
      TrackedStep(events, s, e, id, reach);
    }
    assert Tracked(events, s, e.id, reach);
    OrderStep(events, s, e);
  }

  /** What one result entry promises: over the whole body, an offset is in a part exactly when the
      highlight is open there, and a part begins exactly where a start opens it. */
  ghost predicate Faithful(events: seq<Marker>, length: int, h: Highlight) {
    && h.parts != [] && PartsInOrder(h.parts)
    && (forall p | p in h.parts :: 0 <= p.start && p.end <= length)
    && (forall x | 0 <= x < length :: Covered(h.parts, x) <==> OpenAt(events, h.id, x))
    && forall x :: BeginsIn(h.parts, x) <==> OpensAt(events, h.id, x)
  }

  lemma NothingScanned()
    ensures Scanned([], State(map[], [], map[]), 0)
  {
  }

  /** Matched parts of every highlight: an open one closes at the end of the body, an end
      without a start is dropped, ids come in order of their first start. */
  method ParseHighlights(markers: seq<Marker>, length: int) returns (result: seq<Highlight>)
    requires MarkersOk(markers, length)
    ensures var events := Sort(markers, ByStart);
            && InOrder(events, length) && FirstStarts(events, Ids(result))
            && (forall id :: Starts(events, id) <==> exists i | 0 <= i < |result| :: result[i].id == id)
            && forall i | 0 <= i < |result| :: Faithful(events, length, result[i])
  {
    hide *;
    var sorted := Sort(markers, ByStart);
    SortedInOrder(markers, length);
    var open: map<string, int>, order, spans: map<string, seq<Span>> := map[], [], map[];
    ghost var reach := 0;
    NothingScanned();
    NothingReached(sorted, length);
    for i := 0 to |sorted|
      invariant Scanned(sorted[..i], State(open, order, spans), reach) && Reached(sorted, length, i, reach)
    {
      var e := sorted[i];
      ReachNext(sorted, length, i, reach);
      ScanStep(sorted[..i], State(open, order, spans), e, reach);
      assert sorted[..i + 1] == sorted[..i] + [e];
      open, order, spans := TakeEvent(e, open, order, spans);
      reach := e.end;
    }
    assert sorted[..|sorted|] == sorted;
    ReachInside(sorted, length, |sorted|, reach);
    result := Finish(sorted, length, open, order, spans, reach);
  }

  /** One event: a start opens its id unless it is open, an end closes it if it is. */
  method TakeEvent(e: Marker, open: map<string, int>, order: seq<string>, spans: map<string, seq<Span>>)
    returns (open': map<string, int>, order': seq<string>, spans': map<string, seq<Span>>)
    ensures State(open', order', spans') == Step(State(open, order, spans), e)
  {
    open', order', spans' := open, order, spans;
    if e.opens {
      if e.id !in open {
        open' := open[e.id := e.end];
        if e.id !in order {
          order' := order + [e.id];
        }
      }
    } else if e.id in open {
      var parts := if e.id in spans then spans[e.id] else [];
      spans' := spans[e.id := parts + [Span(open[e.id], e.start)]];
      open' := open - {e.id};
    }
  }

  /** The scan has passed `reach`, and no later event starts before it. */
  ghost predicate Reached(events: seq<Marker>, length: int, i: nat, reach: int) {
    0 <= reach <= length && forall k | i <= k < |events| :: reach <= events[k].start
  }

  lemma NothingReached(events: seq<Marker>, length: int)
    requires InOrder(events, length)
    ensures Reached(events, length, 0, 0)
  {
  }

  lemma ReachNext(events: seq<Marker>, length: int, i: nat, reach: int)
    requires InOrder(events, length) && i < |events| && Reached(events, length, i, reach)
    ensures 0 <= reach <= events[i].start < events[i].end && Reached(events, length, i + 1, events[i].end)
  {
  }

  lemma ReachInside(events: seq<Marker>, length: int, i: nat, reach: int)
    requires Reached(events, length, i, reach)
    ensures 0 <= reach <= length
  {
  }

  function Ids(result: seq<Highlight>): seq<string> {
    seq(|result|, i requires 0 <= i < |result| => result[i].id)
  }

  /** The closing loops: auto-close what is still open, then list the ids in order. */
  method Finish(ghost events: seq<Marker>, length: int, open: map<string, int>, order: seq<string>,
                spans: map<string, seq<Span>>, ghost reach: int)
    returns (result: seq<Highlight>)
    requires Scanned(events, State(open, order, spans), reach) && reach <= length && 0 <= length
    ensures FirstStarts(events, Ids(result))
    ensures forall id :: Starts(events, id) <==> exists i | 0 <= i < |result| :: result[i].id == id
    ensures forall i | 0 <= i < |result| :: Faithful(events, length, result[i])
  {
    hide *;
    result := [];
    ListedNone(events, length, order);
    for i := 0 to |order|
      invariant |result| == i && Listed(events, length, order, result)
    {
      var id := order[i];
      var parts := if id in spans then spans[id] else [];
      if id in open {
        parts := parts + [Span(open[id], length)];
      }
      ListNext(events, length, State(open, order, spans), parts, reach, result);
      result := result + [Highlight(id, Sorted(parts))];
    }
    ListedIds(events, length, State(open, order, spans), reach, result);
  }

  /** The highlights of the first ids, in order. */
  ghost predicate Listed(events: seq<Marker>, length: int, order: seq<string>, result: seq<Highlight>) {
    && |result| <= |order|
    && forall k | 0 <= k < |result| :: result[k].id == order[k] && Faithful(events, length, result[k])
  }

  lemma ListedNone(events: seq<Marker>, length: int, order: seq<string>)
    ensures Listed(events, length, order, [])
  {
  }

  lemma ListNext(events: seq<Marker>, length: int, s: State, parts: seq<Span>, reach: int, result: seq<Highlight>)
    requires Scanned(events, s, reach) && reach <= length && 0 <= length
    requires Listed(events, length, s.order, result) && |result| < |s.order|
    requires var id := s.order[|result|];
             parts == (if id in s.spans then s.spans[id] else []) + if id in s.open then [Span(s.open[id], length)] else []
    ensures Listed(events, length, s.order, result + [Highlight(s.order[|result|], Sorted(parts))])
  {
    hide Scanned, Sorted;
    var id := s.order[|result|];
    CloseAtEnd(events, length, s, id, reach);
    FaithfulInOrder(events, length, id, parts);
    hide Faithful;
  }

  lemma FaithfulInOrder(events: seq<Marker>, length: int, id: string, parts: seq<Span>)
    requires Faithful(events, length, Highlight(id, parts))
    ensures Sorted(parts) == parts
  {
    SortedAlready(parts);
  }

  lemma ListedIds(events: seq<Marker>, length: int, s: State, reach: int, result: seq<Highlight>)
    requires Scanned(events, s, reach) && |result| == |s.order| && Listed(events, length, s.order, result)
    ensures FirstStarts(events, Ids(result))
    ensures forall id :: Starts(events, id) <==> exists i | 0 <= i < |result| :: result[i].id == id
    ensures forall i | 0 <= i < |result| :: Faithful(events, length, result[i])
  {
    hide FirstStarts, Starts, Faithful;
    assert Ids(result) == s.order;
    forall id ensures Starts(events, id) <==> exists i | 0 <= i < |result| :: result[i].id == id {
      assert Tracked(events, s, id, reach);
      if id in s.order {
        var i :| 0 <= i < |s.order| && s.order[i] == id;
        assert result[i].id == id;
      }
    }
  }

  /** The closing sort has nothing to do: parts arise in body order. */
  lemma {:induction false} SortedAlready(parts: seq<Span>)
    requires PartsInOrder(parts)
    ensures Sorted(parts) == parts
  {
    if parts != [] {
      SortedAlready(parts[1..]);
      SortedUnfold(parts);
      hide Sorted;
      InsertFront(parts);
    }
  }

  lemma SortedUnfold(parts: seq<Span>)
    requires parts != []
    ensures Sorted(parts) == Insert(parts[0], Sorted(parts[1..]), Before)
  {
  }

  lemma InsertFront(parts: seq<Span>)
    requires parts != [] && PartsInOrder(parts)
    ensures Insert(parts[0], parts[1..], Before) == parts
  {
    assert |parts| > 1 ==> Before(parts[0], parts[1]);
    assert parts == [parts[0]] + parts[1..];
  }

  lemma CloseAtEnd(events: seq<Marker>, length: int, s: State, id: string, reach: int)
    requires Scanned(events, s, reach) && reach <= length && id in s.order && 0 <= length
    ensures Faithful(events, length,
                     Highlight(id, PartsOf(s, id) + if id in s.open then [Span(s.open[id], length)] else []))
  {
    assert Tracked(events, s, id, reach);
    hide FirstStarts, Starts;
    var parts := PartsOf(s, id) + if id in s.open then [Span(s.open[id], length)] else [];
    if id !in s.open {
      assert parts == PartsOf(s, id);
    }
    forall x | 0 <= x < length ensures Covered(parts, x) <==> OpenAt(events, id, x) {
      assert Inside(s, id, x) <==> OpenAt(events, id, x);
      if id in s.open {
        CoveredMore(PartsOf(s, id), Span(s.open[id], length), x);
      }
    }
    forall x ensures BeginsIn(parts, x) <==> OpensAt(events, id, x) {
      assert Begins(s, id, x) <==> OpensAt(events, id, x);
      if id in s.open {
        BeginsMore(PartsOf(s, id), Span(s.open[id], length), x);
      }
    }
  }
}
