/** The timecode printer and its readers, digit by digit. */
module Timecodes {
  import opened Options
  import opened Searchable

  // ----- Numbers as digits

  function Digit(d: nat): char
    requires d < 10
  {
    ('0' as int + d) as char
  }

  function DigitValue(c: char): nat
    requires IsDigit(c)
  {
    c as int - '0' as int
  }

  predicate Digits(s: string) {
    forall i | 0 <= i < |s| :: IsDigit(s[i])
  }

  function Value(s: string): nat
    requires Digits(s)
  {
    if s == "" then 0 else 10 * Value(s[..|s| - 1]) + DigitValue(s[|s| - 1])
  }

  function Decimal(n: nat): (s: string)
    ensures s != "" && Digits(s)
  {
    if n < 10 then [Digit(n)] else Decimal(n / 10) + [Digit(n % 10)]
  }

  /** At least two digits. */
  function Padded(n: nat): (s: string)
    ensures |s| >= 2 && Digits(s)
  {
    if n < 10 then "0" + Decimal(n) else Decimal(n)
  }

  lemma {:induction false} ValueOfDecimal(n: nat)
    ensures Value(Decimal(n)) == n
  {
    if n >= 10 {
      ValueOfDecimal(n / 10);
      assert Decimal(n)[..|Decimal(n)| - 1] == Decimal(n / 10);
    }
  }

  lemma ValueOfPadded(n: nat)
    ensures Value(Padded(n)) == n
    ensures |Padded(n)| == 2 <==> n < 100
  {
    ValueOfDecimal(n);
    if n < 10 {
      assert Padded(n)[..1] == "0" && "0"[..0] == "";
    } else if n >= 100 {
      assert |Decimal(n / 10 / 10)| >= 1;
    }
  }

  /** The last two digits of a long number are the number modulo one hundred. */
  lemma LastTwo(n: nat)
    requires n >= 100
    ensures Padded(n) == Decimal(n / 100) + Padded(n % 100)
  {
    assert Decimal(n) == Decimal(n / 10 / 10) + [Digit(n / 10 % 10)] + [Digit(n % 10)];
    assert n / 10 / 10 == n / 100 && n / 10 % 10 == n % 100 / 10 && n % 10 == n % 100 % 10;
    var r := n % 100;
    if r < 10 {
      assert Padded(r) == "0" + [Digit(r)];
    } else {
      assert Decimal(r / 10) == [Digit(r / 10)];
    }
  }

  // ----- The printer

  /** Python's round: to the nearest integer, ties to even. */
  function Round(x: real): (r: int)
    ensures x - 0.5 <= r as real <= x + 0.5
    ensures r as real == x + 0.5 || r as real == x - 0.5 ==> r % 2 == 0
  {
    var low := x.Floor;
    var over := x - low as real;
    if over < 0.5 then low else if over > 0.5 then low + 1 else if low % 2 == 0 then low else low + 1
  }

  function Tenths(seconds: real): (t: nat) {
    Round((if seconds > 0.0 then seconds else 0.0) * 10.0)
  }

  function Stamp(h: nat, m: nat, s: nat, d: nat): string
    requires d < 10
  {
    Padded(h) + ":" + Padded(m) + ":" + Padded(s) + "." + [Digit(d)]
  }

  function StampOfTenths(tenths: nat): string {
    var whole, d := tenths / 10, tenths % 10;
    var h, rem := whole / 3600, whole % 3600;
    Stamp(h, rem / 60, rem % 60, d)
  }

  function Timecode(seconds: real): string { StampOfTenths(Tenths(seconds)) }

  /** A claim's location. */
  function Location(start: real, end: real): string { Timecode(start) + "-" + Timecode(end) }

  /** The printer keeps the order of times and is off by at most a twentieth of a second. */
  lemma PrinterMonotone(x: real, y: real)
    ensures x <= y ==> Tenths(x) <= Tenths(y)
    ensures x >= 0.0 ==> -0.05 <= Tenths(x) as real / 10.0 - x <= 0.05
    ensures x < 0.0 ==> Tenths(x) == 0
  {
    if x <= y {
      RoundMonotone((if x > 0.0 then x else 0.0) * 10.0, (if y > 0.0 then y else 0.0) * 10.0);
    }
  }

  lemma RoundMonotone(x: real, y: real)
    requires x <= y
    ensures Round(x) <= Round(y)
  {
    assert x.Floor <= y.Floor;
  }

  // ----- The readers

  /** A match at the start of a text: its length, its value in tenths of a second. */
  datatype Match = Match(length: nat, tenths: nat)

  predicate DigitAt(s: string, i: nat) { i < |s| && IsDigit(s[i]) }

  predicate CharAt(s: string, i: nat, c: char) { i < |s| && s[i] == c }

  predicate TwoDigitsAt(s: string, i: nat) { DigitAt(s, i) && DigitAt(s, i + 1) }

  function TwoDigits(s: string, i: nat): nat
    requires TwoDigitsAt(s, i)
  {
    10 * DigitValue(s[i]) + DigitValue(s[i + 1])
  }

  /** One or two digits of hours, two each of minutes and seconds, and a tenth if there is one.
      Each part is as long as it can be, and no shorter part could let a later one match. */
  function MatchTimecode(s: string): (m: Option<Match>)
    ensures m.Some? ==> m.value.length <= |s|
  {
    if !DigitAt(s, 0) then None
    else
      var n: nat := if DigitAt(s, 1) then 2 else 1;
      if CharAt(s, n, ':') && TwoDigitsAt(s, n + 1) && CharAt(s, n + 3, ':') && TwoDigitsAt(s, n + 4) then
        var whole := 36000 * Value(s[..n]) + 600 * TwoDigits(s, n + 1) + 10 * TwoDigits(s, n + 4);
        if CharAt(s, n + 6, '.') && DigitAt(s, n + 7) then Some(Match(n + 8, whole + DigitValue(s[n + 7])))
        else Some(Match(n + 6, whole))
      else None
  }

  /** The time of a text that is a timecode and nothing else, in tenths of a second. */
  function ParseTenths(value: string): Option<nat> {
    var m := MatchTimecode(Stripped(value));
    if m.Some? && m.value.length == |Stripped(value)| then Some(m.value.tenths) else None
  }

  function ParseSeconds(value: string): Option<real> {
    var t := ParseTenths(value);
    if t.Some? then Some(t.value as real / 10.0) else None
  }

  /** The first timecode anywhere in a text. */
  function SearchTimecode(s: string): (found: Option<string>) {
    var m := MatchTimecode(s);
    if m.Some? then Some(s[..m.value.length]) else if s == "" then None else SearchTimecode(s[1..])
  }

  /** A claim's position, from the first timecode in its location. */
  function ClaimPosition(location: string): Option<real> {
    var found := SearchTimecode(location);
    if found.Some? then ParseSeconds(found.value) else None
  }

  // ----- What the readers accept

  /** The text is hours, minutes and seconds with colons between, and a tenth or none. */
  ghost predicate SpellsAs(t: string, hh: string, mm: string, ss: string, tail: string, tenths: nat) {
    && Digits(hh) && Digits(mm) && Digits(ss) && 1 <= |hh| <= 2 && |mm| == |ss| == 2
    && (tail == "" || (|tail| == 2 && tail[0] == '.' && IsDigit(tail[1])))
    && t == hh + ":" + mm + ":" + ss + tail
    && tenths == 36000 * Value(hh) + 600 * Value(mm) + 10 * Value(ss) + if tail == "" then 0 else DigitValue(tail[1])
  }

  ghost predicate Spells(t: string, tenths: nat) {
    exists hh, mm, ss, tail :: SpellsAs(t, hh, mm, ss, tail, tenths)
  }

  /** The text up to j is the text up to i and what lies between. */
  lemma Extends(t: string, i: nat, j: nat)
    requires i <= j <= |t|
    ensures t[..i] + t[i..j] == t[..j]
  {
  }

  /** The text up to the end of the seconds, put together. */
  lemma StampJoined(t: string, n: nat)
    requires n + 6 <= |t| && t[n] == ':' && t[n + 3] == ':'
    ensures t[..n + 6] == t[..n] + ":" + t[n + 1..n + 3] + ":" + t[n + 4..n + 6]
  {
    Extends(t, n, n + 1);
    Extends(t, n + 1, n + 3);
    Extends(t, n + 3, n + 4);
    Extends(t, n + 4, n + 6);
    assert t[n..n + 1] == ":" && t[n + 3..n + 4] == ":";
  }

  lemma MatchSpells(s: string)
    requires MatchTimecode(s).Some?
    ensures Spells(s[..MatchTimecode(s).value.length], MatchTimecode(s).value.tenths)
  {
    var m := MatchTimecode(s).value;
    var n: nat := if DigitAt(s, 1) then 2 else 1;
    var hh, mm, ss, tail := s[..n], s[n + 1..n + 3], s[n + 4..n + 6], s[n + 6..m.length];
    StampJoined(s, n);
    Extends(s, n + 6, m.length);
    PairValue(mm);
    PairValue(ss);
    assert SpellsAs(s[..m.length], hh, mm, ss, tail, m.tenths);
  }

  lemma PartsOf(s: string, hh: string, mm: string, ss: string, tail: string)
    requires hh + ":" + mm + ":" + ss + tail <= s && |mm| == |ss| == 2
    ensures var h := |hh|;
            && |s| >= h + 6 + |tail| && s[..h] == hh && s[h] == ':' && s[h + 1..h + 3] == mm && s[h + 3] == ':'
            && s[h + 4..h + 6] == ss && s[h + 6..h + 6 + |tail|] == tail
  {
    var t, h := hh + ":" + mm + ":" + ss + tail, |hh|;
    assert t[..h] == hh && t[h + 1..h + 3] == mm && t[h + 4..h + 6] == ss && t[h + 6..] == tail;
    assert t == s[..|t|];
    assert s[..h] == t[..h] && s[h + 1..h + 3] == t[h + 1..h + 3] && s[h + 4..h + 6] == t[h + 4..h + 6];
    assert s[h + 6..|t|] == t[h + 6..];
  }

  /** What the reader meets in a text that starts with a timecode. */
  lemma SpelledParts(s: string, n: nat, hh: string, mm: string, ss: string, tail: string, tenths: nat)
    requires n <= |s| && SpellsAs(s[..n], hh, mm, ss, tail, tenths)
    ensures var h := |hh|;
            && n == h + 6 + |tail| && DigitAt(s, 0) && (DigitAt(s, 1) <==> h == 2) && s[..h] == hh
            && CharAt(s, h, ':') && TwoDigitsAt(s, h + 1) && TwoDigits(s, h + 1) == Value(mm)
            && CharAt(s, h + 3, ':') && TwoDigitsAt(s, h + 4) && TwoDigits(s, h + 4) == Value(ss)
            && (tail != "" ==> CharAt(s, h + 6, '.') && DigitAt(s, h + 7) && s[h + 7] == tail[1])
  {
    PartsOf(s, hh, mm, ss, tail);
    var h := |hh|;
    assert s[0] == hh[0] && (h == 2 ==> s[1] == hh[1]) && (h == 1 ==> s[1] == ':');
    TwoDigitsOf(s, h + 1, mm);
    TwoDigitsOf(s, h + 4, ss);
    hide Value, TwoDigits, TwoDigitsAt;
    assert tail != "" ==> s[h + 6] == s[h + 6..h + 6 + |tail|][0] && s[h + 7] == s[h + 6..h + 6 + |tail|][1];
  }

  lemma SpelledMatches(s: string, n: nat, tenths: nat)
    requires n <= |s| && Spells(s[..n], tenths)
    ensures MatchTimecode(s).Some? && MatchTimecode(s).value.length >= n
    ensures MatchTimecode(s).value.length == n ==> MatchTimecode(s).value.tenths == tenths
  {
    var hh, mm, ss, tail :| SpellsAs(s[..n], hh, mm, ss, tail, tenths);
    SpelledParts(s, n, hh, mm, ss, tail, tenths);
    hide Value, Digits, TwoDigits, TwoDigitsAt, CharAt, Spells;
  }

  /** A match is the longest start of the text that is a timecode, and there is one if any start is. */
  lemma MatchIsLongest(s: string)
    ensures MatchTimecode(s).None? ==> forall n: nat, v: nat | n <= |s| :: !Spells(s[..n], v)
    ensures MatchTimecode(s).Some? ==>
              && Spells(s[..MatchTimecode(s).value.length], MatchTimecode(s).value.tenths)
              && forall n: nat, v: nat | n <= |s| && Spells(s[..n], v) :: n <= MatchTimecode(s).value.length
  {
    if MatchTimecode(s).Some? {
      MatchSpells(s);
    }
    hide Spells, MatchTimecode;
    forall n: nat, v: nat | n <= |s| && Spells(s[..n], v)
      ensures MatchTimecode(s).Some? && n <= MatchTimecode(s).value.length
    {
      SpelledMatches(s, n, v);
    }
  }

  /** The strict reader takes exactly the texts that are a timecode, space around it allowed. */
  lemma ParsesIff(value: string, tenths: nat)
    ensures ParseTenths(value) == Some(tenths) <==> Spells(Stripped(value), tenths)
  {
    var t := Stripped(value);
    assert t[..|t|] == t;
    hide Spells, MatchTimecode, Stripped;
    if MatchTimecode(t).Some? {
      MatchSpells(t);
    }
    if Spells(t, tenths) {
      SpelledMatches(t, |t|, tenths);
    }
  }

  // ----- Reading back what was printed

  lemma PairValue(p: string)
    requires |p| == 2 && Digits(p)
    ensures Value(p) == 10 * DigitValue(p[0]) + DigitValue(p[1])
  {
    var first := p[..1];
    assert first[..0] == "" && Value(first) == DigitValue(p[0]);
  }

  /** A text laid out as a timecode with two-digit hours. */
  ghost predicate Laid(t: string, hh: string, mm: string, ss: string, c: char) {
    && |t| >= 10 && t[..2] == hh && t[2] == ':' && t[3..5] == mm && t[5] == ':' && t[6..8] == ss
    && t[8] == '.' && t[9] == c
  }

  lemma StampLaid(hh: string, mm: string, ss: string, c: char, rest: string)
    requires |hh| == 2 && |mm| == 2 && |ss| == 2
    ensures Laid(hh + ":" + mm + ":" + ss + "." + [c] + rest, hh, mm, ss, c)
  {
    var t := hh + ":" + mm + ":" + ss + "." + [c] + rest;
    assert t[..2] == hh && t[3..5] == mm && t[6..8] == ss;
  }

  lemma TwoDigitsOf(t: string, i: nat, p: string)
    requires i + 2 <= |t| && t[i..i + 2] == p && Digits(p)
    ensures TwoDigitsAt(t, i) && TwoDigits(t, i) == Value(p)
  {
    assert t[i] == p[0] && t[i + 1] == p[1];
    PairValue(p);
  }

  lemma MatchOfLaid(t: string, hh: string, mm: string, ss: string, c: char)
    requires Laid(t, hh, mm, ss, c) && Digits(hh) && Digits(mm) && Digits(ss) && IsDigit(c)
    ensures TwoDigitsAt(t, 0)
    ensures MatchTimecode(t) == Some(Match(10, 36000 * Value(hh) + 600 * Value(mm) + 10 * Value(ss) + DigitValue(c)))
  {
    hide Value, TwoDigits, Digits;
    TwoDigitsOf(t, 0, hh);
    TwoDigitsOf(t, 3, mm);
    TwoDigitsOf(t, 6, ss);
  }

  lemma MatchOfStamp(h: nat, m: nat, s: nat, d: nat, rest: string)
    requires h < 100 && m < 100 && s < 100 && d < 10
    ensures MatchTimecode(Stamp(h, m, s, d) + rest) == Some(Match(10, 36000 * h + 600 * m + 10 * s + d))
    ensures |Stamp(h, m, s, d)| == 10 && TwoDigitsAt(Stamp(h, m, s, d) + rest, 0)
  {
    hide MatchTimecode, Value, Padded, Laid;
    ValueOfPadded(h);
    ValueOfPadded(m);
    ValueOfPadded(s);
    StampLaid(Padded(h), Padded(m), Padded(s), Digit(d), rest);
    MatchOfLaid(Stamp(h, m, s, d) + rest, Padded(h), Padded(m), Padded(s), Digit(d));
  }

  lemma TrimmedAlready(s: string)
    requires s != "" && !IsSpace(s[0]) && !IsSpace(s[|s| - 1])
    ensures Stripped(s) == s
  {
  }

  /** Reading a match alone reads the same value. */
  lemma MatchAlone(s: string)
    requires MatchTimecode(s).Some?
    ensures ParseTenths(s[..MatchTimecode(s).value.length]) == Some(MatchTimecode(s).value.tenths)
  {
    var m := MatchTimecode(s).value;
    var t := s[..m.length];
    TrimmedAlready(t);
    var n: nat := if DigitAt(s, 1) then 2 else 1;
    assert t[..n] == s[..n];
  }

  /** Hours, minutes, seconds and tenths put back together. */
  lemma DivisionsRejoin(t: nat)
    ensures var whole, d := t / 10, t % 10;
            var h, rem := whole / 3600, whole % 3600;
            rem / 60 < 60 && rem % 60 < 60 && 36000 * h + 600 * (rem / 60) + 10 * (rem % 60) + d == t
    ensures t / 10 / 3600 < 100 <==> t < 3_600_000
  {
  }

  /** A printed time below one hundred hours starts any text as itself. */
  lemma MatchOfPrinted(t: nat, rest: string)
    requires t < 3_600_000
    ensures |StampOfTenths(t)| == 10
    ensures MatchTimecode(StampOfTenths(t) + rest) == Some(Match(10, t))
    ensures TwoDigitsAt(StampOfTenths(t) + rest, 0)
  {
    hide MatchTimecode, Stamp;
    DivisionsRejoin(t);
    var whole, d := t / 10, t % 10;
    MatchOfStamp(whole / 3600, whole % 3600 / 60, whole % 3600 % 60, d, rest);
  }

  /** What is printed below one hundred hours: two digits of hours, minutes and seconds under sixty, a tenth. */
  lemma PrintedIs(t: nat) returns (hh: string, mm: string, ss: string, tail: string)
    requires t < 3_600_000
    ensures SpellsAs(StampOfTenths(t), hh, mm, ss, tail, t)
    ensures |hh| == 2 && Value(mm) < 60 && Value(ss) < 60 && tail != ""
  {
    DivisionsRejoin(t);
    var whole, d := t / 10, t % 10;
    var h, m, s := whole / 3600, whole % 3600 / 60, whole % 3600 % 60;
    ValueOfPadded(h);
    ValueOfPadded(m);
    ValueOfPadded(s);
    hh, mm, ss, tail := Padded(h), Padded(m), Padded(s), "." + [Digit(d)];
    hide Padded, Value;
    assert StampOfTenths(t) == hh + ":" + mm + ":" + ss + tail;
  }

  /** From one hundred hours on, a printed time is some digits before the time modulo one hundred
      hours. */
  lemma LongPrinted(t: nat)
    requires t >= 3_600_000
    ensures StampOfTenths(t) == Decimal(t / 3_600_000) + StampOfTenths(t % 3_600_000)
  {
    hide Padded, Decimal;
    var whole, d := t / 10, t % 10;
    var h, rem := whole / 3600, whole % 3600;
    LongParts(t);
    LastTwo(h);
    StampPrefix(Decimal(h / 100), h, h % 100, rem / 60, rem % 60, d);
  }

  lemma LongParts(t: nat)
    requires t >= 3_600_000
    ensures t / 10 / 3600 >= 100 && t / 10 / 3600 / 100 == t / 3_600_000
    ensures var u := t % 3_600_000;
            u / 10 / 3600 == t / 10 / 3600 % 100 && u / 10 % 3600 == t / 10 % 3600 && u % 10 == t % 10
  {
  }

  lemma StampPrefix(p: string, h: nat, g: nat, m: nat, s: nat, d: nat)
    requires d < 10 && Padded(h) == p + Padded(g)
    ensures Stamp(h, m, s, d) == p + Stamp(g, m, s, d)
  {
    hide *;
    StampTail(h, m, s, d);
    StampTail(g, m, s, d);
    Associates(p, Padded(g), Tail(m, s, d));
  }

  function Tail(m: nat, s: nat, d: nat): string
    requires d < 10
  {
    ":" + Padded(m) + ":" + Padded(s) + "." + [Digit(d)]
  }

  lemma Associates(a: string, b: string, c: string)
    ensures (a + b) + c == a + (b + c)
  {
  }

  lemma StampTail(h: nat, m: nat, s: nat, d: nat)
    requires d < 10
    ensures Stamp(h, m, s, d) == Padded(h) + Tail(m, s, d)
  {
    hide Padded;
  }

  /** With three or more digits of hours nothing matches at the first of them. */
  lemma NoMatchAtDigits(s: string)
    requires DigitAt(s, 0) && DigitAt(s, 1) && DigitAt(s, 2)
    ensures MatchTimecode(s).None?
  {
  }

  lemma {:induction false} SearchSkips(p: string, s: string)
    requires Digits(p) && TwoDigitsAt(s, 0) && MatchTimecode(s).Some?
    ensures SearchTimecode(p + s) == Some(s[..MatchTimecode(s).value.length])
  {
    hide MatchTimecode;
    if p == "" {
      assert p + s == s;
    } else {
      SearchSkips(p[1..], s);
      NoMatchAtDigits(p + s);
      assert (p + s)[1..] == p[1..] + s;
    }
  }

  /** What the readers make of a printed time followed by anything. */
  lemma ReadPrinted(t: nat, rest: string)
    ensures ClaimPosition(StampOfTenths(t) + rest) == Some((t % 3_600_000) as real / 10.0)
  {
    hide MatchTimecode, StampOfTenths, ParseTenths, SearchTimecode, Decimal;
    var u := t % 3_600_000;
    var s := StampOfTenths(u) + rest;
    MatchOfPrinted(u, rest);
    MatchAlone(s);
    if t < 3_600_000 {
      SearchSkips("", s);
      assert "" + s == s;
    } else {
      LongPrinted(t);
      SearchSkips(Decimal(t / 3_600_000), s);
      assert StampOfTenths(t) + rest == Decimal(t / 3_600_000) + s;
    }
  }

  /** A printed time reads back exactly when it is below one hundred hours; above, the strict
      reader refuses it. */
  lemma ParseRoundTrip(seconds: real)
    ensures ParseSeconds(Timecode(seconds)) ==
            if Tenths(seconds) < 3_600_000 then Some(Tenths(seconds) as real / 10.0) else None
  {
    hide MatchTimecode, StampOfTenths, Tenths, Decimal;
    var t := Tenths(seconds);
    if t < 3_600_000 {
      MatchOfPrinted(t, "");
      assert StampOfTenths(t) + "" == StampOfTenths(t);
      MatchAlone(StampOfTenths(t));
      assert StampOfTenths(t)[..10] == StampOfTenths(t);
    } else {
      LongRefused(t);
    }
  }

  lemma LongRefused(t: nat)
    requires t >= 3_600_000
    ensures ParseTenths(StampOfTenths(t)).None?
  {
    hide MatchTimecode, StampOfTenths, Decimal;
    var u := t % 3_600_000;
    LongPrinted(t);
    MatchOfPrinted(u, "");
    assert StampOfTenths(u) + "" == StampOfTenths(u);
    EndsInDigit(u);
    TrimmedAlready(StampOfTenths(t));
    NoMatchAtDigits(StampOfTenths(t));
  }

  lemma EndsInDigit(t: nat)
    ensures StampOfTenths(t) != "" && IsDigit(StampOfTenths(t)[|StampOfTenths(t)| - 1])
  {
    hide Padded;
  }

  /** A written location gives its start back exactly when the start rounds to less than one
      hundred hours. */
  lemma LocationRoundTrip(start: real, end: real)
    ensures ClaimPosition(Location(start, end)) == Some(Tenths(start) as real / 10.0)
            <==> Tenths(start) < 3_600_000
  {
    hide StampOfTenths, Tenths, ClaimPosition;
    var t := Tenths(start);
    ReadPrinted(t, "-" + Timecode(end));
    assert Location(start, end) == StampOfTenths(t) + ("-" + Timecode(end));
  }

  // ----- The chronology evaluation's reader

  function Pow10(n: nat): (p: nat)
    ensures p >= 1
  {
    if n == 0 then 1 else 10 * Pow10(n - 1)
  }

  lemma DigitRunStops(s: string, i: nat, j: nat)
    requires i <= j <= |s| && (forall k | i <= k < j :: IsDigit(s[k])) && !DigitAt(s, j)
    ensures DigitRun(s, i) == j
    decreases j - i
  {
    if i < j {
      DigitRunStops(s, i + 1, j);
    }
  }

  lemma {:induction false} DigitRunDigits(s: string, i: nat)
    requires i <= |s|
    ensures forall k | i <= k < DigitRun(s, i) :: IsDigit(s[k])
    decreases |s| - i
  {
    if i < |s| && IsDigit(s[i]) {
      DigitRunDigits(s, i + 1);
    }
  }

  /** The digits from i on; none if i is past the end. */
  function Run(s: string, i: nat): (r: string)
    ensures Digits(r)
  {
    if i <= |s| then
      DigitRunDigits(s, i);
      s[i..DigitRun(s, i)]
    else ""
  }

  /** The start of a range in milliseconds; none if the text is not a range, or its seconds are
      not a whole number of milliseconds. */
  function Milliseconds(location: string): Option<nat> {
    var hours := Run(location, 0);
    var n := |hours|;
    if hours != "" && CharAt(location, n, ':') && TwoDigitsAt(location, n + 1) && CharAt(location, n + 3, ':')
       && TwoDigitsAt(location, n + 4) then
      var whole := 3600 * Value(hours) + 60 * TwoDigits(location, n + 1) + TwoDigits(location, n + 4);
      var fraction := if CharAt(location, n + 6, '.') then Run(location, n + 7) else "";
      var j := n + 6 + if fraction == "" then 0 else 1 + |fraction|;
      if CharAt(location, j, '-') && j + 1 < |location| && '\n' !in location[j + 1..] then Plus(whole, Thousandths(fraction))
      else None
    else None
  }

  /** A decimal fraction in thousandths, if it is a whole number of them. */
  function Thousandths(fraction: string): (ms: Option<nat>)
    requires Digits(fraction)
  {
    if 1000 * Value(fraction) % Pow10(|fraction|) == 0 then Some(1000 * Value(fraction) / Pow10(|fraction|)) else None
  }

  function Plus(seconds: nat, ms: Option<nat>): Option<nat> {
    if ms.Some? then Some(1000 * seconds + ms.value) else None
  }

  /** So many seconds and a decimal fraction are so many milliseconds. */
  ghost predicate ComeTo(seconds: nat, fraction: string, ms: nat)
    requires Digits(fraction)
  {
    (ms - 1000 * seconds) * Pow10(|fraction|) == 1000 * Value(fraction)
  }

  /** The text is a range whose start is hours, minutes and seconds, with a decimal fraction or none,
      that come to a whole number of milliseconds. */
  ghost predicate StartsAt(t: string, hours: string, mm: string, ss: string, fraction: string, end: string, ms: nat) {
    && Digits(hours) && Digits(mm) && Digits(ss) && Digits(fraction) && hours != "" && |mm| == |ss| == 2
    && end != "" && '\n' !in end
    && t == hours + ":" + mm + ":" + ss + (if fraction == "" then "" else "." + fraction) + "-" + end
    && ComeTo(3600 * Value(hours) + 60 * Value(mm) + Value(ss), fraction, ms)
  }

  ghost predicate RangeFrom(t: string, ms: nat) {
    exists hours, mm, ss, fraction, end :: StartsAt(t, hours, mm, ss, fraction, end, ms)
  }

  lemma TimesMore(x: int, y: int, p: nat)
    requires x <= y
    ensures x * p <= y * p
  {
  }

  lemma OneQuotient(a: nat, p: nat, c: int, q: int)
    requires c * p <= a < c * p + p && q * p == a
    ensures q == c
  {
    if q > c {
      TimesMore(c + 1, q, p);
    }
    if q < c {
      TimesMore(q + 1, c, p);
    }
  }

  lemma Exactly(a: nat, p: nat, q: int)
    requires p >= 1
    ensures q * p == a <==> a % p == 0 && q == a / p
  {
    assert a == (a / p) * p + a % p;
    if q * p == a {
      OneQuotient(a, p, a / p, q);
    }
  }

  lemma ThousandthsAre(seconds: nat, fraction: string, ms: nat)
    requires Digits(fraction)
    ensures ComeTo(seconds, fraction, ms) <==> Plus(seconds, Thousandths(fraction)) == Some(ms)
  {
    Exactly(1000 * Value(fraction), Pow10(|fraction|), ms - 1000 * seconds);
    hide Value, Pow10;
  }

  /** The parts of a range, taken apart. */
  lemma Parted(t: string, hours: string, mm: string, ss: string, dotted: string, end: string)
    requires |mm| == |ss| == 2 && t == hours + ":" + mm + ":" + ss + dotted + "-" + end
    ensures var n, j := |hours|, |hours| + 6 + |dotted|;
            && |t| == j + 1 + |end| && t[..n] == hours && t[n] == ':' && t[n + 1..n + 3] == mm && t[n + 3] == ':'
            && t[n + 4..n + 6] == ss && t[n + 6..j] == dotted && t[j] == '-' && t[j + 1..] == end
  {
    assert t == hours + ":" + mm + ":" + ss + (dotted + "-" + end);
    PartsOf(t, hours, mm, ss, dotted + "-" + end);
    var rest, k := dotted + "-" + end, |dotted|;
    assert t[|hours| + 6..] == rest && rest[..k] == dotted && rest[k] == '-' && rest[k + 1..] == end;
  }

  /** The fraction is what the reader takes after a dot. */
  lemma FractionRead(t: string, i: nat, fraction: string)
    requires Digits(fraction) && var k := if fraction == "" then 0 else 1 + |fraction|;
             i + k < |t| && t[i + k] == '-' && t[i..i + k] == if fraction == "" then "" else "." + fraction
    ensures fraction == if CharAt(t, i, '.') then Run(t, i + 1) else ""
  {
    if fraction != "" {
      var d := "." + fraction;
      assert d[0] == '.' && d[1..] == fraction;
      assert t[i..i + |d|][0] == t[i] && t[i..i + |d|][1..] == t[i + 1..i + 1 + |fraction|];
      RunOf(t, i + 1, fraction);
    }
  }

  /** What the reader meets in a range of whole milliseconds. */
  lemma StartParts(t: string, hours: string, mm: string, ss: string, fraction: string, end: string, ms: nat)
    requires StartsAt(t, hours, mm, ss, fraction, end, ms)
    ensures var n, j := |hours|, |hours| + 6 + if fraction == "" then 0 else 1 + |fraction|;
            && Run(t, 0) == hours != "" && CharAt(t, n, ':') && CharAt(t, n + 3, ':')
            && TwoDigitsAt(t, n + 1) && TwoDigits(t, n + 1) == Value(mm)
            && TwoDigitsAt(t, n + 4) && TwoDigits(t, n + 4) == Value(ss)
            && fraction == (if CharAt(t, n + 6, '.') then Run(t, n + 7) else "")
            && CharAt(t, j, '-') && j + 1 < |t| && '\n' !in t[j + 1..]
  {
    var dotted := if fraction == "" then "" else "." + fraction;
    var n := |hours|;
    Parted(t, hours, mm, ss, dotted, end);
    FractionRead(t, n + 6, fraction);
    RunOf(t, 0, hours);
    hide Value, Run, TwoDigits, TwoDigitsAt, Digits;
    TwoDigitsOf(t, n + 1, mm);
    TwoDigitsOf(t, n + 4, ss);
  }

  lemma ReadsStart(t: string, hours: string, mm: string, ss: string, fraction: string, end: string, ms: nat)
    requires StartsAt(t, hours, mm, ss, fraction, end, ms)
    ensures Milliseconds(t) == Some(ms)
  {
    StartParts(t, hours, mm, ss, fraction, end, ms);
    ThousandthsAre(3600 * Value(hours) + 60 * Value(mm) + Value(ss), fraction, ms);
    hide ComeTo, Value, Run, Thousandths, Plus, TwoDigits, Digits, TwoDigitsAt, CharAt;
  }

  /** The parts of a range, put together. */
  lemma Joined(t: string, hours: string, dotted: string)
    requires |t| > |hours| + 7 + |dotted| && hours <= t
    requires var n := |hours|;
             && t[n] == ':' && t[n + 3] == ':' && t[n + 6 + |dotted|] == '-' && t[n + 6..n + 6 + |dotted|] == dotted
    ensures var n := |hours|;
            t == hours + ":" + t[n + 1..n + 3] + ":" + t[n + 4..n + 6] + dotted + "-" + t[n + 7 + |dotted|..]
  {
    var n, j := |hours|, |hours| + 6 + |dotted|;
    StampJoined(t, n);
    Extends(t, n + 6, j);
    Extends(t, j, j + 1);
    Extends(t, j + 1, |t|);
    assert t[..n] == hours && t[j..j + 1] == "-" && t[..|t|] == t && t[j + 1..|t|] == t[j + 1..];
  }

  lemma TwoDigitsAre(t: string, i: nat)
    requires TwoDigitsAt(t, i)
    ensures Digits(t[i..i + 2]) && Value(t[i..i + 2]) == TwoDigits(t, i)
  {
    PairValue(t[i..i + 2]);
  }

  /** What was read, position by position. */
  lemma ReadFacts(t: string, ms: nat) returns (hours: string, fraction: string, dotted: string)
    requires Milliseconds(t) == Some(ms)
    ensures hours == Run(t, 0) != "" && dotted == (if fraction == "" then "" else "." + fraction) && Digits(fraction)
    ensures fraction == if CharAt(t, |hours| + 6, '.') then Run(t, |hours| + 7) else ""
    ensures var n, j := |hours|, |hours| + 6 + |dotted|;
            && CharAt(t, n, ':') && TwoDigitsAt(t, n + 1) && CharAt(t, n + 3, ':') && TwoDigitsAt(t, n + 4)
            && CharAt(t, j, '-') && j + 1 < |t| && '\n' !in t[j + 1..]
            && Plus(3600 * Value(hours) + 60 * TwoDigits(t, n + 1) + TwoDigits(t, n + 4), Thousandths(fraction)) == Some(ms)
  {
    hide Run, Pow10, Thousandths, TwoDigits, Value, CharAt, TwoDigitsAt, Plus;
    hours := Run(t, 0);
    fraction := if CharAt(t, |hours| + 6, '.') then Run(t, |hours| + 7) else "";
    dotted := if fraction == "" then "" else "." + fraction;
  }

  lemma DotRead(t: string, i: nat, fraction: string, dotted: string)
    requires fraction == (if CharAt(t, i, '.') then Run(t, i + 1) else "") && i + |dotted| < |t|
    requires dotted == if fraction == "" then "" else "." + fraction
    ensures t[i..i + |dotted|] == dotted
  {
    RunIs(t, i + 1);
    hide Run;
    if fraction != "" {
      assert t[i..i + 1 + |fraction|] == [t[i]] + t[i + 1..i + 1 + |fraction|];
    }
  }

  lemma StartsRead(t: string, ms: nat)
    requires Milliseconds(t) == Some(ms)
    ensures RangeFrom(t, ms)
  {
    hide Run, Pow10, Thousandths, Value, TwoDigits, IsDigit, Milliseconds;
    var hours, fraction, dotted := ReadFacts(t, ms);
    var n := |hours|;
    var mm, ss, end := t[n + 1..n + 3], t[n + 4..n + 6], t[n + 7 + |dotted|..];
    TwoDigitsAre(t, n + 1);
    TwoDigitsAre(t, n + 4);
    hide Digits, TwoDigitsAt;
    RunIs(t, 0);
    DotRead(t, n + 6, fraction, dotted);
    Joined(t, hours, dotted);
    ThousandthsAre(3600 * Value(hours) + 60 * Value(mm) + Value(ss), fraction, ms);
    hide CharAt, ComeTo, Plus;
    StartsIs(t, hours, mm, ss, fraction, dotted, end, ms);
    hide StartsAt;
  }

  lemma StartsIs(t: string, hours: string, mm: string, ss: string, fraction: string, dotted: string, end: string, ms: nat)
    requires Digits(hours) && Digits(mm) && Digits(ss) && Digits(fraction) && hours != "" && |mm| == |ss| == 2
    requires end != "" && '\n' !in end && dotted == if fraction == "" then "" else "." + fraction
    requires t == hours + ":" + mm + ":" + ss + dotted + "-" + end
    requires ComeTo(3600 * Value(hours) + 60 * Value(mm) + Value(ss), fraction, ms)
    ensures StartsAt(t, hours, mm, ss, fraction, end, ms)
  {
    hide Digits, Value, ComeTo;
  }

  lemma RunIs(t: string, i: nat)
    ensures Run(t, i) != "" ==> i + |Run(t, i)| <= |t| && t[i..i + |Run(t, i)|] == Run(t, i)
    ensures i == 0 ==> t[..|Run(t, 0)|] == Run(t, 0)
  {
  }

  /** The chronology evaluation reads exactly the ranges that start at a whole millisecond, as that. */
  lemma MillisecondsIff(location: string, ms: nat)
    ensures Milliseconds(location) == Some(ms) <==> RangeFrom(location, ms)
  {
    hide Milliseconds;
    if Milliseconds(location) == Some(ms) {
      StartsRead(location, ms);
    }
    if RangeFrom(location, ms) {
      var hours, mm, ss, fraction, end :| StartsAt(location, hours, mm, ss, fraction, end, ms);
      ReadsStart(location, hours, mm, ss, fraction, end, ms);
    }
  }

  /** A text laid out as a range whose start has one digit of tenths. */
  ghost predicate RangeLaid(t: string, hours: string, mm: string, ss: string, c: char, end: string) {
    && |t| == |hours| + 9 + |end| && hours != "" && end != ""
    && t[..|hours|] == hours && t[|hours|] == ':' && t[|hours| + 1..|hours| + 3] == mm && t[|hours| + 3] == ':'
    && t[|hours| + 4..|hours| + 6] == ss && t[|hours| + 6] == '.' && t[|hours| + 7] == c && t[|hours| + 8] == '-'
    && t[|hours| + 9..] == end
  }

  lemma RangeIsLaid(hours: string, mm: string, ss: string, c: char, end: string)
    requires |mm| == 2 && |ss| == 2 && hours != "" && end != ""
    ensures RangeLaid(hours + ":" + mm + ":" + ss + "." + [c] + "-" + end, hours, mm, ss, c, end)
  {
    var n := |hours|;
    var t := hours + ":" + mm + ":" + ss + "." + [c] + "-" + end;
    assert t[..n] == hours && t[n + 1..n + 3] == mm && t[n + 4..n + 6] == ss && t[n + 9..] == end;
  }

  lemma RunOf(t: string, i: nat, r: string)
    requires i + |r| < |t| && t[i..i + |r|] == r && Digits(r) && !IsDigit(t[i + |r|])
    ensures Run(t, i) == r
  {
    assert forall k | i <= k < i + |r| :: t[k] == t[i..i + |r|][k - i];
    DigitRunStops(t, i, i + |r|);
  }

  lemma MillisecondsOfLaid(t: string, hours: string, mm: string, ss: string, c: char, end: string)
    requires RangeLaid(t, hours, mm, ss, c, end)
    requires Digits(hours) && Digits(mm) && Digits(ss) && IsDigit(c) && '\n' !in end
    ensures Milliseconds(t) ==
            Some(1000 * (3600 * Value(hours) + 60 * Value(mm) + Value(ss)) + 100 * DigitValue(c))
  {
    LaidParts(t, hours, mm, ss, c, end);
    OneDigit(c);
    hide RangeLaid, Run, TwoDigits, TwoDigitsAt, CharAt, Value, Digits, Thousandths, Pow10, IsDigit;
  }

  /** What the reader meets in such a text. */
  lemma LaidParts(t: string, hours: string, mm: string, ss: string, c: char, end: string)
    requires RangeLaid(t, hours, mm, ss, c, end)
    requires Digits(hours) && Digits(mm) && Digits(ss) && IsDigit(c) && '\n' !in end
    ensures var n := |hours|;
            && hours != "" && Run(t, 0) == hours && CharAt(t, n, ':') && CharAt(t, n + 3, ':')
            && TwoDigitsAt(t, n + 1) && TwoDigits(t, n + 1) == Value(mm)
            && TwoDigitsAt(t, n + 4) && TwoDigits(t, n + 4) == Value(ss)
            && CharAt(t, n + 6, '.') && Run(t, n + 7) == [c]
            && CharAt(t, n + 8, '-') && n + 9 < |t| && '\n' !in t[n + 9..]
  {
    hide Run, TwoDigits, TwoDigitsAt, Value;
    var n := |hours|;
    RunOf(t, 0, hours);
    assert t[n + 7..n + 8] == [c];
    RunOf(t, n + 7, [c]);
    TwoDigitsOf(t, n + 1, mm);
    TwoDigitsOf(t, n + 4, ss);
  }

  lemma OneDigit(c: char)
    requires IsDigit(c)
    ensures Value([c]) == DigitValue(c) && Pow10(1) == 10
    ensures Thousandths([c]) == Some(100 * DigitValue(c)) && Thousandths("") == Some(0)
  {
    assert [c][..0] == "";
  }

  lemma NoNewline(t: nat)
    ensures StampOfTenths(t) != "" && '\n' !in StampOfTenths(t)
  {
    hide Padded;
  }

  /** In exact arithmetic the chronology evaluation reads every written location as one hundred
      milliseconds for each tenth of a second of its start; the source's decimals keep 28 digits. */
  lemma MillisecondsOfLocation(start: real, end: real)
    ensures Milliseconds(Location(start, end)) == Some(100 * Tenths(start))
  {
    hide Milliseconds, Tenths, Padded, Value;
    var t := Tenths(start);
    var whole, d := t / 10, t % 10;
    var h, m, s := whole / 3600, whole % 3600 / 60, whole % 3600 % 60;
    DivisionsRejoin(t);
    NoNewline(Tenths(end));
    ValueOfPadded(h);
    ValueOfPadded(m);
    ValueOfPadded(s);
    RangeIsLaid(Padded(h), Padded(m), Padded(s), Digit(d), Timecode(end));
    MillisecondsOfLaid(Location(start, end), Padded(h), Padded(m), Padded(s), Digit(d), Timecode(end));
  }

  /** Two written starts read the same only if they round to the same tenth. */
  lemma LocationsTellTimesApart(x: real, y: real, endX: real, endY: real)
    requires Location(x, endX) == Location(y, endY)
    ensures Tenths(x) == Tenths(y)
  {
    hide Location, Tenths, Milliseconds;
    MillisecondsOfLocation(x, endX);
    MillisecondsOfLocation(y, endY);
  }
}
