/**
 `formatDuration` of the front end: a video length in seconds shown as
 `H:MM:SS` when it reaches an hour and as `M:SS` otherwise. The hours or
 the minutes that lead are not padded; the fields after them are exactly
 two digits. `ParseDuration` reads such a text back, which shows that no
 two lengths are shown alike.
 */
module Duration {
  import opened Js
  import opened Sequences

  // ---------------------------------------------------------------------
  // Decimal digits
  // ---------------------------------------------------------------------

  predicate IsDigit(c: char) {
    '0' <= c <= '9'
  }

  predicate AllDigits(s: string) {
    forall i :: 0 <= i < |s| ==> IsDigit(s[i])
  }

  function DigitChar(d: nat): (c: char)
    requires d < 10
    ensures IsDigit(c)
  {
    ('0' as int + d) as char
  }

  function DigitValue(c: char): (d: nat)
    requires IsDigit(c)
    ensures d < 10
  {
    c as int - '0' as int
  }

  /** `n.toString()` for a non-negative integer: no leading zero unless `n` is 0. */
  function Decimal(n: nat): (s: string)
    ensures AllDigits(s)
    ensures |s| >= 1
    ensures |s| == 1 <==> n < 10
    ensures |s| > 1 ==> s[0] != '0'
  {
    if n < 10 then [DigitChar(n)] else Decimal(n / 10) + [DigitChar(n % 10)]
  }

  /** The number a string of decimal digits denotes. */
  function Value(s: string): nat
    requires AllDigits(s)
  {
    if s == [] then 0 else Value(s[..|s| - 1]) * 10 + DigitValue(s[|s| - 1])
  }

  lemma {:induction false} ValueOfDecimal(n: nat)
    ensures Value(Decimal(n)) == n
  {
    if n >= 10 {
      var s := Decimal(n);
      assert s[..|s| - 1] == Decimal(n / 10);
      ValueOfDecimal(n / 10);
    }
  }

  /** A leading zero does not change the value. */
  lemma {:induction false} ValueOfZeroPrefixed(s: string)
    requires AllDigits(s)
    ensures AllDigits(['0'] + s) && Value(['0'] + s) == Value(s)
    decreases |s|
  {
    var z := ['0'] + s;
    if s != [] {
      assert z[..|z| - 1] == ['0'] + s[..|s| - 1];
      ValueOfZeroPrefixed(s[..|s| - 1]);
    }
  }

  /** `s.padStart(len, fill)` with a one-character `fill`. */
  function PadStart(s: string, len: nat, fill: char): (r: string)
    ensures |r| == if |s| >= len then |s| else len
    ensures r[|r| - |s|..] == s
    ensures forall i :: 0 <= i < |r| - |s| ==> r[i] == fill
    decreases len - |s|
  {
    if |s| >= len then s
    else
      var r := PadStart([fill] + s, len, fill);
      PadStep(r, s, fill);
      r
  }

  lemma PadStep(r: string, s: string, fill: char)
    requires |r| > |s| && r[|r| - |s| - 1..] == [fill] + s
    requires forall i :: 0 <= i < |r| - |s| - 1 ==> r[i] == fill
    ensures r[|r| - |s|..] == s
    ensures forall i :: 0 <= i < |r| - |s| ==> r[i] == fill
  {
    assert r[|r| - |s|..] == ([fill] + s)[1..];
    assert r[|r| - |s| - 1] == fill;
  }

  /** `n.toString().padStart(2, '0')` */
  function TwoDigits(n: nat): (r: string)
    ensures |r| >= 2 && AllDigits(r) && Value(r) == n
  {
    var d := Decimal(n);
    ValueOfDecimal(n);
    if n < 10 then
      assert PadStart(d, 2, '0') == ['0'] + d;
      ValueOfZeroPrefixed(d);
      PadStart(d, 2, '0')
    else
      PadStart(d, 2, '0')
  }

  /** Below 100 the padded form is exactly two digits long. */
  lemma TwoDigitsOf(n: nat)
    requires n < 100
    ensures |TwoDigits(n)| == 2 && AllDigits(TwoDigits(n)) && Value(TwoDigits(n)) == n
  {
    var d := Decimal(n);
    if n >= 10 {
      assert d == Decimal(n / 10) + [DigitChar(n % 10)];
      assert TwoDigits(n) == d;
    }
  }

  // ---------------------------------------------------------------------
  // The formatter
  // ---------------------------------------------------------------------

  datatype Clock = Clock(hours: nat, minutes: nat, secs: nat)

  /**
   The three bindings of `formatDuration`: whole hours, the minutes of the
   hour begun, and the seconds of the minute begun.
   */
  function ToClock(seconds: nat): (c: Clock)
    ensures c.hours * 3600 + c.minutes * 60 + c.secs == seconds
    ensures c.minutes < 60 && c.secs < 60
  {
    Clock(seconds / 3600, (seconds % 3600) / 60, seconds % 60)
  }

  /** `formatDuration(seconds)` */
  function FormatDuration(seconds: nat): (r: string)
    ensures |r| >= 4 && IsDigit(r[0]) && r[|r| - 3] == ':'
    ensures AllDigits(r[|r| - 2..]) && Value(r[|r| - 2..]) == seconds % 60
  {
    var c := ToClock(seconds);
    var lead := if c.hours > 0 then Decimal(c.hours) + ":" + TwoDigits(c.minutes) else Decimal(c.minutes);
    TwoDigitsOf(c.secs);
    EndsInSeconds(lead, TwoDigits(c.secs), c.secs);
    lead + ":" + TwoDigits(c.secs)
  }

  /** A leading digit, a colon, and two digits worth `secs` at the end. */
  lemma EndsInSeconds(lead: string, ss: string, secs: nat)
    requires lead != [] && IsDigit(lead[0]) && |ss| == 2 && AllDigits(ss) && Value(ss) == secs
    ensures var r := lead + ":" + ss;
      |r| >= 4 && IsDigit(r[0]) && r[|r| - 3] == ':' && AllDigits(r[|r| - 2..]) && Value(r[|r| - 2..]) == secs
  {
    var r := lead + ":" + ss;
    assert r[|r| - 2..] == ss;
  }

  // ---------------------------------------------------------------------
  // Reading a duration back
  // ---------------------------------------------------------------------

  /** The colon-separated fields of `s`; one field when there is no colon. */
  function Fields(s: string): (r: seq<string>)
    ensures |r| >= 1
  {
    if s == [] then [""]
    else
      var rest := Fields(s[1..]);
      if s[0] == ':' then [""] + rest else [[s[0]] + rest[0]] + rest[1..]
  }

  lemma {:induction false} FieldsOfColonFree(a: string)
    requires ':' !in a
    ensures Fields(a) == [a]
    decreases |a|
  {
    if a != [] {
      FieldsOfColonFree(a[1..]);
      assert [a[0]] + a[1..] == a;
    }
  }

  lemma {:induction false} FieldsOfJoin(a: string, b: string)
    requires ':' !in a
    ensures Fields(a + ":" + b) == [a] + Fields(b)
    decreases |a|
  {
    if a == [] {
      assert a + ":" + b == [':'] + b;
      assert ([':'] + b)[1..] == b;
    } else {
      FieldsOfJoin(a[1..], b);
      assert (a + ":" + b)[1..] == a[1..] + ":" + b;
      assert [a[0]] + a[1..] == a;
    }
  }

  lemma DigitsHaveNoColon(s: string)
    requires AllDigits(s)
    ensures ':' !in s
  {
    assert forall i :: 0 <= i < |s| ==> s[i] != ':';
  }

  /**
   Reads `M:SS` or `H:MM:SS` back as a number of seconds; any other text,
   or a field that is empty or not all digits, gives `None`.
   */
  function ParseDuration(text: string): Option<nat> {
    var f := Fields(text);
    if exists i :: 0 <= i < |f| && (f[i] == [] || !AllDigits(f[i])) then None
    else if |f| == 2 then Some(Value(f[0]) * 60 + Value(f[1]))
    else if |f| == 3 then Some(Value(f[0]) * 3600 + Value(f[1]) * 60 + Value(f[2]))
    else None
  }

  lemma FieldsOfTwo(a: string, b: string)
    requires ':' !in a && ':' !in b
    ensures Fields(a + ":" + b) == [a, b]
  {
    FieldsOfColonFree(b);
    FieldsOfJoin(a, b);
  }

  lemma FieldsOfThree(a: string, b: string, c: string)
    requires ':' !in a && ':' !in b && ':' !in c
    ensures Fields(a + ":" + b + ":" + c) == [a, b, c]
  {
    FieldsOfTwo(b, c);
    assert a + ":" + b + ":" + c == a + ":" + (b + ":" + c);
    FieldsOfJoin(a, b + ":" + c);
  }

  /** The formatted text splits at its colons into the clock's numbers. */
  lemma FieldsOfFormatDuration(seconds: nat)
    ensures var c := ToClock(seconds);
      Fields(FormatDuration(seconds)) ==
        if c.hours > 0 then [Decimal(c.hours), TwoDigits(c.minutes), TwoDigits(c.secs)]
        else [Decimal(c.minutes), TwoDigits(c.secs)]
  {
    var c := ToClock(seconds);
    TwoDigitsOf(c.minutes);
    TwoDigitsOf(c.secs);
    DigitsHaveNoColon(TwoDigits(c.minutes));
    DigitsHaveNoColon(TwoDigits(c.secs));
    DigitsHaveNoColon(Decimal(c.hours));
    DigitsHaveNoColon(Decimal(c.minutes));
    if c.hours > 0 {
      FieldsOfThree(Decimal(c.hours), TwoDigits(c.minutes), TwoDigits(c.secs));
    } else {
      FieldsOfTwo(Decimal(c.minutes), TwoDigits(c.secs));
    }
  }

  /**
   `f` spells clock `c` as the formatter lays it out: three fields with
   hours, two without; all digits; the leading field unpadded; every later
   field exactly two digits; the fields denote the clock's numbers.
   */
  ghost predicate SpellsClock(f: seq<string>, c: Clock) {
    && |f| == (if c.hours > 0 then 3 else 2)
    && (forall i :: 0 <= i < |f| ==> f[i] != [] && AllDigits(f[i]))
    && (forall i :: 1 <= i < |f| ==> |f[i]| == 2)
    && (|f[0]| == 1 || f[0][0] != '0')
    && Value(f[0]) == (if c.hours > 0 then c.hours else c.minutes)
    && (c.hours > 0 ==> Value(f[1]) == c.minutes)
    && Value(f[|f| - 1]) == c.secs
  }

  /**
   The fields of the formatted text spell the clock of the input, and the
   hours field is there exactly from 3600 seconds on.
   */
  lemma FormatDurationFields(seconds: nat)
    ensures SpellsClock(Fields(FormatDuration(seconds)), ToClock(seconds))
    ensures ToClock(seconds).hours > 0 <==> seconds >= 3600
  {
    var c := ToClock(seconds);
    FieldsOfFormatDuration(seconds);
    TwoDigitsOf(c.minutes);
    TwoDigitsOf(c.secs);
    if c.hours > 0 {
      ValueOfDecimal(c.hours);
      SpellLong(Decimal(c.hours), TwoDigits(c.minutes), TwoDigits(c.secs), c);
    } else {
      ValueOfDecimal(c.minutes);
      SpellShort(Decimal(c.minutes), TwoDigits(c.secs), c);
    }
  }

  /** An unpadded decimal text of its number. */
  ghost predicate Lead(s: string, n: nat) {
    AllDigits(s) && |s| >= 1 && (|s| == 1 || s[0] != '0') && Value(s) == n
  }

  /** A two-digit text of its number. */
  ghost predicate Padded(s: string, n: nat) {
    |s| == 2 && AllDigits(s) && Value(s) == n
  }

  lemma SpellLong(hh: string, mm: string, ss: string, c: Clock)
    requires c.hours > 0 && Lead(hh, c.hours) && Padded(mm, c.minutes) && Padded(ss, c.secs)
    ensures SpellsClock([hh, mm, ss], c)
  {
  }

  lemma SpellShort(m: string, ss: string, c: Clock)
    requires c.hours == 0 && Lead(m, c.minutes) && Padded(ss, c.secs)
    ensures SpellsClock([m, ss], c)
  {
  }

  /** Reading the formatted text back gives the number of seconds. */
  lemma ParseFormatDuration(seconds: nat)
    ensures ParseDuration(FormatDuration(seconds)) == Some(seconds)
  {
    FormatDurationFields(seconds);
    ParseSpelled(FormatDuration(seconds), seconds);
  }

  /** A text whose fields spell the clock of `seconds` is read back as `seconds`. */
  lemma ParseSpelled(text: string, seconds: nat)
    requires SpellsClock(Fields(text), ToClock(seconds))
    ensures ParseDuration(text) == Some(seconds)
  {
    var f := Fields(text);
    assert !exists i :: 0 <= i < |f| && (f[i] == [] || !AllDigits(f[i]));
  }

  /** Two different lengths are never shown as the same text. */
  lemma FormatDurationInjective(a: nat, b: nat)
    requires FormatDuration(a) == FormatDuration(b)
    ensures a == b
  {
    ParseFormatDuration(a);
    ParseFormatDuration(b);
  }

  /** The text has one colon below an hour and two from an hour on. */
  lemma FormatDurationColons(seconds: nat)
    ensures Count(FormatDuration(seconds), ':') == if seconds < 3600 then 1 else 2
  {
    var c := ToClock(seconds);
    HourLong(seconds);
    TwoDigitsOf(c.minutes);
    TwoDigitsOf(c.secs);
    DigitsHaveNoColon(TwoDigits(c.minutes));
    DigitsHaveNoColon(TwoDigits(c.secs));
    if c.hours > 0 {
      DigitsHaveNoColon(Decimal(c.hours));
      TwoColons(Decimal(c.hours), TwoDigits(c.minutes), TwoDigits(c.secs));
    } else {
      DigitsHaveNoColon(Decimal(c.minutes));
      OneColon(Decimal(c.minutes), TwoDigits(c.secs));
    }
  }

  /** The hours field appears exactly from 3600 seconds on. */
  lemma HourLong(seconds: nat)
    ensures ToClock(seconds).hours > 0 <==> seconds >= 3600
  {
  }

  lemma OneColon(a: string, b: string)
    requires ':' !in a && ':' !in b
    ensures Count(a + ":" + b, ':') == 1
  {
    CountAcrossColon(a, b);
  }

  lemma TwoColons(a: string, b: string, c: string)
    requires ':' !in a && ':' !in b && ':' !in c
    ensures Count(a + ":" + b + ":" + c, ':') == 2
  {
    CountAcrossColon(a, b);
    CountAcrossColon(a + ":" + b, c);
  }

  lemma CountAcrossColon(a: string, b: string)
    ensures Count(a + ":" + b, ':') == Count(a, ':') + 1 + Count(b, ':')
  {
    CountConcat(a, ":", ':');
    CountConcat(a + ":", b, ':');
    assert Count(":", ':') == 1;
  }

  /** `TwoDigits` of a single digit puts a `0` in front of it. */
  lemma PaddedDigit(d: nat)
    requires d < 10
    ensures TwoDigits(d) == ['0', DigitChar(d)]
  {
    assert PadStart([DigitChar(d)], 2, '0') == PadStart(['0', DigitChar(d)], 2, '0');
  }

  /** The renderings the interface shows for 45 s, 0 s and 3725 s. */
  lemma FormatDurationExamples()
    ensures FormatDuration(45) == "0:45"
    ensures FormatDuration(0) == "0:00"
    ensures FormatDuration(3725) == "1:02:05"
  {
    assert DigitChar(0) == '0' && DigitChar(1) == '1' && DigitChar(2) == '2';
    assert DigitChar(4) == '4' && DigitChar(5) == '5';
    PaddedDigit(0);
    PaddedDigit(2);
    PaddedDigit(5);
    ShowsFortyFive();
    assert ToClock(45) == Clock(0, 0, 45);
    assert ToClock(0) == Clock(0, 0, 0);
    assert ToClock(3725) == Clock(1, 2, 5);
  }

  lemma ShowsFortyFive()
    ensures TwoDigits(45) == "45"
  {
    var d := Decimal(45);
    assert d == Decimal(4) + [DigitChar(5)];
    assert DigitChar(4) == '4' && DigitChar(5) == '5';
    assert d == "45";
    assert PadStart(d, 2, '0') == d;
  }
}
