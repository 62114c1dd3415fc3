/** UTC calendar instants, the two ISO 8601 renderings the keep-alive log is
    written with (JavaScript's `Date.prototype.toISOString` and Python's
    `datetime.isoformat` with "+00:00" replaced by "Z"), and a parser for the
    fixed form `YYYY-MM-DDTHH:MM:SS(.fraction)(Z)`. Both writers produce this
    form, and Python 3.11 or later reads any fraction length in it. */
module IsoTime {
  import opened Wrappers
  import opened Text

  datatype Date = Date(year: int, month: int, day: int)

  /** A UTC instant broken into calendar fields, to the microsecond. */
  datatype DateTime = DateTime(date: Date, hour: int, minute: int, second: int, micro: int)

  predicate IsLeapYear(y: int) {
    y % 4 == 0 && (y % 100 != 0 || y % 400 == 0)
  }

  function DaysInMonth(y: int, m: int): int
    requires 1 <= m <= 12
  {
    if m == 2 then (if IsLeapYear(y) then 29 else 28)
    else if m == 4 || m == 6 || m == 9 || m == 11 then 30
    else 31
  }

  /** Years 1 through 9999, as Python's `datetime` and four-digit `toISOString` output allow. */
  predicate ValidDate(d: Date) {
    1 <= d.year <= 9999 && 1 <= d.month <= 12 && 1 <= d.day <= DaysInMonth(d.year, d.month)
  }

  predicate ValidDateTime(t: DateTime) {
    ValidDate(t.date) && 0 <= t.hour < 24 && 0 <= t.minute < 60 && 0 <= t.second < 60 &&
    0 <= t.micro < 1000000
  }

  // ---------------------------------------------------------------------
  // Decimal digits
  // ---------------------------------------------------------------------

  function Pow10(n: nat): nat {
    if n == 0 then 1 else 10 * Pow10(n - 1)
  }

  lemma Pow10Values()
    ensures Pow10(2) == 100 && Pow10(3) == 1000 && Pow10(4) == 10000 && Pow10(6) == 1000000
  {
    assert Pow10(1) == 10;
    assert Pow10(2) == 100;
    assert Pow10(3) == 1000;
    assert Pow10(4) == 10000;
    assert Pow10(5) == 100000;
  }

  predicate IsDigit(c: char) {
    '0' <= c <= '9'
  }

  predicate AllDigits(s: string) {
    forall i :: 0 <= i < |s| ==> IsDigit(s[i])
  }

  function DigitChar(d: int): (c: char)
    requires 0 <= d < 10
    ensures IsDigit(c) && c as int - '0' as int == d
  {
    ('0' as int + d) as char
  }

  /** The last `width` decimal digits of `n`, zero-padded on the left. */
  function Pad(n: nat, width: nat): (s: string)
    ensures |s| == width && AllDigits(s)
  {
    if width == 0 then [] else Pad(n / 10, width - 1) + [DigitChar(n % 10)]
  }

  /** The number a string of decimal digits denotes. */
  function DigitsValue(s: string): nat
    requires AllDigits(s)
  {
    if s == [] then 0 else DigitsValue(s[..|s| - 1]) * 10 + (s[|s| - 1] as int - '0' as int)
  }

  /** Reading back a zero-padded number gives the number, when it fits the width. */
  lemma {:induction false} DigitsValuePad(n: nat, width: nat)
    requires n < Pow10(width)
    ensures DigitsValue(Pad(n, width)) == n
  {
    if width > 0 {
      DigitsValuePad(n / 10, width - 1);
      var s := Pad(n, width);
      assert s[..|s| - 1] == Pad(n / 10, width - 1);
    }
  }

  // ---------------------------------------------------------------------
  // Rendering
  // ---------------------------------------------------------------------

  /** `YYYY-MM-DD`; also what `toISOString().slice(0, 10)` yields. */
  function DatePart(d: Date): (s: string)
    requires ValidDate(d)
    ensures |s| == 10
  {
    Pad(d.year, 4) + "-" + Pad(d.month, 2) + "-" + Pad(d.day, 2)
  }

  /** `HH:MM:SS`. */
  function TimePart(t: DateTime): (s: string)
    requires ValidDateTime(t)
    ensures |s| == 8
  {
    Pad(t.hour, 2) + ":" + Pad(t.minute, 2) + ":" + Pad(t.second, 2)
  }

  /** `new Date().toISOString()`: `YYYY-MM-DDTHH:MM:SS.sssZ`, milliseconds always shown. */
  function ToIsoString(t: DateTime): (s: string)
    requires ValidDateTime(t)
    ensures |s| == 24
  {
    DatePart(t.date) + "T" + TimePart(t) + ("." + Pad(t.micro / 1000, 3) + "Z")
  }

  /** `datetime.now(timezone.utc).isoformat().replace('+00:00', 'Z')`: the
      microseconds are shown only when they are not zero. */
  function PyIsoFormat(t: DateTime): (s: string)
    requires ValidDateTime(t)
    ensures |s| == (if t.micro == 0 then 20 else 27)
  {
    DatePart(t.date) + "T" + TimePart(t) + ((if t.micro == 0 then "" else "." + Pad(t.micro, 6)) + "Z")
  }

  /** The characters an ISO rendering is made of. */
  predicate IsoChars(s: string) {
    forall i :: 0 <= i < |s| ==> IsDigit(s[i]) || s[i] in "-T:.Z"
  }

  lemma IsoCharsAppend(a: string, b: string)
    requires IsoChars(a) && IsoChars(b)
    ensures IsoChars(a + b)
  {
    forall i | 0 <= i < |a + b| ensures IsDigit((a + b)[i]) || (a + b)[i] in "-T:.Z" {
      if i >= |a| { assert (a + b)[i] == b[i - |a|]; }
    }
  }

  lemma DigitsAreIsoChars(s: string)
    requires AllDigits(s)
    ensures IsoChars(s)
  {
  }

  /** Neither rendering holds whitespace or a line break. */
  lemma IsoCharsAreInert(s: string)
    requires IsoChars(s)
    ensures forall i :: 0 <= i < |s| ==> !IsJsWhitespace(s[i]) && !IsPyWhitespace(s[i]) && !IsPyLineBoundary(s[i])
    ensures '\n' !in s && '\r' !in s
  {
    assert forall i :: 0 <= i < |s| ==> 0x2D <= s[i] as int <= 0x5A;
  }

  lemma DatePartIsoChars(d: Date)
    requires ValidDate(d)
    ensures IsoChars(DatePart(d))
  {
    DigitsAreIsoChars(Pad(d.year, 4));
    DigitsAreIsoChars(Pad(d.month, 2));
    DigitsAreIsoChars(Pad(d.day, 2));
    IsoCharsAppend(Pad(d.year, 4), "-");
    IsoCharsAppend(Pad(d.year, 4) + "-", Pad(d.month, 2));
    IsoCharsAppend(Pad(d.year, 4) + "-" + Pad(d.month, 2), "-");
    IsoCharsAppend(Pad(d.year, 4) + "-" + Pad(d.month, 2) + "-", Pad(d.day, 2));
  }

  lemma TimePartIsoChars(t: DateTime)
    requires ValidDateTime(t)
    ensures IsoChars(TimePart(t))
  {
    DigitsAreIsoChars(Pad(t.hour, 2));
    DigitsAreIsoChars(Pad(t.minute, 2));
    DigitsAreIsoChars(Pad(t.second, 2));
    IsoCharsAppend(Pad(t.hour, 2), ":");
    IsoCharsAppend(Pad(t.hour, 2) + ":", Pad(t.minute, 2));
    IsoCharsAppend(Pad(t.hour, 2) + ":" + Pad(t.minute, 2), ":");
    IsoCharsAppend(Pad(t.hour, 2) + ":" + Pad(t.minute, 2) + ":", Pad(t.second, 2));
  }

  lemma RenderingsAreIsoChars(t: DateTime)
    requires ValidDateTime(t)
    ensures IsoChars(ToIsoString(t)) && IsoChars(PyIsoFormat(t))
  {
    DatePartIsoChars(t.date);
    TimePartIsoChars(t);
    var head := DatePart(t.date) + "T" + TimePart(t);
    IsoCharsAppend(DatePart(t.date), "T");
    IsoCharsAppend(DatePart(t.date) + "T", TimePart(t));
    DigitsAreIsoChars(Pad(t.micro / 1000, 3));
    IsoCharsAppend(".", Pad(t.micro / 1000, 3));
    IsoCharsAppend("." + Pad(t.micro / 1000, 3), "Z");
    IsoCharsAppend(head, "." + Pad(t.micro / 1000, 3) + "Z");
    DigitsAreIsoChars(Pad(t.micro, 6));
    IsoCharsAppend(".", Pad(t.micro, 6));
    var frac := if t.micro == 0 then "" else "." + Pad(t.micro, 6);
    IsoCharsAppend(frac, "Z");
    IsoCharsAppend(head, frac + "Z");
  }

  // ---------------------------------------------------------------------
  // Parsing
  // ---------------------------------------------------------------------

  /** `YYYY-MM-DD` naming a real calendar day. */
  function ParseDate(s: string): (d: Option<Date>)
    ensures d.Some? ==> ValidDate(d.value)
  {
    if |s| == 10 && AllDigits(s[..4]) && s[4] == '-' && AllDigits(s[5..7]) && s[7] == '-' && AllDigits(s[8..]) then
      var d := Date(DigitsValue(s[..4]), DigitsValue(s[5..7]), DigitsValue(s[8..]));
      if ValidDate(d) then Some(d) else None
    else None
  }

  /** `HH:MM:SS` within a day. */
  predicate IsTimeOfDay(s: string) {
    |s| == 8 && AllDigits(s[..2]) && s[2] == ':' && AllDigits(s[3..5]) && s[5] == ':' && AllDigits(s[6..]) &&
    DigitsValue(s[..2]) < 24 && DigitsValue(s[3..5]) < 60 && DigitsValue(s[6..]) < 60
  }

  /** Nothing, or a point followed by at least one digit. */
  predicate IsFraction(s: string) {
    s == [] || (|s| >= 2 && s[0] == '.' && AllDigits(s[1..]))
  }

  /** The UTC calendar date of `YYYY-MM-DDTHH:MM:SS`, optionally followed by a
      fraction of a second and a "Z"; `None` for anything else (an Invalid Date
      in JavaScript, a `ValueError` in Python). A UTC host is assumed, so a
      string without "Z" is read as UTC as well. */
  function ParseIsoDate(s: string): (d: Option<Date>)
    ensures d.Some? ==> ValidDate(d.value)
  {
    if |s| >= 19 && s[10] == 'T' && IsTimeOfDay(s[11..19]) && IsFraction(DropOneZ(s[19..])) then ParseDate(s[..10])
    else None
  }

  /** The day key is read back as the day it was made from. */
  lemma ParseDatePart(d: Date)
    requires ValidDate(d)
    ensures ParseDate(DatePart(d)) == Some(d)
  {
    var s := DatePart(d);
    assert s[..4] == Pad(d.year, 4);
    assert s[5..7] == Pad(d.month, 2);
    assert s[8..] == Pad(d.day, 2);
    Pow10Values();
    DigitsValuePad(d.year, 4);
    DigitsValuePad(d.month, 2);
    DigitsValuePad(d.day, 2);
  }

  /** Two valid days have the same key exactly when they are the same day, so
      comparing `toISOString().slice(0, 10)` strings compares UTC days. */
  lemma DatePartInjective(a: Date, b: Date)
    requires ValidDate(a) && ValidDate(b)
    ensures DatePart(a) == DatePart(b) <==> a == b
  {
    if DatePart(a) == DatePart(b) {
      ParseDatePart(a);
      ParseDatePart(b);
    }
  }

  lemma TimePartIsTimeOfDay(t: DateTime)
    requires ValidDateTime(t)
    ensures IsTimeOfDay(TimePart(t))
  {
    var s := TimePart(t);
    assert s[..2] == Pad(t.hour, 2);
    assert s[3..5] == Pad(t.minute, 2);
    assert s[6..] == Pad(t.second, 2);
    Pow10Values();
    DigitsValuePad(t.hour, 2);
    DigitsValuePad(t.minute, 2);
    DigitsValuePad(t.second, 2);
  }

  /** A date and a time joined by "T", followed by any tail whose "Z"-less
      form is a fraction, parse to that date. */
  lemma ParseRendering(t: DateTime, tail: string)
    requires ValidDateTime(t)
    requires IsFraction(DropOneZ(tail))
    ensures ParseIsoDate(DatePart(t.date) + "T" + TimePart(t) + tail) == Some(t.date)
  {
    var s := DatePart(t.date) + "T" + TimePart(t) + tail;
    assert s[..10] == DatePart(t.date);
    assert s[10] == 'T';
    assert s[11..19] == TimePart(t);
    assert s[19..] == tail;
    TimePartIsTimeOfDay(t);
    ParseDatePart(t.date);
  }

  /** What `toISOString` writes parses back to its UTC date, with its "Z",
      with that "Z" removed, and with every trailing "Z" stripped. */
  lemma ParseToIsoString(t: DateTime)
    requires ValidDateTime(t)
    ensures ParseIsoDate(ToIsoString(t)) == Some(t.date)
    ensures ParseIsoDate(DropOneZ(ToIsoString(t))) == Some(t.date)
    ensures TrimEnd(ToIsoString(t), IsZ) == DropOneZ(ToIsoString(t))
  {
    var ms := "." + Pad(t.micro / 1000, 3);
    assert ms[1..] == Pad(t.micro / 1000, 3);
    assert DropOneZ(ms + "Z") == ms;
    ParseRendering(t, ms + "Z");
    assert ms[|ms| - 1] != 'Z';
    assert DropOneZ(ms) == ms;
    var head := DatePart(t.date) + "T" + TimePart(t);
    assert ToIsoString(t) == head + ms + "Z";
    assert DropOneZ(ToIsoString(t)) == head + ms;
    assert (head + ms)[|head + ms| - 1] == Pad(t.micro / 1000, 3)[2];
    assert TrimEnd(head + ms + "Z", IsZ) == head + ms;
    ParseRendering(t, ms);
  }

  /** What the Python script writes, with every trailing "Z" stripped as the
      script does, or with one removed as the route does, parses back to its
      UTC date. */
  lemma ParsePyIsoFormat(t: DateTime)
    requires ValidDateTime(t)
    ensures ParseIsoDate(TrimEnd(PyIsoFormat(t), IsZ)) == Some(t.date)
    ensures DropOneZ(PyIsoFormat(t)) == TrimEnd(PyIsoFormat(t), IsZ)
  {
    var frac := if t.micro == 0 then "" else "." + Pad(t.micro, 6);
    var head := DatePart(t.date) + "T" + TimePart(t);
    var body := head + frac;
    assert PyIsoFormat(t) == body + "Z";
    assert body[|body| - 1] != 'Z' by {
      if t.micro == 0 {
        assert body[|body| - 1] == TimePart(t)[7];
        assert TimePart(t)[7] == Pad(t.second, 2)[1];
      } else {
        assert body[|body| - 1] == Pad(t.micro, 6)[5];
      }
    }
    assert (body + "Z")[..|body|] == body;
    assert TrimEnd(body + "Z", IsZ) == body;
    if t.micro != 0 {
      assert frac[1..] == Pad(t.micro, 6);
    }
    assert DropOneZ(frac) == frac;
    ParseRendering(t, frac);
  }
}
