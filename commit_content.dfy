/** The content decision of the commit handler (pages/api/commit.js, lines
    68-95): given the file the first read returned and the current time,
    either the log already has an entry for today's UTC date, or the new
    content is the old one followed by a line feed and the new entry. */
module CommitContent {
  import opened Wrappers
  import opened Text
  import opened IsoTime
  import opened GitHubApp

  datatype Decision = AlreadyToday | Append(content: string)

  /** `text.split(/\r?\n/).filter(Boolean)`. */
  function JsLines(text: string): seq<string> {
    Filter(NonEmpty, SplitCrLf(text))
  }

  /** The last element of `JsLines(text)`, if any: the last non-empty line. */
  function JsLastLine(text: string): Option<string> {
    var lines := JsLines(text);
    if |lines| == 0 then None else Some(lines[|lines| - 1])
  }

  /** The UTC date a log line records, read as lines 79-84 read it: the line
      must start with "- "; the rest is trimmed, loses one trailing "Z" and is
      parsed. `None` stands for a line without the prefix and for an Invalid
      Date, whose UTC fields compare unequal to everything. */
  function EntryDay(line: string): Option<Date> {
    if StartsWith(line, "- ") then ParseIsoDate(DropOneZ(Trim(line[2..], IsJsWhitespace))) else None
  }

  /** The file holds text: `existing && existing.content`. */
  predicate HasContent(existing: Option<FileJson>) {
    existing.Some? && Truthy(existing.value.content)
  }

  /** The last non-empty line of `text` is an entry for `day`. */
  predicate LoggedOn(text: string, day: Date) {
    var last := JsLastLine(text);
    last.Some? && EntryDay(last.value) == Some(day)
  }

  /** The entry the handler writes for `now`, with its line feed. */
  function EntryLine(now: DateTime): string
    requires ValidDateTime(now)
  {
    "- " + ToIsoString(now) + "\n"
  }

  /** Lines 68-95: "already committed today" when the last non-empty line is an
      entry for the current UTC date; otherwise the content to write, which is
      the old text, a line feed and the entry when the file has text, and just
      the entry when it is absent or empty. */
  function DecideContent(existing: Option<FileJson>, now: DateTime): (d: Decision)
    requires ValidDateTime(now)
    ensures d.AlreadyToday? <==> HasContent(existing) && LoggedOn(existing.value.content.value, now.date)
    ensures d.Append? && !HasContent(existing) ==> d.content == EntryLine(now)
    ensures d.Append? && HasContent(existing) ==> d.content == existing.value.content.value + "\n" + EntryLine(now)
  {
    var stamp := ToIsoString(now);
    var line := EntryLine(now);
    if HasContent(existing) then
      var text := existing.value.content.value;
      var last := JsLastLine(text);
      ParseToIsoString(now);
      if last.Some? && SameUtcDay(EntryDay(last.value), ParseIsoDate(stamp)) then AlreadyToday
      else Append(text + "\n" + line)
    else Append(line)
  }

  /** Year, month and day compared with `===`; comparisons with an Invalid
      Date are false. */
  predicate SameUtcDay(a: Option<Date>, b: Option<Date>) {
    a.Some? && b.Some? && a.value == b.value
  }

  // ---------------------------------------------------------------------
  // What the next call sees
  // ---------------------------------------------------------------------

  /** The entry line holds no line feed and does not end in a carriage return. */
  lemma EntryIsOneLine(now: DateTime)
    requires ValidDateTime(now)
    ensures var entry := "- " + ToIsoString(now);
            '\n' !in entry && entry[|entry| - 1] != '\r' && entry != []
  {
    RenderingsAreIsoChars(now);
    IsoCharsAreInert(ToIsoString(now));
  }

  /** A line written after a line feed, and ended by one, is the last line. */
  lemma LastLineAfterAppend(text: string, entry: string)
    requires '\n' !in entry && entry != [] && entry[|entry| - 1] != '\r'
    ensures JsLastLine(text + "\n" + entry + "\n") == Some(entry)
  {
    SplitCrLfAppendLine(text, entry);
    FilterEndsWith(NonEmpty, SplitCrLf(text + "\n" + entry + "\n"));
  }

  /** A single line ended by a line feed is the last line. */
  lemma LastLineOfSingle(entry: string)
    requires '\n' !in entry && entry != [] && entry[|entry| - 1] != '\r'
    ensures JsLastLine(entry + "\n") == Some(entry)
  {
    SplitNoSep(entry, '\n');
    SplitAppendSep(entry, '\n');
    FilterEndsWith(NonEmpty, SplitCrLf(entry + "\n"));
  }

  /** The entry written for `now` reads back as `now`'s UTC date. */
  lemma EntryDayOfEntry(now: DateTime)
    requires ValidDateTime(now)
    ensures EntryDay("- " + ToIsoString(now)) == Some(now.date)
  {
    var stamp := ToIsoString(now);
    var entry := "- " + stamp;
    assert entry[2..] == stamp;
    RenderingsAreIsoChars(now);
    IsoCharsAreInert(stamp);
    TrimNothing(stamp, IsJsWhitespace);
    ParseToIsoString(now);
  }

  /** Whatever the handler writes ends with the entry for `now` as its last
      non-empty line. */
  lemma WrittenLastLine(existing: Option<FileJson>, now: DateTime)
    requires ValidDateTime(now) && DecideContent(existing, now).Append?
    ensures JsLastLine(DecideContent(existing, now).content) == Some("- " + ToIsoString(now))
  {
    var entry := "- " + ToIsoString(now);
    EntryIsOneLine(now);
    if HasContent(existing) {
      assert DecideContent(existing, now).content == existing.value.content.value + "\n" + entry + "\n";
      LastLineAfterAppend(existing.value.content.value, entry);
    } else {
      assert DecideContent(existing, now).content == entry + "\n";
      LastLineOfSingle(entry);
    }
  }

  /** Idempotence across calls: once the handler has written the log at `t1`,
      a later call on the same UTC day finds it done and writes nothing. */
  lemma SecondCallSameDay(existing: Option<FileJson>, t1: DateTime, t2: DateTime, sha: Option<string>)
    requires ValidDateTime(t1) && ValidDateTime(t2) && t1.date == t2.date
    requires DecideContent(existing, t1).Append?
    ensures DecideContent(Some(FileJson(Some(DecideContent(existing, t1).content), sha)), t2) == AlreadyToday
  {
    WrittenLastLine(existing, t1);
    EntryDayOfEntry(t1);
  }

  /** On a later UTC day the log gains exactly one more entry. */
  lemma SecondCallNewDay(existing: Option<FileJson>, t1: DateTime, t2: DateTime, sha: Option<string>)
    requires ValidDateTime(t1) && ValidDateTime(t2) && t1.date != t2.date
    requires DecideContent(existing, t1).Append?
    ensures var c := DecideContent(existing, t1).content;
            DecideContent(Some(FileJson(Some(c), sha)), t2) == Append(c + "\n" + EntryLine(t2))
  {
    WrittenLastLine(existing, t1);
    EntryDayOfEntry(t1);
  }

  /** Fail-open: a last line without the "- " prefix, or whose timestamp does
      not parse, leads to an append, never to an error. */
  lemma MalformedLastLineAppends(text: string, now: DateTime, sha: Option<string>)
    requires ValidDateTime(now) && text != []
    requires JsLastLine(text).Some? && EntryDay(JsLastLine(text).value).None?
    ensures DecideContent(Some(FileJson(Some(text), sha)), now) == Append(text + "\n" + EntryLine(now))
  {
  }

  /** The first rendering the daily scenario uses. */
  lemma FirstScenarioStamp(t: DateTime)
    requires t == DateTime(Date(2024, 1, 1), 0, 0, 0, 0)
    ensures ToIsoString(t) == "2024-01-01T00:00:00.000Z"
  {
    var d, h, f := DatePart(t.date), TimePart(t), Pad(t.micro / 1000, 3);
    assert d == "2024-01-01" by { assert Pad(2024, 4) == "2024"; assert Pad(1, 2) == "01"; }
    assert h == "00:00:00" by { assert Pad(0, 2) == "00"; }
    assert f == "000";
    assert ToIsoString(t) == d + "T" + h + ("." + f + "Z");
    assert "2024-01-01" + "T" + "00:00:00" + ("." + "000" + "Z") == "2024-01-01T00:00:00.000Z";
  }

  /** The second rendering the daily scenario uses. */
  lemma SecondScenarioStamp(t: DateTime)
    requires t == DateTime(Date(2024, 1, 2), 0, 0, 5, 0)
    ensures ToIsoString(t) == "2024-01-02T00:00:05.000Z"
  {
    var d, h, f := DatePart(t.date), TimePart(t), Pad(t.micro / 1000, 3);
    assert d == "2024-01-02" by { assert Pad(2024, 4) == "2024"; assert Pad(1, 2) == "01"; assert Pad(2, 2) == "02"; }
    assert h == "00:00:05" by { assert Pad(0, 2) == "00"; assert Pad(5, 2) == "05"; }
    assert f == "000";
    assert ToIsoString(t) == d + "T" + h + ("." + f + "Z");
    assert "2024-01-02" + "T" + "00:00:05" + ("." + "000" + "Z") == "2024-01-02T00:00:05.000Z";
  }

  /** The log after the scenario's first and second writes, as literals.
      These concatenations are proved here, on their own, because proving them
      inside the scenario lemmas exceeds the verifier's resource limit. */
  lemma ScenarioLogs()
    ensures "- " + "2024-01-01T00:00:00.000Z" + "\n" == "- 2024-01-01T00:00:00.000Z\n"
    ensures "- 2024-01-01T00:00:00.000Z\n" + "\n" + ("- " + "2024-01-02T00:00:05.000Z" + "\n")
            == "- 2024-01-01T00:00:00.000Z\n\n- 2024-01-02T00:00:05.000Z\n"
  {
    assert "- " + "2024-01-02T00:00:05.000Z" + "\n" == "- 2024-01-02T00:00:05.000Z\n";
    assert "- 2024-01-01T00:00:00.000Z\n" + "\n" + "- 2024-01-02T00:00:05.000Z\n"
           == "- 2024-01-01T00:00:00.000Z\n\n- 2024-01-02T00:00:05.000Z\n";
  }

  /** The first call of the daily scenario: no log, a write at midnight of
      1 January 2024. */
  lemma ScenarioFirstWrite(t1: DateTime)
    requires t1 == DateTime(Date(2024, 1, 1), 0, 0, 0, 0)
    ensures DecideContent(None, t1) == Append("- 2024-01-01T00:00:00.000Z\n")
  {
    FirstScenarioStamp(t1);
    var x := ToIsoString(t1);
    assert EntryLine(t1) == "- " + x + "\n";
    ScenarioLogs();
  }

  /** A second call later that day writes nothing. */
  lemma ScenarioSameDay(later: DateTime, sha: Option<string>)
    requires later == DateTime(Date(2024, 1, 1), 18, 30, 0, 0)
    ensures DecideContent(Some(FileJson(Some("- 2024-01-01T00:00:00.000Z\n"), sha)), later) == AlreadyToday
  {
    var t1 := DateTime(Date(2024, 1, 1), 0, 0, 0, 0);
    ScenarioFirstWrite(t1);
    SecondCallSameDay(None, t1, later, sha);
  }

  /** A call just after the next midnight adds the second entry after a line
      feed. */
  lemma ScenarioNextDay(t2: DateTime, sha: Option<string>)
    requires t2 == DateTime(Date(2024, 1, 2), 0, 0, 5, 0)
    ensures DecideContent(Some(FileJson(Some("- 2024-01-01T00:00:00.000Z\n"), sha)), t2)
            == Append("- 2024-01-01T00:00:00.000Z\n\n- 2024-01-02T00:00:05.000Z\n")
  {
    var t1 := DateTime(Date(2024, 1, 1), 0, 0, 0, 0);
    ScenarioFirstWrite(t1);
    SecondCallNewDay(None, t1, t2, sha);
    SecondScenarioStamp(t2);
    var x := ToIsoString(t2);
    assert EntryLine(t2) == "- " + x + "\n";
    ScenarioLogs();
  }
}
