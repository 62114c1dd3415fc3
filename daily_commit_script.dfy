/** scripts/daily_commit.py: the dedup-or-append decision of the scheduled
    script, as a function of whether the log file exists, its text and the
    current UTC time. The file system, git and the push are not modelled. */
module DailyCommitScript {
  import opened Wrappers
  import opened Text
  import opened IsoTime

  /** Either the script exits early, or it writes this content to the log. */
  datatype ScriptOutcome = AlreadyCommittedToday | WriteLog(content: string)

  /** `l.strip()` is non-empty. */
  predicate NotBlank(l: string) {
    Trim(l, IsPyWhitespace) != []
  }

  /** `[l for l in text.splitlines() if l.strip()]`. */
  function PyLines(text: string): seq<string> {
    Filter(NotBlank, SplitLines(text))
  }

  function PyLastLine(text: string): Option<string> {
    var lines := PyLines(text);
    if |lines| == 0 then None else Some(lines[|lines| - 1])
  }

  /** The date of a log line as the script reads it: it must start with "- ";
      the rest is stripped, loses every trailing "Z", and is parsed by
      `datetime.fromisoformat`. `None` stands for a line without the prefix and
      for a parse error, which the script ignores. */
  function EntryDayPy(last: string): Option<Date> {
    if StartsWith(last, "- ") then ParseIsoDate(TrimEnd(Trim(last[2..], IsPyWhitespace), IsZ)) else None
  }

  /** The last non-blank line of `text` is an entry for `day`. */
  predicate PyLoggedOn(text: string, day: Date) {
    var last := PyLastLine(text);
    last.Some? && EntryDayPy(last.value) == Some(day)
  }

  /** The line the script writes for `now`. */
  function ScriptEntry(now: DateTime): string
    requires ValidDateTime(now)
  {
    "- " + PyIsoFormat(now) + "\n"
  }

  /** The decision of the script: an existing log whose last non-blank line is
      an entry for today's UTC date ends the run; otherwise the entry is
      appended directly to the old text (no separator is added), or becomes the
      whole file when there is none. `existing` is the text as `read_text`
      returns it, after its newline translation has turned `\r\n` and `\r`
      into `\n`; the script writes that translated text back, so a log with
      CRLF endings comes back with LF endings. `splitlines` breaks at all three
      forms, so the decision is the same either way. */
  function DailyCommit(existing: Option<string>, now: DateTime): (o: ScriptOutcome)
    requires ValidDateTime(now)
    ensures o.AlreadyCommittedToday? <==> existing.Some? && PyLoggedOn(existing.value, now.date)
    ensures o.WriteLog? && existing.None? ==> o.content == ScriptEntry(now)
    ensures o.WriteLog? && existing.Some? ==> o.content == existing.value + ScriptEntry(now)
  {
    match existing
    case None => WriteLog(ScriptEntry(now))
    case Some(text) =>
      var last := PyLastLine(text);
      if last.Some? && EntryDayPy(last.value) == Some(now.date) then AlreadyCommittedToday
      else WriteLog(text + ScriptEntry(now))
  }

  // ---------------------------------------------------------------------
  // What the next run sees
  // ---------------------------------------------------------------------

  /** A line made of "- " and an ISO rendering holds no line boundary and is
      not blank. */
  lemma EntryLineShape(stamp: string)
    requires IsoChars(stamp) && stamp != []
    ensures var entry := "- " + stamp;
            NoLineBoundary(entry) && NotBlank(entry) && entry != []
  {
    var entry := "- " + stamp;
    IsoCharsAreInert(stamp);
    assert TrimStart(entry, IsPyWhitespace) == entry;
  }

  /** A line made of "- ", then an ISO rendering with whitespace on either
      side of it, reads as the date the script's parser gives the rendering
      with its trailing "Z"s stripped. */
  lemma EntryDayPyOfStamp(pre: string, stamp: string, post: string)
    requires AllDropped(pre, IsPyWhitespace) && AllDropped(post, IsPyWhitespace)
    requires IsoChars(stamp)
    ensures EntryDayPy("- " + pre + stamp + post) == ParseIsoDate(TrimEnd(stamp, IsZ))
  {
    var line := "- " + pre + stamp + post;
    assert line[..2] == "- ";
    assert line[2..] == pre + stamp + post;
    IsoCharsAreInert(stamp);
    TrimPadded(pre, stamp, post, IsPyWhitespace);
  }

  /** The case the writers produce: no whitespace around the rendering. */
  lemma EntryDayPyOfBareStamp(stamp: string)
    requires IsoChars(stamp)
    ensures EntryDayPy("- " + stamp) == ParseIsoDate(TrimEnd(stamp, IsZ))
  {
    var none: string := [];
    assert "- " + none + stamp + none == "- " + stamp;
    EntryDayPyOfStamp(none, stamp, none);
  }

  /** A text that is empty or ends in a line boundary, followed by a
      boundary-free non-blank line and a line feed, has that line last. */
  lemma LastLineAfter(text: string, entry: string)
    requires text == [] || IsPyLineBoundary(text[|text| - 1])
    requires entry != [] && NoLineBoundary(entry) && NotBlank(entry)
    ensures PyLastLine(text + entry + "\n") == Some(entry)
  {
    SplitLinesAppendLine(text, entry);
    FilterSnoc(NotBlank, SplitLines(text), entry);
  }

  /** After a run at `t1` that wrote the log, a run on the same UTC day exits
      without writing, provided the old text was empty or ended with a line
      boundary (as every file the script or the route writes does). */
  lemma {:induction false} ScriptSecondRunSameDay(existing: Option<string>, t1: DateTime, t2: DateTime)
    requires ValidDateTime(t1) && ValidDateTime(t2) && t1.date == t2.date
    requires existing.None? || existing.value == [] || IsPyLineBoundary(existing.value[|existing.value| - 1])
    requires DailyCommit(existing, t1).WriteLog?
    ensures DailyCommit(Some(DailyCommit(existing, t1).content), t2) == AlreadyCommittedToday
  {
    var text := if existing.Some? then existing.value else [];
    var entry := "- " + PyIsoFormat(t1);
    RenderingsAreIsoChars(t1);
    EntryLineShape(PyIsoFormat(t1));
    assert DailyCommit(existing, t1).content == text + entry + "\n";
    LastLineAfter(text, entry);
    EntryDayPyOfBareStamp(PyIsoFormat(t1));
    ParsePyIsoFormat(t1);
  }

  /** On a later UTC day the script appends exactly one more entry. */
  lemma {:induction false} ScriptSecondRunNewDay(existing: Option<string>, t1: DateTime, t2: DateTime)
    requires ValidDateTime(t1) && ValidDateTime(t2) && t1.date != t2.date
    requires existing.None? || existing.value == [] || IsPyLineBoundary(existing.value[|existing.value| - 1])
    requires DailyCommit(existing, t1).WriteLog?
    ensures var c := DailyCommit(existing, t1).content;
            DailyCommit(Some(c), t2) == WriteLog(c + ScriptEntry(t2))
  {
    var text := if existing.Some? then existing.value else [];
    var entry := "- " + PyIsoFormat(t1);
    RenderingsAreIsoChars(t1);
    EntryLineShape(PyIsoFormat(t1));
    assert DailyCommit(existing, t1).content == text + entry + "\n";
    LastLineAfter(text, entry);
    EntryDayPyOfBareStamp(PyIsoFormat(t1));
    ParsePyIsoFormat(t1);
  }

  /** A line that does not start with a dash is not an entry, whatever
      follows. */
  lemma NonEntryLine(line: string)
    requires line != [] && line[0] != '-'
    ensures EntryDayPy(line) == None
  {
    if |line| >= 2 {
      assert line[..2][0] != '-';
    }
  }

  /** A one-character log that is neither a line break nor blank is its own
      last line. */
  lemma SingleLineWithoutBreak(line: string)
    requires |line| == 1 && !IsPyLineBoundary(line[0]) && !IsPyWhitespace(line[0])
    ensures PyLastLine(line) == Some(line)
  {
    assert line[1..] == [];
    assert [] + [line[0]] == line;
    assert SplitLinesFrom(line, []) == SplitLinesFrom([], line);
    assert SplitLines(line) == [] + [line];
    FilterSnoc(NotBlank, [], line);
    assert TrimStart(line, IsPyWhitespace) == line;
  }

  /** An entry appended to "a" shares its line. */
  lemma GluedLastLine(stamp: string)
    requires IsoChars(stamp)
    ensures PyLastLine("a" + ("- " + stamp + "\n")) == Some("a- " + stamp)
  {
    var glued := "a- " + stamp;
    IsoCharsAreInert(stamp);
    assert NoLineBoundary(glued);
    assert TrimStart(glued, IsPyWhitespace) == glued;
    assert "a" + ("- " + stamp + "\n") == [] + glued + "\n";
    LastLineAfter([], glued);
  }

  /** Because no separator is added, a log whose text does not end with a line
      break has the new entry glued to its last line: the line no longer
      starts with "- ", so a second run on the same UTC day appends again. */
  lemma MissingFinalNewlineDefeatsDedup(t1: DateTime, t2: DateTime)
    requires ValidDateTime(t1) && ValidDateTime(t2) && t1.date == t2.date
    ensures DailyCommit(Some("a"), t1) == WriteLog("a" + ScriptEntry(t1))
    ensures var c := "a" + ScriptEntry(t1);
            DailyCommit(Some(c), t2) == WriteLog(c + ScriptEntry(t2))
  {
    SingleLineWithoutBreak("a");
    NonEntryLine("a");
    RenderingsAreIsoChars(t1);
    GluedLastLine(PyIsoFormat(t1));
    assert "a" + ScriptEntry(t1) == "a" + ("- " + PyIsoFormat(t1) + "\n");
    NonEntryLine("a- " + PyIsoFormat(t1));
  }
}
