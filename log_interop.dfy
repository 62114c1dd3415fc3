/** The route (pages/api/commit.js) and the scheduled script
    (scripts/daily_commit.py) both log to contributions/keep_alive.md. The
    route reads and writes it on the bot branch through the API; the script
    reads whatever working tree was checked out for it and only switches
    branch afterwards. The lemmas here describe the case where the copy one
    writer reads holds the log the other one wrote, and relate their two
    readings of it. */
module LogInterop {
  import opened Wrappers
  import opened Text
  import opened IsoTime
  import opened GitHubApp
  import opened CommitContent
  import opened DailyCommitScript

  /** The route's reading of an entry line made of "- ", then an ISO
      rendering with whitespace on either side of it. */
  lemma EntryDayOfStamp(pre: string, stamp: string, post: string)
    requires AllDropped(pre, IsJsWhitespace) && AllDropped(post, IsJsWhitespace)
    requires IsoChars(stamp)
    ensures EntryDay("- " + pre + stamp + post) == ParseIsoDate(DropOneZ(stamp))
  {
    var line := "- " + pre + stamp + post;
    assert line[..2] == "- ";
    assert line[2..] == pre + stamp + post;
    IsoCharsAreInert(stamp);
    TrimPadded(pre, stamp, post, IsJsWhitespace);
  }

  /** The case the writers produce: no whitespace around the rendering. */
  lemma EntryDayOfBareStamp(stamp: string)
    requires IsoChars(stamp)
    ensures EntryDay("- " + stamp) == ParseIsoDate(DropOneZ(stamp))
  {
    var none: string := [];
    assert "- " + none + stamp + none == "- " + stamp;
    EntryDayOfStamp(none, stamp, none);
  }

  /** The script, run on the same UTC day after the route wrote the log,
      exits without writing. */
  lemma {:induction false} ScriptHonoursRouteEntry(existing: Option<FileJson>, t1: DateTime, t2: DateTime)
    requires ValidDateTime(t1) && ValidDateTime(t2) && t1.date == t2.date
    requires DecideContent(existing, t1).Append?
    ensures DailyCommit(Some(DecideContent(existing, t1).content), t2) == AlreadyCommittedToday
  {
    var stamp := ToIsoString(t1);
    var entry := "- " + stamp;
    RenderingsAreIsoChars(t1);
    EntryLineShape(stamp);
    var before := if HasContent(existing) then existing.value.content.value + "\n" else [];
    assert DecideContent(existing, t1).content == before + entry + "\n";
    LastLineAfter(before, entry);
    EntryDayPyOfBareStamp(stamp);
    ParseToIsoString(t1);
  }

  /** The route's last line of a text that is empty or ends with a line feed,
      followed by one more line and a line feed, is that line. */
  lemma RouteLastLineAfter(text: string, entry: string)
    requires text == [] || text[|text| - 1] == '\n'
    requires '\n' !in entry && entry != [] && entry[|entry| - 1] != '\r'
    ensures JsLastLine(text + entry + "\n") == Some(entry)
  {
    if text == [] {
      assert text + entry + "\n" == entry + "\n";
      LastLineOfSingle(entry);
    } else {
      var c := text[..|text| - 1];
      assert text + entry + "\n" == c + "\n" + entry + "\n";
      LastLineAfterAppend(c, entry);
    }
  }

  /** The route reads the script's entry for `t` as `t`'s UTC date. */
  lemma RouteReadsScriptStamp(t: DateTime)
    requires ValidDateTime(t)
    ensures var entry := "- " + PyIsoFormat(t);
            EntryDay(entry) == Some(t.date) && '\n' !in entry && entry[|entry| - 1] != '\r'
  {
    var stamp := PyIsoFormat(t);
    RenderingsAreIsoChars(t);
    IsoCharsAreInert(stamp);
    EntryDayOfBareStamp(stamp);
    ParsePyIsoFormat(t);
  }

  /** The route, called on the same UTC day after the script wrote a log that
      was empty, absent or ended with a line feed, reports it done. */
  lemma {:induction false} RouteHonoursScriptEntry(existing: Option<string>, t1: DateTime, t2: DateTime, sha: Option<string>)
    requires ValidDateTime(t1) && ValidDateTime(t2) && t1.date == t2.date
    requires existing.None? || existing.value == [] || existing.value[|existing.value| - 1] == '\n'
    requires DailyCommit(existing, t1).WriteLog?
    ensures DecideContent(Some(FileJson(Some(DailyCommit(existing, t1).content), sha)), t2) == AlreadyToday
  {
    var entry := "- " + PyIsoFormat(t1);
    var text := if existing.Some? then existing.value else [];
    var content := DailyCommit(existing, t1).content;
    assert ScriptEntry(t1) == entry + "\n";
    assert content == text + entry + "\n";
    RouteReadsScriptStamp(t1);
    RouteLastLineAfter(text, entry);
    assert LoggedOn(content, t2.date);
    assert HasContent(Some(FileJson(Some(content), sha)));
  }

  /** The route's last line of an entry followed by a line holding one space
      is that space, which is not an entry. */
  lemma RouteSeesBlankLine(entry: string)
    requires '\n' !in entry && entry != [] && entry[|entry| - 1] != '\r'
    ensures JsLastLine(entry + "\n \n") == Some(" ") && EntryDay(" ") == None
  {
    assert entry + "\n \n" == entry + "\n" + " " + "\n";
    LastLineAfterAppend(entry, " ");
  }

  /** The script's last line of an entry followed by a line holding one space
      is the entry: the blank line is skipped. */
  lemma ScriptSkipsBlankLine(entry: string)
    requires entry != [] && NoLineBoundary(entry) && NotBlank(entry)
    ensures PyLastLine(entry + "\n \n") == Some(entry)
  {
    var text := entry + "\n \n";
    assert [] + entry + "\n" == entry + "\n";
    SplitLinesAppendLine([], entry);
    assert text == (entry + "\n") + " " + "\n";
    SplitLinesAppendLine(entry + "\n", " ");
    assert SplitLines(text) == [entry] + [" "];
    assert !NotBlank(" ") by {
      assert TrimStart(" ", IsPyWhitespace) == TrimStart([], IsPyWhitespace);
    }
    FilterSnoc(NotBlank, [entry], " ");
    FilterSnoc(NotBlank, [], entry);
    assert [] + [entry] == [entry];
  }

  /** The two readers disagree on a whitespace-only last line: the route keeps
      it as the last line (it drops only empty pieces) and appends a second
      entry for the day, while the script skips it (it drops blank lines),
      finds today's entry and exits. */
  lemma {:induction false} BlankLastLineDiverges(t: DateTime, now: DateTime, sha: Option<string>)
    requires ValidDateTime(t) && ValidDateTime(now) && t.date == now.date
    ensures var text := "- " + ToIsoString(t) + "\n \n";
            DecideContent(Some(FileJson(Some(text), sha)), now) == Append(text + "\n" + EntryLine(now)) &&
            DailyCommit(Some(text), now) == AlreadyCommittedToday
  {
    var stamp := ToIsoString(t);
    var entry := "- " + stamp;
    assert entry + "\n \n" == "- " + ToIsoString(t) + "\n \n";
    EntryIsOneLine(t);
    RouteSeesBlankLine(entry);
    RenderingsAreIsoChars(t);
    EntryLineShape(stamp);
    ScriptSkipsBlankLine(entry);
    EntryDayPyOfBareStamp(stamp);
    ParseToIsoString(t);
  }
}
