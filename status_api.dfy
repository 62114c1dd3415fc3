/** pages/api/status.js: the GET route that reports the last non-empty line
    of the log. It has no state and never writes; it is a function of the
    request, the environment, the clock reading for the App JWT and the
    GitHub responses. */
module StatusApi {
  import opened Wrappers
  import opened Text
  import opened IsoTime
  import opened PrivateKey
  import opened GitHubApp
  import opened CommitContent
  import opened ApiCommon

  /** Every piece of the `\r?\n` split of `text` is empty. */
  predicate AllBlank(text: string) {
    var pieces := SplitCrLf(text);
    forall i :: 0 <= i < |pieces| ==> pieces[i] == []
  }

  /** The `last` the route reports for the file it read: `null` when the file
      is absent or empty or has only empty lines; otherwise the last non-empty
      line, which holds no line feed and after which every piece is empty. */
  function ReportedLine(existing: Option<FileJson>): (r: Option<string>)
    ensures r.None? <==> !HasContent(existing) || AllBlank(existing.value.content.value)
    ensures r.Some? ==> HasContent(existing) && r.value != [] && '\n' !in r.value
    ensures r.Some? ==>
              var pieces := SplitCrLf(existing.value.content.value);
              exists k :: 0 <= k < |pieces| && pieces[k] == r.value &&
                forall j :: k < j < |pieces| ==> pieces[j] == []
  {
    if !HasContent(existing) then None
    else
      var text := existing.value.content.value;
      var pieces := SplitCrLf(text);
      var lines := Filter(NonEmpty, pieces);
      if lines == [] then
        None
      else
        FilterLast(NonEmpty, pieces);
        var last := lines[|lines| - 1];
        assert last in pieces;
        assert !AllBlank(text) by {
          var k :| 0 <= k < |pieces| && pieces[k] == last && NonEmpty(pieces[k]);
        }
        Some(last)
  }

  /** The status route: method gate, configuration gate, then the credential
      chain and one read of the log; reply and calls in order. */
  function StatusHandler(req: HttpRequest, env: Env, signAtMs: int, up: Upstream): (r: (Reply, seq<Call>))
    ensures req.httpMethod != "GET" ==> r == (MethodNotAllowed, []) && r.0.Status() == 405
    ensures req.httpMethod == "GET" && !Configured(env) ==> r == (Misconfigured, []) && r.0.Status() == 500
    ensures r.0.Status() == 200 <==> r.0.LastEntry?
    ensures req.httpMethod == "GET" && Configured(env) ==>
              var auth := Authenticate(env.appId.value, NormalizePrivateKey(env.privateKey), env.targetRepo.value, signAtMs, up);
              (auth.result.Failure? ==> r == (Failed(auth.result.error), auth.calls)) &&
              (auth.result.Success? ==>
                 var s := auth.result.value;
                 var calls := auth.calls + [ReadFile(s.owner, s.repo, LogPath, Branch(env), s.token)];
                 (GetFile(up.firstRead).Failure? ==> r == (Failed(GetFile(up.firstRead).error), calls)) &&
                 (GetFile(up.firstRead).Success? ==> r == (LastEntry(ReportedLine(GetFile(up.firstRead).value)), calls)))
    ensures NoWrite(r.1)
    ensures r.0.Failed? || r.0.LastEntry? || r.0 == MethodNotAllowed || r.0 == Misconfigured
    ensures r.0.LastEntry? <==>
              req.httpMethod == "GET" && Configured(env) &&
              Authenticate(env.appId.value, NormalizePrivateKey(env.privateKey), env.targetRepo.value, signAtMs, up).result.Success? &&
              GetFile(up.firstRead).Success?
    ensures r.0.LastEntry? ==> r.0.last == ReportedLine(GetFile(up.firstRead).value)
    ensures r.0.LastEntry? ==>
              var s := Authenticate(env.appId.value, NormalizePrivateKey(env.privateKey), env.targetRepo.value, signAtMs, up).result.value;
              |r.1| >= 1 && r.1[|r.1| - 1] == ReadFile(s.owner, s.repo, LogPath, Branch(env), s.token)
  {
    if req.httpMethod != "GET" then (MethodNotAllowed, [])
    else if !Configured(env) then (Misconfigured, [])
    else
      var auth := Authenticate(env.appId.value, NormalizePrivateKey(env.privateKey), env.targetRepo.value, signAtMs, up);
      match auth.result
      case Failure(e) => (Failed(e), auth.calls)
      case Success(s) =>
        var calls := auth.calls + [ReadFile(s.owner, s.repo, LogPath, Branch(env), s.token)];
        assert NoWrite(calls);
        match GetFile(up.firstRead)
        case Failure(e) => (Failed(e), calls)
        case Success(existing) => (LastEntry(ReportedLine(existing)), calls)
  }

  /** What the commit route writes, the status route reports: after a write
      at `now`, reading the written file gives the entry for `now`. */
  lemma StatusSeesCommit(existing: Option<FileJson>, now: DateTime, sha: Option<string>)
    requires ValidDateTime(now) && DecideContent(existing, now).Append?
    ensures ReportedLine(Some(FileJson(Some(DecideContent(existing, now).content), sha))) == Some("- " + ToIsoString(now))
  {
    WrittenLastLine(existing, now);
  }
}
