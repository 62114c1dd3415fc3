/** pages/api/commit.js: the POST route that appends one timestamped line per
    UTC day to the log in the target repository. The module-level counter
    `dailyCommits` lives in the class `CommitRoute`, whose methods update it in
    place; everything after the gates is the pure pipeline `CommitPipeline`,
    whose GitHub calls are recorded as a trace. */
module CommitApi {
  import opened Wrappers
  import opened Text
  import opened IsoTime
  import opened PrivateKey
  import opened GitHubApp
  import opened RateLimit
  import opened CommitContent
  import opened ApiCommon

  /** The three readings of the clock the route makes: `new Date()` in
      `checkRateLimit`, `Date.now()` in `createAppJWT` (milliseconds), and
      `new Date()` for the entry. */
  datatype Clock = Clock(rateLimitAt: DateTime, signAtMs: int, contentAt: DateTime)

  predicate ValidClock(c: Clock) {
    ValidDateTime(c.rateLimitAt) && ValidDateTime(c.contentAt)
  }

  /** `new Date().toISOString().slice(0, 10)`: the UTC day key. */
  function Today(c: Clock): (day: string)
    requires ValidClock(c)
    ensures day == DatePart(c.rateLimitAt.date)
  {
    ToIsoString(c.rateLimitAt)[..10]
  }

  /** The invocation-secret gate: with a non-empty secret configured, the
      `x-app-key` header must be present, non-empty and equal to it. */
  predicate Authorized(secret: Option<string>, appKey: Option<string>) {
    !Truthy(secret) || (var header := OrDefault(appKey, ""); header != [] && header == secret.value)
  }

  /** The gate admits a request exactly when no secret is set or the header
      carries it. */
  lemma AuthorizedIff(secret: Option<string>, appKey: Option<string>)
    ensures Authorized(secret, appKey) <==> !Truthy(secret) || appKey == secret
  {
  }

  const DefaultCommitName: string := "contrib-bot"
  const DefaultCommitEmail: string := "noreply@github.com"

  function CommitterOf(env: Env): Committer {
    Committer(OrDefault(env.commitName, DefaultCommitName), OrDefault(env.commitEmail, DefaultCommitEmail))
  }

  const CommitMessagePrefix: string := "chore: daily contribution "

  /** The commit message is the fixed prefix followed by the entry's
      timestamp, which reads back as the entry's UTC date. */
  function CommitMessage(now: DateTime): (m: string)
    requires ValidDateTime(now)
    ensures |m| == |CommitMessagePrefix| + 24
    ensures m[..|CommitMessagePrefix|] == CommitMessagePrefix
    ensures ParseIsoDate(m[|CommitMessagePrefix|..]) == Some(now.date)
  {
    var stamp := ToIsoString(now);
    ParseToIsoString(now);
    assert (CommitMessagePrefix + stamp)[|CommitMessagePrefix|..] == stamp;
    CommitMessagePrefix + stamp
  }

  /** How the `try` block ends when nothing throws. */
  datatype CommitOutcome = AlreadyDone(branch: string) | Wrote(result: string)

  /** The credential chain of the `try` block, run with the configured
      environment. */
  function AuthOf(env: Env, clock: Clock, up: Upstream): Traced<Session>
    requires Configured(env)
  {
    Authenticate(env.appId.value, NormalizePrivateKey(env.privateKey), env.targetRepo.value, clock.signAtMs, up)
  }

  /** The read of the log the decision is based on. */
  function LogRead(env: Env, s: Session): Call {
    ReadFile(s.owner, s.repo, LogPath, Branch(env), s.token)
  }

  /** The `try` block of the route: authenticate, read the log, decide, and
      write through `createOrUpdateFile`. The first failure ends it, so nothing
      is written unless every step before the write succeeded; the only write is
      the last call, it carries the decided content, and its `sha` is the one
      of the second read. */
  function CommitPipeline(env: Env, clock: Clock, up: Upstream): (r: Traced<CommitOutcome>)
    requires Configured(env) && ValidClock(clock)
    ensures AuthOf(env, clock, up).result.Failure? ==>
              r == Traced(Failure(AuthOf(env, clock, up).result.error), AuthOf(env, clock, up).calls) &&
              NoWrite(r.calls)
    ensures AuthOf(env, clock, up).result.Success? && GetFile(up.firstRead).Failure? ==>
              r == Traced(Failure(GetFile(up.firstRead).error),
                          AuthOf(env, clock, up).calls + [LogRead(env, AuthOf(env, clock, up).result.value)]) &&
              NoWrite(r.calls)
    ensures AuthOf(env, clock, up).result.Success? && GetFile(up.firstRead).Success? &&
            DecideContent(GetFile(up.firstRead).value, clock.contentAt).AlreadyToday? ==>
              r == Traced(Success(AlreadyDone(Branch(env))),
                          AuthOf(env, clock, up).calls + [LogRead(env, AuthOf(env, clock, up).result.value)])
    ensures AuthOf(env, clock, up).result.Success? && GetFile(up.firstRead).Success? &&
            DecideContent(GetFile(up.firstRead).value, clock.contentAt).Append? ==>
              var s := AuthOf(env, clock, up).result.value;
              var w := CreateOrUpdateFile(s.owner, s.repo, LogPath,
                                          DecideContent(GetFile(up.firstRead).value, clock.contentAt).content,
                                          CommitMessage(clock.contentAt), Branch(env), s.token,
                                          Some(CommitterOf(env)), up.reread, up.put);
              r.calls == AuthOf(env, clock, up).calls + [LogRead(env, s)] + w.calls &&
              (r.result.Success? <==> w.result.Success?) &&
              (w.result.Success? ==> r.result == Success(Wrote(w.result.value))) &&
              (w.result.Failure? ==> r.result == Failure(w.result.error))
  {
    var auth := AuthOf(env, clock, up);
    match auth.result
    case Failure(e) => Traced(Failure(e), auth.calls)
    case Success(s) =>
      var branch := Branch(env);
      var readCalls := auth.calls + [LogRead(env, s)];
      assert NoWrite(readCalls);
      match GetFile(up.firstRead)
      case Failure(e) => Traced(Failure(e), readCalls)
      case Success(existing) =>
        match DecideContent(existing, clock.contentAt)
        case AlreadyToday => Traced(Success(AlreadyDone(branch)), readCalls)
        case Append(content) =>
          var w := CreateOrUpdateFile(s.owner, s.repo, LogPath, content, CommitMessage(clock.contentAt),
                                      branch, s.token, Some(CommitterOf(env)), up.reread, up.put);
          var calls := readCalls + w.calls;
          match w.result
          case Failure(e) => Traced(Failure(e), calls)
          case Success(result) => Traced(Success(Wrote(result)), calls)
  }

  /** How the pipeline ends: it succeeds only after the credential chain and
      the first read succeeded; "already done" is reported exactly when the
      decision says so and writes nothing; a written file returns the PUT's
      body. */
  lemma PipelineOutcome(env: Env, clock: Clock, up: Upstream)
    requires Configured(env) && ValidClock(clock)
    ensures var r := CommitPipeline(env, clock, up);
            r.result.Success? ==> AuthOf(env, clock, up).result.Success? && GetFile(up.firstRead).Success?
    ensures var r := CommitPipeline(env, clock, up);
            r.result.Success? ==>
              (r.result.value.AlreadyDone? <==> DecideContent(GetFile(up.firstRead).value, clock.contentAt).AlreadyToday?)
    ensures var r := CommitPipeline(env, clock, up);
            r.result.Success? && r.result.value.AlreadyDone? ==> NoWrite(r.calls)
    ensures var r := CommitPipeline(env, clock, up);
            r.result.Success? && r.result.value.Wrote? ==> r.result.value.result == up.put.json && !NoWrite(r.calls)
  {
    var r := CommitPipeline(env, clock, up);
    var auth := AuthOf(env, clock, up);
    if auth.result.Success? && GetFile(up.firstRead).Success? {
      var s := auth.result.value;
      var readCalls := auth.calls + [LogRead(env, s)];
      assert NoWrite(readCalls);
      var d := DecideContent(GetFile(up.firstRead).value, clock.contentAt);
      if d.AlreadyToday? {
        assert r.calls == readCalls;
      } else {
        var w := CreateOrUpdateFile(s.owner, s.repo, LogPath, d.content, CommitMessage(clock.contentAt),
                                    Branch(env), s.token, Some(CommitterOf(env)), up.reread, up.put);
        assert r.calls == readCalls + w.calls;
        if w.result.Success? {
          assert r.calls[|r.calls| - 1] == w.calls[1];
          assert IsWrite(r.calls[|r.calls| - 1]);
        }
      }
    }
  }

  /** No call before the last one writes the file: the credential chain and
      the first read never write, and `createOrUpdateFile` writes only after
      its own read. */
  lemma PipelineWritesOnlyLast(env: Env, clock: Clock, up: Upstream)
    requires Configured(env) && ValidClock(clock)
    ensures var r := CommitPipeline(env, clock, up);
            forall i :: 0 <= i < |r.calls| - 1 ==> !IsWrite(r.calls[i])
  {
    var r := CommitPipeline(env, clock, up);
    var auth := AuthOf(env, clock, up);
    if auth.result.Success? && GetFile(up.firstRead).Success? {
      var s := auth.result.value;
      var readCalls := auth.calls + [LogRead(env, s)];
      assert NoWrite(readCalls);
      var d := DecideContent(GetFile(up.firstRead).value, clock.contentAt);
      if d.Append? {
        var w := CreateOrUpdateFile(s.owner, s.repo, LogPath, d.content, CommitMessage(clock.contentAt),
                                    Branch(env), s.token, Some(CommitterOf(env)), up.reread, up.put);
        assert r.calls == readCalls + w.calls;
        assert r.calls[|readCalls|] == w.calls[0];
      }
    }
  }

  /** What the pipeline writes: nothing unless every step before the write
      succeeded and the decision is to append; then the write is the last
      call and carries the decided content, the commit message, the branch,
      the committer and the `sha` of the second read. */
  lemma PipelineWriteIsLast(env: Env, clock: Clock, up: Upstream)
    requires Configured(env) && ValidClock(clock)
    ensures var r := CommitPipeline(env, clock, up);
            !NoWrite(r.calls) ==>
              AuthOf(env, clock, up).result.Success? && GetFile(up.firstRead).Success? &&
              DecideContent(GetFile(up.firstRead).value, clock.contentAt).Append? &&
              var s := AuthOf(env, clock, up).result.value;
              r.calls[|r.calls| - 1] ==
                WriteFile(s.owner, s.repo, LogPath, s.token,
                          PutBody(CommitMessage(clock.contentAt),
                                  DecideContent(GetFile(up.firstRead).value, clock.contentAt).content,
                                  Branch(env), Some(CommitterOf(env)), RereadSha(up.reread)))
  {
    var r := CommitPipeline(env, clock, up);
    var auth := AuthOf(env, clock, up);
    if auth.result.Success? && GetFile(up.firstRead).Success? {
      var s := auth.result.value;
      var readCalls := auth.calls + [LogRead(env, s)];
      assert NoWrite(readCalls);
      var d := DecideContent(GetFile(up.firstRead).value, clock.contentAt);
      if d.Append? {
        var w := CreateOrUpdateFile(s.owner, s.repo, LogPath, d.content, CommitMessage(clock.contentAt),
                                    Branch(env), s.token, Some(CommitterOf(env)), up.reread, up.put);
        assert r.calls == readCalls + w.calls;
        if GetFile(up.reread).Failure? {
          assert r.calls == readCalls + [w.calls[0]];
          assert !IsWrite(w.calls[0]);
          assert NoWrite(r.calls);
        }
      }
    }
  }

  /** The route, holding the module-level counter `dailyCommits` that lives
      as long as the server instance. */
  class CommitRoute {
    var date: Option<string>
    var count: int

    function State(): Counter
      reads this
    {
      Counter(date, count)
    }

    ghost predicate Valid()
      reads this
    {
      ValidCounter(State())
    }

    /** A cold start: `{ date: null, count: 0 }`. */
    constructor ()
      ensures State() == Counter(None, 0) && Valid()
    {
      date := None;
      count := 0;
    }

    /** `checkRateLimit()` on day `today`: updates the counter in place as
        `Acquire` says. */
    method CheckRateLimit(today: string) returns (check: RateCheck)
      modifies this
      ensures (State(), check) == Acquire(old(State()), today)
      ensures old(Valid()) ==> Valid()
    {
      if date != Some(today) {
        date := Some(today);
        count := 0;
      }
      if count >= MaxPerDay {
        return Denied(count);
      }
      count := count + 1;
      check := Granted(MaxPerDay - count);
    }

    /** The rollback of the `catch` block. */
    method RollbackRateLimit()
      modifies this
      ensures State() == Release(old(State()))
      ensures old(Valid()) ==> Valid()
    {
      if count > 0 {
        count := count - 1;
      }
    }

    /** The route handler: method gate, secret gate, quota, configuration,
        then the pipeline. A denied or unauthorised request leaves no trace; a
        failure inside the `try` block gives back the quota slot; a missing
        configuration and the "already committed" reply keep it. */
    method Handler(req: HttpRequest, env: Env, clock: Clock, up: Upstream) returns (reply: Reply, calls: seq<Call>)
      requires ValidClock(clock)
      modifies this
      ensures old(Valid()) ==> Valid()
      ensures req.httpMethod != "POST" ==>
                reply == MethodNotAllowed && calls == [] && State() == old(State())
      ensures req.httpMethod == "POST" && !Authorized(env.invocationSecret, req.appKey) ==>
                reply == Unauthorized && calls == [] && State() == old(State())
      ensures req.httpMethod == "POST" && Authorized(env.invocationSecret, req.appKey) ==>
                var (counter, check) := Acquire(old(State()), Today(clock));
                (check.Denied? ==>
                   reply == RateLimited(check.count) && calls == [] && State() == counter) &&
                (check.Granted? && !Configured(env) ==>
                   reply == Misconfigured && calls == [] && State() == counter) &&
                (check.Granted? && Configured(env) ==>
                   var p := CommitPipeline(env, clock, up);
                   calls == p.calls &&
                   (p.result.Failure? ==>
                      reply == Failed(p.result.error) && State() == Release(counter)) &&
                   (p.result.Success? && p.result.value.AlreadyDone? ==>
                      reply == AlreadyCommitted(p.result.value.branch) && State() == counter) &&
                   (p.result.Success? && p.result.value.Wrote? ==>
                      reply == Committed(p.result.value.result, check.remaining) &&
                      State() == counter))
    {
      calls := [];
      if req.httpMethod != "POST" {
        return MethodNotAllowed, calls;
      }
      if !Authorized(env.invocationSecret, req.appKey) {
        return Unauthorized, calls;
      }
      var check := CheckRateLimit(Today(clock));
      if check.Denied? {
        return RateLimited(check.count), calls;
      }
      if !Configured(env) {
        return Misconfigured, calls;
      }
      var p := CommitPipeline(env, clock, up);
      calls := p.calls;
      match p.result {
        case Failure(e) =>
          RollbackRateLimit();
          reply := Failed(e);
        case Success(AlreadyDone(branch)) =>
          reply := AlreadyCommitted(branch);
        case Success(Wrote(result)) =>
          reply := Committed(result, check.remaining);
      }
    }
  }
}
