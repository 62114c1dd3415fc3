/** What the two API routes, pages/api/commit.js and pages/api/status.js, have
    in common: the request and environment they read, the replies they give,
    the outcomes of the calls they cannot see, and the credential chain
    (sign the App JWT, look up the installation, exchange it for a token) that
    both run at the start of their `try` blocks. */
module ApiCommon {
  import opened Wrappers
  import opened Text
  import opened GitHubApp

  /** The request fields the routes read: the HTTP method and the `x-app-key` header. */
  datatype HttpRequest = HttpRequest(httpMethod: string, appKey: Option<string>)

  /** The environment variables the routes read; `None` is an unset variable. */
  datatype Env = Env(invocationSecret: Option<string>, appId: Option<string>, privateKey: Option<string>,
                     targetRepo: Option<string>, botBranch: Option<string>,
                     commitName: Option<string>, commitEmail: Option<string>)

  /** The outcomes of what the routes call but the model does not see: whether
      `jwt.sign` accepts the key, and each GitHub response in the order the
      commit route consumes them (the status route uses the first three). */
  datatype Upstream = Upstream(keyAccepted: bool,
                               installation: Response<int>,
                               token: Response<string>,
                               firstRead: Response<FileJson>,
                               reread: Response<FileJson>,
                               put: Response<string>)

  /** The replies of the two routes, each with its HTTP status. */
  datatype Reply =
    | MethodNotAllowed
    | Unauthorized
    | RateLimited(count: int)
    | Misconfigured
    | Failed(error: Error)
    | AlreadyCommitted(branch: string)
    | Committed(result: string, remaining: int)
    | LastEntry(last: Option<string>)
  {
    function Status(): int {
      match this
      case MethodNotAllowed => 405
      case Unauthorized => 401
      case RateLimited(_) => 429
      case Misconfigured => 500
      case Failed(_) => 500
      case _ => 200
    }
  }

  /** The status codes of the replies: each refusing gate has a code of its
      own, a missing configuration and a thrown error share 500, and every
      reply of a request that ran to completion is 200. */
  lemma ReplyStatusCodes(r: Reply)
    ensures r.Status() == 405 <==> r.MethodNotAllowed?
    ensures r.Status() == 401 <==> r.Unauthorized?
    ensures r.Status() == 429 <==> r.RateLimited?
    ensures r.Status() == 500 <==> r.Misconfigured? || r.Failed?
    ensures r.Status() == 200 <==> r.AlreadyCommitted? || r.Committed? || r.LastEntry?
  {
  }

  /** The log file both routes work on. */
  const LogPath: string := "contributions/keep_alive.md"
  const DefaultBranch: string := "contrib-bot"

  /** `process.env.X || fallback`. */
  function OrDefault(o: Option<string>, fallback: string): (r: string)
    ensures Truthy(o) ==> r == o.value
    ensures !Truthy(o) ==> r == fallback
  {
    if Truthy(o) then o.value else fallback
  }

  /** `APP_ID`, `PRIVATE_KEY` and `TARGET_REPO` are all set and non-empty. */
  predicate Configured(env: Env) {
    Truthy(env.appId) && Truthy(env.privateKey) && Truthy(env.targetRepo)
  }

  function Branch(env: Env): string {
    OrDefault(env.botBranch, DefaultBranch)
  }

  /** `const [owner, repo] = TARGET_REPO.split('/')`: the first two pieces; `repo`
      is `undefined` when there is no slash, and pieces after a second slash are
      ignored. */
  function SplitTargetRepo(target: string): (r: (string, Option<string>))
    ensures '/' !in r.0
    ensures r.1.None? <==> '/' !in target
    ensures r.1.None? ==> r.0 == target
    ensures r.1.Some? ==> '/' !in r.1.value && StartsWith(target, r.0 + "/" + r.1.value)
    ensures r.1.Some? ==>
              var n := |r.0| + 1 + |r.1.value|;
              n == |target| || (n < |target| && target[n] == '/')
  {
    var parts := Split(target, '/');
    JoinSplit(target, '/');
    if |parts| == 1 then (parts[0], None)
    else
      JoinStartsWith(parts, '/');
      JoinSecondEnds(parts, '/');
      assert target[|parts[0]|] == (parts[0] + "/" + parts[1])[|parts[0]|];
      (parts[0], Some(parts[1]))
  }

  /** The installation the token belongs to, as the rest of the `try` block uses it. */
  datatype Session = Session(owner: string, repo: Option<string>, token: string)

  /** The start of both `try` blocks: sign the claims for `appId` with the
      normalized key, look up the installation for `target`, and exchange it for
      an installation token; the first failure ends the chain. */
  function Authenticate(appId: string, key: Option<string>, target: string, signAtMs: int, up: Upstream): (r: Traced<Session>)
    ensures |r.calls| >= 1 && r.calls[0] == Sign(CreateAppJwtClaims(appId, signAtMs), key)
    ensures NoWrite(r.calls)
    ensures forall i :: 0 <= i < |r.calls| ==> !r.calls[i].ReadFile?
    ensures !up.keyAccepted ==> r == Traced(Failure(SigningFailed), [r.calls[0]])
    ensures r.result.Success? <==> up.keyAccepted && up.installation.Ok() && up.token.Ok()
    ensures up.keyAccepted && up.installation.status == 404 ==>
              r.result == Failure(InstallationNotFound(SplitTargetRepo(target).0, SplitTargetRepo(target).1, up.installation.text))
    ensures up.keyAccepted && !up.installation.Ok() ==>
              var (owner, repo) := SplitTargetRepo(target);
              r == Traced(Failure(GetInstallationIdForRepo(owner, repo, up.installation).error),
                          [r.calls[0], GetInstallation(owner, repo)])
    ensures up.keyAccepted && up.installation.Ok() && !up.token.Ok() ==>
              var (owner, repo) := SplitTargetRepo(target);
              r == Traced(Failure(UpstreamError(TokenExchange, up.token.status, up.token.text)),
                          [r.calls[0], GetInstallation(owner, repo), CreateToken(up.installation.json)])
    ensures r.result.Success? ==>
              var (owner, repo) := SplitTargetRepo(target);
              r.result.value == Session(owner, repo, up.token.json) &&
              r.calls == [r.calls[0], GetInstallation(owner, repo), CreateToken(up.installation.json)]
  {
    var sign := [Sign(CreateAppJwtClaims(appId, signAtMs), key)];
    if !up.keyAccepted then Traced(Failure(SigningFailed), sign)
    else
      var (owner, repo) := SplitTargetRepo(target);
      var lookup := sign + [GetInstallation(owner, repo)];
      match GetInstallationIdForRepo(owner, repo, up.installation)
      case Failure(e) => Traced(Failure(e), lookup)
      case Success(id) =>
        var exchange := lookup + [CreateToken(id)];
        match CreateInstallationToken(up.token)
        case Failure(e) => Traced(Failure(e), exchange)
        case Success(token) => Traced(Success(Session(owner, repo, token)), exchange)
  }
}
