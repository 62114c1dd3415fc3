/** lib/githubApp.js: the App JWT claim set, and how each response of the
    GitHub REST API is classified. The network is not modelled: every response
    is an input value (status, text body, parsed JSON body), and the calls the
    code would make are recorded as a trace of `Call` values. */
module GitHubApp {
  import opened Wrappers
  import opened Text

  // ---------------------------------------------------------------------
  // App JWT claims
  // ---------------------------------------------------------------------

  /** The registered claims `iat`, `exp` and `iss` of RFC 7519 (sections
      4.1.6, 4.1.4 and 4.1.1), in whole seconds since the epoch. */
  datatype Claims = Claims(iat: int, exp: int, iss: string)

  /** Seconds `iat` is backdated by, against clock skew with GitHub. */
  const ClockSkewSeconds := 60
  /** Seconds from the current time to `exp`: nine minutes. */
  const ExpirySeconds := 9 * 60

  /** The payload `createAppJWT(appId, key)` signs at wall-clock time `nowMs`
      (milliseconds, `Date.now()`). */
  function CreateAppJwtClaims(appId: string, nowMs: int): (c: Claims)
    ensures c.iss == appId
    ensures c.exp - c.iat == 600
    ensures (c.iat + ClockSkewSeconds) * 1000 <= nowMs < (c.iat + ClockSkewSeconds + 1) * 1000
    ensures c.iat * 1000 < nowMs < c.exp * 1000
  {
    // Math.floor(Date.now() / 1000): Dafny's division by a positive divisor rounds down
    var now := nowMs / 1000;
    Claims(now - ClockSkewSeconds, now + ExpirySeconds, appId)
  }

  // ---------------------------------------------------------------------
  // Responses, errors, call trace
  // ---------------------------------------------------------------------

  /** A `fetch` response: its status, its text, and its body parsed as JSON. */
  datatype Response<T> = Response(status: int, text: string, json: T) {
    /** `res.ok`. */
    predicate Ok() {
      200 <= status <= 299
    }
  }

  /** Which request an upstream error came from. */
  datatype Request = InstallationLookup | TokenExchange | FileRead | FileWrite

  /** The errors the client throws. */
  datatype Error =
    | SigningFailed
    | InstallationNotFound(owner: string, repo: Option<string>, text: string)
    | UpstreamError(request: Request, status: int, text: string)

  /** The fields of a contents-API file the code reads; `content` stands for
      the text the base64 payload decodes to. */
  datatype FileJson = FileJson(content: Option<string>, sha: Option<string>)

  datatype Committer = Committer(name: string, email: string)

  /** The JSON body of the contents PUT; `content` stands for the text that is
      sent base64-encoded. */
  datatype PutBody = PutBody(message: string, content: string, branch: string,
                             committer: Option<Committer>, sha: Option<string>)

  /** What the code hands to a library or sends to GitHub, in order. */
  datatype Call =
    | Sign(claims: Claims, key: Option<string>)
    | GetInstallation(owner: string, repo: Option<string>)
    | CreateToken(installationId: int)
    | ReadFile(owner: string, repo: Option<string>, path: string, branch: string, token: string)
    | WriteFile(owner: string, repo: Option<string>, path: string, token: string, body: PutBody)

  /** A result together with the calls made to reach it. */
  datatype Traced<T> = Traced(result: Result<T, Error>, calls: seq<Call>)

  predicate IsWrite(c: Call) {
    c.WriteFile?
  }

  /** No call in the trace writes the file. */
  predicate NoWrite(calls: seq<Call>) {
    forall i :: 0 <= i < |calls| ==> !IsWrite(calls[i])
  }

  // ---------------------------------------------------------------------
  // Classification of each response
  // ---------------------------------------------------------------------

  /** `getInstallationIdForRepo`: 404 is the distinct "Installation not found"
      error, any other non-ok status a generic error carrying the status, and an
      ok response gives the `id` of its body. */
  function GetInstallationIdForRepo(owner: string, repo: Option<string>, res: Response<int>): (r: Result<int, Error>)
    ensures r.Success? <==> res.Ok()
    ensures r.Success? ==> r.value == res.json
    ensures r.Failure? && r.error.InstallationNotFound? <==> res.status == 404
    ensures res.status == 404 ==> r.error == InstallationNotFound(owner, repo, res.text)
    ensures res.status != 404 && !res.Ok() ==> r.error == UpstreamError(InstallationLookup, res.status, res.text)
  {
    if res.status == 404 then Failure(InstallationNotFound(owner, repo, res.text))
    else if !res.Ok() then Failure(UpstreamError(InstallationLookup, res.status, res.text))
    else Success(res.json)
  }

  /** `createInstallationToken`: any non-ok status is an error; otherwise the
      `token` of the body. */
  function CreateInstallationToken(res: Response<string>): (r: Result<string, Error>)
    ensures r.Success? <==> res.Ok()
    ensures r.Success? ==> r.value == res.json
    ensures r.Failure? ==> r.error == UpstreamError(TokenExchange, res.status, res.text)
  {
    if !res.Ok() then Failure(UpstreamError(TokenExchange, res.status, res.text))
    else Success(res.json)
  }

  /** `getFile`: 404 means the file is absent (`null`), not an error; any
      other non-ok status is an error; ok gives the parsed body. */
  function GetFile(res: Response<FileJson>): (r: Result<Option<FileJson>, Error>)
    ensures r == Success(None) <==> res.status == 404
    ensures r.Failure? <==> res.status != 404 && !res.Ok()
    ensures r.Failure? ==> r.error == UpstreamError(FileRead, res.status, res.text)
    ensures res.Ok() ==> r == Success(Some(res.json))
  {
    if res.status == 404 then Success(None)
    else if !res.Ok() then Failure(UpstreamError(FileRead, res.status, res.text))
    else Success(Some(res.json))
  }

  // ---------------------------------------------------------------------
  // createOrUpdateFile
  // ---------------------------------------------------------------------

  /** The PUT body: `message`, `content` and `branch` always; `committer` when
      one is given; `sha` when the file read just before has a non-empty one. */
  function BuildPutBody(message: string, content: string, branch: string,
                        committer: Option<Committer>, existing: Option<FileJson>): (b: PutBody)
    ensures b.message == message && b.content == content && b.branch == branch
    ensures b.committer == committer
    ensures b.sha.Some? <==> existing.Some? && Truthy(existing.value.sha)
    ensures b.sha.Some? ==> b.sha == existing.value.sha
  {
    var sha := if existing.Some? && Truthy(existing.value.sha) then existing.value.sha else None;
    PutBody(message, content, branch, committer, sha)
  }

  /** The `sha` the second read of the file supplies: present only when that read
      succeeded and the file has a non-empty one. */
  function RereadSha(reread: Response<FileJson>): Option<string> {
    if reread.Ok() && Truthy(reread.json.sha) then reread.json.sha else None
  }

  /** `createOrUpdateFile`: reads the file again (`reread`), takes the `sha`
      from that read, and PUTs the new content; a failed read or a non-ok PUT
      is an error. */
  function CreateOrUpdateFile(owner: string, repo: Option<string>, path: string, content: string,
                              message: string, branch: string, token: string, committer: Option<Committer>,
                              reread: Response<FileJson>, put: Response<string>): (r: Traced<string>)
    ensures |r.calls| >= 1 && r.calls[0] == ReadFile(owner, repo, path, branch, token)
    ensures GetFile(reread).Failure? ==> r.calls == [r.calls[0]] && r.result == Failure(GetFile(reread).error)
    ensures GetFile(reread).Success? ==>
              r.calls == [r.calls[0], WriteFile(owner, repo, path, token,
                                                PutBody(message, content, branch, committer, RereadSha(reread)))]
    ensures r.result.Success? <==> GetFile(reread).Success? && put.Ok()
    ensures r.result.Success? ==> r.result.value == put.json
    ensures GetFile(reread).Success? && !put.Ok() ==> r.result == Failure(UpstreamError(FileWrite, put.status, put.text))
  {
    var read := ReadFile(owner, repo, path, branch, token);
    match GetFile(reread)
    case Failure(e) => Traced(Failure(e), [read])
    case Success(existing) =>
      var body := BuildPutBody(message, content, branch, committer, existing);
      var calls := [read, WriteFile(owner, repo, path, token, body)];
      if !put.Ok() then Traced(Failure(UpstreamError(FileWrite, put.status, put.text)), calls)
      else Traced(Success(put.json), calls)
  }
}
