/** The GitHub-facing rules of the backend with the HTTP calls abstracted to
    their outcomes: the OAuth authorisation URL, the classification of the
    repository-access check, and the page size sent when listing a user's
    repositories. */
module GitHubAccess {
  import opened Outcomes
  import opened Text
  import opened UrlEncoding

  /** OAuth settings read from the environment. */
  datatype OAuthConfig = OAuthConfig(clientId: string, redirectUri: string)

  /** The default client id used when none is configured. */
  const PlaceholderClientId: string := "your_github_client_id"

  const AuthorizeEndpoint: string := "https://github.com/login/oauth/authorize"

  /** The query parameters of the authorisation URL, in the source's order. */
  function AuthParams(cfg: OAuthConfig): seq<(string, string)>
  {
    [("client_id", cfg.clientId), ("redirect_uri", cfg.redirectUri), ("scope", "repo,read:user"), ("state", "github_auth")]
  }

  /** `get_github_auth_url`: empty while the client id is the placeholder,
      otherwise the authorize endpoint followed by the encoded parameters. */
  function GitHubAuthUrl(cfg: OAuthConfig): (r: string)
    ensures r == "" <==> cfg.clientId == PlaceholderClientId
    ensures r != "" ==> StartsWith(r, AuthorizeEndpoint + "?")
  {
    if cfg.clientId == PlaceholderClientId then ""
    else
      var r := AuthorizeEndpoint + "?" + UrlEncode(AuthParams(cfg));
      assert r[..|AuthorizeEndpoint + "?"|] == AuthorizeEndpoint + "?";
      r
  }

  /** A configured URL splits at its single `?` into the endpoint and a query
      that parses back into exactly the four parameters, values intact. */
  lemma AuthUrlCarriesParams(cfg: OAuthConfig)
    requires cfg.clientId != PlaceholderClientId
    ensures Split(GitHubAuthUrl(cfg), '?') == [AuthorizeEndpoint, UrlEncode(AuthParams(cfg))]
    ensures ParseQuery(Split(GitHubAuthUrl(cfg), '?')[1]) == Some(Utf8Params(AuthParams(cfg)))
  {
    AuthUrlShape(cfg);
    EndpointHasNoQuery();
    UrlWithQuery(AuthorizeEndpoint, AuthParams(cfg));
  }

  /** A configured URL is the endpoint, `?`, and the encoded parameters. */
  lemma AuthUrlShape(cfg: OAuthConfig)
    requires cfg.clientId != PlaceholderClientId
    ensures GitHubAuthUrl(cfg) == AuthorizeEndpoint + "?" + UrlEncode(AuthParams(cfg))
  {
  }

  /** The authorize endpoint carries no query of its own. */
  lemma EndpointHasNoQuery()
    ensures '?' !in AuthorizeEndpoint
  {
  }

  /** An endpoint without `?`, a `?`, and an encoded query split apart again. */
  lemma UrlWithQuery(endpoint: string, params: seq<(string, string)>)
    requires '?' !in endpoint && |params| >= 1
    ensures Split(endpoint + "?" + UrlEncode(params), '?') == [endpoint, UrlEncode(params)]
    ensures ParseQuery(UrlEncode(params)) == Some(Utf8Params(params))
  {
    UrlEncodeStaysInQuery(params);
    SplitAfterFree(endpoint, '?', UrlEncode(params));
    UrlEncodeRoundTrip(params);
  }


  /** What the call to the GitHub API produced: a response (with the error of
      decoding its JSON body, if that fails) or an exception. */
  datatype GitHubReply = HttpReply(statusCode: int, jsonError: Option<string>) | TransportFailure(message: string)

  /** Why access was refused; the endpoint reports these as the `error` texts
      "no_github_token", "invalid_token", "repository_not_found", "api_error"
      and "network_error". */
  datatype AccessError = NoGitHubToken | InvalidToken | RepositoryNotFound | ApiError | NetworkError

  datatype AccessCheck = HasAccess | NoAccess(error: AccessError, message: string, authUrl: Option<string>)

  /** `github_tokens.get(user_id)` when it is truthy. */
  function TokenFor(tokens: map<string, string>, userId: string): (r: Option<string>)
    ensures r.Some? <==> userId in tokens && tokens[userId] != ""
  {
    if userId in tokens && tokens[userId] != "" then Some(tokens[userId]) else None
  }

  const ApiErrorPrefix: string := "GitHub API error: "
  const NetworkErrorPrefix: string := "Failed to verify repository access: "

  /** `verify_repository_access`: without a token the check fails before any
      call; with one, 200 grants access, 401 means a bad token, 404 a missing
      repository, any other status an API error naming the status, and an
      exception (including an unreadable 200 body) a network error. An
      authorisation URL is offered exactly when signing in again can help. */
  function VerifyRepositoryAccess(cfg: OAuthConfig, tokens: map<string, string>, userId: string, reply: GitHubReply): (r: AccessCheck)
    ensures r.HasAccess? <==> TokenFor(tokens, userId).Some? && reply == HttpReply(200, None)
    ensures TokenFor(tokens, userId).None? ==> r.NoAccess? && r.error == NoGitHubToken
    ensures TokenFor(tokens, userId).Some? && reply.HttpReply? && reply.statusCode == 401 ==> r.NoAccess? && r.error == InvalidToken
    ensures TokenFor(tokens, userId).Some? && reply.HttpReply? && reply.statusCode == 404 ==> r.NoAccess? && r.error == RepositoryNotFound
    ensures TokenFor(tokens, userId).Some? && reply.HttpReply? && reply.statusCode !in {200, 401, 404} ==>
              r == NoAccess(ApiError, ApiErrorPrefix + IntToString(reply.statusCode), None)
    ensures TokenFor(tokens, userId).Some? && (reply.TransportFailure? || (reply.HttpReply? && reply.statusCode == 200 && reply.jsonError.Some?)) ==>
              r.NoAccess? && r.error == NetworkError
    ensures r.NoAccess? ==> (r.authUrl.Some? <==> r.error in {NoGitHubToken, InvalidToken})
    ensures r.NoAccess? && r.authUrl.Some? ==> r.authUrl.value == GitHubAuthUrl(cfg)
  {
    if TokenFor(tokens, userId).None? then
      NoAccess(NoGitHubToken, "GitHub authentication required", Some(GitHubAuthUrl(cfg)))
    else
      match reply
      case TransportFailure(msg) => NoAccess(NetworkError, NetworkErrorPrefix + msg, None)
      case HttpReply(code, jsonError) =>
        if code == 200 then
          if jsonError.None? then HasAccess else NoAccess(NetworkError, NetworkErrorPrefix + jsonError.value, None)
        else if code == 401 then NoAccess(InvalidToken, "GitHub token is invalid or expired", Some(GitHubAuthUrl(cfg)))
        else if code == 404 then NoAccess(RepositoryNotFound, "Repository not found or access denied", None)
        else NoAccess(ApiError, ApiErrorPrefix + IntToString(code), None)
  }

  /** The status code of an API error can be read back from its message. */
  lemma ApiErrorNamesStatus(cfg: OAuthConfig, tokens: map<string, string>, userId: string, reply: GitHubReply)
    requires VerifyRepositoryAccess(cfg, tokens, userId, reply).NoAccess?
    requires VerifyRepositoryAccess(cfg, tokens, userId, reply).error == ApiError
    ensures reply.HttpReply?
    ensures var m := VerifyRepositoryAccess(cfg, tokens, userId, reply).message;
            StartsWith(m, ApiErrorPrefix) && ParseInt(m[|ApiErrorPrefix|..]) == Some(reply.statusCode)
  {
    var m := VerifyRepositoryAccess(cfg, tokens, userId, reply).message;
    assert m[|ApiErrorPrefix|..] == IntToString(reply.statusCode);
    assert m[..|ApiErrorPrefix|] == ApiErrorPrefix;
    IntRoundTrip(reply.statusCode);
  }

  /** The largest page GitHub is asked for. */
  const MaxPageSize: int := 100

  /** `min(per_page, 100)`: the page size sent to GitHub. */
  function ClampPageSize(perPage: int): (r: int)
    ensures r <= MaxPageSize && r <= perPage
    ensures r == perPage || r == MaxPageSize
  {
    if perPage < MaxPageSize then perPage else MaxPageSize
  }

  /** The query of the repository-listing request, in the source's order. */
  function RepoListParams(perPage: int, page: int): seq<(string, string)>
  {
    [("per_page", IntToString(ClampPageSize(perPage))), ("page", IntToString(page)),
     ("sort", "updated"), ("affiliation", "owner,collaborator,organization_member")]
  }

  /** What GitHub receives as `per_page` reads back as a number of at most 100,
      and as the requested number whenever that was not above 100. */
  lemma RepoListRequestCapsPageSize(perPage: int, page: int)
    ensures var fields := ParseQuery(UrlEncode(RepoListParams(perPage, page)));
            && fields.Some? && |fields.value| == 4
            && fields.value[0] == (Utf8String("per_page"), Utf8String(IntToString(ClampPageSize(perPage))))
    ensures ParseInt(IntToString(ClampPageSize(perPage))).Some?
    ensures ParseInt(IntToString(ClampPageSize(perPage))).value <= MaxPageSize
    ensures perPage <= MaxPageSize ==> ParseInt(IntToString(ClampPageSize(perPage))).value == perPage
  {
    QueryReadsBack(RepoListParams(perPage, page));
    IntRoundTrip(ClampPageSize(perPage));
  }

  /** A non-empty query reads back field by field. */
  lemma QueryReadsBack(params: seq<(string, string)>)
    requires |params| >= 1
    ensures var fields := ParseQuery(UrlEncode(params));
            && fields.Some? && |fields.value| == |params|
            && fields.value[0] == (Utf8String(params[0].0), Utf8String(params[0].1))
  {
    UrlEncodeRoundTrip(params);
  }
}
