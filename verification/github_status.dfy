/** The GitHub adapter logic: which token authenticates the client, the commit-status
    payload `createStatus` sends, and the query `getCommits` sends. The API calls
    themselves are outside the model. */
module GitHubStatus {
  import opened Wrappers
  import opened Text
  import opened Config
  import opened GitHub
  import opened GitHubToken

  /** Where `getAuthenticatedOctokitClient` takes its token from. */
  datatype TokenSource = Given(token: string) | FromEnv(token: string) | FromApp | Missing

  /** The precedence: a truthy explicit token, then a truthy GITHUB_TOKEN, then a token
      minted for the app when GITHUB_APP_ID is truthy, else none. */
  function ChooseTokenSource(token: Option<string>, env: Env): (src: TokenSource)
    ensures IsSet(token) ==> src == Given(token.value)
    ensures !IsSet(token) && IsSet(env.githubToken) ==> src == FromEnv(env.githubToken.value)
    ensures !IsSet(token) && !IsSet(env.githubToken) && IsSet(env.githubAppId) ==> src == FromApp
    ensures src == Missing <==> !IsSet(token) && !IsSet(env.githubToken) && !IsSet(env.githubAppId)
  {
    if IsSet(token) then Given(token.value)
    else if IsSet(env.githubToken) then FromEnv(env.githubToken.value)
    else if IsSet(env.githubAppId) then FromApp
    else Missing
  }

  /** The configuration matters only when no usable token is given: an explicit token
      wins over any environment. */
  lemma ExplicitTokenWins(t: string, env1: Env, env2: Env)
    requires t != ""
    ensures ChooseTokenSource(Some(t), env1) == ChooseTokenSource(Some(t), env2) == Given(t)
  {
  }

  const MissingCredentials := "Need either GITHUB_TOKEN or GITHUB_APP_ID"

  /** `getAuthenticatedOctokitClient(token)`: the token the client is built with, or the
      error thrown when there is none. Only the app branch touches the token cache. */
  method GetAuthenticatedClient(token: Option<string>, env: Env, cache: TokenCache, clockMillis: nat,
                                sign: JwtPayload -> Result<string, string>, mint: string -> Result<string, string>)
    returns (auth: Result<Option<string>, string>)
    modifies cache
    ensures match ChooseTokenSource(token, env)
      case Given(t) => auth == Ok(Some(t)) && unchanged(cache)
      case FromEnv(t) => auth == Ok(Some(t)) && unchanged(cache)
      case FromApp => Outcome(auth, cache.latestToken, cache.latestTokenExpiration)
        == Step(old(cache.latestToken), old(cache.latestTokenExpiration), Seconds(clockMillis), env.githubAppId, sign, mint)
      case Missing => auth == Err(MissingCredentials) && unchanged(cache)
  {
    var t := token;
    if !IsSet(t) {
      if IsSet(env.githubToken) {
        t := env.githubToken;
      } else if IsSet(env.githubAppId) {
        var minted := cache.GetNewToken(clockMillis, env.githubAppId, sign, mint);
        if minted.Err? {
          return Err(minted.error);
        }
        t := minted.value;
      } else {
        return Err(MissingCredentials);
      }
    }
    return Ok(t);
  }

  /** GitHub's own limit on a status description. */
  const GitHubDescriptionLimit: nat := 140

  /** The length the description is cut to, below GitHub's limit. */
  const DescriptionLimit: nat := 130

  /** The body of the create-status request. */
  datatype StatusPayload = StatusPayload(
    owner: string,
    repo: string,
    sha: string,
    state: string,
    targetUrl: Option<string>,
    description: string,
    context: string)

  /** The payload `createStatus` builds: on the base repository, for the head commit, in
      state "success" exactly when the check passes, with the status id as its context and
      the description cut to its first 130 characters. */
  function StatusPayloadOf(statusId: string, pr: PullRequest, pass: bool, targetUrl: Option<string>,
                           description: string): (p: StatusPayload)
    ensures p.state == "success" <==> pass
    ensures p.state == "failure" <==> !pass
    ensures p.owner == pr.base.repo.ownerLogin && p.repo == pr.base.repo.name
    ensures p.sha == pr.head.sha && p.context == statusId && p.targetUrl == targetUrl
    ensures StartsWith(description, p.description)
    ensures |p.description| == if |description| < DescriptionLimit then |description| else DescriptionLimit
  {
    StatusPayload(pr.base.repo.ownerLogin, pr.base.repo.name, pr.head.sha,
      if pass then "success" else "failure", targetUrl, Prefix(description, DescriptionLimit), statusId)
  }

  /** The sent description is within GitHub's limit, and is the whole description exactly
      when that has at most 130 characters. */
  lemma {:induction false} DescriptionFits(statusId: string, pr: PullRequest, pass: bool, targetUrl: Option<string>,
                        description: string)
    ensures |StatusPayloadOf(statusId, pr, pass, targetUrl, description).description| <= GitHubDescriptionLimit
    ensures StatusPayloadOf(statusId, pr, pass, targetUrl, description).description == description
      <==> |description| <= DescriptionLimit
  {
    var d := StatusPayloadOf(statusId, pr, pass, targetUrl, description).description;
    if |description| <= DescriptionLimit {
      assert d == description[..|description|] == description;
    }
  }

  /** Sending a status again with the description that was sent sends the same payload. */
  lemma {:induction false} ResendIsStable(statusId: string, pr: PullRequest, pass: bool, targetUrl: Option<string>,
                         description: string)
    ensures var p := StatusPayloadOf(statusId, pr, pass, targetUrl, description);
      StatusPayloadOf(statusId, pr, pass, targetUrl, p.description) == p
  {
    var p := StatusPayloadOf(statusId, pr, pass, targetUrl, description);
    DescriptionFits(statusId, pr, pass, targetUrl, p.description);
  }

  /** What `createStatus` sends: the token of the client and the payload. */
  datatype StatusRequest = StatusRequest(auth: Option<string>, payload: StatusPayload)

  /** `createStatus`: builds the payload, then authenticates a client (without an explicit
      token) and sends it; a failure to authenticate fails the call. Only a client for the
      app touches the token cache, which then advances as `Step` says. */
  method CreateStatus(statusId: string, pr: PullRequest, pass: bool, targetUrl: Option<string>, description: string,
                      env: Env, cache: TokenCache, clockMillis: nat,
                      sign: JwtPayload -> Result<string, string>, mint: string -> Result<string, string>)
    returns (sent: Result<StatusRequest, string>)
    modifies cache
    ensures sent.Ok? ==> sent.value.payload == StatusPayloadOf(statusId, pr, pass, targetUrl, description)
    ensures ChooseTokenSource(None, env) == Missing ==> sent == Err(MissingCredentials)
    ensures ChooseTokenSource(None, env).FromEnv? ==>
      sent == Ok(StatusRequest(env.githubToken, StatusPayloadOf(statusId, pr, pass, targetUrl, description)))
    ensures !ChooseTokenSource(None, env).FromApp? ==> unchanged(cache)
    ensures ChooseTokenSource(None, env).FromApp? ==>
      var o := Step(old(cache.latestToken), old(cache.latestTokenExpiration), Seconds(clockMillis),
                    env.githubAppId, sign, mint);
      && cache.latestToken == o.token && cache.latestTokenExpiration == o.expiration
      && (o.result.Err? ==> sent == Err(o.result.error))
      && (o.result.Ok? ==>
            sent == Ok(StatusRequest(o.result.value, StatusPayloadOf(statusId, pr, pass, targetUrl, description))))
  {
    var data := StatusPayloadOf(statusId, pr, pass, targetUrl, description);
    var client := GetAuthenticatedClient(None, env, cache, clockMillis, sign, mint);
    if client.Err? {
      return Err(client.error);
    }
    return Ok(StatusRequest(client.value, data));
  }

  /** A request parameter: a string or a number. */
  datatype Param = StringParam(s: string) | NumberParam(n: int)

  /** The query of `getCommits`: `Object.assign({per_page: 100}, params)`, so the caller's
      keys override the default page size. */
  function CommitsQuery(params: map<string, Param>): (q: map<string, Param>)
    ensures q.Keys == params.Keys + {"per_page"}
    ensures forall k :: k in params ==> q[k] == params[k]
    ensures "per_page" !in params ==> q["per_page"] == NumberParam(100)
  {
    map["per_page" := NumberParam(100)] + params
  }

  /** The parameters `getJiraInfo` passes: the base repository and the pull-request number. */
  function PullRequestParams(pr: PullRequest): map<string, Param>
  {
    map["owner" := StringParam(pr.base.repo.ownerLogin), "repo" := StringParam(pr.base.repo.name),
        "pull_number" := NumberParam(pr.number)]
  }

  /** The commit list of a pull request is asked for in pages of 100, for the base repository. */
  lemma PullRequestQuery(pr: PullRequest)
    ensures var q := CommitsQuery(PullRequestParams(pr));
      q.Keys == {"owner", "repo", "pull_number", "per_page"} && q["per_page"] == NumberParam(100)
      && q["owner"] == StringParam(pr.base.repo.ownerLogin) && q["repo"] == StringParam(pr.base.repo.name)
      && q["pull_number"] == NumberParam(pr.number)
  {
  }
}
