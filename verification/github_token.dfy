/** The GitHub App token cache of `getNewToken`: two module-level variables, the latest
    installation token and its expiration (seconds since the epoch), reused while more
    than a minute of validity is left and otherwise replaced by a freshly minted token.
    Signing the app's JSON Web Token and the installation-token request are outside the
    model: they are the functions `sign` and `mint`. */
module GitHubToken {
  import opened Wrappers

  /** Seconds of validity below which the cached token is not reused. */
  const RefreshMargin: int := 60

  /** Seconds a freshly minted token is taken to live. */
  const Lifetime: int := 300

  /** The claims of the app's JSON Web Token: issued at, expires at, issuer (the app id). */
  datatype JwtPayload = JwtPayload(iat: int, exp: int, iss: Option<string>)

  /** The result of one call and the cache it leaves. */
  datatype Outcome = Outcome(result: Result<Option<string>, string>, token: Option<string>, expiration: int)

  /** `parseInt(new Date().valueOf() / 1000)`: whole seconds of a millisecond clock. */
  function Seconds(clockMillis: nat): nat
  {
    clockMillis / 1000
  }

  /** One call of `getNewToken` at `now` on the cache `(token, expiration)`. The cached token
      is returned while `now + 60` is before its expiration; otherwise a token is signed with
      the claims `(now, now + 300, appId)` and exchanged for an installation token, and
      only when both steps succeed is the cache overwritten. */
  function Step(token: Option<string>, expiration: int, now: int, appId: Option<string>,
                sign: JwtPayload -> Result<string, string>, mint: string -> Result<string, string>): (o: Outcome)
    ensures now + RefreshMargin < expiration ==> o == Outcome(Ok(token), token, expiration)
    ensures o.result.Err? ==> o.token == token && o.expiration == expiration
    ensures (o.token, o.expiration) != (token, expiration) ==>
      o.token.Some? && o.expiration == now + Lifetime && o.result == Ok(o.token)
  {
    if now + RefreshMargin < expiration then Outcome(Ok(token), token, expiration)
    else
      var exp := now + Lifetime;
      match sign(JwtPayload(now, exp, appId))
      case Err(e) => Outcome(Err(e), token, expiration)
      case Ok(jwt) =>
        match mint(jwt)
        case Err(e) => Outcome(Err(e), token, expiration)
        case Ok(t) => Outcome(Ok(Some(t)), Some(t), exp)
  }

  /** A successful refresh stores the minted token with expiration `now + 300`, and the
      token is the one minted for the JSON Web Token signed with those claims. */
  lemma RefreshStoresMintedToken(token: Option<string>, expiration: int, now: int, appId: Option<string>,
                                 sign: JwtPayload -> Result<string, string>, mint: string -> Result<string, string>)
    requires !(now + RefreshMargin < expiration)
    requires sign(JwtPayload(now, now + Lifetime, appId)).Ok?
    requires mint(sign(JwtPayload(now, now + Lifetime, appId)).value).Ok?
    ensures var t := mint(sign(JwtPayload(now, now + Lifetime, appId)).value).value;
      Step(token, expiration, now, appId, sign, mint) == Outcome(Ok(Some(t)), Some(t), now + Lifetime)
  {
  }

  /** After a refresh at `t`, every call at a time `t'` before `t + 240` returns the same
      token and changes nothing, whatever signing and minting would do. */
  lemma {:induction false} ReuseWindow(token: Option<string>, expiration: int, t: int, t': int, appId: Option<string>,
                     sign: JwtPayload -> Result<string, string>, mint: string -> Result<string, string>,
                     appId': Option<string>,
                     sign': JwtPayload -> Result<string, string>, mint': string -> Result<string, string>)
    requires !(t + RefreshMargin < expiration)
    requires Step(token, expiration, t, appId, sign, mint).result.Ok?
    requires t' < t + Lifetime - RefreshMargin
    ensures var o := Step(token, expiration, t, appId, sign, mint);
      Step(o.token, o.expiration, t', appId', sign', mint') == Outcome(o.result, o.token, o.expiration)
  {
    var o := Step(token, expiration, t, appId, sign, mint);
    assert o.expiration == t + Lifetime;
  }

  /** A cache that holds no token has expiration 0; calls keep it so, and a call that
      succeeds returns a token. */
  predicate Consistent(token: Option<string>, expiration: int)
  {
    token.None? ==> expiration == 0
  }

  lemma StepKeepsConsistent(token: Option<string>, expiration: int, now: nat, appId: Option<string>,
                            sign: JwtPayload -> Result<string, string>, mint: string -> Result<string, string>)
    requires Consistent(token, expiration)
    ensures var o := Step(token, expiration, now, appId, sign, mint);
      Consistent(o.token, o.expiration) && (o.result.Ok? ==> o.result.value.Some?)
  {
  }

  /** The module starts with no token and expiration 0, so the first call at any time
      from the epoch on signs and mints a new token. */
  lemma FirstCallRefreshes(now: nat, appId: Option<string>,
                           sign: JwtPayload -> Result<string, string>, mint: string -> Result<string, string>)
    ensures var o := Step(None, 0, now, appId, sign, mint);
      o.result.Ok? ==> o.expiration == now + Lifetime
  {
  }

  /** The two module-level variables of `github-token.js`. */
  class TokenCache {
    var latestToken: Option<string>
    var latestTokenExpiration: int

    /** The state at module load: `latestToken = null`, `latestTokenExpiration = 0`. */
    constructor()
      ensures latestToken == None && latestTokenExpiration == 0
      ensures Consistent(latestToken, latestTokenExpiration)
    {
      latestToken := None;
      latestTokenExpiration := 0;
    }

    /** `getNewToken`: reuses or refreshes the cached token as `Step` describes. */
    method GetNewToken(clockMillis: nat, appId: Option<string>,
                       sign: JwtPayload -> Result<string, string>, mint: string -> Result<string, string>)
      returns (r: Result<Option<string>, string>)
      modifies this
      ensures Outcome(r, latestToken, latestTokenExpiration)
        == Step(old(latestToken), old(latestTokenExpiration), Seconds(clockMillis), appId, sign, mint)
    {
      var nowTimestamp := Seconds(clockMillis);
      if nowTimestamp + RefreshMargin < latestTokenExpiration {
        return Ok(latestToken);
      }
      var expiration := nowTimestamp + Lifetime;
      var payload := JwtPayload(nowTimestamp, expiration, appId);
      var jwtToken := sign(payload);
      if jwtToken.Err? {
        return Err(jwtToken.error);
      }
      var result := mint(jwtToken.value);
      if result.Err? {
        return Err(result.error);
      }
      latestToken := Some(result.value);
      latestTokenExpiration := expiration;
      return Ok(latestToken);
    }
  }
}
