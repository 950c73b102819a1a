/**
 * HarvardKey_AuthController: the address of the Harvard Key auth service, the counter
 * that keeps the controller from redirecting to it in a loop, and the gating steps of
 * the login action that hands the identity cookie to the authentication adapter.
 */
module AuthControllers {
  import opened Wrappers
  import opened Php
  import opened UrlEncoding
  import opened TokenFormat
  import opened Directory
  import opened Reconciliation
  import opened JsonIdentityTokens
  import opened AuthAdapters

  const ADMIN_SUFFIX: string := "/admin"
  const RETURN_TO: string := "?return_to="

  // ---------------------------------------------------------------- the service address

  predicate EndsWithAdmin(base: string) {
    |base| >= |ADMIN_SUFFIX| && base[|base| - |ADMIN_SUFFIX|..] == ADMIN_SUFFIX
  }

  /** The base URL with one trailing "/admin" removed, so that the auth service returns
      the user to the public site; any other base URL is kept as it is. */
  function StripAdminSuffix(base: string): (r: string)
    ensures EndsWithAdmin(base) ==> r + ADMIN_SUFFIX == base
    ensures !EndsWithAdmin(base) ==> r == base
  {
    if EndsWithAdmin(base) then base[..|base| - |ADMIN_SUFFIX|] else base
  }

  /** _getHarvardKeyAuthServiceUrl: the configured service URL with one query parameter,
      return_to, holding the percent-encoded address of the login action. `loginUrl` is
      what the view's url helper gives for /harvard-key/auth/login. */
  function ServiceUrl(configUrl: string, baseUrl: string, loginUrl: string): (r: string)
    requires IsByteString(baseUrl) && IsByteString(loginUrl)
    ensures |configUrl + RETURN_TO| <= |r| && r[..|configUrl + RETURN_TO|] == configUrl + RETURN_TO
    ensures RawUrlDecode(r[|configUrl + RETURN_TO|..]) == StripAdminSuffix(baseUrl) + loginUrl
    ensures forall k :: |configUrl + RETURN_TO| <= k < |r| ==> r[k] !in "&=#?+/ "
  {
    var returnTo := StripAdminSuffix(baseUrl) + loginUrl;
    assert IsByteString(returnTo) by {
      forall k | 0 <= k < |returnTo| ensures returnTo[k] as int < 256 {
        if k >= |StripAdminSuffix(baseUrl)| {
          assert returnTo[k] == loginUrl[k - |StripAdminSuffix(baseUrl)|];
        } else {
          assert returnTo[k] == baseUrl[k];
        }
      }
    }
    var encoded := RawUrlEncode(returnTo);
    DecodeEncode(returnTo);
    EncodedHasNoDelimiters(returnTo);
    var r := configUrl + RETURN_TO + encoded;
    assert r[|configUrl + RETURN_TO|..] == encoded;
    r
  }

  /** Only the "/admin" at the very end is removed, and only once. */
  lemma StripRemovesOneSuffix(site: string)
    ensures StripAdminSuffix(site + ADMIN_SUFFIX) == site
    ensures StripAdminSuffix(site + ADMIN_SUFFIX + ADMIN_SUFFIX) == site + ADMIN_SUFFIX
  {
    var s1 := site + ADMIN_SUFFIX;
    assert s1[|s1| - |ADMIN_SUFFIX|..] == ADMIN_SUFFIX;
    var s2 := s1 + ADMIN_SUFFIX;
    assert s2[|s2| - |ADMIN_SUFFIX|..] == ADMIN_SUFFIX;
    assert s2[..|s2| - |ADMIN_SUFFIX|] == s1;
  }

  /** The admin and the public base URL of one site lead to the same service address. */
  lemma AdminAndPublicAgree(configUrl: string, site: string, loginUrl: string)
    requires IsByteString(site) && IsByteString(loginUrl) && !EndsWithAdmin(site)
    ensures IsByteString(site + ADMIN_SUFFIX)
    ensures ServiceUrl(configUrl, site + ADMIN_SUFFIX, loginUrl) == ServiceUrl(configUrl, site, loginUrl)
  {
    StripRemovesOneSuffix(site);
    assert IsByteString(site + ADMIN_SUFFIX) by {
      forall k | 0 <= k < |site + ADMIN_SUFFIX| ensures (site + ADMIN_SUFFIX)[k] as int < 256 {
        if k < |site| {
          assert (site + ADMIN_SUFFIX)[k] == site[k];
        }
      }
    }
  }

  // ---------------------------------------------------------------- the redirect counter

  /** One step of _redirectToHarvardKeyService on the counter: a positive counter is
      reset to 0 and no redirect is made; otherwise the counter grows by one and the
      user is redirected. The pair is the new counter and whether a redirect was made. */
  function RedirectStep(count: int): (r: (int, bool))
    ensures r.1 <==> count <= 0
    ensures r.1 ==> r.0 == count + 1
    ensures !r.1 ==> r.0 == 0
    ensures count >= 0 ==> (r.0 > 0 <==> r.1)
  {
    if count > 0 then (0, false) else (1 + count, true)
  }

  /** intval of a setting or cookie that may be absent, `absent` standing for its default:
      the harvardkeyredirects cookie defaults to null, which intval reads as 0, and the
      expires setting to 600. */
  function IntvalOr(v: Option<string>, absent: int): (r: int)
    ensures v.None? ==> r == absent
    ensures forall n: int {:trigger IntToString(n)} :: v == Some(IntToString(n)) ==> r == n
  {
    match v
    case None => absent
    case Some(s) =>
      assert forall n: int {:trigger IntToString(n)} :: s == IntToString(n) ==> StrIntval(s) == n by {
        forall n: int | s == IntToString(n) ensures StrIntval(s) == n {
          IntvalOfIntToString(n);
        }
      }
      StrIntval(s)
  }

  /** A cookie as $_COOKIE holds it: a string, or an array when the browser sends cookies
      named `name[key]`; of an array only the number of its entries matters here. */
  datatype Cookie = Plain(text: string) | Array(entries: nat)

  /** The harvardkeyredirects cookie as the counter reads it: intval of the string, 0 for
      an absent cookie, and 0 or 1 for an array as it is empty or not. */
  function CounterOf(cookie: Option<Cookie>): (r: int)
    ensures cookie.None? ==> r == 0
    ensures forall n: int {:trigger IntToString(n)} :: cookie == Some(Plain(IntToString(n))) ==> r == n
    ensures cookie.Some? && cookie.value.Array? ==> 0 <= r <= 1 && (r == 1 <==> CookiePresent(cookie))
  {
    match cookie
    case None => 0
    case Some(Plain(s)) => IntvalOr(Some(s), 0)
    case Some(Array(n)) => if n == 0 then 0 else 1
  }

  /** An array counter cookie is never negative, so it lets at most one redirect through
      before the counter is reset. */
  lemma ArrayCounterRedirectsAtMostOnce(n: nat)
    ensures var c := CounterOf(Some(Array(n)));
      !(RedirectStep(c).1 && RedirectStep(RedirectStep(c).0).1)
  {
    NoTwoRedirectsInARow(CounterOf(Some(Array(n))));
  }

  /** The counter the browser carries from one request to the next. */
  class RedirectCounter {
    var count: int

    constructor (cookie: Option<Cookie>)
      ensures count == CounterOf(cookie)
    {
      count := CounterOf(cookie);
    }

    /** _redirectToHarvardKeyService: the Location header sent, if any. */
    method Redirect(serviceUrl: string) returns (location: Option<string>)
      modifies this
      ensures (count, location.Some?) == RedirectStep(old(count))
      ensures location.Some? ==> location.value == serviceUrl
    {
      if count > 0 {
        count := 0;
        return None;
      }
      count := 1 + count;
      location := Some(serviceUrl);
    }
  }

  /** A counter that starts non-negative stays non-negative. */
  lemma CounterStaysNonNegative(count: int)
    requires count >= 0
    ensures RedirectStep(count).0 >= 0
  {
  }

  /** From a non-negative counter, two consecutive requests never both redirect: the
      loop the counter guards against is broken after at most one redirect. */
  lemma NoTwoRedirectsInARow(count: int)
    requires count >= 0
    ensures !(RedirectStep(count).1 && RedirectStep(RedirectStep(count).0).1)
  {
  }

  /** Of any three consecutive requests from a non-negative counter, at most two redirect,
      and the second one follows a request that did not. */
  lemma RedirectsAlternate(count: int)
    requires count >= 0
    ensures var s1 := RedirectStep(count); var s2 := RedirectStep(s1.0);
      s1.1 != s2.1 && s2.0 >= 0
  {
  }

  /** A counter cookie the controller never writes, "-1", is read as -1 and lets two
      redirects through in a row before the counter turns positive. */
  lemma NegativeCounterRedirectsTwice()
    ensures RedirectStep(CounterOf(Some(Plain("-1")))).1
    ensures RedirectStep(RedirectStep(CounterOf(Some(Plain("-1")))).0).1
  {
    assert "-1" == IntToString(-1);
  }

  // ---------------------------------------------------------------- the login action

  const DEFAULT_EXPIRES: int := 600
  const RESULT_FAILED: string := "Authentication Failed"
  const RESULT_OK: string := "Authentication Successful"
  const MSG_COOKIES: string := "Cookies must be enabled to authenticate. Please ensure that you have cookies enabled in your browser and then try logging in again. If the problem persists, please contact support."
  const HOME: string := "/"

  function SuccessMessage(identity: Option<nat>): string {
    "Harvard Key credentials accepted and you have been logged in as user "
      + (match identity case Some(n) => IntToString(n) case None => "")
      + ". You will be redirected."
  }

  /** intval of the configured expiry, 600 seconds when the setting is absent. */
  function ExpiresSetting(config: Option<string>): int {
    IntvalOr(config, DEFAULT_EXPIRES)
  }

  /** What the login page ends up showing, or the exception that escapes the action. */
  datatype LoginOutcome =
    | Shown(authResult: string, messages: seq<string>, redirect: Option<string>)
    | Thrown(error: string)

  datatype LoginView = LoginView(outcome: LoginOutcome, tables: Tables)

  /** The configuration and the request the login action reads; None is a setting that is
      not there, which PHP reads as null. */
  datatype LoginRequest = LoginRequest(
    cookie: Option<Cookie>,
    secret: Option<string>,
    expiresConfig: Option<string>,
    allowedEmails: Option<string>,
    now: int)

  /** The TypeErrors PHP raises when an array or null reaches a parameter declared `string`. */
  const ERR_TOKEN_ARRAY: string := "JsonIdentityToken::__construct(): Argument #1 ($token) must be of type string, array given"
  const ERR_SECRET_NULL: string := "JsonIdentityToken::__construct(): Argument #2 ($secret) must be of type string, null given"
  const ERR_EMAILS_NULL: string := "HarvardKey_Auth_Adapter::__construct(): Argument #3 ($emails) must be of type string, null given"

  /** `!$cookie` is false: the cookie is a string other than "" and "0", or a non-empty array. */
  predicate CookiePresent(cookie: Option<Cookie>) {
    match cookie
    case None => false
    case Some(Plain(s)) => StrTruthy(s)
    case Some(Array(n)) => n > 0
  }

  /** loginAction as a function of the tables before the request. */
  function Login(t: Tables, req: LoginRequest, builtins: Builtins, policy: Policy, env: Env): (v: LoginView)
    ensures !CookiePresent(req.cookie) || v.outcome.Thrown? ==> v.tables == t
    ensures v.outcome.Shown? ==> (v.outcome.redirect.Some? <==> v.outcome.authResult == RESULT_OK)
    ensures v.outcome.Shown? && v.outcome.redirect.Some? ==> v.outcome.redirect.value == HOME
    ensures v.outcome.Shown? && v.outcome.redirect.Some? ==> CookiePresent(req.cookie) && req.cookie.value.Plain?
  {
    if !CookiePresent(req.cookie) then LoginView(Shown(RESULT_FAILED, [MSG_COOKIES], None), t)
    else
      var expires := ExpiresSetting(req.expiresConfig);
      if req.cookie.value.Array? then LoginView(Thrown(ERR_TOKEN_ARRAY), t)
      else if req.secret.None? then LoginView(Thrown(ERR_SECRET_NULL), t)
      else match ConstructionError(req.secret.value, expires)
      case Some(e) => LoginView(Thrown(e), t)
      case None =>
        if req.allowedEmails.None? then LoginView(Thrown(ERR_EMAILS_NULL), t)
        else
        var st := TokenFormat.Parse(req.cookie.value.text, builtins.jsonDecode, true);
        var who := Identity(Field(st, "id"), Field(st, "name"), Field(st, "email"));
        var v := Reconciliation.Authenticate(t, TokenFormat.IsValid(st, req.secret.value, expires, builtins.hmac, req.now),
                                             who, req.allowedEmails.value, policy, env);
        if v.result.code != AuthSuccess then LoginView(Shown(RESULT_FAILED, v.result.messages, None), v.tables)
        else LoginView(Shown(RESULT_OK, [SuccessMessage(v.result.identity)], Some(HOME)), v.tables)
  }

  /** loginAction: check the cookie, build the token and the adapter, authenticate, and
      report the adapter's verdict. */
  method LoginAction(db: Db, req: LoginRequest, builtins: Builtins, policy: Policy, env: Env)
    returns (outcome: LoginOutcome)
    modifies db
    ensures LoginView(outcome, db.Contents()) == Login(old(db.Contents()), req, builtins, policy, env)
  {
    if !CookiePresent(req.cookie) {
      return Shown(RESULT_FAILED, [MSG_COOKIES], None);
    }
    var expires := ExpiresSetting(req.expiresConfig);
    if req.cookie.value.Array? {
      return Thrown(ERR_TOKEN_ARRAY);
    }
    if req.secret.None? {
      return Thrown(ERR_SECRET_NULL);
    }
    var made := JsonIdentityTokens.New(req.cookie.value.text, req.secret.value, expires, builtins);
    if made.Failure? {
      return Thrown(made.error);
    }
    if req.allowedEmails.None? {
      return Thrown(ERR_EMAILS_NULL);
    }
    var adapter := new AuthAdapter(db, made.value, req.allowedEmails.value);
    var result := adapter.Authenticate(req.now, policy, env);
    if result.code != AuthSuccess {
      return Shown(RESULT_FAILED, result.messages, None);
    }
    outcome := Shown(RESULT_OK, [SuccessMessage(result.identity)], Some(HOME));
  }

  // ---------------------------------------------------------------- properties of the login action

  /** Without the identity cookie nothing is built, nothing is stored and the page asks
      for cookies to be enabled. */
  lemma MissingCookieTouchesNothing(t: Tables, req: LoginRequest, builtins: Builtins, policy: Policy, env: Env)
    requires !CookiePresent(req.cookie)
    ensures Login(t, req, builtins, policy, env) == LoginView(Shown(RESULT_FAILED, [MSG_COOKIES], None), t)
  {
  }

  /** A missing secret, a secret under 32 bytes, a negative expiry or a missing whitelist
      setting makes the action throw before the adapter is reached, with the tables as they were. */
  lemma BadConfigurationThrows(t: Tables, req: LoginRequest, builtins: Builtins, policy: Policy, env: Env)
    requires CookiePresent(req.cookie)
    ensures var v := Login(t, req, builtins, policy, env);
      && (v.outcome.Thrown? <==> (req.cookie.value.Array? || req.secret.None? || |req.secret.value| < MIN_SECRET_SIZE
                                  || ExpiresSetting(req.expiresConfig) < 0 || req.allowedEmails.None?))
      && (v.outcome.Thrown? ==> v.tables == t)
      && (req.cookie.value.Array? ==> v.outcome == Thrown(ERR_TOKEN_ARRAY))
      && (req.cookie.value.Plain? && req.secret.None? ==> v.outcome == Thrown(ERR_SECRET_NULL))
      && ((req.cookie.value.Plain? && req.secret.Some? && ConstructionError(req.secret.value, ExpiresSetting(req.expiresConfig)).None?
           && req.allowedEmails.None?) ==> v.outcome == Thrown(ERR_EMAILS_NULL))
  {
  }

  /** The action redirects to "/" exactly when the adapter answers with success, and on
      failure it shows the adapter's own messages. */
  lemma RedirectExactlyOnSuccess(t: Tables, req: LoginRequest, builtins: Builtins, policy: Policy, env: Env)
    requires CookiePresent(req.cookie) && req.cookie.value.Plain? && req.secret.Some? && req.allowedEmails.Some?
    requires ConstructionError(req.secret.value, ExpiresSetting(req.expiresConfig)).None?
    ensures var expires := ExpiresSetting(req.expiresConfig);
      var st := TokenFormat.Parse(req.cookie.value.text, builtins.jsonDecode, true);
      var a := Reconciliation.Authenticate(t, TokenFormat.IsValid(st, req.secret.value, expires, builtins.hmac, req.now),
                                           Identity(Field(st, "id"), Field(st, "name"), Field(st, "email")),
                                           req.allowedEmails.value, policy, env);
      var v := Login(t, req, builtins, policy, env);
      && v.outcome.Shown? && v.tables == a.tables
      && (v.outcome.redirect.Some? <==> a.result.code == AuthSuccess)
      && (v.outcome.redirect.Some? ==> v.outcome.redirect.value == HOME && v.outcome.authResult == RESULT_OK)
      && (v.outcome.redirect.None? ==> v.outcome.authResult == RESULT_FAILED && v.outcome.messages == a.result.messages)
  {
  }

  /** Whatever the request, the login action leaves the tables valid. */
  lemma LoginKeepsValid(t: Tables, req: LoginRequest, builtins: Builtins, policy: Policy, env: Env)
    requires TablesValid(t)
    ensures TablesValid(Login(t, req, builtins, policy, env).tables)
  {
    if CookiePresent(req.cookie) {
      var expires := ExpiresSetting(req.expiresConfig);
      if req.cookie.value.Plain? && req.secret.Some? && ConstructionError(req.secret.value, expires).None? && req.allowedEmails.Some? {
        var st := TokenFormat.Parse(req.cookie.value.text, builtins.jsonDecode, true);
        var who := Identity(Field(st, "id"), Field(st, "name"), Field(st, "email"));
        var valid := TokenFormat.IsValid(st, req.secret.value, expires, builtins.hmac, req.now);
        if valid && IsEmailAllowed(req.allowedEmails.value, who.email) {
          ReconcileKeepsValid(t, who, policy, env);
        }
      }
    }
  }
}
