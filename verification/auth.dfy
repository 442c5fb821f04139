/** The authentication gate of the mutating routes (`utils/auth.js`): where a
    caller's secret is looked for, and the pass/reject decision. */
module Auth {
  import opened Wrappers

  /** The parts of an HTTP request the gate reads (`verb` is the HTTP
      method). `None` is an absent
      parameter, header or body field (or an absent body). */
  datatype Request = Request(
    verb: string,
    querySecret: Option<string>,
    sleepySecretHeader: Option<string>,
    authorization: Option<string>,
    bodySecret: Option<string>)

  /** The four places a secret may come from, in precedence order. */
  datatype Channel = QueryParam | SleepySecretHeader | AuthorizationHeader | BodyField

  function Rank(c: Channel): nat {
    match c
    case QueryParam => 0
    case SleepySecretHeader => 1
    case AuthorizationHeader => 2
    case BodyField => 3
  }

  const BearerPrefix: string := "Bearer "

  predicate StartsWith(s: string, prefix: string) {
    |prefix| <= |s| && s[..|prefix|] == prefix
  }

  /** What one channel offers on its own: a non-empty query parameter or
      `sleepy-secret` header, the remainder of an `Authorization` header that
      begins with exactly "Bearer " (possibly empty), or a non-empty body
      field of a POST request. */
  function Candidate(req: Request, c: Channel): Option<string> {
    match c
    case QueryParam => if Truthy(req.querySecret) then req.querySecret else None
    case SleepySecretHeader => if Truthy(req.sleepySecretHeader) then req.sleepySecretHeader else None
    case AuthorizationHeader =>
      if req.authorization.Some? && StartsWith(req.authorization.value, BearerPrefix)
      then Some(req.authorization.value[|BearerPrefix|..]) else None
    case BodyField => if req.verb == "POST" && Truthy(req.bodySecret) then req.bodySecret else None
  }

  /** extractSecret: the first channel, in precedence order, that offers a
      candidate decides; `None` is the `null` returned when none does. */
  function ExtractSecret(req: Request): (s: Option<string>)
    ensures s.None? <==> forall c :: Candidate(req, c).None?
    ensures forall c :: Candidate(req, c).Some? && (forall d :: Rank(d) < Rank(c) ==> Candidate(req, d).None?)
                        ==> s == Candidate(req, c)
  {
    if Truthy(req.querySecret) then
      assert Candidate(req, QueryParam).Some?;
      req.querySecret
    else if Truthy(req.sleepySecretHeader) then
      assert Candidate(req, SleepySecretHeader).Some? && Rank(SleepySecretHeader) == 1;
      req.sleepySecretHeader
    else if Truthy(req.authorization) && StartsWith(req.authorization.value, BearerPrefix) then
      assert Candidate(req, AuthorizationHeader).Some? && Rank(AuthorizationHeader) == 2;
      Some(req.authorization.value[7..])
    else if req.verb == "POST" && Truthy(req.bodySecret) then
      assert Candidate(req, BodyField).Some?;
      req.bodySecret
    else
      assert Candidate(req, AuthorizationHeader).None?;
      None
  }

  /** What the gate does with a request: let it through to the handler, or
      answer with a status code and message. */
  datatype Decision = Pass | Reject(code: int, message: string)

  const NotConfigured: string := "Authentication secret is not configured"
  const NoSecret: string := "No secret provided, please provide a valid secret for authentication"
  const IncorrectSecret: string := "Provided secret is incorrect, please check and try again"

  /** authMiddleware, with the configured secret (`SLEEPY_SECRET`) as a
      parameter. The log lines, including the one that writes the expected
      secret out on a mismatch, are not modelled. */
  function AuthMiddleware(configured: Option<string>, req: Request): (d: Decision)
    ensures !Truthy(configured) ==> d == Reject(500, NotConfigured)
    ensures Truthy(configured) && !Truthy(ExtractSecret(req)) ==> d == Reject(401, NoSecret)
    ensures Truthy(configured) && Truthy(ExtractSecret(req)) && ExtractSecret(req) != configured
            ==> d == Reject(401, IncorrectSecret)
    ensures d.Pass? <==> Truthy(configured) && ExtractSecret(req) == configured
  {
    if !Truthy(configured) then Reject(500, NotConfigured)
    else
      var secret := ExtractSecret(req);
      if !Truthy(secret) then Reject(401, NoSecret)
      else if secret.value != configured.value then Reject(401, IncorrectSecret)
      else Pass
  }

  /** A request that carries `secret` in channel `c` only; a body field is
      sent with POST, everything else with GET. */
  function OnlyIn(c: Channel, secret: string): (req: Request)
    ensures c == BodyField <==> req.verb == "POST"
  {
    match c
    case QueryParam => Request("GET", Some(secret), None, None, None)
    case SleepySecretHeader => Request("GET", None, Some(secret), None, None)
    case AuthorizationHeader => Request("GET", None, None, Some(BearerPrefix + secret), None)
    case BodyField => Request("POST", None, None, None, Some(secret))
  }

  /** The correct secret in any single channel is accepted. */
  lemma SecretInAnyChannelPasses(secret: string, c: Channel)
    requires secret != ""
    ensures AuthMiddleware(Some(secret), OnlyIn(c, secret)) == Pass
  {
    if c == AuthorizationHeader {
      var h := BearerPrefix + secret;
      assert h[..|BearerPrefix|] == BearerPrefix;
      assert h[|BearerPrefix|..] == secret;
    }
  }

  /** Without a configured secret every request gets the configuration
      error, whatever it carries. */
  lemma UnconfiguredRejectsAll(configured: Option<string>, req: Request)
    requires configured == None || configured == Some("")
    ensures AuthMiddleware(configured, req) == Reject(500, NotConfigured)
  {
  }

  /** The first channel that offers a candidate decides: a wrong secret there
      is rejected even when a later channel carries the right one. */
  lemma HigherChannelShadowsLower(configured: string, req: Request, c: Channel, wrong: string)
    requires configured != ""
    requires Candidate(req, c) == Some(wrong) && wrong != "" && wrong != configured
    requires forall d :: Rank(d) < Rank(c) ==> Candidate(req, d).None?
    ensures AuthMiddleware(Some(configured), req) == Reject(401, IncorrectSecret)
  {
  }

  /** "Authorization: Bearer " with nothing after the prefix yields the empty
      candidate and ends the search: the body is not read and the request
      counts as carrying no secret. */
  lemma EmptyBearerStopsSearch(configured: string, req: Request)
    requires configured != ""
    requires !Truthy(req.querySecret) && !Truthy(req.sleepySecretHeader)
    requires req.authorization == Some(BearerPrefix)
    ensures ExtractSecret(req) == Some("")
    ensures AuthMiddleware(Some(configured), req) == Reject(401, NoSecret)
  {
    var h := req.authorization.value;
    assert h[..|BearerPrefix|] == BearerPrefix;
    assert StartsWith(h, BearerPrefix);
    assert h[7..] == "";
  }

  /** The prefix test is case-sensitive: "bearer x" offers nothing. */
  lemma LowerCaseBearerIgnored(req: Request, rest: string)
    requires req.authorization == Some("bearer " + rest)
    ensures Candidate(req, AuthorizationHeader).None?
  {
    var h := "bearer " + rest;
    assert h[0] == 'b' != BearerPrefix[0];
  }

  /** The body field is consulted only for POST requests. */
  lemma BodyOnlyForPost(req: Request, body: Option<string>)
    requires req.verb != "POST"
    ensures ExtractSecret(req.(bodySecret := body)) == ExtractSecret(req)
  {
  }
}
