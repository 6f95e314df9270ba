/** The protocol engine of `authenticate`, as a function of the configuration,
    the request, the current time and the agent's state before the call. It
    gives the call's outcome (its `bool` result or an exception), the final
    contents of the `_authentication_response` array and the effects on the
    HTTP response (cookies set, redirects) in the order they happen.

    A `Machine` carries the array, the effects so far and whether an
    exception has been thrown; writing past the end of the array throws, and
    once thrown nothing more happens. */
module Protocol {
  import opened Text
  import opened Transport
  import opened TimeCodec
  import opened CookieMac
  import opened Site

  // ---------------------------------------------------------------------------
  // Constants
  // ---------------------------------------------------------------------------

  const ProtocolVersion: string := "3"
  const ResponseVersion: string := "3"
  /** The pre-session cookie's value. */
  const TestString: string := "Test"
  /** A session cookie value the login service uses to mean "logged out". */
  const WlsLogout: string := "Not-authenticated"

  /** Slots of `_authentication_response`. */
  const AuthVer: nat := 0
  const AuthStatus: nat := 1
  const AuthMsg: nat := 2
  const AuthIssue: nat := 3
  const AuthExpire: nat := 4
  const AuthId: nat := 5
  const AuthPrincipal: nat := 6
  const AuthPtags: nat := 7
  const AuthAuth: nat := 8
  const AuthSso: nat := 9
  const AuthParams: nat := 10
  const AuthSig: nat := 11
  const AuthSize: nat := 12

  /** Fields of the login service's `WLS-Response`, once the key id and the
      signature have been taken off its end. */
  const WlsVer: nat := 0
  const WlsStatus: nat := 1
  const WlsMsg: nat := 2
  const WlsIssue: nat := 3
  const WlsId: nat := 4
  const WlsUrl: nat := 5
  const WlsPrincipal: nat := 6
  const WlsPtags: nat := 7
  const WlsAuth: nat := 8
  const WlsSso: nat := 9
  const WlsLife: nat := 10
  const WlsParams: nat := 11
  const WlsKid: nat := 12
  const WlsSig: nat := 13
  const WlsSize: nat := 14

  /** The `status_codes` dictionary. */
  const StatusCodes: map<string, string> := map[
    "200" := "Successful authentication",
    "410" := "The user cancelled the authentication request",
    "510" := "No mutually acceptable authentication types available",
    "520" := "Unsupported protocol version",
    "530" := "General request parameter error",
    "540" := "Interaction would be required",
    "560" := "WAA not authorised",
    "570" := "Authentication declined"]

  const DummyRunMessage: string := "Requested dummy run but session cookie not managed"
  const NoKeyMessage: string := "No key defined for session cookie"
  const NoHostnameMessage: string := "Ucam_Webauth configuration error - mandatory hostname not defined"
  const BadCookieMessage: string := "Session cookie signature invalid"
  const WrongVersionMessage: string := "Wrong protocol version in authentication service reply"
  const BadSignatureMessage: string := "Invalid WLS wls_response signature"
  const FutureMessage: string := "Authentication service reply aparently issued in the future: "
  const StaleMessage: string := "Stale authentication service reply issue at "
  const UrlMismatchMessage: string := "URL in response ticket doesn't match this URL: "
  const NoCookieMessage: string := "Browser is not accepting session cookie"

  // ---------------------------------------------------------------------------
  // The world outside the agent
  // ---------------------------------------------------------------------------

  /** Calls into code the agent does not own: the HMAC-SHA1 digest, whether
      the login service's certificate for a key id can be loaded, the RSA
      signature check against it, and URL encoding. */
  datatype Externals = Externals(
    digest: Digest,
    certificateLoads: string -> bool,
    verify: (string, seq<byte>, string) -> bool,
    urlDecode: string -> string,
    urlEncode: string -> string)

  /** `check_sig(data, sig, key_id)`: a certificate that cannot be loaded
      throws (None); a signature that does not decode, or does not verify,
      gives false. */
  function CheckSig(ext: Externals, data: string, sig: string, keyId: string): (r: Option<bool>)
    ensures r.None? <==> !ext.certificateLoads(keyId)
    ensures r == Some(true)
      <==> ext.certificateLoads(keyId) && WlsDecode(sig).Some? && ext.verify(data, WlsDecode(sig).value, keyId)
  {
    if !ext.certificateLoads(keyId) then None
    else match WlsDecode(sig)
      case None => Some(false)
      case Some(bytes) => Some(ext.verify(data, bytes, keyId))
  }

  datatype Effect =
    | SetCookie(name: string, value: string, expire: int, path: string, domain: string, secure: bool)
    | Redirect(url: string)

  // ---------------------------------------------------------------------------
  // The state machine
  // ---------------------------------------------------------------------------

  datatype Machine = Machine(resp: seq<NString>, effects: seq<Effect>, threw: bool)

  /** `_authentication_response[i] = v`: throws when i is past the end. */
  function Put(m: Machine, i: nat, v: NString): (r: Machine)
    ensures |r.resp| == |m.resp| && r.effects == m.effects
    ensures !r.threw <==> !m.threw && i < |m.resp|
    ensures !r.threw ==> r.resp == m.resp[i := v]
    ensures m.threw ==> r == m
  {
    if m.threw then m else if i < |m.resp| then m.(resp := m.resp[i := v]) else m.(threw := true)
  }

  function Raise(m: Machine): Machine
  {
    m.(threw := true)
  }

  /** Records an effect on the HTTP response. */
  function Emit(m: Machine, e: Effect): (r: Machine)
    requires !m.threw
    ensures r.resp == m.resp && !r.threw && r.effects == m.effects + [e]
  {
    m.(effects := m.effects + [e])
  }

  /** A phase either returns from `authenticate` (or throws: a stopped machine
      that has thrown) or hands over to the next phase. */
  datatype Step = Stop(m: Machine, ret: bool) | Next(m: Machine)

  predicate Sound(s: Step)
  {
    s.Next? ==> !s.m.threw
  }

  function Continue(m: Machine): (s: Step)
    ensures Sound(s) && s.m == m
  {
    if m.threw then Stop(m, false) else Next(m)
  }

  datatype Outcome = Returned(value: bool) | Threw

  /** Everything one call of `authenticate` leaves behind. */
  datatype Run = Run(outcome: Outcome, resp: seq<NString>, effects: seq<Effect>)

  function Finish(s: Step): (r: Run)
    requires s.Stop?
    ensures r.resp == s.m.resp && r.effects == s.m.effects
    ensures r.outcome == (if s.m.threw then Threw else Returned(s.ret))
  {
    Run(if s.m.threw then Threw else Returned(s.ret), s.m.resp, s.m.effects)
  }

  // ---------------------------------------------------------------------------
  // Preamble checks
  // ---------------------------------------------------------------------------

  /** The configuration checks made before anything else. */
  function Preamble(config: Config, testOnly: bool, m: Machine): (s: Step)
    requires !m.threw
    ensures Sound(s)
    ensures s.Next? <==> !(testOnly && !config.doSession) && !(config.doSession && config.cookieKey.Null?)
                         && config.hostname.Str? && config.hostname.value != ""
    ensures s.Next? ==> s.m == m
    ensures s.Stop? ==> s.ret && s.m.effects == m.effects
  {
    if testOnly && !config.doSession then
      Stop(Put(Put(m, AuthStatus, Str("600")), AuthMsg, Str(DummyRunMessage)), true)
    else if config.doSession && config.cookieKey.Null? then
      Stop(Put(Put(m, AuthStatus, Str("600")), AuthMsg, Str(NoKeyMessage)), true)
    else if config.hostname.Null? || config.hostname.value == "" then
      Stop(Put(Put(m, AuthMsg, Str(NoHostnameMessage)), AuthStatus, Str("600")), true)
    else
      Next(m)
  }

  // ---------------------------------------------------------------------------
  // Session cookie
  // ---------------------------------------------------------------------------

  /** The array `Split` returns: every element a non-null string. */
  function Strs(fields: seq<string>): (r: seq<NString>)
    ensures |r| == |fields| && forall i :: 0 <= i < |fields| ==> r[i] == Str(fields[i])
  {
    seq(|fields|, i requires 0 <= i < |fields| => Str(fields[i]))
  }

  /** The last '!'-field is the MAC of the others joined back with '!'. */
  predicate CookieSigned(digest: Digest, key: string, fields: seq<string>)
    requires |fields| >= 1
  {
    fields[|fields| - 1] == Mac(digest, key, Join(fields[..|fields| - 1], '!'))
  }

  /** The session-cookie phase. It returns with the cookie's state when the
      cookie verifies, is current and is not the one `authassertionid` asks
      to replace; otherwise it passes on the message to show at the login
      service (the timeout or the forced-reauthentication message). */
  function SessionPhase(config: Config, ext: Externals, request: Request, now: int, aid: NString,
                        testOnly: bool, m: Machine, key: string): (r: (Step, NString))
    requires !m.threw
    ensures Sound(r.0)
  {
    if !config.doSession then (Next(m), Null)
    else match SessionCookie(config, request)
      case None => (Next(m), Null)
      case Some(v) =>
        if v == TestString || v == WlsLogout then (Next(m), Null)
        else CheckCookie(config, ext, request, now, aid, testOnly, m, key, v)
  }

  /** A session cookie other than the two markers: its fields become the
      authentication state, then its signature, its lifetime and
      `authassertionid` decide. */
  function CheckCookie(config: Config, ext: Externals, request: Request, now: int, aid: NString,
                       testOnly: bool, m: Machine, key: string, v: string): (r: (Step, NString))
    requires !m.threw
    ensures Sound(r.0)
  {
    var fields := Split(ext.urlDecode(v), '!');
    var m1 := m.(resp := Strs(fields));
    if !CookieSigned(ext.digest, key, fields) then
      (Stop(Put(Put(m1, AuthMsg, Str(BadCookieMessage)), AuthStatus, Str("600")), false), Null)
    else CookieLifetime(config, request, now, aid, testOnly, m1, fields)
  }

  /** A verified cookie is accepted while `issue <= now < expire` and
      `authassertionid` does not name it; accepting a cookie whose stored
      status is not 200 also deletes it. */
  function CookieLifetime(config: Config, request: Request, now: int, aid: NString, testOnly: bool,
                          m1: Machine, fields: seq<string>): (r: (Step, NString))
    requires !m1.threw
    ensures Sound(r.0)
  {
    if |fields| <= AuthExpire then
      (Stop(Raise(m1), false), Null)
    else
      var issue := Iso2Time(Str(fields[AuthIssue]));
      var expire := Iso2Time(Str(fields[AuthExpire]));
      if issue <= now < expire then
        if |fields| <= AuthId then
          (Stop(Raise(m1), false), Null)
        else if aid.Null? || aid.value != fields[AuthId] then
          var m2 := if fields[AuthStatus] != "200" && !testOnly
            then Emit(m1, SetCookie(FullCookieName(config, request), "", 1, config.cookiePath,
                                    config.cookieDomain, UsingHttps(request)))
            else m1;
          (Stop(m2, true), Null)
        else
          (Next(m1), config.forcedReauthMessage)
      else
        (Next(m1), config.timeoutMessage)
  }

  // ---------------------------------------------------------------------------
  // Finding WLS-Response in the query string
  // ---------------------------------------------------------------------------

  /** A `name=value` pair of the query string that carries the response. */
  predicate IsResponsePair(pair: string)
  {
    var p := Split(pair, '=');
    |p| == 2 && p[0] == "WLS-Response"
  }

  /** The value of the last WLS-Response pair, URL-decoded. */
  function ScanPairs(ext: Externals, pairs: seq<string>): (r: Option<string>)
    decreases |pairs|
  {
    if |pairs| == 0 then None
    else if IsResponsePair(pairs[|pairs| - 1]) then Some(ext.urlDecode(Split(pairs[|pairs| - 1], '=')[1]))
    else ScanPairs(ext, pairs[..|pairs| - 1])
  }

  function ResponseParam(ext: Externals, query: NString): Option<string>
  {
    if query.Null? then None else ScanPairs(ext, Split(query.value, '&'))
  }

  // ---------------------------------------------------------------------------
  // Validating the login service's response
  // ---------------------------------------------------------------------------

  /** The issue-time check: too far in the future, or too old. */
  function CheckTiming(config: Config, now: int, m: Machine, issueText: string): (r: Machine)
    requires !m.threw
  {
    var issue := Iso2Time(Str(issueText));
    if issue > now + config.clockSkew + 1 then
      Put(Put(m, AuthMsg, Str(FutureMessage + issueText)), AuthStatus, Str("600"))
    else if now - config.clockSkew - 1 > issue + config.responseTimeout then
      Put(Put(m, AuthMsg, Str(StaleMessage + issueText)), AuthStatus, Str("600"))
    else
      m
  }

  /** The response must be for this URL: the response's URL loses its query
      under `\?.*$`, this URL only a non-empty one under `\?.+$`. */
  function CheckUrl(m: Machine, responseUrl: string, thisUrl: string): (s: Step)
    requires !m.threw
    ensures Sound(s)
  {
    var r := StripQuery(responseUrl, 0);
    var t := StripQuery(thisUrl, 1);
    if t != r then Continue(Put(Put(m, AuthMsg, Str(UrlMismatchMessage + r + " != " + t)), AuthStatus, Str("600")))
    else Next(m)
  }

  /** The validation chain on the response fields (key id and signature
      removed). Only a bad signature returns; the other failures record a
      status and message and let processing go on. */
  function Validate(config: Config, ext: Externals, request: Request, now: int, m: Machine,
                    wls: seq<string>, sig: string, keyId: string, hostname: string): (s: Step)
    requires !m.threw
    ensures Sound(s)
  {
    if |wls| <= WlsStatus then Stop(Raise(m), false)
    else if wls[WlsStatus] == "410" then
      Continue(Put(Put(m, AuthMsg, Str(StatusCodes["410"])), AuthStatus, Str("410")))
    else if wls[WlsVer] != ProtocolVersion then
      Continue(Put(Put(m, AuthMsg, Str(WrongVersionMessage)), AuthStatus, Str("600")))
    else if wls[WlsStatus] != "200" then
      if wls[WlsStatus] !in StatusCodes then Stop(Raise(m), false)
      else
        var desc := StatusCodes[wls[WlsStatus]];
        var m1 := Put(m, AuthMsg, Str(desc));
        if m1.threw || |wls| <= WlsMsg then Stop(Raise(m1), false)
        else Continue(Put(Put(m1, AuthMsg, Str(desc + wls[WlsMsg])), AuthStatus, Str(wls[WlsStatus])))
    else
      ValidateSigned(config, ext, request, now, m, wls, sig, keyId, hostname)
  }

  /** The rest of the chain for a version 3 response with status 200: the
      signature, then the issue time, then the URL. */
  function ValidateSigned(config: Config, ext: Externals, request: Request, now: int, m: Machine,
                          wls: seq<string>, sig: string, keyId: string, hostname: string): (s: Step)
    requires !m.threw
    ensures Sound(s)
  {
    match CheckSig(ext, Join(wls, '!'), sig, keyId)
    case None => Stop(Raise(m), false)
    case Some(false) => Stop(Put(Put(m, AuthMsg, Str(BadSignatureMessage)), AuthStatus, Str("600")), true)
    case Some(true) =>
      if |wls| <= WlsIssue then Stop(Raise(m), false)
      else
        var m1 := CheckTiming(config, now, m, wls[WlsIssue]);
        if m1.threw || |wls| <= WlsUrl then Stop(Raise(m1), false)
        else CheckUrl(m1, wls[WlsUrl], Url(hostname, request))
  }

  // ---------------------------------------------------------------------------
  // Session expiry, recording the response, the session cookie
  // ---------------------------------------------------------------------------

  /** The session's lifetime: the configured maximum, unless the response's
      life field is a positive number below it. A non-empty field that is not
      a 32-bit number makes `Convert.ToInt32` throw (None). */
  function SessionExpiry(maxLife: int, life: string): (r: Option<int>)
    ensures r.None? <==> life != "" && ParseInt32(life).None?
    ensures r.Some? ==> r.value == maxLife || 0 < r.value < maxLife
    ensures r.Some? && life != "" && 0 < ParseInt32(life).value < maxLife ==> r.value == ParseInt32(life).value
    ensures r.Some? && (life == "" || ParseInt32(life).value <= 0 || ParseInt32(life).value >= maxLife)
      ==> r.value == maxLife
  {
    if life == "" then Some(maxLife)
    else match ParseInt32(life)
      case None => None
      case Some(n) => Some(if 0 < n < maxLife then n else maxLife)
  }

  /** `Array.Resize`: pads with nulls or truncates. */
  function Resize(fields: seq<string>, n: nat): (r: seq<NString>)
    ensures |r| == n
    ensures forall i :: 0 <= i < n ==> r[i] == (if i < |fields| then Str(fields[i]) else Null)
  {
    seq(n, i requires 0 <= i < n => if i < |fields| then Str(fields[i]) else Null)
  }

  /** Copies the response into the authentication state: issue and expiry
      times from `now`, then id, principal, auth, sso, params and ptags. */
  function Populate(m: Machine, now: int, expiry: int, w: seq<NString>): (r: Machine)
    requires !m.threw && |w| == WlsSize
    ensures |r.resp| == |m.resp| && r.effects == m.effects
    ensures !r.threw ==> |m.resp| > AuthParams
  {
    if !InDateRange(now) then Raise(m)
    else
      var m1 := Put(m, AuthIssue, Str(Time2Iso(now)));
      if !InDateRange(now + expiry) then Raise(m1)
      else
        var m2 := Put(Put(Put(m1, AuthExpire, Str(Time2Iso(now + expiry))), AuthId, w[WlsId]), AuthPrincipal, w[WlsPrincipal]);
        Put(Put(Put(Put(m2, AuthAuth, w[WlsAuth]), AuthSso, w[WlsSso]), AuthParams, w[WlsParams]), AuthPtags, w[WlsPtags])
  }

  /** The eleven fields the session cookie carries, null written as "". */
  function CookieFields(resp: seq<NString>): (r: seq<string>)
    requires |resp| > AuthParams
    ensures |r| == AuthParams + 1 && forall i :: 0 <= i <= AuthParams ==> r[i] == OrEmpty(resp[i])
  {
    seq(AuthParams + 1, i requires 0 <= i <= AuthParams => OrEmpty(resp[i]))
  }

  /** The signed part of the session cookie. */
  function CookieBody(resp: seq<NString>): string
    requires |resp| > AuthParams
  {
    Join(CookieFields(resp), '!')
  }

  /** The session cookie: the body, '!', and the body's MAC. */
  function SessionCookieValue(digest: Digest, key: string, resp: seq<NString>): string
    requires |resp| > AuthParams
  {
    CookieBody(resp) + "!" + Mac(digest, key, CookieBody(resp))
  }

  /** Without session management the response is the answer. With it, the
      pre-session cookie must be there; then the session cookie is set and
      the browser sent back to the response's URL. */
  function EstablishSession(config: Config, ext: Externals, request: Request, testOnly: bool,
                            m: Machine, w: seq<NString>, key: string): (s: Step)
    requires !m.threw && |m.resp| > AuthParams && |w| == WlsSize
    ensures s.Stop?
  {
    if !config.doSession then Stop(m, true)
    else if SessionCookie(config, request) != Some(TestString) then
      Stop(Put(Put(m, AuthStatus, Str("610")), AuthMsg, Str(NoCookieMessage)), true)
    else
      var m1 := Put(m, AuthVer, Str(ResponseVersion));
      var cookie := SessionCookieValue(ext.digest, key, m1.resp);
      if testOnly then Stop(m1, false)
      else
        var m2 := Emit(m1, SetCookie(FullCookieName(config, request), cookie, 0, config.cookiePath,
                                     config.cookieDomain, UsingHttps(request)));
        Stop(Emit(m2, Redirect(OrEmpty(w[WlsUrl]))), false)
  }

  /** From the expiry on: everything after the validation chain. */
  function Conclude(config: Config, ext: Externals, request: Request, now: int, testOnly: bool,
                    m: Machine, wls: seq<string>, key: string): (s: Step)
    requires !m.threw
    ensures s.Stop?
  {
    if |wls| <= WlsLife then Stop(Raise(m), false)
    else match SessionExpiry(config.maxSessionLife, wls[WlsLife])
      case None => Stop(Raise(m), false)
      case Some(expiry) =>
        var w := Resize(wls, WlsSize);
        var m1 := Populate(m, now, expiry, w);
        if m1.threw then Stop(m1, false)
        else EstablishSession(config, ext, request, testOnly, m1, w, key)
  }

  /** The response phase, given the decoded WLS-Response value. */
  function ResponsePhase(config: Config, ext: Externals, request: Request, now: int, testOnly: bool,
                         m: Machine, value: string, hostname: string, key: string): (s: Step)
    requires !m.threw
    ensures s.Stop?
  {
    var parts := Split(value, '!');
    var m1 := Put(Put(m, AuthStatus, Str("200")), AuthMsg, Str(""));
    if m1.threw then Stop(m1, false)
    else if |parts| < 2 then Stop(Raise(m1), false)
    else
      var sig := parts[|parts| - 1];
      var keyId := parts[|parts| - 2];
      var wls := parts[..|parts| - 2];
      match Validate(config, ext, request, now, m1, wls, sig, keyId, hostname)
      case Stop(m2, ret) => Stop(m2, ret)
      case Next(m2) => Conclude(config, ext, request, now, testOnly, m2, wls, key)
  }

  // ---------------------------------------------------------------------------
  // The authentication request
  // ---------------------------------------------------------------------------

  /** One argument when the condition holds, none otherwise. */
  function Opt(cond: bool, arg: string): seq<string>
  {
    if cond then [arg] else []
  }

  /** An argument of the form name=value. */
  function Arg(name: string, value: string): string
  {
    name + "=" + value
  }

  /** The provider URL's arguments in their fixed order. The params argument
      is written, as in the agent, without its '='. */
  function RequestArgs(config: Config, ext: Externals, url: string, timeoutMsg: NString,
                       params: NString, date: string): seq<string>
  {
    [Arg("ver", ProtocolVersion), Arg("url", ext.urlEncode(url))]
    + Opt(config.description.Str?, Arg("desc", ext.urlEncode(OrEmpty(config.description))))
    + Opt(config.aauth.Str?, Arg("aauth", ext.urlEncode(OrEmpty(config.aauth))))
    + Opt(config.useInteract, Arg("iact", if config.interact then "yes" else "no"))
    + Opt(timeoutMsg.Str?, Arg("msg", ext.urlEncode(OrEmpty(timeoutMsg))))
    + Opt(params.Str?, "params" + ext.urlEncode(OrEmpty(params)))
    + [Arg("date", ext.urlEncode(date))]
    + Opt(config.fail, Arg("fail", "yes"))
  }

  function ProviderUrl(config: Config, ext: Externals, url: string, timeoutMsg: NString,
                       params: NString, date: string): string
  {
    config.authService + "?" + Join(RequestArgs(config, ext, url, timeoutMsg, params, date), '&')
  }

  /** The request phase: fix a Host header that differs from the configured
      hostname by redirecting, or set the pre-session cookie and send the
      browser to the login service. */
  function RequestPhase(config: Config, ext: Externals, request: Request, now: int, testOnly: bool,
                        m: Machine, hostname: string, timeoutMsg: NString): (s: Step)
    requires !m.threw
    ensures s.Stop? && !s.ret
  {
    var url := Url(hostname, request);
    if config.doSession && request.httpHost.Str? && AsciiLower(hostname) != AsciiLower(request.httpHost.value) then
      Stop(if testOnly then m else Emit(m, Redirect(url)), false)
    else
      var m1 := if config.doSession && !testOnly
        then Emit(m, SetCookie(FullCookieName(config, request), TestString, 0, config.cookiePath,
                               config.cookieDomain, UsingHttps(request)))
        else m;
      if |m1.resp| <= AuthParams || !InDateRange(now) then Stop(Raise(m1), false)
      else
        var dest := ProviderUrl(config, ext, url, timeoutMsg, m1.resp[AuthParams], Time2Iso(now));
        Stop(if testOnly then m1 else Emit(m1, Redirect(dest)), false)
  }

  // ---------------------------------------------------------------------------
  // authenticate
  // ---------------------------------------------------------------------------

  /** One call of `authenticate(authassertionid, testauthonly)` on an agent
      whose array holds resp0 and whose HTTP response carries effects0. */
  function Authenticate(config: Config, ext: Externals, request: Request, now: int, aid: NString,
                        testOnly: bool, resp0: seq<NString>, effects0: seq<Effect>): Run
  {
    var m := Machine(resp0, effects0, false);
    var pre := Preamble(config, testOnly, m);
    if pre.Stop? then Finish(pre)
    else AfterPreamble(config, ext, request, now, aid, testOnly, m)
  }

  /** The checked configuration: a hostname, and a key when sessions are on. */
  predicate Configured(config: Config)
  {
    config.hostname.Str? && config.hostname.value != "" && !(config.doSession && config.cookieKey.Null?)
  }

  /** The session-cookie phase, then the response or the request phase. */
  function AfterPreamble(config: Config, ext: Externals, request: Request, now: int, aid: NString,
                         testOnly: bool, m: Machine): Run
    requires !m.threw && Configured(config)
  {
    var (session, timeoutMsg) := SessionPhase(config, ext, request, now, aid, testOnly, m, OrEmpty(config.cookieKey));
    if session.Stop? then Finish(session)
    else AfterSession(config, ext, request, now, testOnly, session.m, timeoutMsg)
  }

  /** A WLS-Response in the query string is processed; without one, the
      browser is sent to the login service. */
  function AfterSession(config: Config, ext: Externals, request: Request, now: int, testOnly: bool,
                        m: Machine, timeoutMsg: NString): Run
    requires !m.threw && Configured(config)
  {
    match ResponseParam(ext, request.queryString)
    case Some(value) =>
      Finish(ResponsePhase(config, ext, request, now, testOnly, m, value, config.hostname.value, OrEmpty(config.cookieKey)))
    case None =>
      Finish(RequestPhase(config, ext, request, now, testOnly, m, config.hostname.value, timeoutMsg))
  }

  // ---------------------------------------------------------------------------
  // The read-only accessors
  // ---------------------------------------------------------------------------

  /** `status()`, `msg()`, `issue()`, ...: slot i of the array; an array too
      short for it makes the accessor throw (None). */
  function Field(resp: seq<NString>, i: nat): (r: Option<NString>)
    ensures r.Some? <==> i < |resp|
    ensures r.Some? ==> r.value == resp[i]
  {
    if i < |resp| then Some(resp[i]) else None
  }

  /** `success()`: the status is exactly "200"; a null status is not a
      success. */
  function Success(resp: seq<NString>): (r: Option<bool>)
    ensures r.Some? <==> AuthStatus < |resp|
    ensures r == Some(true) <==> AuthStatus < |resp| && resp[AuthStatus] == Str("200")
  {
    if AuthStatus < |resp| then Some(resp[AuthStatus] == Str("200")) else None
  }
}
