/** The agent object: `Ucam_Webauth` with its configuration fixed at
    construction, the `_authentication_response` array it rewrites, and the
    cookies and redirects it hands to the HTTP response. `Authenticate`
    works step by step as the agent does, and is proved to leave exactly the
    outcome, array contents and effects that `Protocol.Authenticate` gives. */
module Agent {
  import opened Text
  import opened TimeCodec
  import opened CookieMac
  import opened Site
  import opened Protocol
  import Properties

  /** What a phase tells its caller: return with this outcome, or go on. */
  datatype Control = Halt(outcome: Outcome) | Proceed

  class Webauth {
    const config: Config
    const request: Request
    const ext: Externals
    /** `_authentication_response`; the agent replaces it wholesale when it
        reads a session cookie. */
    var response: seq<NString>
    /** Cookies set and redirects issued on the HTTP response, in order. */
    var effects: seq<Effect>

    /** A fresh agent: twelve empty slots and an untouched HTTP response. */
    constructor (config: Config, request: Request, ext: Externals)
      ensures this.config == config && this.request == request && this.ext == ext
      ensures |response| == AuthSize && (forall i :: 0 <= i < AuthSize ==> response[i] == Null)
      ensures effects == []
    {
      this.config := config;
      this.request := request;
      this.ext := ext;
      response := seq(AuthSize, _ => Null);
      effects := [];
    }

    /** The agent's state as the protocol model sees it. */
    function State(): Machine
      reads this
    {
      Machine(response, effects, false)
    }

    /** The phase ended as the step s of the model says: it went on in the
        same state, or it returned (or threw) leaving what s leaves. */
    predicate Reached(c: Control, s: Step)
      reads this
    {
      if c.Proceed? then s.Next? && State() == s.m
      else s.Stop? && Run(c.outcome, response, effects) == Finish(s)
    }

    // -------------------------------------------------------------------------
    // Writing the array and the HTTP response
    // -------------------------------------------------------------------------

    /** `_authentication_response[i] = v`; false when that throws. */
    method Store(i: nat, v: NString) returns (ok: bool)
      modifies this
      ensures var r := Put(old(State()), i, v);
        ok == !r.threw && response == r.resp && effects == r.effects
    {
      ok := i < |response|;
      if ok {
        response := response[i := v];
      }
    }

    /** Two writes in a row; the second does not happen if the first throws. */
    method StoreTwo(i: nat, v: NString, j: nat, w: NString) returns (ok: bool)
      modifies this
      ensures var r := Put(Put(old(State()), i, v), j, w);
        ok == !r.threw && response == r.resp && effects == r.effects
    {
      ok := Store(i, v);
      if ok {
        ok := Store(j, w);
      }
    }

    /** Two writes and then `return ret`. */
    method Answer(i: nat, v: NString, j: nat, w: NString, ret: bool) returns (outcome: Outcome)
      modifies this
      ensures Run(outcome, response, effects) == Finish(Stop(Put(Put(old(State()), i, v), j, w), ret))
    {
      var ok := StoreTwo(i, v, j, w);
      outcome := if ok then Returned(ret) else Threw;
    }

    /** `setcookie(...)` or `Response.Redirect(...)`. */
    method Send(e: Effect)
      modifies this
      ensures response == old(response) && effects == old(effects) + [e]
    {
      effects := effects + [e];
    }

    // -------------------------------------------------------------------------
    // authenticate
    // -------------------------------------------------------------------------

    /** `authenticate(authassertionid, testauthonly)` at time `now`. */
    method Authenticate(now: int, aid: NString, testOnly: bool) returns (outcome: Outcome)
      modifies this
      ensures Run(outcome, response, effects)
           == Protocol.Authenticate(config, ext, request, now, aid, testOnly, old(response), old(effects))
    {
      if testOnly && !config.doSession {
        outcome := Answer(AuthStatus, Str("600"), AuthMsg, Str(DummyRunMessage), true);
      } else if config.doSession && config.cookieKey.Null? {
        outcome := Answer(AuthStatus, Str("600"), AuthMsg, Str(NoKeyMessage), true);
      } else if config.hostname.Null? || config.hostname.value == "" {
        outcome := Answer(AuthMsg, Str(NoHostnameMessage), AuthStatus, Str("600"), true);
      } else {
        Properties.AuthenticateConfigured(config, ext, request, now, aid, testOnly, response, effects);
        outcome := Configured(now, aid, testOnly);
      }
    }

    /** Everything after the preamble checks. */
    method Configured(now: int, aid: NString, testOnly: bool) returns (outcome: Outcome)
      requires Protocol.Configured(config)
      modifies this
      ensures Run(outcome, response, effects)
           == AfterPreamble(config, ext, request, now, aid, testOnly, old(State()))
    {
      var c, timeoutMsg := SessionStep(now, aid, testOnly);
      if c.Halt? {
        outcome := c.outcome;
        return;
      }
      var value := FindResponse();
      if value.Some? {
        outcome := ResponseStep(now, testOnly, value.value);
      } else {
        outcome := RequestStep(now, testOnly, timeoutMsg);
      }
    }

    /** The session-cookie phase; on going on, also the message to pass to
        the login service. */
    method SessionStep(now: int, aid: NString, testOnly: bool) returns (c: Control, timeoutMsg: NString)
      requires Protocol.Configured(config)
      modifies this
      ensures var r := SessionPhase(config, ext, request, now, aid, testOnly, old(State()), OrEmpty(config.cookieKey));
        Reached(c, r.0) && (c.Proceed? ==> timeoutMsg == r.1)
    {
      timeoutMsg := Null;
      c := Proceed;
      if !config.doSession {
        return;
      }
      var name := FullCookieName(config, request);
      if name !in request.cookies {
        return;
      }
      var v := request.cookies[name];
      if v == TestString || v == WlsLogout {
        return;
      }
      c, timeoutMsg := CookieStep(now, aid, testOnly, v);
    }

    /** A session cookie other than the markers: adopt its fields, then
        check its signature, its lifetime and `authassertionid`. */
    method CookieStep(now: int, aid: NString, testOnly: bool, v: string) returns (c: Control, timeoutMsg: NString)
      requires Protocol.Configured(config)
      modifies this
      ensures var r := CheckCookie(config, ext, request, now, aid, testOnly, old(State()),
                                   OrEmpty(config.cookieKey), v);
        Reached(c, r.0) && (c.Proceed? ==> timeoutMsg == r.1)
    {
      timeoutMsg := Null;
      var fields := Split(ext.urlDecode(v), '!');
      response := Strs(fields);
      var sig := fields[|fields| - 1];
      var signed := HmacSha1Verify(ext.digest, OrEmpty(config.cookieKey), Join(fields[..|fields| - 1], '!'), sig);
      if !signed {
        var outcome := Answer(AuthMsg, Str(BadCookieMessage), AuthStatus, Str("600"), false);
        return Halt(outcome), Null;
      }
      c, timeoutMsg := LifetimeStep(now, aid, testOnly, fields);
    }

    /** The verified cookie's lifetime and `authassertionid`. */
    method LifetimeStep(now: int, aid: NString, testOnly: bool, fields: seq<string>)
      returns (c: Control, timeoutMsg: NString)
      modifies this
      ensures var r := CookieLifetime(config, request, now, aid, testOnly, old(State()), fields);
        Reached(c, r.0) && (c.Proceed? ==> timeoutMsg == r.1)
    {
      timeoutMsg := Null;
      if |fields| <= AuthExpire {
        return Halt(Threw), Null;
      }
      var issue := Iso2Time(Str(fields[AuthIssue]));
      var expire := Iso2Time(Str(fields[AuthExpire]));
      if issue <= now < expire {
        if |fields| <= AuthId {
          return Halt(Threw), Null;
        }
        if aid.Null? || aid.value != fields[AuthId] {
          if fields[AuthStatus] != "200" && !testOnly {
            Send(SetCookie(FullCookieName(config, request), "", 1, config.cookiePath, config.cookieDomain,
                           UsingHttps(request)));
          }
          return Halt(Returned(true)), Null;
        }
        c := Proceed;
        timeoutMsg := config.forcedReauthMessage;
      } else {
        c := Proceed;
        timeoutMsg := config.timeoutMessage;
      }
    }

    /** The query-string scan: the last `WLS-Response=value` pair wins. */
    method FindResponse() returns (value: Option<string>)
      ensures value == ResponseParam(ext, request.queryString)
    {
      var found := false;
      var text := "";
      if request.queryString.Str? {
        var pairs := Split(request.queryString.value, '&');
        for i := 0 to |pairs|
          invariant (if found then Some(text) else None) == ScanPairs(ext, pairs[..i])
        {
          var pair := Split(pairs[i], '=');
          if |pair| == 2 && pair[0] == "WLS-Response" {
            text := ext.urlDecode(pair[1]);
            found := true;
          }
          assert pairs[..i + 1][..i] == pairs[..i];
        }
        assert pairs[..|pairs|] == pairs;
      }
      value := if found then Some(text) else None;
    }

    // -------------------------------------------------------------------------
    // The response phase
    // -------------------------------------------------------------------------

    method ResponseStep(now: int, testOnly: bool, value: string) returns (outcome: Outcome)
      requires Protocol.Configured(config)
      modifies this
      ensures Run(outcome, response, effects)
           == Finish(ResponsePhase(config, ext, request, now, testOnly, old(State()), value,
                                   config.hostname.value, OrEmpty(config.cookieKey)))
    {
      var parts := Split(value, '!');
      var ok := StoreTwo(AuthStatus, Str("200"), AuthMsg, Str(""));
      if !ok || |parts| < 2 {
        return Threw;
      }
      var sig := parts[|parts| - 1];
      var keyId := parts[|parts| - 2];
      var wls := parts[..|parts| - 2];
      var c := ValidateStep(now, wls, sig, keyId);
      if c.Halt? {
        return c.outcome;
      }
      outcome := ConcludeStep(now, testOnly, wls);
    }

    /** The validation chain: 410, version, other failures, then the signed
        response's checks. */
    method ValidateStep(now: int, wls: seq<string>, sig: string, keyId: string) returns (c: Control)
      requires Protocol.Configured(config)
      modifies this
      ensures Reached(c, Validate(config, ext, request, now, old(State()), wls, sig, keyId, config.hostname.value))
    {
      if |wls| <= WlsStatus {
        return Halt(Threw);
      }
      var ok := true;
      if wls[WlsStatus] == "410" {
        ok := StoreTwo(AuthMsg, Str(StatusCodes["410"]), AuthStatus, Str("410"));
      } else if wls[WlsVer] != ProtocolVersion {
        ok := StoreTwo(AuthMsg, Str(WrongVersionMessage), AuthStatus, Str("600"));
      } else if wls[WlsStatus] != "200" {
        if wls[WlsStatus] !in StatusCodes {
          return Halt(Threw);
        }
        var desc := StatusCodes[wls[WlsStatus]];
        ok := Store(AuthMsg, Str(desc));
        if !ok || |wls| <= WlsMsg {
          return Halt(Threw);
        }
        ok := StoreTwo(AuthMsg, Str(desc + wls[WlsMsg]), AuthStatus, Str(wls[WlsStatus]));
      } else {
        c := SignedStep(now, wls, sig, keyId);
        return;
      }
      c := if ok then Proceed else Halt(Threw);
    }

    /** A version 3 response with status 200: signature, issue time, URL. */
    method SignedStep(now: int, wls: seq<string>, sig: string, keyId: string) returns (c: Control)
      requires Protocol.Configured(config)
      modifies this
      ensures Reached(c, ValidateSigned(config, ext, request, now, old(State()), wls, sig, keyId,
                                        config.hostname.value))
    {
      var verdict := CheckSig(ext, Join(wls, '!'), sig, keyId);
      if verdict.None? {
        return Halt(Threw);
      }
      if !verdict.value {
        var outcome := Answer(AuthMsg, Str(BadSignatureMessage), AuthStatus, Str("600"), true);
        return Halt(outcome);
      }
      if |wls| <= WlsIssue {
        return Halt(Threw);
      }
      var ok := TimingStep(now, wls[WlsIssue]);
      if !ok || |wls| <= WlsUrl {
        return Halt(Threw);
      }
      c := UrlStep(wls[WlsUrl]);
    }

    /** The issue time against the clock skew and the response timeout. */
    method TimingStep(now: int, issueText: string) returns (ok: bool)
      modifies this
      ensures var r := CheckTiming(config, now, old(State()), issueText);
        ok == !r.threw && response == r.resp && effects == r.effects
    {
      var issue := Iso2Time(Str(issueText));
      ok := true;
      if issue > now + config.clockSkew + 1 {
        ok := StoreTwo(AuthMsg, Str(FutureMessage + issueText), AuthStatus, Str("600"));
      } else if now - config.clockSkew - 1 > issue + config.responseTimeout {
        ok := StoreTwo(AuthMsg, Str(StaleMessage + issueText), AuthStatus, Str("600"));
      }
    }

    /** The response's URL against this page's URL, queries stripped. */
    method UrlStep(responseText: string) returns (c: Control)
      requires Protocol.Configured(config)
      modifies this
      ensures Reached(c, CheckUrl(old(State()), responseText, Url(config.hostname.value, request)))
    {
      var responseUrl := StripQuery(responseText, 0);
      var thisUrl := StripQuery(Url(config.hostname.value, request), 1);
      var ok := true;
      if thisUrl != responseUrl {
        ok := StoreTwo(AuthMsg, Str(UrlMismatchMessage + responseUrl + " != " + thisUrl), AuthStatus, Str("600"));
      }
      c := if ok then Proceed else Halt(Threw);
    }

    /** Expiry, recording the response and establishing the session. */
    method ConcludeStep(now: int, testOnly: bool, wls: seq<string>) returns (outcome: Outcome)
      requires Protocol.Configured(config)
      modifies this
      ensures Run(outcome, response, effects)
           == Finish(Conclude(config, ext, request, now, testOnly, old(State()), wls, OrEmpty(config.cookieKey)))
    {
      if |wls| <= WlsLife {
        return Threw;
      }
      var expiry := config.maxSessionLife;
      if wls[WlsLife] != "" {
        var life := ParseInt32(wls[WlsLife]);
        if life.None? {
          return Threw;
        }
        if 0 < life.value < expiry {
          expiry := life.value;
        }
      }
      assert SessionExpiry(config.maxSessionLife, wls[WlsLife]) == Some(expiry);
      var w := Resize(wls, WlsSize);
      var ok := PopulateStep(now, expiry, w);
      if !ok {
        return Threw;
      }
      outcome := EstablishStep(testOnly, w);
    }

    /** Issue and expiry from `now`, then the response's fields. */
    method PopulateStep(now: int, expiry: int, w: seq<NString>) returns (ok: bool)
      requires |w| == WlsSize
      modifies this
      ensures var r := Populate(old(State()), now, expiry, w);
        ok == !r.threw && response == r.resp && effects == r.effects
    {
      if !InDateRange(now) {
        return false;
      }
      ok := Store(AuthIssue, Str(Time2Iso(now)));
      if !InDateRange(now + expiry) {
        return false;
      }
      if ok { ok := Store(AuthExpire, Str(Time2Iso(now + expiry))); }
      if ok { ok := Store(AuthId, w[WlsId]); }
      if ok { ok := Store(AuthPrincipal, w[WlsPrincipal]); }
      if ok { ok := Store(AuthAuth, w[WlsAuth]); }
      if ok { ok := Store(AuthSso, w[WlsSso]); }
      if ok { ok := Store(AuthParams, w[WlsParams]); }
      if ok { ok := Store(AuthPtags, w[WlsPtags]); }
    }

    /** The 610 check, then the signed session cookie and the redirect. */
    method EstablishStep(testOnly: bool, w: seq<NString>) returns (outcome: Outcome)
      requires Protocol.Configured(config) && |response| > AuthParams && |w| == WlsSize
      modifies this
      ensures Run(outcome, response, effects)
           == Finish(EstablishSession(config, ext, request, testOnly, old(State()), w, OrEmpty(config.cookieKey)))
    {
      if !config.doSession {
        return Returned(true);
      }
      var name := FullCookieName(config, request);
      if name !in request.cookies || request.cookies[name] != TestString {
        outcome := Answer(AuthStatus, Str("610"), AuthMsg, Str(NoCookieMessage), true);
        return;
      }
      var _ := Store(AuthVer, Str(ResponseVersion));
      var body := CookieText();
      var sig := HmacSha1(ext.digest, config.cookieKey.value, body);
      var cookie := body + "!" + sig;
      if !testOnly {
        Send(SetCookie(name, cookie, 0, config.cookiePath, config.cookieDomain, UsingHttps(request)));
        Send(Redirect(OrEmpty(w[WlsUrl])));
      }
      outcome := Returned(false);
    }

    /** The cookie's body, built by hand: slots 0 to 9 each followed by '!'
        (a null slot adds nothing), then the params slot. */
    method CookieText() returns (cookie: string)
      requires |response| > AuthParams
      ensures cookie == CookieBody(response)
    {
      cookie := "";
      for i := 0 to AuthParams
        invariant i == 0 ==> cookie == ""
        invariant i > 0 ==> cookie == Join(CookieFields(response)[..i], '!') + "!"
      {
        var fields := CookieFields(response);
        if i > 0 {
          JoinSnoc(fields[..i], fields[i], '!');
          assert fields[..i] + [fields[i]] == fields[..i + 1];
        } else {
          assert fields[..1] == [fields[0]];
        }
        if response[i].Str? {
          cookie := cookie + response[i].value;
        }
        cookie := cookie + "!";
      }
      var fields := CookieFields(response);
      JoinSnoc(fields[..AuthParams], fields[AuthParams], '!');
      assert fields[..AuthParams] + [fields[AuthParams]] == fields;
      if response[AuthParams].Str? {
        cookie := cookie + response[AuthParams].value;
      }
    }

    // -------------------------------------------------------------------------
    // The request phase
    // -------------------------------------------------------------------------

    method RequestStep(now: int, testOnly: bool, timeoutMsg: NString) returns (outcome: Outcome)
      requires Protocol.Configured(config)
      modifies this
      ensures Run(outcome, response, effects)
           == Finish(RequestPhase(config, ext, request, now, testOnly, old(State()), config.hostname.value, timeoutMsg))
    {
      var hostname := config.hostname.value;
      var url := Url(hostname, request);
      if config.doSession {
        if request.httpHost.Str? && AsciiLower(hostname) != AsciiLower(request.httpHost.value) {
          if !testOnly {
            Send(Redirect(url));
          }
          return Returned(false);
        }
        if !testOnly {
          Send(SetCookie(FullCookieName(config, request), TestString, 0, config.cookiePath,
                         config.cookieDomain, UsingHttps(request)));
        }
      }
      if |response| <= AuthParams || !InDateRange(now) {
        return Threw;
      }
      var dest := Destination(url, timeoutMsg, response[AuthParams], Time2Iso(now));
      if !testOnly {
        Send(Redirect(dest));
      }
      outcome := Returned(false);
    }

    /** `dest`, built by appending the arguments one at a time. */
    method Destination(url: string, timeoutMsg: NString, params: NString, date: string) returns (dest: string)
      ensures dest == ProviderUrl(config, ext, url, timeoutMsg, params, date)
    {
      ghost var args := [Arg("ver", ProtocolVersion)];
      dest := config.authService + "?ver=" + ProtocolVersion;
      assert dest == config.authService + "?" + Join(args, '&');
      dest, args := Append(dest, args, true, Arg("url", ext.urlEncode(url)));
      dest, args := Append(dest, args, config.description.Str?, Arg("desc", ext.urlEncode(OrEmpty(config.description))));
      dest, args := Append(dest, args, config.aauth.Str?, Arg("aauth", ext.urlEncode(OrEmpty(config.aauth))));
      dest, args := Append(dest, args, config.useInteract, Arg("iact", if config.interact then "yes" else "no"));
      dest, args := Append(dest, args, timeoutMsg.Str?, Arg("msg", ext.urlEncode(OrEmpty(timeoutMsg))));
      dest, args := Append(dest, args, params.Str?, "params" + ext.urlEncode(OrEmpty(params)));
      dest, args := Append(dest, args, true, Arg("date", ext.urlEncode(date)));
      dest, args := Append(dest, args, config.fail, Arg("fail", "yes"));
      Properties.RequestArgsParts(config, ext, url, timeoutMsg, params, date);
    }

    /** `if (cond) dest += "&" + arg;` */
    method Append(dest: string, ghost args: seq<string>, cond: bool, arg: string)
      returns (dest': string, ghost args': seq<string>)
      requires |args| >= 1 && dest == config.authService + "?" + Join(args, '&')
      ensures args' == args + Opt(cond, arg)
      ensures dest' == config.authService + "?" + Join(args', '&')
    {
      dest', args' := dest, args;
      if cond {
        JoinSnoc(args, arg, '&');
        dest' := dest + "&" + arg;
        args' := args + [arg];
      }
    }
  }
}
