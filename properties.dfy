/** What the protocol engine guarantees, stated over the functions of
    `Protocol`: the preamble's refusals, the session cookie's checks, the
    order of the response checks, the session cookie round trip and the
    shape of the request sent to the login service. */
module Properties {
  import opened Text
  import opened TimeCodec
  import opened CookieMac
  import opened Site
  import opened Protocol

  // ---------------------------------------------------------------------------
  // Preamble
  // ---------------------------------------------------------------------------

  /** A dry run without session management is refused before anything else. */
  lemma DummyRunRefused(config: Config, ext: Externals, request: Request, now: int, aid: NString,
                        resp0: seq<NString>, effects0: seq<Effect>)
    requires !config.doSession && |resp0| > AuthMsg
    ensures Authenticate(config, ext, request, now, aid, true, resp0, effects0)
      == Run(Returned(true), resp0[AuthStatus := Str("600")][AuthMsg := Str(DummyRunMessage)], effects0)
  {
  }

  /** Session management without a cookie key is refused. */
  lemma MissingKeyRefused(config: Config, ext: Externals, request: Request, now: int, aid: NString,
                          testOnly: bool, resp0: seq<NString>, effects0: seq<Effect>)
    requires config.doSession && config.cookieKey.Null? && |resp0| > AuthMsg
    ensures Authenticate(config, ext, request, now, aid, testOnly, resp0, effects0)
      == Run(Returned(true), resp0[AuthStatus := Str("600")][AuthMsg := Str(NoKeyMessage)], effects0)
  {
  }

  /** A missing or empty hostname is refused once the first two checks pass. */
  lemma MissingHostnameRefused(config: Config, ext: Externals, request: Request, now: int, aid: NString,
                               testOnly: bool, resp0: seq<NString>, effects0: seq<Effect>)
    requires !(testOnly && !config.doSession) && !(config.doSession && config.cookieKey.Null?)
    requires config.hostname == Null || config.hostname == Str("")
    requires |resp0| > AuthMsg
    ensures Authenticate(config, ext, request, now, aid, testOnly, resp0, effects0)
      == Run(Returned(true), resp0[AuthMsg := Str(NoHostnameMessage)][AuthStatus := Str("600")], effects0)
  {
  }

  // ---------------------------------------------------------------------------
  // Session cookie
  // ---------------------------------------------------------------------------

  /** The configuration passes the preamble with session management on. */
  predicate SessionConfig(config: Config)
  {
    config.doSession && config.cookieKey.Str? && config.hostname.Str? && config.hostname.value != ""
  }

  /** The request carries a session cookie that is neither the pre-session
      value nor the logged-out marker. */
  predicate CarriesSession(config: Config, request: Request)
  {
    var c := SessionCookie(config, request);
    c.Some? && c.value != TestString && c.value != WlsLogout
  }

  function CookieFieldsOf(config: Config, ext: Externals, request: Request): (fields: seq<string>)
    requires CarriesSession(config, request)
    ensures |fields| >= 1
  {
    Split(ext.urlDecode(SessionCookie(config, request).value), '!')
  }

  /** Past the preamble, `authenticate` is the rest of the engine. */
  lemma AuthenticateConfigured(config: Config, ext: Externals, request: Request, now: int, aid: NString,
                               testOnly: bool, resp0: seq<NString>, effects0: seq<Effect>)
    requires Configured(config) && !(testOnly && !config.doSession)
    ensures Authenticate(config, ext, request, now, aid, testOnly, resp0, effects0)
      == AfterPreamble(config, ext, request, now, aid, testOnly, Machine(resp0, effects0, false))
  {
  }

  /** When the session phase returns, so does `authenticate`. */
  lemma SessionPhaseDecides(config: Config, ext: Externals, request: Request, now: int, aid: NString,
                            testOnly: bool, m: Machine)
    requires Configured(config) && !m.threw
    requires SessionPhase(config, ext, request, now, aid, testOnly, m, OrEmpty(config.cookieKey)).0.Stop?
    ensures AfterPreamble(config, ext, request, now, aid, testOnly, m)
      == Finish(SessionPhase(config, ext, request, now, aid, testOnly, m, OrEmpty(config.cookieKey)).0)
  {
  }

  /** A session cookie whose MAC does not match is refused with status 600,
      and nothing is sent to the browser. */
  lemma TamperedCookieRefused(config: Config, ext: Externals, request: Request, now: int, aid: NString,
                              testOnly: bool, resp0: seq<NString>, effects0: seq<Effect>)
    requires SessionConfig(config) && CarriesSession(config, request)
    requires var fields := CookieFieldsOf(config, ext, request);
      !CookieSigned(ext.digest, config.cookieKey.value, fields) && |fields| > AuthMsg
    ensures var fields := CookieFieldsOf(config, ext, request);
      Authenticate(config, ext, request, now, aid, testOnly, resp0, effects0)
      == Run(Returned(false), Strs(fields)[AuthMsg := Str(BadCookieMessage)][AuthStatus := Str("600")], effects0)
  {
    var m := Machine(resp0, effects0, false);
    AuthenticateConfigured(config, ext, request, now, aid, testOnly, resp0, effects0);
    SessionPhaseDecides(config, ext, request, now, aid, testOnly, m);
  }

  /** The cookie's session is current and not the one to be replaced. */
  predicate SessionCurrent(fields: seq<string>, now: int, aid: NString)
  {
    |fields| > AuthId
    && Iso2Time(Str(fields[AuthIssue])) <= now < Iso2Time(Str(fields[AuthExpire]))
    && (aid.Null? || aid.value != fields[AuthId])
  }

  /** A verified, current session cookie is the answer: `authenticate`
      returns true with the cookie's fields as its state, and deletes the
      cookie when the stored status is not 200. */
  lemma CurrentSessionAccepted(config: Config, ext: Externals, request: Request, now: int, aid: NString,
                               testOnly: bool, resp0: seq<NString>, effects0: seq<Effect>)
    requires SessionConfig(config) && CarriesSession(config, request)
    requires var fields := CookieFieldsOf(config, ext, request);
      CookieSigned(ext.digest, config.cookieKey.value, fields) && SessionCurrent(fields, now, aid)
    ensures var fields := CookieFieldsOf(config, ext, request);
      Authenticate(config, ext, request, now, aid, testOnly, resp0, effects0)
      == Run(Returned(true), Strs(fields),
             effects0 + (if fields[AuthStatus] != "200" && !testOnly
                         then [SetCookie(FullCookieName(config, request), "", 1, config.cookiePath,
                                         config.cookieDomain, UsingHttps(request))]
                         else []))
  {
    var fields := CookieFieldsOf(config, ext, request);
    var m := Machine(resp0, effects0, false);
    AuthenticateConfigured(config, ext, request, now, aid, testOnly, resp0, effects0);
    var m1 := m.(resp := Strs(fields));
    var del := SetCookie(FullCookieName(config, request), "", 1, config.cookiePath,
                         config.cookieDomain, UsingHttps(request));
    var m2 := if fields[AuthStatus] != "200" && !testOnly then Emit(m1, del) else m1;
    assert SessionPhase(config, ext, request, now, aid, testOnly, m, config.cookieKey.value) == (Stop(m2, true), Null);
    SessionPhaseDecides(config, ext, request, now, aid, testOnly, m);
    if !(fields[AuthStatus] != "200" && !testOnly) {
      assert effects0 + [] == effects0;
    }
  }

  /** The session phase answers true exactly for a verified, current cookie
      that `authassertionid` does not name. */
  lemma SessionPhaseAcceptsOnlyCurrent(config: Config, ext: Externals, request: Request, now: int,
                                       aid: NString, testOnly: bool, m: Machine)
    requires SessionConfig(config) && !m.threw
    ensures var s := SessionPhase(config, ext, request, now, aid, testOnly, m, config.cookieKey.value).0;
      (s.Stop? && s.ret && !s.m.threw)
      <==> (CarriesSession(config, request)
            && CookieSigned(ext.digest, config.cookieKey.value, CookieFieldsOf(config, ext, request))
            && SessionCurrent(CookieFieldsOf(config, ext, request), now, aid))
  {
  }

  /** A verified cookie that has expired, or that `authassertionid` names,
      hands the timeout or the forced-reauthentication message on to the
      request for a new login. */
  lemma StaleSessionPassesMessage(config: Config, ext: Externals, request: Request, now: int,
                                  aid: NString, testOnly: bool, m: Machine)
    requires SessionConfig(config) && !m.threw && CarriesSession(config, request)
    requires var fields := CookieFieldsOf(config, ext, request);
      CookieSigned(ext.digest, config.cookieKey.value, fields) && |fields| > AuthId && !SessionCurrent(fields, now, aid)
    ensures var fields := CookieFieldsOf(config, ext, request);
      var issue := Iso2Time(Str(fields[AuthIssue]));
      var expire := Iso2Time(Str(fields[AuthExpire]));
      SessionPhase(config, ext, request, now, aid, testOnly, m, config.cookieKey.value)
      == (Next(m.(resp := Strs(fields))),
          if issue <= now < expire then config.forcedReauthMessage else config.timeoutMessage)
  {
  }

  // ---------------------------------------------------------------------------
  // The session cookie round trip
  // ---------------------------------------------------------------------------

  lemma MacHasNoSeparator(digest: Digest, key: string, data: string)
    ensures '!' !in Mac(digest, key, data)
    ensures Split(Mac(digest, key, data), '!') == [Mac(digest, key, data)]
  {
    MacShape(digest, key, data);
    SplitWithoutSeparator(Mac(digest, key, data), '!');
  }

  /** The cookie the agent sets splits into the body's pieces and the MAC. */
  lemma SessionCookieSplit(digest: Digest, key: string, resp: seq<NString>)
    requires |resp| > AuthParams
    ensures Split(SessionCookieValue(digest, key, resp), '!')
      == Split(CookieBody(resp), '!') + [Mac(digest, key, CookieBody(resp))]
  {
    var body := CookieBody(resp);
    var mac := Mac(digest, key, body);
    assert SessionCookieValue(digest, key, resp) == body + ['!'] + mac;
    SplitAround(body, mac, '!');
    MacHasNoSeparator(digest, key, body);
  }

  /** The cookie the agent sets passes its own signature check on the next
      request, whatever its fields hold. */
  lemma SessionCookieSigned(digest: Digest, key: string, resp: seq<NString>)
    requires |resp| > AuthParams
    ensures CookieSigned(digest, key, Split(SessionCookieValue(digest, key, resp), '!'))
  {
    var body := CookieBody(resp);
    var mac := Mac(digest, key, body);
    var pieces := Split(body, '!');
    SessionCookieSplit(digest, key, resp);
    var fields := pieces + [mac];
    assert fields[..|fields| - 1] == pieces;
    JoinSplit(body, '!');
  }

  /** When no field holds '!', the cookie's fields come back in their slots:
      eleven fields, then the MAC. */
  lemma SessionCookieFields(digest: Digest, key: string, resp: seq<NString>)
    requires |resp| > AuthParams
    requires forall i :: 0 <= i <= AuthParams ==> '!' !in OrEmpty(resp[i])
    ensures Split(SessionCookieValue(digest, key, resp), '!')
      == CookieFields(resp) + [Mac(digest, key, CookieBody(resp))]
  {
    SessionCookieSplit(digest, key, resp);
    SplitJoin(CookieFields(resp), '!');
  }

  /** The body holds ten separators, so the cookie is never the pre-session
      or the logged-out value. */
  lemma SessionCookieNotMarker(digest: Digest, key: string, resp: seq<NString>)
    requires |resp| > AuthParams
    ensures SessionCookieValue(digest, key, resp) != TestString
    ensures SessionCookieValue(digest, key, resp) != WlsLogout
  {
    var c := SessionCookieValue(digest, key, resp);
    SessionCookieSplit(digest, key, resp);
    SplitWithoutSeparator(TestString, '!');
    SplitWithoutSeparator(WlsLogout, '!');
  }

  /** A session established at time t0 that expires at t1, presented on a
      later request (and left unchanged by URL decoding), is accepted exactly
      while t0 <= now < t1. */
  lemma EstablishedSessionLifetime(config: Config, ext: Externals, request: Request, now: int, testOnly: bool,
                                   m: Machine, resp: seq<NString>, t0: int, t1: int)
    requires SessionConfig(config) && !m.threw
    requires |resp| > AuthParams && forall i :: 0 <= i <= AuthParams ==> '!' !in OrEmpty(resp[i])
    requires Int32Min <= t0 <= Int32Max && Int32Min <= t1 <= Int32Max
    requires resp[AuthIssue] == Str(Time2Iso(t0)) && resp[AuthExpire] == Str(Time2Iso(t1))
    requires var c := SessionCookieValue(ext.digest, config.cookieKey.value, resp);
      SessionCookie(config, request) == Some(c) && ext.urlDecode(c) == c
    ensures var s := SessionPhase(config, ext, request, now, Null, testOnly, m, config.cookieKey.value).0;
      (s.Stop? && s.ret && !s.m.threw) <==> t0 <= now < t1
  {
    EstablishedCookie(config, ext, request, resp, t0, t1);
    SessionPhaseAcceptsOnlyCurrent(config, ext, request, now, Null, testOnly, m);
  }

  /** What the next request reads back from a cookie the agent set. */
  lemma EstablishedCookie(config: Config, ext: Externals, request: Request, resp: seq<NString>,
                          t0: int, t1: int)
    requires SessionConfig(config)
    requires |resp| > AuthParams && forall i :: 0 <= i <= AuthParams ==> '!' !in OrEmpty(resp[i])
    requires Int32Min <= t0 <= Int32Max && Int32Min <= t1 <= Int32Max
    requires resp[AuthIssue] == Str(Time2Iso(t0)) && resp[AuthExpire] == Str(Time2Iso(t1))
    requires var c := SessionCookieValue(ext.digest, config.cookieKey.value, resp);
      SessionCookie(config, request) == Some(c) && ext.urlDecode(c) == c
    ensures CarriesSession(config, request)
    ensures var fields := CookieFieldsOf(config, ext, request);
      CookieSigned(ext.digest, config.cookieKey.value, fields)
      && |fields| > AuthId
      && Iso2Time(Str(fields[AuthIssue])) == t0
      && Iso2Time(Str(fields[AuthExpire])) == t1
  {
    var key := config.cookieKey.value;
    SessionCookieNotMarker(ext.digest, key, resp);
    assert CookieFieldsOf(config, ext, request) == Split(SessionCookieValue(ext.digest, key, resp), '!');
    SessionCookieSigned(ext.digest, key, resp);
    SessionCookieTimes(ext.digest, key, resp, t0, t1);
  }

  /** The issue and expiry times survive the cookie's text form. */
  lemma SessionCookieTimes(digest: Digest, key: string, resp: seq<NString>, issued: int, expires: int)
    requires |resp| > AuthParams && forall i :: 0 <= i <= AuthParams ==> '!' !in OrEmpty(resp[i])
    requires Int32Min <= issued <= Int32Max && Int32Min <= expires <= Int32Max
    requires resp[AuthIssue] == Str(Time2Iso(issued)) && resp[AuthExpire] == Str(Time2Iso(expires))
    ensures var fields := Split(SessionCookieValue(digest, key, resp), '!');
      |fields| > AuthId
      && Iso2Time(Str(fields[AuthIssue])) == issued
      && Iso2Time(Str(fields[AuthExpire])) == expires
  {
    SessionCookieTimeFields(digest, key, resp, Time2Iso(issued), Time2Iso(expires));
    TimeRoundTrip(issued);
    TimeRoundTrip(expires);
  }

  lemma SessionCookieTimeFields(digest: Digest, key: string, resp: seq<NString>, issue: string, expire: string)
    requires |resp| > AuthParams && forall i :: 0 <= i <= AuthParams ==> '!' !in OrEmpty(resp[i])
    requires resp[AuthIssue] == Str(issue) && resp[AuthExpire] == Str(expire)
    ensures var fields := Split(SessionCookieValue(digest, key, resp), '!');
      |fields| > AuthId && fields[AuthIssue] == issue && fields[AuthExpire] == expire
  {
    SessionCookieFields(digest, key, resp);
  }

  // ---------------------------------------------------------------------------
  // Finding the response in the query string
  // ---------------------------------------------------------------------------

  /** The scan finds nothing exactly when no pair is a WLS-Response pair, and
      otherwise the value of the last one. */
  lemma {:induction false} ScanPairsFindsLast(ext: Externals, pairs: seq<string>)
    ensures ScanPairs(ext, pairs).None? <==> forall i :: 0 <= i < |pairs| ==> !IsResponsePair(pairs[i])
    ensures ScanPairs(ext, pairs).Some? ==>
      exists i :: 0 <= i < |pairs| && IsResponsePair(pairs[i])
        && (forall j :: i < j < |pairs| ==> !IsResponsePair(pairs[j]))
        && ScanPairs(ext, pairs).value == ext.urlDecode(Split(pairs[i], '=')[1])
    decreases |pairs|
  {
    if |pairs| > 0 && !IsResponsePair(pairs[|pairs| - 1]) {
      ScanPairsFindsLast(ext, pairs[..|pairs| - 1]);
      ScanPairsSkip(ext, pairs);
    }
  }

  /** The step of ScanPairsFindsLast past a pair that is not the response. */
  lemma ScanPairsSkip(ext: Externals, pairs: seq<string>)
    requires |pairs| > 0 && !IsResponsePair(pairs[|pairs| - 1])
    requires var init := pairs[..|pairs| - 1];
      (ScanPairs(ext, init).None? <==> forall i :: 0 <= i < |init| ==> !IsResponsePair(init[i]))
      && (ScanPairs(ext, init).Some? ==>
            exists i :: 0 <= i < |init| && IsResponsePair(init[i])
              && (forall j :: i < j < |init| ==> !IsResponsePair(init[j]))
              && ScanPairs(ext, init).value == ext.urlDecode(Split(init[i], '=')[1]))
    ensures ScanPairs(ext, pairs).None? <==> forall i :: 0 <= i < |pairs| ==> !IsResponsePair(pairs[i])
    ensures ScanPairs(ext, pairs).Some? ==>
      exists i :: 0 <= i < |pairs| && IsResponsePair(pairs[i])
        && (forall j :: i < j < |pairs| ==> !IsResponsePair(pairs[j]))
        && ScanPairs(ext, pairs).value == ext.urlDecode(Split(pairs[i], '=')[1])
  {
    var init := pairs[..|pairs| - 1];
    assert ScanPairs(ext, pairs) == ScanPairs(ext, init);
    assert forall i :: 0 <= i < |init| ==> init[i] == pairs[i];
    if ScanPairs(ext, init).Some? {
      var i :| 0 <= i < |init| && IsResponsePair(init[i])
        && (forall j :: i < j < |init| ==> !IsResponsePair(init[j]))
        && ScanPairs(ext, init).value == ext.urlDecode(Split(init[i], '=')[1]);
      ScanPairsSkipWitness(pairs, init, i);
    } else {
      ScanPairsSkipNone(pairs, init);
    }
  }

  /** The last response pair of the prefix stays the last one. */
  lemma ScanPairsSkipWitness(pairs: seq<string>, init: seq<string>, i: nat)
    requires |pairs| > 0 && !IsResponsePair(pairs[|pairs| - 1]) && i < |pairs| - 1
    requires init == pairs[..|pairs| - 1]
    requires forall j :: i < j < |init| ==> !IsResponsePair(init[j])
    ensures forall j :: i < j < |pairs| ==> !IsResponsePair(pairs[j])
  {
    forall j | i < j < |pairs| ensures !IsResponsePair(pairs[j]) {
      if j < |pairs| - 1 { assert init[j] == pairs[j]; }
    }
  }

  /** No response pair in the prefix and none at the end: none at all. */
  lemma ScanPairsSkipNone(pairs: seq<string>, init: seq<string>)
    requires |pairs| > 0 && !IsResponsePair(pairs[|pairs| - 1])
    requires init == pairs[..|pairs| - 1]
    requires forall i :: 0 <= i < |init| ==> !IsResponsePair(init[i])
    ensures forall i :: 0 <= i < |pairs| ==> !IsResponsePair(pairs[i])
  {
    forall i | 0 <= i < |pairs| ensures !IsResponsePair(pairs[i]) {
      if i < |pairs| - 1 { assert init[i] == pairs[i]; }
    }
  }

  // ---------------------------------------------------------------------------
  // The validation chain
  // ---------------------------------------------------------------------------

  /** A cancelled, wrong-version or failed response is judged without
      looking at any signature or certificate: the outcome is the same
      whatever the external checks say. */
  lemma FailuresIgnoreSignature(config: Config, ext1: Externals, ext2: Externals, request: Request, now: int,
                                m: Machine, wls: seq<string>, sig: string, keyId: string, hostname: string)
    requires !m.threw && |wls| > WlsStatus
    requires wls[WlsStatus] != "200" || wls[WlsVer] != ProtocolVersion
    ensures Validate(config, ext1, request, now, m, wls, sig, keyId, hostname)
         == Validate(config, ext2, request, now, m, wls, sig, keyId, hostname)
  {
  }

  /** Only a failed signature returns from the chain; it returns true with
      status 600. Every other outcome either continues or throws. */
  lemma OnlyBadSignatureReturns(config: Config, ext: Externals, request: Request, now: int,
                                m: Machine, wls: seq<string>, sig: string, keyId: string, hostname: string)
    requires !m.threw
    ensures var s := Validate(config, ext, request, now, m, wls, sig, keyId, hostname);
      s.Stop? && !s.m.threw ==>
        s.ret && |wls| > WlsStatus && wls[WlsStatus] == "200" && wls[WlsVer] == ProtocolVersion
        && CheckSig(ext, Join(wls, '!'), sig, keyId) == Some(false)
        && s.m.resp == m.resp[AuthMsg := Str(BadSignatureMessage)][AuthStatus := Str("600")]
        && s.m.effects == m.effects
  {
    if |wls| > WlsStatus && wls[WlsStatus] == "200" && wls[WlsVer] == ProtocolVersion {
      SignedChainReturns(config, ext, request, now, m, wls, sig, keyId, hostname);
    } else {
      UnsignedChainNeverReturns(config, ext, request, now, m, wls, sig, keyId, hostname);
    }
  }

  /** A version 3 response with status 200 goes on to the signature check. */
  lemma ValidateOfSigned(config: Config, ext: Externals, request: Request, now: int,
                         m: Machine, wls: seq<string>, sig: string, keyId: string, hostname: string)
    requires !m.threw && |wls| > WlsStatus && wls[WlsStatus] == "200" && wls[WlsVer] == ProtocolVersion
    ensures Validate(config, ext, request, now, m, wls, sig, keyId, hostname)
         == ValidateSigned(config, ext, request, now, m, wls, sig, keyId, hostname)
  {
    assert wls[WlsStatus] != "410";
  }

  lemma UnsignedChainNeverReturns(config: Config, ext: Externals, request: Request, now: int,
                                  m: Machine, wls: seq<string>, sig: string, keyId: string, hostname: string)
    requires !m.threw
    requires !(|wls| > WlsStatus && wls[WlsStatus] == "200" && wls[WlsVer] == ProtocolVersion)
    ensures var s := Validate(config, ext, request, now, m, wls, sig, keyId, hostname);
      s.Stop? ==> s.m.threw
  {
  }

  lemma SignedChainReturns(config: Config, ext: Externals, request: Request, now: int,
                           m: Machine, wls: seq<string>, sig: string, keyId: string, hostname: string)
    requires !m.threw && |wls| > WlsStatus && wls[WlsStatus] == "200" && wls[WlsVer] == ProtocolVersion
    ensures var s := Validate(config, ext, request, now, m, wls, sig, keyId, hostname);
      s.Stop? && !s.m.threw ==>
        s.ret && CheckSig(ext, Join(wls, '!'), sig, keyId) == Some(false)
        && s.m.resp == m.resp[AuthMsg := Str(BadSignatureMessage)][AuthStatus := Str("600")]
        && s.m.effects == m.effects
  {
    ValidateOfSigned(config, ext, request, now, m, wls, sig, keyId, hostname);
    SignedStepReturns(config, ext, request, now, m, wls, sig, keyId, hostname);
  }

  lemma SignedStepReturns(config: Config, ext: Externals, request: Request, now: int,
                          m: Machine, wls: seq<string>, sig: string, keyId: string, hostname: string)
    requires !m.threw
    ensures var s := ValidateSigned(config, ext, request, now, m, wls, sig, keyId, hostname);
      s.Stop? && !s.m.threw ==>
        s.ret && CheckSig(ext, Join(wls, '!'), sig, keyId) == Some(false)
        && s.m.resp == m.resp[AuthMsg := Str(BadSignatureMessage)][AuthStatus := Str("600")]
        && s.m.effects == m.effects
  {
  }

  /** The issue time is acceptable: not beyond the allowed skew in the
      future, and not older than the response timeout. */
  predicate Timely(config: Config, now: int, issue: int)
  {
    issue <= now + config.clockSkew + 1 && now - config.clockSkew - 1 <= issue + config.responseTimeout
  }

  /** Everything the chain checks about a response holds. */
  predicate ResponseAcceptable(config: Config, ext: Externals, now: int, wls: seq<string>, sig: string,
                               keyId: string, thisUrl: string)
  {
    |wls| > WlsUrl && wls[WlsStatus] == "200" && wls[WlsVer] == ProtocolVersion
    && CheckSig(ext, Join(wls, '!'), sig, keyId) == Some(true)
    && Timely(config, now, Iso2Time(Str(wls[WlsIssue])))
    && StripQuery(wls[WlsUrl], 0) == StripQuery(thisUrl, 1)
  }

  /** When the chain lets processing continue, the status is still 200
      exactly when the response passed every check. */
  lemma ChainKeepsSuccessOnlyWhenAcceptable(config: Config, ext: Externals, request: Request, now: int,
                                            m: Machine, wls: seq<string>, sig: string, keyId: string,
                                            hostname: string)
    requires !m.threw && |m.resp| > AuthMsg && m.resp[AuthStatus] == Str("200")
    ensures var s := Validate(config, ext, request, now, m, wls, sig, keyId, hostname);
      s.Next? ==>
        |s.m.resp| > AuthStatus
        && (s.m.resp[AuthStatus] == Str("200")
            <==> ResponseAcceptable(config, ext, now, wls, sig, keyId, Url(hostname, request)))
  {
    if |wls| > WlsStatus && wls[WlsStatus] == "200" && wls[WlsVer] == ProtocolVersion {
      SignedKeepsSuccess(config, ext, request, now, m, wls, sig, keyId, hostname);
    } else {
      UnsignedNeverSuccess(config, ext, request, now, m, wls, sig, keyId, hostname);
    }
  }

  /** A cancelled, wrong-version or failed response never goes on with 200. */
  lemma UnsignedNeverSuccess(config: Config, ext: Externals, request: Request, now: int,
                             m: Machine, wls: seq<string>, sig: string, keyId: string, hostname: string)
    requires !m.threw && |m.resp| > AuthMsg
    requires !(|wls| > WlsStatus && wls[WlsStatus] == "200" && wls[WlsVer] == ProtocolVersion)
    ensures var s := Validate(config, ext, request, now, m, wls, sig, keyId, hostname);
      s.Next? ==> |s.m.resp| > AuthStatus && s.m.resp[AuthStatus] != Str("200")
  {
    if |wls| > WlsStatus && wls[WlsStatus] != "410" && wls[WlsVer] == ProtocolVersion
       && wls[WlsStatus] in StatusCodes {
      assert Str(wls[WlsStatus]) != Str("200");
    }
  }

  /** A signed response goes on with 200 exactly when its signature, issue
      time and URL pass. */
  lemma SignedKeepsSuccess(config: Config, ext: Externals, request: Request, now: int,
                           m: Machine, wls: seq<string>, sig: string, keyId: string, hostname: string)
    requires !m.threw && |m.resp| > AuthMsg && m.resp[AuthStatus] == Str("200")
    requires |wls| > WlsStatus && wls[WlsStatus] == "200" && wls[WlsVer] == ProtocolVersion
    ensures var s := Validate(config, ext, request, now, m, wls, sig, keyId, hostname);
      s.Next? ==>
        |s.m.resp| > AuthStatus
        && (s.m.resp[AuthStatus] == Str("200")
            <==> ResponseAcceptable(config, ext, now, wls, sig, keyId, Url(hostname, request)))
  {
    ValidateOfSigned(config, ext, request, now, m, wls, sig, keyId, hostname);
    if CheckSig(ext, Join(wls, '!'), sig, keyId) == Some(true) && |wls| > WlsUrl {
      var m1 := CheckTiming(config, now, m, wls[WlsIssue]);
      TimingVerdicts(config, now, m, wls[WlsIssue]);
      UrlKeepsSuccess(m1, wls[WlsUrl], Url(hostname, request));
    }
  }

  /** The URL check goes on with 200 exactly when the status was 200 and
      the URLs match. */
  lemma UrlKeepsSuccess(m: Machine, responseUrl: string, thisUrl: string)
    requires !m.threw && |m.resp| > AuthMsg
    ensures var s := CheckUrl(m, responseUrl, thisUrl);
      s.Next? ==>
        |s.m.resp| > AuthStatus
        && (s.m.resp[AuthStatus] == Str("200")
            <==> m.resp[AuthStatus] == Str("200") && StripQuery(responseUrl, 0) == StripQuery(thisUrl, 1))
  {
  }

  /** The issue-time check sets "future" exactly past the skew, "stale"
      exactly beyond the timeout, and leaves the state alone otherwise. */
  lemma TimingVerdicts(config: Config, now: int, m: Machine, issueText: string)
    requires !m.threw && |m.resp| > AuthMsg
    ensures var issue := Iso2Time(Str(issueText));
      var r := CheckTiming(config, now, m, issueText);
      !r.threw
      && (issue > now + config.clockSkew + 1 ==> r.resp[AuthMsg] == Str(FutureMessage + issueText))
      && (issue <= now + config.clockSkew + 1 && now - config.clockSkew - 1 > issue + config.responseTimeout
          ==> r.resp[AuthMsg] == Str(StaleMessage + issueText))
      && (!Timely(config, now, issue) ==> r.resp[AuthStatus] == Str("600"))
      && (Timely(config, now, issue) ==> r == m)
  {
  }

  /** The dead null test on the issue time: an issue time that cannot be
      read (too short, a field that does not parse, an impossible date or
      time) counts as 0, so such a reply is reported as stale. */
  lemma UnreadableIssueIsStale(config: Config, now: int, m: Machine, issueText: string)
    requires !m.threw && |m.resp| > AuthMsg
    requires Unreadable(issueText)
    requires 0 <= now + config.clockSkew + 1 && now - config.clockSkew - 1 > config.responseTimeout
    ensures CheckTiming(config, now, m, issueText)
      == m.(resp := m.resp[AuthMsg := Str(StaleMessage + issueText)][AuthStatus := Str("600")])
  {
    Iso2TimeZero(Str(issueText));
    StaleAtZero(config, now, m, issueText);
  }

  /** An issue time read as 0 is stale once now is past the timeout. */
  lemma StaleAtZero(config: Config, now: int, m: Machine, issueText: string)
    requires !m.threw && |m.resp| > AuthMsg && Iso2Time(Str(issueText)) == 0
    requires 0 <= now + config.clockSkew + 1 && now - config.clockSkew - 1 > config.responseTimeout
    ensures CheckTiming(config, now, m, issueText)
      == m.(resp := m.resp[AuthMsg := Str(StaleMessage + issueText)][AuthStatus := Str("600")])
  {
  }

  /** A status code missing from `status_codes` makes the lookup throw. */
  lemma UnknownStatusThrows(config: Config, ext: Externals, request: Request, now: int,
                            m: Machine, wls: seq<string>, sig: string, keyId: string, hostname: string)
    requires !m.threw && |wls| > WlsStatus && wls[WlsVer] == ProtocolVersion
    requires wls[WlsStatus] != "410" && wls[WlsStatus] !in StatusCodes
    ensures Validate(config, ext, request, now, m, wls, sig, keyId, hostname) == Stop(Raise(m), false)
  {
  }

  // ---------------------------------------------------------------------------
  // After the chain
  // ---------------------------------------------------------------------------

  /** Without the pre-session cookie no session cookie is set: status 610
      and an answer of true. */
  lemma NoTestCookieGives610(config: Config, ext: Externals, request: Request, testOnly: bool,
                             m: Machine, w: seq<NString>, key: string)
    requires !m.threw && |m.resp| > AuthParams && |w| == WlsSize
    requires config.doSession && SessionCookie(config, request) != Some(TestString)
    ensures EstablishSession(config, ext, request, testOnly, m, w, key)
      == Stop(m.(resp := m.resp[AuthStatus := Str("610")][AuthMsg := Str(NoCookieMessage)]), true)
  {
  }

  /** A cancelled login still ends in a session cookie: with the
      pre-session cookie present, the cookie carries status 410 and the
      browser is sent back to the response's URL. */
  lemma CancelledLoginSetsCookie(config: Config, ext: Externals, request: Request, now: int,
                                 m: Machine, value: string, hostname: string, key: string)
    requires !m.threw && |m.resp| > AuthParams
    requires config.doSession && SessionCookie(config, request) == Some(TestString)
    requires var parts := Split(value, '!');
      |parts| > WlsLife + 2 && parts[WlsStatus] == "410" && parts[WlsLife] == ""
    requires InDateRange(now) && InDateRange(now + config.maxSessionLife)
    ensures var s := ResponsePhase(config, ext, request, now, false, m, value, hostname, key);
      var parts := Split(value, '!');
      !s.m.threw && !s.ret
      && s.m.resp[AuthStatus] == Str("410")
      && s.m.effects == m.effects
         + [SetCookie(FullCookieName(config, request), SessionCookieValue(ext.digest, key, s.m.resp), 0,
                      config.cookiePath, config.cookieDomain, UsingHttps(request)),
            Redirect(parts[WlsUrl])]
  {
    var parts := Split(value, '!');
    CancelledResponse(config, ext, request, now, m, value, hostname, key, parts);
    CancelledConclusion(config, ext, request, now, m, parts, key);
  }

  function CancelledState(m: Machine): Machine
  {
    Put(Put(Put(Put(m, AuthStatus, Str("200")), AuthMsg, Str("")), AuthMsg, Str(StatusCodes["410"])),
        AuthStatus, Str("410"))
  }

  /** A cancelled login passes the validation chain with status 410. */
  lemma CancelledResponse(config: Config, ext: Externals, request: Request, now: int,
                          m: Machine, value: string, hostname: string, key: string, parts: seq<string>)
    requires !m.threw && |m.resp| > AuthParams
    requires parts == Split(value, '!') && |parts| > WlsStatus + 2 && parts[WlsStatus] == "410"
    ensures ResponsePhase(config, ext, request, now, false, m, value, hostname, key)
         == Conclude(config, ext, request, now, false, CancelledState(m), parts[..|parts| - 2], key)
  {
    var wls := parts[..|parts| - 2];
    assert wls[WlsStatus] == "410";
    var m1 := Put(Put(m, AuthStatus, Str("200")), AuthMsg, Str(""));
    CancelledValidates(config, ext, request, now, m1, wls, parts[|parts| - 1], parts[|parts| - 2], hostname);
    ResponsePhaseGoesOn(config, ext, request, now, false, m, value, hostname, key, parts, CancelledState(m));
  }

  /** The chain's verdict on a cancelled login, whatever follows the status. */
  lemma CancelledValidates(config: Config, ext: Externals, request: Request, now: int, m: Machine,
                           wls: seq<string>, sig: string, keyId: string, hostname: string)
    requires !m.threw && |m.resp| > AuthMsg && |wls| > WlsStatus && wls[WlsStatus] == "410"
    ensures Validate(config, ext, request, now, m, wls, sig, keyId, hostname)
      == Next(Put(Put(m, AuthMsg, Str(StatusCodes["410"])), AuthStatus, Str("410")))
  {
  }

  /** When the chain lets processing go on, the response phase concludes. */
  lemma ResponsePhaseGoesOn(config: Config, ext: Externals, request: Request, now: int, testOnly: bool,
                            m: Machine, value: string, hostname: string, key: string,
                            parts: seq<string>, m2: Machine)
    requires !m.threw && |m.resp| > AuthMsg
    requires parts == Split(value, '!') && |parts| >= 2
    requires Validate(config, ext, request, now, Put(Put(m, AuthStatus, Str("200")), AuthMsg, Str("")),
                      parts[..|parts| - 2], parts[|parts| - 1], parts[|parts| - 2], hostname) == Next(m2)
    ensures ResponsePhase(config, ext, request, now, testOnly, m, value, hostname, key)
         == Conclude(config, ext, request, now, testOnly, m2, parts[..|parts| - 2], key)
  {
  }

  /** The conclusion of a cancelled login: the session lasts the maximum
      life and the cookie is set with the status still 410. */
  lemma CancelledConclusion(config: Config, ext: Externals, request: Request, now: int,
                            m: Machine, parts: seq<string>, key: string)
    requires !m.threw && |m.resp| > AuthParams
    requires config.doSession && SessionCookie(config, request) == Some(TestString)
    requires |parts| > WlsLife + 2 && parts[WlsStatus] == "410" && parts[WlsLife] == ""
    requires InDateRange(now) && InDateRange(now + config.maxSessionLife)
    ensures var s := Conclude(config, ext, request, now, false, CancelledState(m), parts[..|parts| - 2], key);
      !s.m.threw && !s.ret
      && s.m.resp[AuthStatus] == Str("410")
      && s.m.effects == m.effects
         + [SetCookie(FullCookieName(config, request), SessionCookieValue(ext.digest, key, s.m.resp), 0,
                      config.cookiePath, config.cookieDomain, UsingHttps(request)),
            Redirect(parts[WlsUrl])]
  {
    var wls := parts[..|parts| - 2];
    CancelledStateFacts(m);
    CancelledConclusionOf(config, ext, request, now, CancelledState(m), wls, key);
    assert wls[WlsUrl] == parts[WlsUrl];
  }

  lemma CancelledStateFacts(m: Machine)
    requires !m.threw && |m.resp| > AuthParams
    ensures var s := CancelledState(m);
      !s.threw && |s.resp| == |m.resp| && s.resp[AuthStatus] == Str("410") && s.effects == m.effects
  {
  }

  lemma CancelledConclusionOf(config: Config, ext: Externals, request: Request, now: int,
                              m: Machine, wls: seq<string>, key: string)
    requires !m.threw && |m.resp| > AuthParams && m.resp[AuthStatus] == Str("410")
    requires config.doSession && SessionCookie(config, request) == Some(TestString)
    requires WlsLife < |wls| && wls[WlsLife] == "" && WlsUrl < |wls|
    requires InDateRange(now) && InDateRange(now + config.maxSessionLife)
    ensures var s := Conclude(config, ext, request, now, false, m, wls, key);
      !s.m.threw && !s.ret
      && s.m.resp[AuthStatus] == Str("410")
      && s.m.effects == m.effects
         + [SetCookie(FullCookieName(config, request), SessionCookieValue(ext.digest, key, s.m.resp), 0,
                      config.cookiePath, config.cookieDomain, UsingHttps(request)),
            Redirect(wls[WlsUrl])]
  {
    var life := config.maxSessionLife;
    assert SessionExpiry(life, wls[WlsLife]) == Some(life);
    var w := Resize(wls, WlsSize);
    var m3 := Populate(m, now, life, w);
    PopulateKeepsStatus(m, now, life, w);
    ConcludeEstablishes(config, ext, request, now, false, m, wls, key, life);
    EstablishRedirects(config, ext, request, m3, w, key);
    assert w[WlsUrl] == Str(wls[WlsUrl]);
  }

  /** Recording the response touches neither the status nor the HTTP response. */
  lemma PopulateKeepsStatus(m: Machine, now: int, expiry: int, w: seq<NString>)
    requires !m.threw && |m.resp| > AuthParams && |w| == WlsSize
    requires InDateRange(now) && InDateRange(now + expiry)
    ensures var r := Populate(m, now, expiry, w);
      !r.threw && r.resp[AuthStatus] == m.resp[AuthStatus] && r.effects == m.effects
  {
  }

  /** With an expiry and a response that records cleanly, the conclusion is
      the session step. */
  lemma ConcludeEstablishes(config: Config, ext: Externals, request: Request, now: int, testOnly: bool,
                            m: Machine, wls: seq<string>, key: string, expiry: int)
    requires !m.threw && |wls| > WlsLife
    requires SessionExpiry(config.maxSessionLife, wls[WlsLife]) == Some(expiry)
    requires !Populate(m, now, expiry, Resize(wls, WlsSize)).threw
    ensures Conclude(config, ext, request, now, testOnly, m, wls, key)
         == EstablishSession(config, ext, request, testOnly, Populate(m, now, expiry, Resize(wls, WlsSize)),
                             Resize(wls, WlsSize), key)
  {
  }

  /** With the pre-session cookie present, the session cookie is set and the
      browser sent back, with the status left alone. */
  lemma EstablishRedirects(config: Config, ext: Externals, request: Request, m: Machine,
                           w: seq<NString>, key: string)
    requires !m.threw && |m.resp| > AuthParams && |w| == WlsSize
    requires config.doSession && SessionCookie(config, request) == Some(TestString)
    ensures var s := EstablishSession(config, ext, request, false, m, w, key);
      !s.m.threw && !s.ret
      && s.m.resp[AuthStatus] == m.resp[AuthStatus]
      && s.m.effects == m.effects
         + [SetCookie(FullCookieName(config, request), SessionCookieValue(ext.digest, key, s.m.resp), 0,
                      config.cookiePath, config.cookieDomain, UsingHttps(request)),
            Redirect(OrEmpty(w[WlsUrl]))]
  {
  }

  // ---------------------------------------------------------------------------
  // The request to the login service
  // ---------------------------------------------------------------------------

  /** A Host header that differs from the configured hostname leads to a
      redirect to the same page under the configured name, and no cookie. */
  lemma HostMismatchRedirects(config: Config, ext: Externals, request: Request, now: int, testOnly: bool,
                              m: Machine, hostname: string, timeoutMsg: NString)
    requires !m.threw && config.doSession
    requires request.httpHost.Str? && AsciiLower(hostname) != AsciiLower(request.httpHost.value)
    ensures RequestPhase(config, ext, request, now, testOnly, m, hostname, timeoutMsg)
      == Stop(m.(effects := m.effects + (if testOnly then [] else [Redirect(Url(hostname, request))])), false)
  {
    if testOnly {
      assert m.effects + [] == m.effects;
    }
  }

  /** With a Host header that is absent or agrees with the configured
      hostname, a login starts: under session management the pre-session
      cookie is set, then the browser is sent to the login service with the
      request's arguments. A dry run sends nothing. */
  lemma LoginRedirectsToProvider(config: Config, ext: Externals, request: Request, now: int, testOnly: bool,
                                 m: Machine, hostname: string, timeoutMsg: NString)
    requires !m.threw && |m.resp| > AuthParams && InDateRange(now)
    requires request.httpHost.Null? || AsciiLower(hostname) == AsciiLower(request.httpHost.value)
    ensures var s := RequestPhase(config, ext, request, now, testOnly, m, hostname, timeoutMsg);
      !s.m.threw && !s.ret && s.m.resp == m.resp
      && s.m.effects == m.effects + LoginEffects(config, ext, request, now, testOnly, m, hostname, timeoutMsg)
  {
    if testOnly {
      LoginDryRun(config, ext, request, now, m, hostname, timeoutMsg);
    } else if config.doSession {
      LoginWithSession(config, ext, request, now, m, hostname, timeoutMsg);
    } else {
      LoginWithoutSession(config, ext, request, now, m, hostname, timeoutMsg);
    }
  }

  /** What the start of a login sends: the pre-session cookie under session
      management, then the redirect to the login service; nothing on a dry run. */
  function LoginEffects(config: Config, ext: Externals, request: Request, now: int, testOnly: bool,
                        m: Machine, hostname: string, timeoutMsg: NString): seq<Effect>
    requires |m.resp| > AuthParams && InDateRange(now)
  {
    var cookie := SetCookie(FullCookieName(config, request), TestString, 0, config.cookiePath,
                            config.cookieDomain, UsingHttps(request));
    var dest := ProviderUrl(config, ext, Url(hostname, request), timeoutMsg, m.resp[AuthParams], Time2Iso(now));
    if testOnly then [] else (if config.doSession then [cookie] else []) + [Redirect(dest)]
  }

  lemma LoginDryRun(config: Config, ext: Externals, request: Request, now: int,
                    m: Machine, hostname: string, timeoutMsg: NString)
    requires !m.threw && |m.resp| > AuthParams && InDateRange(now)
    requires request.httpHost.Null? || AsciiLower(hostname) == AsciiLower(request.httpHost.value)
    ensures RequestPhase(config, ext, request, now, true, m, hostname, timeoutMsg) == Stop(m, false)
    ensures LoginEffects(config, ext, request, now, true, m, hostname, timeoutMsg) == []
  {
  }

  lemma LoginWithSession(config: Config, ext: Externals, request: Request, now: int,
                         m: Machine, hostname: string, timeoutMsg: NString)
    requires !m.threw && |m.resp| > AuthParams && InDateRange(now) && config.doSession
    requires request.httpHost.Null? || AsciiLower(hostname) == AsciiLower(request.httpHost.value)
    ensures var s := RequestPhase(config, ext, request, now, false, m, hostname, timeoutMsg);
      !s.m.threw && !s.ret && s.m.resp == m.resp
      && s.m.effects == m.effects + LoginEffects(config, ext, request, now, false, m, hostname, timeoutMsg)
  {
    var cookie := SetCookie(FullCookieName(config, request), TestString, 0, config.cookiePath,
                            config.cookieDomain, UsingHttps(request));
    var dest := ProviderUrl(config, ext, Url(hostname, request), timeoutMsg, m.resp[AuthParams], Time2Iso(now));
    assert LoginEffects(config, ext, request, now, false, m, hostname, timeoutMsg) == [cookie] + [Redirect(dest)];
    assert m.effects + [cookie] + [Redirect(dest)] == m.effects + ([cookie] + [Redirect(dest)]);
  }

  lemma LoginWithoutSession(config: Config, ext: Externals, request: Request, now: int,
                            m: Machine, hostname: string, timeoutMsg: NString)
    requires !m.threw && |m.resp| > AuthParams && InDateRange(now) && !config.doSession
    ensures var s := RequestPhase(config, ext, request, now, false, m, hostname, timeoutMsg);
      !s.m.threw && !s.ret && s.m.resp == m.resp
      && s.m.effects == m.effects + LoginEffects(config, ext, request, now, false, m, hostname, timeoutMsg)
  {
    var dest := ProviderUrl(config, ext, Url(hostname, request), timeoutMsg, m.resp[AuthParams], Time2Iso(now));
    assert LoginEffects(config, ext, request, now, false, m, hostname, timeoutMsg) == [Redirect(dest)];
  }

  /** Without a params slot, or with a clock outside DateTime's range, the
      request phase throws once past the Host check. */
  lemma LoginThrowsWithoutParamsOrDate(config: Config, ext: Externals, request: Request, now: int,
                                       testOnly: bool, m: Machine, hostname: string, timeoutMsg: NString)
    requires !m.threw && (|m.resp| <= AuthParams || !InDateRange(now))
    requires request.httpHost.Null? || AsciiLower(hostname) == AsciiLower(request.httpHost.value)
    ensures RequestPhase(config, ext, request, now, testOnly, m, hostname, timeoutMsg).m.threw
  {
  }

  /** URL encoding never produces the query's separators. */
  ghost predicate EncodesSafely(ext: Externals)
  {
    forall s :: '&' !in ext.urlEncode(s) && '=' !in ext.urlEncode(s)
  }

  lemma NameValueSplit(name: string, value: string)
    requires '=' !in name && '=' !in value
    ensures Split(name + "=" + value, '=') == [name, value]
  {
    SplitAround(name, value, '=');
    assert name + "=" + value == name + ['='] + value;
    SplitWithoutSeparator(name, '=');
    SplitWithoutSeparator(value, '=');
  }

  /** The name each argument carries: what precedes its first '='. */
  function ArgNames(args: seq<string>): (names: seq<string>)
    ensures |names| == |args|
    ensures forall i :: 0 <= i < |args| ==> names[i] == Split(args[i], '=')[0]
  {
    if |args| == 0 then [] else [Split(args[0], '=')[0]] + ArgNames(args[1..])
  }

  lemma {:induction false} ArgNamesAppend(a: seq<string>, b: seq<string>)
    ensures ArgNames(a + b) == ArgNames(a) + ArgNames(b)
    decreases |a|
  {
    if |a| > 0 {
      assert (a + b)[1..] == a[1..] + b;
      ArgNamesAppend(a[1..], b);
    }
  }

  lemma OptName(cond: bool, name: string, value: string)
    requires '=' !in name && '=' !in value
    ensures ArgNames(Opt(cond, Arg(name, value))) == Opt(cond, name)
  {
    if cond { NameValueSplit(name, value); }
  }

  /** No argument holds the separator ch. */
  predicate Separated(args: seq<string>, ch: char)
  {
    forall i :: 0 <= i < |args| ==> ch !in args[i]
  }

  lemma SeparatedAppend(a: seq<string>, b: seq<string>, ch: char)
    requires Separated(a, ch) && Separated(b, ch)
    ensures Separated(a + b, ch)
  {
    forall i | 0 <= i < |a + b| ensures ch !in (a + b)[i] {
      if i >= |a| {
        assert (a + b)[i] == b[i - |a|];
      }
    }
  }

  lemma OptFree(cond: bool, arg: string)
    requires '&' !in arg
    ensures Separated(Opt(cond, arg), '&')
  {
  }

  lemma RequestArgsSeparated(config: Config, ext: Externals, url: string, timeoutMsg: NString,
                             params: NString, date: string)
    requires EncodesSafely(ext)
    ensures var args := RequestArgs(config, ext, url, timeoutMsg, params, date);
      |args| >= 1 && forall i :: 0 <= i < |args| ==> '&' !in args[i]
  {
    RequestArgsParts(config, ext, url, timeoutMsg, params, date);
    var p := "params" + ext.urlEncode(OrEmpty(params));
    assert '&' !in p by {
      assert '&' !in ext.urlEncode(OrEmpty(params));
      assert forall k :: 0 <= k < |p| ==> p[k] == (if k < 6 then "params"[k] else ext.urlEncode(OrEmpty(params))[k - 6]);
    }
    var a := Opt(true, Arg("ver", ProtocolVersion));
    OptFree(true, Arg("ver", ProtocolVersion));
    var u := Opt(true, Arg("url", ext.urlEncode(url)));
    OptFree(true, Arg("url", ext.urlEncode(url)));
    SeparatedAppend(a, u, '&');
    a := a + u;
    u := Opt(config.description.Str?, Arg("desc", ext.urlEncode(OrEmpty(config.description))));
    OptFree(config.description.Str?, Arg("desc", ext.urlEncode(OrEmpty(config.description))));
    SeparatedAppend(a, u, '&');
    a := a + u;
    u := Opt(config.aauth.Str?, Arg("aauth", ext.urlEncode(OrEmpty(config.aauth))));
    OptFree(config.aauth.Str?, Arg("aauth", ext.urlEncode(OrEmpty(config.aauth))));
    SeparatedAppend(a, u, '&');
    a := a + u;
    u := Opt(config.useInteract, Arg("iact", if config.interact then "yes" else "no"));
    OptFree(config.useInteract, Arg("iact", if config.interact then "yes" else "no"));
    SeparatedAppend(a, u, '&');
    a := a + u;
    u := Opt(timeoutMsg.Str?, Arg("msg", ext.urlEncode(OrEmpty(timeoutMsg))));
    OptFree(timeoutMsg.Str?, Arg("msg", ext.urlEncode(OrEmpty(timeoutMsg))));
    SeparatedAppend(a, u, '&');
    a := a + u;
    u := Opt(params.Str?, p);
    OptFree(params.Str?, p);
    SeparatedAppend(a, u, '&');
    a := a + u;
    u := Opt(true, Arg("date", ext.urlEncode(date)));
    OptFree(true, Arg("date", ext.urlEncode(date)));
    SeparatedAppend(a, u, '&');
    a := a + u;
    u := Opt(config.fail, Arg("fail", "yes"));
    OptFree(config.fail, Arg("fail", "yes"));
    SeparatedAppend(a, u, '&');
    a := a + u;
    assert a == RequestArgs(config, ext, url, timeoutMsg, params, date);
  }


  /** The query of the provider URL splits back into the arguments, which
      come in the fixed order ver, url, desc, aauth, iact, msg, params, date,
      fail. The params argument lacks its '=', so its name is "params" run
      together with the encoded value. */
  lemma ProviderQueryOrder(config: Config, ext: Externals, url: string, timeoutMsg: NString,
                           params: NString, date: string)
    requires EncodesSafely(ext)
    ensures var args := RequestArgs(config, ext, url, timeoutMsg, params, date);
      Split(Join(args, '&'), '&') == args
      && ArgNames(args)
         == ["ver", "url"]
            + Opt(config.description.Str?, "desc")
            + Opt(config.aauth.Str?, "aauth")
            + Opt(config.useInteract, "iact")
            + Opt(timeoutMsg.Str?, "msg")
            + Opt(params.Str?, "params" + ext.urlEncode(OrEmpty(params)))
            + ["date"]
            + Opt(config.fail, "fail")
  {
    var args := RequestArgs(config, ext, url, timeoutMsg, params, date);
    RequestArgsSeparated(config, ext, url, timeoutMsg, params, date);
    SplitJoin(args, '&');
    RequestArgNames(config, ext, url, timeoutMsg, params, date);
    assert Opt(true, "ver") + Opt(true, "url") == ["ver", "url"];
    assert Opt(true, "date") == ["date"];
  }

  lemma RequestArgNames(config: Config, ext: Externals, url: string, timeoutMsg: NString,
                        params: NString, date: string)
    requires EncodesSafely(ext)
    ensures ArgNames(RequestArgs(config, ext, url, timeoutMsg, params, date))
         == Opt(true, "ver") + Opt(true, "url") + Opt(config.description.Str?, "desc")
            + Opt(config.aauth.Str?, "aauth") + Opt(config.useInteract, "iact") + Opt(timeoutMsg.Str?, "msg")
            + Opt(params.Str?, "params" + ext.urlEncode(OrEmpty(params))) + Opt(true, "date")
            + Opt(config.fail, "fail")
  {
    var a0 := Opt(true, Arg("ver", ProtocolVersion));
    var a1 := Opt(true, Arg("url", ext.urlEncode(url)));
    var a2 := Opt(config.description.Str?, Arg("desc", ext.urlEncode(OrEmpty(config.description))));
    var a3 := Opt(config.aauth.Str?, Arg("aauth", ext.urlEncode(OrEmpty(config.aauth))));
    var a4 := Opt(config.useInteract, Arg("iact", if config.interact then "yes" else "no"));
    var a5 := Opt(timeoutMsg.Str?, Arg("msg", ext.urlEncode(OrEmpty(timeoutMsg))));
    var a6 := Opt(params.Str?, "params" + ext.urlEncode(OrEmpty(params)));
    var a7 := Opt(true, Arg("date", ext.urlEncode(date)));
    var a8 := Opt(config.fail, Arg("fail", "yes"));
    RequestArgsParts(config, ext, url, timeoutMsg, params, date);
    ArgNamesFirst(config, ext, url, timeoutMsg);
    ArgNamesLast(config, ext, params, date);
    ArgNamesOfParts(a0, a1, a2, a3, a4, a5, a6, a7, a8,
                    Opt(true, "ver"), Opt(true, "url"), Opt(config.description.Str?, "desc"),
                    Opt(config.aauth.Str?, "aauth"), Opt(config.useInteract, "iact"), Opt(timeoutMsg.Str?, "msg"),
                    Opt(params.Str?, "params" + ext.urlEncode(OrEmpty(params))), Opt(true, "date"),
                    Opt(config.fail, "fail"));
  }
  /** The names of the arguments before params. */
  lemma ArgNamesFirst(config: Config, ext: Externals, url: string, timeoutMsg: NString)
    requires EncodesSafely(ext)
    ensures ArgNames(Opt(true, Arg("ver", ProtocolVersion))) == Opt(true, "ver")
    ensures ArgNames(Opt(true, Arg("url", ext.urlEncode(url)))) == Opt(true, "url")
    ensures ArgNames(Opt(config.description.Str?, Arg("desc", ext.urlEncode(OrEmpty(config.description)))))
      == Opt(config.description.Str?, "desc")
    ensures ArgNames(Opt(config.aauth.Str?, Arg("aauth", ext.urlEncode(OrEmpty(config.aauth)))))
      == Opt(config.aauth.Str?, "aauth")
    ensures ArgNames(Opt(config.useInteract, Arg("iact", if config.interact then "yes" else "no")))
      == Opt(config.useInteract, "iact")
    ensures ArgNames(Opt(timeoutMsg.Str?, Arg("msg", ext.urlEncode(OrEmpty(timeoutMsg)))))
      == Opt(timeoutMsg.Str?, "msg")
  {
    OptName(true, "ver", ProtocolVersion);
    OptName(true, "url", ext.urlEncode(url));
    OptName(config.description.Str?, "desc", ext.urlEncode(OrEmpty(config.description)));
    OptName(config.aauth.Str?, "aauth", ext.urlEncode(OrEmpty(config.aauth)));
    OptName(config.useInteract, "iact", if config.interact then "yes" else "no");
    OptName(timeoutMsg.Str?, "msg", ext.urlEncode(OrEmpty(timeoutMsg)));
  }
  /** The names of params, date and fail. */
  lemma ArgNamesLast(config: Config, ext: Externals, params: NString, date: string)
    requires EncodesSafely(ext)
    ensures ArgNames(Opt(params.Str?, "params" + ext.urlEncode(OrEmpty(params))))
      == Opt(params.Str?, "params" + ext.urlEncode(OrEmpty(params)))
    ensures ArgNames(Opt(true, Arg("date", ext.urlEncode(date)))) == Opt(true, "date")
    ensures ArgNames(Opt(config.fail, Arg("fail", "yes"))) == Opt(config.fail, "fail")
  {
    ParamsName(params.Str?, "params" + ext.urlEncode(OrEmpty(params)));
    OptName(true, "date", ext.urlEncode(date));
    OptName(config.fail, "fail", "yes");
  }

  lemma ParamsName(cond: bool, arg: string)
    requires '=' !in arg
    ensures ArgNames(Opt(cond, arg)) == Opt(cond, arg)
  {
    if cond { SplitWithoutSeparator(arg, '='); }
  }

  lemma RequestArgsParts(config: Config, ext: Externals, url: string, timeoutMsg: NString,
                         params: NString, date: string)
    ensures RequestArgs(config, ext, url, timeoutMsg, params, date)
         == Opt(true, Arg("ver", ProtocolVersion)) + Opt(true, Arg("url", ext.urlEncode(url)))
            + Opt(config.description.Str?, Arg("desc", ext.urlEncode(OrEmpty(config.description))))
            + Opt(config.aauth.Str?, Arg("aauth", ext.urlEncode(OrEmpty(config.aauth))))
            + Opt(config.useInteract, Arg("iact", if config.interact then "yes" else "no"))
            + Opt(timeoutMsg.Str?, Arg("msg", ext.urlEncode(OrEmpty(timeoutMsg))))
            + Opt(params.Str?, "params" + ext.urlEncode(OrEmpty(params)))
            + Opt(true, Arg("date", ext.urlEncode(date)))
            + Opt(config.fail, Arg("fail", "yes"))
  {
    var ver, u, d := Arg("ver", ProtocolVersion), Arg("url", ext.urlEncode(url)), Arg("date", ext.urlEncode(date));
    OptTrue(ver);
    OptTrue(u);
    OptTrue(d);
    assert Opt(true, ver) + Opt(true, u) == [ver, u];
  }

  lemma OptTrue(arg: string)
    ensures Opt(true, arg) == [arg]
  {
  }

  lemma ArgNamesOfParts(a0: seq<string>, a1: seq<string>, a2: seq<string>, a3: seq<string>, a4: seq<string>,
                        a5: seq<string>, a6: seq<string>, a7: seq<string>, a8: seq<string>,
                        n0: seq<string>, n1: seq<string>, n2: seq<string>, n3: seq<string>, n4: seq<string>,
                        n5: seq<string>, n6: seq<string>, n7: seq<string>, n8: seq<string>)
    requires ArgNames(a0) == n0 && ArgNames(a1) == n1 && ArgNames(a2) == n2 && ArgNames(a3) == n3
    requires ArgNames(a4) == n4 && ArgNames(a5) == n5 && ArgNames(a6) == n6 && ArgNames(a7) == n7
    requires ArgNames(a8) == n8
    ensures ArgNames(a0 + a1 + a2 + a3 + a4 + a5 + a6 + a7 + a8) == n0 + n1 + n2 + n3 + n4 + n5 + n6 + n7 + n8
  {
    ArgNamesAppend(a0 + a1 + a2 + a3 + a4 + a5 + a6 + a7, a8);
    ArgNamesAppend(a0 + a1 + a2 + a3 + a4 + a5 + a6, a7);
    ArgNamesAppend(a0 + a1 + a2 + a3 + a4 + a5, a6);
    ArgNamesAppend(a0 + a1 + a2 + a3 + a4, a5);
    ArgNamesAppend(a0 + a1 + a2 + a3, a4);
    ArgNamesAppend(a0 + a1 + a2, a3);
    ArgNamesAppend(a0 + a1, a2);
    ArgNamesAppend(a0, a1);
  }

  /** The params argument has no '=' and so no value: splitting it on '='
      gives the whole argument back as a name. */
  lemma ParamsArgumentHasNoValue(ext: Externals, params: string)
    requires EncodesSafely(ext)
    ensures Split("params" + ext.urlEncode(params), '=') == ["params" + ext.urlEncode(params)]
  {
    SplitWithoutSeparator("params" + ext.urlEncode(params), '=');
  }
}
