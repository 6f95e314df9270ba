/** The agent's configuration, the request it sees, and the helpers that
    derive the site's own URL and the session cookie's name from them. */
module Site {
  import opened Text

  /** The configuration the constructor leaves in the agent's fields. */
  datatype Config = Config(
    doSession: bool,
    cookieKey: NString,
    cookiePath: string,
    authService: string,
    description: NString,
    responseTimeout: int,
    clockSkew: int,
    hostname: NString,
    maxSessionLife: int,
    timeoutMessage: NString,
    cookieName: string,
    cookieDomain: string,
    fail: bool,
    forcedReauthMessage: NString,
    interact: bool,
    useInteract: bool,
    aauth: NString)

  /** What the constructor uses when an argument is not given. */
  const DefaultAuthService: string := "https://raven.cam.ac.uk/auth/authenticate.html"
  const DefaultCookieName: string := "Ucam-WebAuth-Session"
  const DefaultTimeoutMessage: string := "your logon to the site has expired"
  const DefaultResponseTimeout: int := 30
  const DefaultClockSkew: int := 5
  const DefaultMaxSessionLife: int := 2 * 60 * 60

  /** The parts of the HTTP request the agent reads: server variables
      (null when absent) and the request's cookies by name. */
  datatype Request = Request(
    https: NString,
    httpHost: NString,
    serverPort: NString,
    requestUri: NString,
    queryString: NString,
    cookies: map<string, string>)

  /** `using_https`: the HTTPS server variable is "on", ignoring case; a
      missing variable means plain http. */
  predicate UsingHttps(request: Request)
  {
    request.https.Str? && AsciiLower(request.https.value) == "on"
  }

  /** `full_cookie_name`: the configured name, with "-S" appended under https
      so that secure and plain sessions never share a cookie. */
  function FullCookieName(config: Config, request: Request): (name: string)
    ensures UsingHttps(request) <==> name == config.cookieName + "-S"
  {
    if UsingHttps(request) then config.cookieName + "-S" else config.cookieName
  }

  /** The value of the session cookie this request carries, if any. */
  function SessionCookie(config: Config, request: Request): Option<string>
  {
    var name := FullCookieName(config, request);
    if name in request.cookies then Some(request.cookies[name]) else None
  }

  // ---------------------------------------------------------------------------
  // The two regular expressions: `:[0-9]+$` and `\?.*$` / `\?.+$`. In .NET
  // `$` matches at the very end and also just before a final '\n'; `.` is
  // any character but '\n'.
  // ---------------------------------------------------------------------------

  /** The string without one final '\n', where `$` also matches. */
  function BeforeFinalNewline(s: string): (b: string)
    ensures b == s || (s == b + "\n")
  {
    if |s| > 0 && s[|s| - 1] == '\n' then s[..|s| - 1] else s
  }

  function TrailingDigits(s: string): (n: nat)
    ensures n <= |s| && AllDigits(s[|s| - n..])
    ensures n < |s| ==> !IsDigit(s[|s| - n - 1])
    decreases |s|
  {
    if |s| > 0 && IsDigit(s[|s| - 1]) then TrailingDigits(s[..|s| - 1]) + 1 else 0
  }

  /** `Regex.Replace(h, ":[0-9]+$", "")`: a colon followed by digits up to the
      end is removed. */
  function StripPort(h: string): (r: string)
  {
    var b := BeforeFinalNewline(h);
    var n := TrailingDigits(b);
    if n > 0 && n < |b| && b[|b| - n - 1] == ':' then b[..|b| - n - 1] + h[|b|..] else h
  }

  /** Where the query of `s` starts for `\?.*$` (minTail 0) or `\?.+$`
      (minTail 1): the first '?' from i on that is followed by at least
      minTail characters, none of them a newline, up to where `$` matches. */
  function QueryStart(b: string, i: nat, minTail: nat): (r: Option<nat>)
    requires i <= |b|
    ensures r.Some? ==> i <= r.value < |b| && b[r.value] == '?'
    decreases |b| - i
  {
    if i == |b| then None
    else if b[i] == '?' && |b| - i - 1 >= minTail && '\n' !in b[i + 1..] then Some(i)
    else QueryStart(b, i + 1, minTail)
  }

  /** `Regex.Replace(s, @"\?.*$", "")` for minTail 0 and
      `Regex.Replace(s, @"\?.+$", "")` for minTail 1. */
  function StripQuery(s: string, minTail: nat): (r: string)
  {
    var b := BeforeFinalNewline(s);
    match QueryStart(b, 0, minTail)
    case Some(i) => b[..i] + s[|b|..]
    case None => s
  }

  /** `url()`: scheme, the configured hostname without a port suffix, the
      server port unless it is the scheme's default, then REQUEST_URI. A
      missing SERVER_PORT still contributes its ':' separator. */
  function Url(hostname: string, request: Request): (u: string)
  {
    var https := UsingHttps(request);
    var scheme := if https then "https://" else "http://";
    var port := request.serverPort;
    var defaultPort := port == Str(if https then "443" else "80");
    var portPart := if defaultPort || port == Str("") then "" else ":" + OrEmpty(port);
    scheme + StripPort(hostname) + portPart + OrEmpty(request.requestUri)
  }

  // ---------------------------------------------------------------------------
  // Properties
  // ---------------------------------------------------------------------------

  /** `using_https` accepts "on" in any letter case and nothing else. */
  lemma UsingHttpsCases(request: Request)
    ensures UsingHttps(request) <==> request.https.Str? && request.https.value in {"on", "oN", "On", "ON"}
  {
    if request.https.Str? {
      LowerOn(request.https.value);
    }
  }

  lemma LowerOn(v: string)
    ensures AsciiLower(v) == "on" <==> v in {"on", "oN", "On", "ON"}
  {
    if |v| == 2 {
      var l := AsciiLower(v);
      assert l[0] == AsciiLowerChar(v[0]) && l[1] == AsciiLowerChar(v[1]);
      assert l == "on" <==> l[0] == 'o' && l[1] == 'n';
      assert v == [v[0], v[1]];
    } else {
      assert |AsciiLower(v)| != |"on"|;
    }
  }

  /** Stripping the port undoes appending ":" and a port number. */
  lemma StripPortOfHostAndPort(h: string, digits: string)
    requires |digits| > 0 && AllDigits(digits)
    ensures StripPort(h + ":" + digits) == h
  {
    var s := h + ":" + digits;
    assert BeforeFinalNewline(s) == s;
    TrailingDigitsOfSuffix(h + ":", digits);
    assert s[|s| - |digits| - 1] == ':';
    assert s[..|s| - |digits| - 1] == h;
  }

  lemma {:induction false} TrailingDigitsOfSuffix(h: string, digits: string)
    requires AllDigits(digits) && |h| > 0 && !IsDigit(h[|h| - 1])
    ensures TrailingDigits(h + digits) == |digits|
    decreases |digits|
  {
    if |digits| > 0 {
      var init := digits[..|digits| - 1];
      assert (h + digits)[..|h + digits| - 1] == h + init;
      TrailingDigitsOfSuffix(h, init);
    } else {
      assert h + digits == h;
    }
  }

  /** A hostname without a colon is left alone. */
  lemma StripPortWithoutColon(h: string)
    requires ':' !in h
    ensures StripPort(h) == h
  {
    var b := BeforeFinalNewline(h);
    var n := TrailingDigits(b);
    if n > 0 && n < |b| {
      assert b[|b| - n - 1] == h[|b| - n - 1];
    }
  }

  lemma {:induction false} QueryStartFirst(b: string, i: nat, minTail: nat)
    requires i <= |b| && '?' !in b[i..]
    ensures QueryStart(b, i, minTail) == None
    decreases |b| - i
  {
    if i < |b| {
      assert b[i] == b[i..][0];
      assert b[i + 1..] == b[i..][1..];
      QueryStartFirst(b, i + 1, minTail);
    }
  }

  /** A URL with a non-empty query loses it under both expressions. */
  lemma StripQueryOfQuery(base: string, query: string, minTail: nat)
    requires '?' !in base && '\n' !in base && '\n' !in query && |query| >= minTail
    ensures StripQuery(base + "?" + query, minTail) == base
  {
    var s := base + "?" + query;
    if |query| > 0 {
      assert BeforeFinalNewline(s) == s by { assert s[|s| - 1] == query[|query| - 1]; }
    } else {
      assert BeforeFinalNewline(s) == s;
    }
    QueryStartAt(s, 0, |base|, minTail);
    assert s[..|base|] == base;
  }

  lemma {:induction false} QueryStartAt(b: string, i: nat, k: nat, minTail: nat)
    requires i <= k < |b| && b[k] == '?' && |b| - k - 1 >= minTail && '\n' !in b[k + 1..]
    requires forall j :: i <= j < k ==> b[j] != '?'
    ensures QueryStart(b, i, minTail) == Some(k)
    decreases k - i
  {
    if i < k {
      QueryStartAt(b, i + 1, k, minTail);
    }
  }

  /** The asymmetry between the two expressions: a URL ending in a bare '?'
      loses it under `\?.*$` but keeps it under `\?.+$`, so the response URL
      and this URL differ. */
  lemma StripQueryAsymmetry(base: string)
    requires '?' !in base && '\n' !in base
    ensures StripQuery(base + "?", 0) == base
    ensures StripQuery(base + "?", 1) == base + "?"
  {
    StripQueryOfQuery(base, "", 0);
    var s := base + "?";
    assert base + "?" + "" == s;
    assert BeforeFinalNewline(s) == s;
    QueryStartFirst(s, |s|, 1);
    QueryStartNone(s, 0, 1);
  }

  lemma {:induction false} QueryStartNone(b: string, i: nat, minTail: nat)
    requires |b| > 0 && i <= |b| && b[|b| - 1] == '?' && minTail >= 1
    requires forall j :: i <= j < |b| - 1 ==> b[j] != '?'
    ensures QueryStart(b, i, minTail) == None
    decreases |b| - i
  {
    if i < |b| {
      QueryStartNone(b, i + 1, minTail);
    }
  }

  /** `url()` omits the scheme's default port and an empty one, keeps any
      other port, and writes a bare ':' when SERVER_PORT is missing. */
  lemma UrlPort(hostname: string, request: Request)
    ensures UsingHttps(request) && request.serverPort == Str("443")
      ==> Url(hostname, request) == "https://" + StripPort(hostname) + OrEmpty(request.requestUri)
    ensures !UsingHttps(request) && request.serverPort == Str("80")
      ==> Url(hostname, request) == "http://" + StripPort(hostname) + OrEmpty(request.requestUri)
    ensures request.serverPort == Str("")
      ==> (Url(hostname, request)
             == (if UsingHttps(request) then "https://" else "http://") + StripPort(hostname)
                + OrEmpty(request.requestUri))
    ensures request.serverPort.Str? && request.serverPort.value != ""
            && request.serverPort.value != (if UsingHttps(request) then "443" else "80")
      ==> (Url(hostname, request)
             == (if UsingHttps(request) then "https://" else "http://") + StripPort(hostname)
                + ":" + request.serverPort.value + OrEmpty(request.requestUri))
    ensures request.serverPort.Null?
      ==> (Url(hostname, request)
             == (if UsingHttps(request) then "https://" else "http://") + StripPort(hostname)
                + ":" + OrEmpty(request.requestUri))
  {
    var scheme := if UsingHttps(request) then "https://" else "http://";
    var port := request.serverPort;
    if port.Null? {
      UrlWithPort(hostname, request, scheme, "");
      assert ":" + OrEmpty(port) == ":" + "";
    } else if port.value != "" && port.value != (if UsingHttps(request) then "443" else "80") {
      UrlWithPort(hostname, request, scheme, port.value);
    } else {
      UrlWithoutPort(hostname, request, scheme);
    }
  }

  lemma UrlWithPort(hostname: string, request: Request, scheme: string, p: string)
    requires scheme == if UsingHttps(request) then "https://" else "http://"
    requires request.serverPort == Null
      || (request.serverPort == Str(p) && p != "" && p != (if UsingHttps(request) then "443" else "80"))
    requires request.serverPort == Null ==> p == ""
    ensures Url(hostname, request) == scheme + StripPort(hostname) + ":" + p + OrEmpty(request.requestUri)
  {
    var host, uri := StripPort(hostname), OrEmpty(request.requestUri);
    assert request.serverPort != Str(if UsingHttps(request) then "443" else "80") && request.serverPort != Str("");
    assert OrEmpty(request.serverPort) == p;
    assert scheme + host + (":" + p) + uri == scheme + host + ":" + p + uri;
  }

  lemma UrlWithoutPort(hostname: string, request: Request, scheme: string)
    requires scheme == if UsingHttps(request) then "https://" else "http://"
    requires request.serverPort == Str("") || request.serverPort == Str(if UsingHttps(request) then "443" else "80")
    ensures Url(hostname, request) == scheme + StripPort(hostname) + OrEmpty(request.requestUri)
  {
    var host, uri := StripPort(hostname), OrEmpty(request.requestUri);
    assert scheme + host + "" + uri == scheme + host + uri;
  }
}
