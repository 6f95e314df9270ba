# Raven v3 web authentication agent, modelled in Dafny

This project models the core of `Ucam_Webauth`. That is the C# agent a web application uses to authenticate its users against the University of Cambridge Raven login service, protocol version 3.

## How the agent works

One call of `authenticate(authassertionid, testauthonly)` does the following, in order:

1. It checks its configuration.
2. It looks for a signed session cookie that is still current.
3. Failing that, it looks for a `WLS-Response` in the query string and validates it, in a fixed order of checks.
4. After a valid response it records the result in the twelve-slot `_authentication_response` array, sets a signed session cookie, and redirects the browser.
5. Without a response, it sets a `Test` pre-session cookie and redirects the browser to the login service. The query of that redirect has its arguments in a fixed order.

## Modules

Each module is one file.

- `Text` (`text.dfy`) holds the string facilities the agent takes from .NET:
  - `Split` and `Join` on one character;
  - `Convert.ToInt32` on decimal text;
  - ASCII lower-casing;
  - zero-padded decimal digits.
- `Transport` (`transport.dfy`) holds `wls_encode` and `wls_decode`. These are base64, as in section 4 of RFC 4648, with `+`, `/` and `=` replaced by `-`, `.` and `_`.
- `CookieMac` (`cookiemac.dfy`) holds `hmac_sha1` and `hmac_sha1_verify`.
  - The HMAC-SHA1 digest is a parameter.
  - The digest is written as lowercase hex and then passed through `wls_encode`.
- `TimeCodec` (`timecodec.dfy`) holds `time2iso` and `iso2time`.
  - Both use the proleptic Gregorian calendar arithmetic of .NET `DateTime`.
  - `iso2time` includes the `(int)` cast of its result.
- `Site` (`site.dfy`) holds the configuration and the request snapshot.
  - It also holds `url()`, `full_cookie_name()` and `using_https()`.
  - It models the .NET semantics of the two regular expressions the agent uses.
- `Protocol` (`protocol.dfy`) is `authenticate` as a function of five things:
  - the configuration;
  - the request;
  - the external calls;
  - one current time `now`;
  - the state before the call.

  A `Machine` threads three things through the phases: the array, the effects on the HTTP response (cookies set, redirects) and whether an exception has been thrown. The result, a `Run`, is the call's outcome (`Returned(b)` or `Threw`), the final array and the effects in order.
- `Properties` (`properties.dfy`) proves what the protocol guarantees, as lemmas over `Protocol`.
- `Agent` (`agent.dfy`) is the class `Webauth`. Its `Authenticate` method works step by step, as the C# method does:
  - it writes array slots one at a time;
  - it scans the query string in a loop;
  - it builds the cookie in a loop;
  - it appends to the provider URL one argument at a time.

  `Authenticate` is proved to leave exactly the outcome, the array and the effects that `Protocol.Authenticate` describes.

## External calls and exceptions

The `Externals` datatype stands for the calls the agent makes into code it does not own:

- the HMAC-SHA1 digest;
- whether the certificate for a key id loads;
- the RSA/SHA-1 signature check;
- `HttpUtility.UrlEncode` and `HttpUtility.UrlDecode`.

An exception is modelled as the outcome `Threw`. The array keeps whatever was written before the throw. The exceptions modelled are:

- an index past the end of an array;
- an unknown key in `status_codes`;
- a life field that `Convert.ToInt32` rejects;
- a certificate that cannot be loaded;
- a time outside the range of `DateTime`.

## Where the code is followed against its description

The description of the agent says a cancelled login (status 410) ends without a session cookie. The code differs: a 410 only overwrites the status and the message. With session management on and the `Test` cookie present, processing goes on to set a session cookie carrying status 410 and to redirect. The model follows the code; see `Properties.CancelledLoginSetsCookie`.

The quirks below are also reproduced as written:

- `authassertionid` forces re-authentication only when it equals the cookie's id.
- Only a bad WLS signature returns from the validation chain.
- The null test on the issue time is dead code, so an unreadable time counts as 0 and is reported as stale.
- The response URL is stripped with `\?.*$`, but this URL only with `\?.+$`.
- The `params` argument of the provider URL has no `=`.

## Model

| member | source | states |
|---|---|---|
| Transport.WlsRoundTrip | App_Code/Ucam_Webauth.cs:745-771 | `wls_decode(wls_encode(b)) == b` for every byte string |
| Transport.Base64RoundTrip | App_Code/Ucam_Webauth.cs:747-770 | Base64 decoding inverts base64 encoding for every byte string |
| Transport.WlsEncodeAlphabet | App_Code/Ucam_Webauth.cs:745-755 | `wls_encode` output has only letters, digits, `-`, `.` and `_`: never `+`, `/`, `=` or `!` |
| Transport.WlsEncodeLength | App_Code/Ucam_Webauth.cs:745-755 | `wls_encode` output is 4 characters for every 3 bytes, rounded up |
| CookieMac.HmacSha1 | App_Code/Ucam_Webauth.cs:779-797 | The hex loop builds two digits per digest byte; the result is the MAC of the data under the key |
| CookieMac.HmacSha1Verify | App_Code/Ucam_Webauth.cs:810-813 | Accepts exactly when the signature equals `hmac_sha1(key, data)` |
| CookieMac.HexShape | App_Code/Ucam_Webauth.cs:791-794 | Exactly two lowercase hex digits per byte, and the k-th pair renders byte k |
| CookieMac.HexRoundTrip | App_Code/Ucam_Webauth.cs:791-794 | The hex rendering can be read back into the digest, so no information is lost |
| CookieMac.MacShape | App_Code/Ucam_Webauth.cs:779-797 | The MAC never holds `!`, and `wls_decode` of it gives the ASCII hex of the digest |
| CookieMac.MacLength | App_Code/Ucam_Webauth.cs:779-797 | With a 20-byte digest the MAC is 56 characters long |
| TimeCodec.DateOfCorrect | App_Code/Ucam_Webauth.cs:650-656 | A day number maps to a valid calendar date whose day number is that day |
| TimeCodec.Time2IsoShape | App_Code/Ucam_Webauth.cs:650-656 | `time2iso` yields 16 characters `yyyyMMddTHHmmssZ`: digits at the date and time offsets, `T` at 8, `Z` at 15 |
| TimeCodec.Iso2TimeOfTime2Iso | App_Code/Ucam_Webauth.cs:650-685 | For every time `DateTime` can hold, reading back the text gives the time after the `(int)` cast |
| TimeCodec.TimeRoundTrip | App_Code/Ucam_Webauth.cs:650-685 | `iso2time(time2iso(t)) == t` for every t in the 32-bit range |
| TimeCodec.TimeRoundTripFailsAfter2038 | App_Code/Ucam_Webauth.cs:679 | Past the 32-bit range every time reads back as -2^31, because of the `(int)` cast |
| TimeCodec.Iso2TimeZero | App_Code/Ucam_Webauth.cs:664-685 | `iso2time` is 0 for a null or short string, a field that does not parse, or an impossible date or time |
| TimeCodec.Iso2Time | App_Code/Ucam_Webauth.cs:664-685 | The result always fits in 32 bits |
| Site.FullCookieName | App_Code/Ucam_Webauth.cs:614-622 | The name gets `-S` exactly under https |
| Site.UsingHttpsCases | App_Code/Ucam_Webauth.cs:628-641 | https exactly when the HTTPS variable is one of "on", "oN", "On", "ON"; a missing variable or any other text means http |
| Site.StripPortOfHostAndPort | App_Code/Ucam_Webauth.cs:586 | Removing `:[0-9]+$` undoes appending a colon and a port number |
| Site.StripPortWithoutColon | App_Code/Ucam_Webauth.cs:586 | A hostname without a colon is left alone |
| Site.UrlPort | App_Code/Ucam_Webauth.cs:582-607 | `url()` omits the scheme's default port (443 under https, 80 under http) and an empty port; any other port, 80 under https or 443 under http included, follows a colon; a missing SERVER_PORT leaves a bare colon |
| Site.StripQueryOfQuery | App_Code/Ucam_Webauth.cs:1196-1197 | Both expressions remove a query of at least their minimum length from a URL |
| Site.StripQueryAsymmetry | App_Code/Ucam_Webauth.cs:1196-1197 | A URL ending in a bare `?` loses it under `\?.*$` but keeps it under `\?.+$` |
| Protocol.CheckSig | App_Code/Ucam_Webauth.cs:710-737 | A certificate that does not load throws; otherwise the answer is true exactly when the signature decodes and verifies, and false when decoding fails |
| Protocol.Preamble | App_Code/Ucam_Webauth.cs:959-988 | The preamble goes on exactly when the configuration is sound; otherwise it returns true with no effect |
| Protocol.SessionExpiry | App_Code/Ucam_Webauth.cs:1208-1214 | The life field shortens the session only when it is positive and below the maximum; a non-numeric field throws |
| Protocol.RequestPhase | App_Code/Ucam_Webauth.cs:1306-1357 | The request phase never answers true: it redirects, sets the pre-session cookie and redirects, or throws |
| Properties.LoginRedirectsToProvider | App_Code/Ucam_Webauth.cs:1326-1357 | With a matching or missing Host header, a params slot and a representable clock, the response is untouched; under session management the `Test` cookie (path, domain, secure flag) is set, then the redirect goes to the provider URL for this URL, message, params and time; `testauthonly` sends nothing |
| Properties.LoginThrowsWithoutParamsOrDate | App_Code/Ucam_Webauth.cs:1326-1349 | With a matching or missing Host header, a response too short for the params slot or a clock outside years 1-9999 throws |
| Protocol.Success | App_Code/Ucam_Webauth.cs:472-476 | `success()` is true exactly when the status slot holds "200" |
| Protocol.Field | App_Code/Ucam_Webauth.cs:462-569 | Each reader returns its slot, and throws when the array is too short for it |
| Properties.DummyRunRefused | App_Code/Ucam_Webauth.cs:959-964 | A dry run without session management returns true with status 600 and its message, and no effect |
| Properties.MissingKeyRefused | App_Code/Ucam_Webauth.cs:968-973 | Session management without a key returns true with status 600 and its message, and no effect |
| Properties.MissingHostnameRefused | App_Code/Ucam_Webauth.cs:982-988 | A null or empty hostname returns true with status 600 and its message, and no effect |
| Properties.TamperedCookieRefused | App_Code/Ucam_Webauth.cs:1023-1039 | A cookie whose last field is not the MAC of the others gives status 600 and false, with no effect |
| Properties.CurrentSessionAccepted | App_Code/Ucam_Webauth.cs:1043-1065 | A signed, current cookie not named by `authassertionid` returns true with its fields as state; a stored status other than 200 also deletes the cookie unless `testauthonly` |
| Properties.SessionPhaseAcceptsOnlyCurrent | App_Code/Ucam_Webauth.cs:1013-1080 | The session phase answers true exactly for a signed cookie with `issue <= now < expire` whose id `authassertionid` does not name |
| Properties.StaleSessionPassesMessage | App_Code/Ucam_Webauth.cs:1049-1078 | An expired cookie passes on the timeout message; one named by `authassertionid` passes on the forced re-authentication message |
| Properties.SessionCookieSigned | App_Code/Ucam_Webauth.cs:1257-1274 | The cookie the agent sets passes its own signature check on the next request, provided URL decoding leaves it unchanged (`setcookie` does not encode it) |
| Properties.SessionCookieFields | App_Code/Ucam_Webauth.cs:1257-1274 | When no field holds `!`, the cookie splits back into the eleven fields (null as empty) followed by the MAC |
| Properties.SessionCookieNotMarker | App_Code/Ucam_Webauth.cs:1015-1017 | The cookie the agent sets is never `Test` or `Not-authenticated` |
| Properties.EstablishedSessionLifetime | App_Code/Ucam_Webauth.cs:1013-1065 | A session set with issue t0 and expiry t1 is accepted on a later request exactly while t0 <= now < t1 |
| Properties.ScanPairsFindsLast | App_Code/Ucam_Webauth.cs:1114-1135 | The scan finds nothing exactly when no pair is `WLS-Response=value`; otherwise it finds the decoded value of the last one |
| Properties.FailuresIgnoreSignature | App_Code/Ucam_Webauth.cs:1150-1164 | 410, wrong-version and failed responses are judged without consulting the signature check |
| Properties.OnlyBadSignatureReturns | App_Code/Ucam_Webauth.cs:1150-1204 | The only way the chain returns without throwing is a failed signature, answering true with status 600 |
| Properties.ChainKeepsSuccessOnlyWhenAcceptable | App_Code/Ucam_Webauth.cs:1141-1204 | When the chain goes on, the status is still 200 exactly when the response passed every check |
| Properties.TimingVerdicts | App_Code/Ucam_Webauth.cs:1174-1191 | "Future" exactly past the skew, "stale" exactly beyond the timeout, status 600 for either, and no change otherwise |
| Properties.UnreadableIssueIsStale | App_Code/Ucam_Webauth.cs:1179-1191 | An issue time that cannot be read (too short, a field that does not parse, an impossible date or time) counts as 0 and is reported as stale |
| Properties.UnknownStatusThrows | App_Code/Ucam_Webauth.cs:1160-1164 | A status code missing from `status_codes` throws |
| Properties.NoTestCookieGives610 | App_Code/Ucam_Webauth.cs:1242-1249 | Without the pre-session cookie the status is 610 and the answer true, with no cookie set |
| Properties.CancelledLoginSetsCookie | App_Code/Ucam_Webauth.cs:1150-1290 | A cancelled login with the pre-session cookie present sets a session cookie carrying 410 and redirects to the response's URL |
| Properties.HostMismatchRedirects | App_Code/Ucam_Webauth.cs:1319-1324 | A Host header that differs from the hostname (ignoring case) redirects to this URL and sets no cookie |
| Properties.ProviderQueryOrder | App_Code/Ucam_Webauth.cs:1341-1351 | The query splits back into its arguments, in the order ver, url, desc, aauth, iact, msg, params, date, fail, each present exactly when its condition holds |
| Properties.RequestArgsSeparated | App_Code/Ucam_Webauth.cs:1341-1351 | No argument of the provider URL holds `&` |
| Properties.ParamsArgumentHasNoValue | App_Code/Ucam_Webauth.cs:1348 | The params argument has no `=`, so it splits into a single name |
| Agent.Webauth.constructor | App_Code/Ucam_Webauth.cs:161-176 | A new agent has twelve null slots and has sent nothing |
| Agent.Webauth.Authenticate | App_Code/Ucam_Webauth.cs:946-1358 | The step-by-step method leaves the outcome, the array and the effects that `Protocol.Authenticate` gives |
| Agent.Webauth.SessionStep | App_Code/Ucam_Webauth.cs:1013-1080 | The session-cookie phase follows `Protocol.SessionPhase`, passing on the timeout message |
| Agent.Webauth.LifetimeStep | App_Code/Ucam_Webauth.cs:1043-1078 | The lifetime and `authassertionid` checks follow `Protocol.CookieLifetime` |
| Agent.Webauth.FindResponse | App_Code/Ucam_Webauth.cs:1114-1135 | The loop over the query's pairs finds what `Protocol.ResponseParam` finds: the last `WLS-Response` |
| Agent.Webauth.ValidateStep | App_Code/Ucam_Webauth.cs:1150-1204 | The validation chain follows `Protocol.Validate` |
| Agent.Webauth.PopulateStep | App_Code/Ucam_Webauth.cs:1219-1231 | The slot writes after the resize follow `Protocol.Populate` |
| Agent.Webauth.CookieText | App_Code/Ucam_Webauth.cs:1257-1268 | The loop builds the cookie body: the eleven fields joined by `!`, with null slots as empty |
| Agent.Webauth.Destination | App_Code/Ucam_Webauth.cs:1341-1351 | Appending argument by argument gives the provider URL, whose arguments `Properties.ProviderQueryOrder` describes |

## Left out

- HTTP plumbing is not modelled. The request is a snapshot of its server variables and its cookies. The effects are a list of cookie settings and redirects. `setcookie` and `logout` are not part of this model.
- `Response.Redirect` ends the request with a thread abort. The model records the redirect, and `authenticate`'s return after it, instead of the abort.
- `write_log` writes to a file; it is treated as doing nothing.
- `load_key`, the X.509 certificate and the OpenSSL signature check are external predicates. So are the HMAC-SHA1 digest and `HttpUtility.UrlEncode`/`UrlDecode`.
- The agent reads `DateTime.UtcNow` several times within one call. The model takes one `now` for all of them.
- Constructor argument parsing and the property get/set accessors are not modelled. The configuration is a value fixed at construction.
- ASCII lower-casing stands in for `ToLower`. It differs from the culture-dependent .NET rule only outside ASCII.
- `time2iso` ignores culture-specific calendars and digits in `DateTime.ToString`.
- `FromBase64String` also accepts whitespace inside its input. `Transport.WlsDecode` rejects it.
- `Site.Url` is modelled for a non-null hostname, which the preamble guarantees before `url()` is called.
- `TimeCodec.Iso2Time`: a `DateTime` subtraction whose seconds overflow `long` cannot occur for four-digit years, so it is not modelled.
- `Agent.Webauth`: the C# array is fixed-size between assignments. It is a `seq` field here, so element writes and wholesale replacement are both assignments to that field.
- `Properties.SessionCookieSigned`: the agent writes the cookie without URL encoding and URL-decodes it on the next request, so the signature check passes only when decoding leaves the cookie unchanged; a field holding `+` or `%xx` breaks it. The lemma states the check on the cookie as written.
- Strings are sequences of Unicode scalar values here, where .NET indexes UTF-16 code units. Offsets in `iso2time`'s `Substring` calls and the ASCII encoder agree with the source only for text without characters outside the Basic Multilingual Plane.
