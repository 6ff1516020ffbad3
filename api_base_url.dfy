/** The API base-URL resolver of src/utils/apiBaseUrl.js: where API requests
    go, how a user-supplied base address is checked and normalised, how a
    base and a path are joined, and when an audio URL is rewritten to go
    through the backend's `/audio/proxy` endpoint.

    JavaScript values that may be `null` or `undefined` are `Option`s; the
    build-time and browser globals the source probes are the fields of
    `Environment`. */
module ApiBaseUrl {
  import opened Wrappers
  import opened JsText
  import opened UrlParser
  import opened UriComponent

  /** The loopback backend used in development and in the desktop shell. */
  const DevApiBaseUrl: string := "http://127.0.0.1:6521"
  /** The same-origin path a reverse proxy serves the API under. */
  const SameOriginApiBaseUrl: string := "/api"
  /** The path of the backend's audio proxy endpoint. */
  const AudioProxyPath: string := "/audio/proxy"

  /** What the default base depends on: the build-time override
      (`import.meta.env.VITE_APP_API_URL`), the development flag
      (`import.meta.env.DEV`), whether a `window` exists, its
      `location.protocol`, and whether `window.electron` is defined. */
  datatype Environment = Environment(
    envOverride: Option<string>,
    isDev: bool,
    hasWindow: bool,
    protocol: Option<string>,
    electronDefined: bool)

  /** `resolveDefaultApiBaseUrl()`: the first of these that applies. */
  function ResolveDefaultApiBaseUrl(env: Environment): (r: string)
    ensures r != ""
    ensures env.envOverride.Some? && env.envOverride.value != "" ==> r == env.envOverride.value
    ensures (env.envOverride.None? || env.envOverride.value == "") ==>
      r == (if env.isDev || (env.hasWindow && (env.protocol == Some("file:") || env.electronDefined))
            then DevApiBaseUrl else SameOriginApiBaseUrl)
  {
    if env.envOverride.Some? && env.envOverride.value != "" then env.envOverride.value
    else if env.isDev then DevApiBaseUrl
    else if env.hasWindow && (env.protocol == Some("file:") || env.electronDefined) then DevApiBaseUrl
    else SameOriginApiBaseUrl
  }

  /** Why a candidate base address is refused. */
  datatype RejectReason =
    | NotFullHttpAddress   // `new URL(raw)` threw
    | UnsupportedScheme    // the URL parsed, but its protocol is not http: or https:

  /** The message shown to the user for each reason. */
  function Message(reason: RejectReason): string {
    match reason
    case NotFullHttpAddress => "请输入完整的 http(s):// 地址"
    case UnsupportedScheme => "仅支持 http:// 或 https://"
  }

  /** `{ ok: true, value }` or `{ ok: false, value: '', error }`. */
  datatype Validation = Accepted(value: string) | Rejected(reason: RejectReason) {
    predicate Ok() { Accepted? }

    /** The `value` field, which is `''` on failure. */
    function Value(): string {
      match this
      case Accepted(v) => v
      case Rejected(_) => ""
    }
  }

  /** `(input ?? '').toString().trim()` for a string or a missing value. */
  function TrimInput(input: Option<string>): (r: string)
    ensures input.None? ==> r == ""
    ensures var s := input.GetOr(""); WhitespaceAround(s, |s| - |TrimStart(s)|, r)
    ensures r == [] || (!IsJsWhitespace(r[0]) && !IsJsWhitespace(r[|r| - 1]))
  {
    TrimIsInfix(input.GetOr(""));
    Trim(input.GetOr(""))
  }

  predicate IsHttpProtocol(p: Option<string>) {
    p == Some("http:") || p == Some("https:")
  }

  /** `validateApiBaseUrl(input)`: the checks below, applied to the trimmed
      input. */
  function ValidateApiBaseUrl(input: Option<string>): (r: Validation)
    ensures input.None? ==> r == Accepted("")
    ensures r.Accepted? ==> r.value == StripTrailingSlashes(TrimInput(input))
    ensures r.Rejected? ==> input.Some? && TrimInput(input) != "" && TrimInput(input)[0] != '/'
  {
    ValidateTrimmed(TrimInput(input))
  }

  /** The checks of `validateApiBaseUrl` on the trimmed input `raw`. An
      accepted value is `raw` itself, neither lower-cased nor re-serialised,
      minus its trailing slashes; a rejection only ever concerns an input
      that is neither empty nor root-relative. */
  function ValidateTrimmed(raw: string): (r: Validation)
    ensures r.Accepted? ==> r.value == StripTrailingSlashes(raw)
    ensures r.Accepted? ==>
      |r.value| <= |raw| && r.value == raw[..|r.value|] && AllSlashes(raw[|r.value|..])
      && (r.value == "" || r.value[|r.value| - 1] != '/')
    ensures r.Rejected? ==> raw != "" && raw[0] != '/'
  {
    if raw == "" then Accepted(StripTrailingSlashes(raw))
    else if raw[0] == '/' then Accepted(StripTrailingSlashes(raw))
    else if Protocol(raw).None? then Rejected(NotFullHttpAddress)
    else if !IsHttpProtocol(Protocol(raw)) then Rejected(UnsupportedScheme)
    else Accepted(StripTrailingSlashes(raw))
  }

  /** Feeding an accepted value back to the checks accepts it unchanged. */
  lemma ValidateTrimmedStable(raw: string)
    requires ValidateTrimmed(raw).Accepted?
    ensures ValidateTrimmed(ValidateTrimmed(raw).value) == ValidateTrimmed(raw)
  {
    var v := ValidateTrimmed(raw).value;
    StripTrailingSlashesUnique(v, v);
    if v != "" {
      assert v[0] == raw[0];
      StripTrailingSlashesUnique(raw, v);
      if raw[0] != '/' {
        ProtocolIgnoresTrailingSlashes(raw);
      }
    }
  }

  /** Which inputs are accepted and why the others are refused: an empty
      input is accepted as `''`, a root-relative path as itself, and any
      other input only when it parses as a URL whose scheme is http or
      https. */
  lemma ValidateOutcome(input: Option<string>)
    ensures var raw := TrimInput(input);
            && (raw == "" ==> ValidateApiBaseUrl(input) == Accepted(""))
            && (raw != "" && raw[0] == '/' ==>
                  ValidateApiBaseUrl(input) == Accepted(StripTrailingSlashes(raw)))
            && (ValidateApiBaseUrl(input) == Rejected(NotFullHttpAddress) <==>
                  raw != "" && raw[0] != '/' && Protocol(raw).None?)
            && (ValidateApiBaseUrl(input) == Rejected(UnsupportedScheme) <==>
                  raw != "" && raw[0] != '/' && Protocol(raw).Some? && !IsHttpProtocol(Protocol(raw)))
  {
  }

  /** The success path for a full address: an `http` or `https` scheme,
      `://`, a host without userinfo and a trailing `/` is accepted as
      written, without that `/`. */
  lemma HttpAddressAccepted(scheme: string, host: string)
    requires scheme == "http" || scheme == "https"
    requires host != [] && host[0] != ':'
    requires forall i :: 0 <= i < |host| ==> !IsAuthorityEnd(host[i]) && host[i] != '@'
    ensures ValidateApiBaseUrl(Some(scheme + "://" + host + "/")) == Accepted(scheme + "://" + host)
  {
    HttpSchemeIsLowerCase(scheme);
    AddressIsTrimmed(scheme, host);
    SchemeAddressProtocol(scheme, host);
    HttpAddressStrip(scheme, host);
  }

  lemma HttpSchemeIsLowerCase(scheme: string)
    requires scheme == "http" || scheme == "https"
    ensures scheme != [] && IsAsciiAlpha(scheme[0]) && LowerAscii(scheme) == scheme
    ensures forall j :: 0 <= j < |scheme| ==> IsSchemeChar(scheme[j])
    ensures IsHttpProtocol(Some(scheme + ":"))
  {
    if scheme == "http" {
      assert scheme + ":" == "http:";
    } else {
      assert scheme + ":" == "https:";
    }
  }

  lemma AddressIsTrimmed(scheme: string, host: string)
    requires scheme != [] && IsAsciiAlpha(scheme[0])
    ensures TrimInput(Some(scheme + "://" + host + "/")) == scheme + "://" + host + "/"
  {
    var s := scheme + "://" + host + "/";
    assert s[0] == scheme[0];
    TrimmedIsFixed(s);
  }

  /** An address made of a lower-case scheme, `://`, a host without
      userinfo and a `/` parses, and its protocol is the scheme and `:`. */
  lemma SchemeAddressProtocol(scheme: string, host: string)
    requires scheme != [] && IsAsciiAlpha(scheme[0]) && LowerAscii(scheme) == scheme
    requires forall j :: 0 <= j < |scheme| ==> IsSchemeChar(scheme[j])
    requires host != [] && host[0] != ':'
    requires forall i :: 0 <= i < |host| ==> !IsAuthorityEnd(host[i]) && host[i] != '@'
    ensures Protocol(scheme + "://" + host + "/") == Some(scheme + ":")
  {
    var s := scheme + "://" + host + "/";
    var k := |scheme|;
    AddressLayout(scheme, host);
    AddressHost(host);
    ProtocolWhenWellFormed(s, k);
  }

  lemma AddressLayout(scheme: string, host: string)
    ensures var s := scheme + "://" + host + "/";
            && s[..|scheme|] == scheme && s[|scheme|] == ':'
            && s[|scheme| + 1..] == "//" + host + "/"
            && forall j :: 0 <= j < |scheme| ==> s[j] == scheme[j]
  {
  }

  lemma AddressHost(host: string)
    requires host != [] && host[0] != ':'
    requires forall i :: 0 <= i < |host| ==> !IsAuthorityEnd(host[i]) && host[i] != '@'
    ensures !HostMissing("//" + host + "/")
  {
    var rest := "//" + host + "/";
    SkipTwoSlashes(rest);
    assert rest[2..] == host + "/";
    HostPresent(rest);
  }

  lemma HttpAddressStrip(scheme: string, host: string)
    requires host != [] && !IsAuthorityEnd(host[|host| - 1])
    ensures StripTrailingSlashes(scheme + "://" + host + "/") == scheme + "://" + host
  {
    var r := scheme + "://" + host;
    var s := r + "/";
    assert s[..|r|] == r;
    assert s[|r|..] == "/";
    StripTrailingSlashesUnique(s, r);
  }

  /** `normalizeApiBaseUrl(input)`: the validated value, or `''`. */
  function NormalizeApiBaseUrl(input: Option<string>): (r: string)
    ensures !ValidateApiBaseUrl(input).Ok() ==> r == ""
    ensures ValidateApiBaseUrl(input).Ok() ==> r == ValidateApiBaseUrl(input).value
    ensures r == "" || r[|r| - 1] != '/'
  {
    ValidateApiBaseUrl(input).Value()
  }

  /** `getApiBaseUrl()`, given the module's cached default and the
      `apiBaseUrl` field of the stored settings (None when the settings are
      missing, unreadable or have no such field). */
  function GetApiBaseUrl(defaultBase: string, stored: Option<string>): (r: string)
    ensures NormalizeApiBaseUrl(stored) != "" ==> r == NormalizeApiBaseUrl(stored)
    ensures NormalizeApiBaseUrl(stored) == "" ==> r == defaultBase
  {
    var custom := NormalizeApiBaseUrl(stored);
    if custom != "" then custom else defaultBase
  }

  /** With the default resolved from an environment, there is always a base. */
  lemma GetApiBaseUrlNeverEmpty(env: Environment, stored: Option<string>)
    ensures GetApiBaseUrl(ResolveDefaultApiBaseUrl(env), stored) != ""
  {
  }

  /** `joinApiUrl(baseUrl, path)` (a missing base or path is `''`): the
      base without its trailing slashes, one `/`, and the path without its
      leading slashes, whether or not that path is empty. */
  function JoinApiUrl(baseUrl: string, path: string): (r: string)
    ensures r == StripTrailingSlashes(baseUrl) + "/" + StripLeadingSlashes(path)
  {
    var base := StripTrailingSlashes(baseUrl);
    var rel := StripLeadingSlashes(path);
    if rel != "" then base + "/" + rel else base + "/"
  }

  /** Exactly one `/` at the junction: the result is a prefix of the base,
      a `/`, and a suffix of the path, with no `/` on either side of the
      junction. */
  lemma JoinApiUrlOneSlash(baseUrl: string, path: string)
    ensures var r := JoinApiUrl(baseUrl, path);
            var n := |StripTrailingSlashes(baseUrl)|;
            && n < |r| && r[n] == '/'
            && r[..n] == baseUrl[..n] && (n == 0 || r[n - 1] != '/')
            && r[n + 1..] == path[|path| - (|r| - n - 1)..] && (n + 1 == |r| || r[n + 1] != '/')
  {
    var b := StripTrailingSlashes(baseUrl);
    var p := StripLeadingSlashes(path);
    var r := JoinApiUrl(baseUrl, path);
    assert r[..|b|] == b;
    assert r[|b| + 1..] == p;
  }

  /** Slashes already at the junction make no difference. */
  lemma JoinApiUrlAbsorbsSlashes(baseUrl: string, path: string, k: nat, m: nat)
    ensures JoinApiUrl(baseUrl + Slashes(k), Slashes(m) + path) == JoinApiUrl(baseUrl, path)
  {
    StripTrailingSlashesAppend(baseUrl, k);
    StripLeadingSlashesPrepend(path, m);
  }

  /** `NON_PROXY_AUDIO_URL_PATTERN`, `/^(blob:|data:|mediastream:|file:)/i`. */
  predicate IsLocalAudioUrl(raw: string) {
    || StartsWithIgnoringCase(raw, "blob:") || StartsWithIgnoringCase(raw, "data:")
    || StartsWithIgnoringCase(raw, "mediastream:") || StartsWithIgnoringCase(raw, "file:")
  }

  /** `ABSOLUTE_HTTP_URL_PATTERN`, `/^https?:\/\//i`. */
  predicate IsAbsoluteHttpUrl(raw: string) {
    StartsWithIgnoringCase(raw, "http://") || StartsWithIgnoringCase(raw, "https://")
  }

  /** `shouldProxyAudioUrl(input)`. The local-URL test never decides
      anything on its own: a URL is proxied exactly when, trimmed, it starts
      with `http://` or `https://` in any letter case. */
  function ShouldProxyAudioUrl(input: Option<string>): (r: bool)
    ensures TrimInput(input) == "" ==> !r
    ensures IsLocalAudioUrl(TrimInput(input)) ==> !r
    ensures r <==> IsAbsoluteHttpUrl(TrimInput(input))
  {
    var raw := TrimInput(input);
    LocalAudioUrlIsNotHttp(raw);
    if raw == "" then false
    else if IsLocalAudioUrl(raw) then false
    else IsAbsoluteHttpUrl(raw)
  }

  /** The local schemes and `http(s)://` already differ in their first
      letter, so no URL passes both tests. */
  lemma LocalAudioUrlIsNotHttp(raw: string)
    ensures IsLocalAudioUrl(raw) ==> !IsAbsoluteHttpUrl(raw)
  {
    var locals := ["blob:", "data:", "mediastream:", "file:"];
    var https := ["http://", "https://"];
    forall j, k | 0 <= j < 4 && 0 <= k < 2
      ensures !(StartsWithIgnoringCase(raw, locals[j]) && StartsWithIgnoringCase(raw, https[k]))
    {
      assert locals[j][0] != 'h' && https[k][0] == 'h';
      PrefixesClash(raw, locals[j], https[k], 0);
    }
    assert locals[0] == "blob:" && locals[1] == "data:" && locals[2] == "mediastream:" && locals[3] == "file:";
    assert https[0] == "http://" && https[1] == "https://";
  }

  /** `toPlayableAudioUrl(input, baseUrl)`. */
  function ToPlayableAudioUrl(input: Option<string>, baseUrl: string): (r: string)
    ensures TrimInput(input) == "" ==> r == ""
    ensures !ShouldProxyAudioUrl(input) ==> r == TrimInput(input)
    ensures ShouldProxyAudioUrl(input) ==>
      var endpoint := JoinApiUrl(baseUrl, AudioProxyPath);
      r == endpoint + (if '?' in endpoint then "&" else "?") + "url=" + EncodeUriComponent(TrimInput(input))
  {
    var raw := TrimInput(input);
    if raw == "" then ""
    else
      TrimIdempotent(input.GetOr(""));
      assert ShouldProxyAudioUrl(Some(raw)) == ShouldProxyAudioUrl(input);
      if !ShouldProxyAudioUrl(Some(raw)) then raw
      else
        var endpoint := JoinApiUrl(baseUrl, AudioProxyPath);
        var separator := if '?' in endpoint then "&" else "?";
        endpoint + separator + "url=" + EncodeUriComponent(raw)
  }

  /** Normalising an already normalised value changes nothing, provided it
      does not end in whitespace. The proviso is needed: the input is
      trimmed before its trailing slashes are stripped, so stripping can
      uncover whitespace that a second call then trims (see
      NormalizeUncoversWhitespace). */
  lemma NormalizeIdempotentUnlessTrailingWhitespace(input: Option<string>)
    requires var v := NormalizeApiBaseUrl(input); v == "" || !IsJsWhitespace(v[|v| - 1])
    ensures NormalizeApiBaseUrl(Some(NormalizeApiBaseUrl(input))) == NormalizeApiBaseUrl(input)
  {
    var v := NormalizeApiBaseUrl(input);
    if v != "" {
      var raw := TrimInput(input);
      assert v == raw[..|v|] && v[0] == raw[0];
      TrimmedIsFixed(v);
      ValidateTrimmedStable(raw);
    }
  }

  /** Why the proviso is needed: stripping the trailing slashes of a
      trimmed root-relative input can leave whitespace at its end, which the
      next normalisation trims. So `v + [c] + "/"` normalises to `v + [c]`,
      and that normalises to `v`. */
  lemma NormalizeUncoversWhitespace(v: string, c: char)
    requires v != "" && v[0] == '/' && v[|v| - 1] != '/' && !IsJsWhitespace(v[|v| - 1])
    requires IsJsWhitespace(c)
    ensures NormalizeApiBaseUrl(Some(v + [c] + "/")) == v + [c]
    ensures NormalizeApiBaseUrl(Some(v + [c])) == v
  {
    NormalizeFirstStep(v, c);
    NormalizeSecondStep(v, c);
  }

  lemma NormalizeFirstStep(v: string, c: char)
    requires v != "" && v[0] == '/' && c != '/'
    ensures NormalizeApiBaseUrl(Some(v + [c] + "/")) == v + [c]
  {
    var u := v + [c];
    assert u[0] == '/' && u[|u| - 1] == c;
    NormalizeDropsOneSlash(u);
  }

  /** A root-relative value with no trailing slash, given back with one
      `/` appended, normalises to itself. */
  lemma NormalizeDropsOneSlash(v: string)
    requires v != "" && v[0] == '/' && v[|v| - 1] != '/'
    ensures NormalizeApiBaseUrl(Some(v + "/")) == v
  {
    ValidateDropsOneSlash(v);
  }

  lemma ValidateDropsOneSlash(v: string)
    requires v != "" && v[0] == '/' && v[|v| - 1] != '/'
    ensures ValidateApiBaseUrl(Some(v + "/")) == Accepted(v)
  {
    TrimInputKeepsSlashEnds(v);
    ValidateTrimmedDropsOneSlash(v);
  }

  lemma TrimInputKeepsSlashEnds(v: string)
    requires v != "" && v[0] == '/'
    ensures TrimInput(Some(v + "/")) == v + "/"
  {
    var s := v + "/";
    assert s[0] == '/' && s[|s| - 1] == '/';
    TrimKeepsSlashEnds(s);
    TrimInputOfTrimmed(s);
  }

  lemma TrimInputOfTrimmed(s: string)
    requires Trim(s) == s
    ensures TrimInput(Some(s)) == s
  {
  }

  lemma ValidateTrimmedDropsOneSlash(v: string)
    requires v != "" && v[0] == '/' && v[|v| - 1] != '/'
    ensures ValidateTrimmed(v + "/") == Accepted(v)
  {
    ValidateRootRelative(v + "/");
    StripOneTrailingSlash(v);
  }

  lemma ValidateRootRelative(raw: string)
    requires raw != "" && raw[0] == '/'
    ensures ValidateTrimmed(raw) == Accepted(StripTrailingSlashes(raw))
  {
  }

  lemma NormalizeSecondStep(v: string, c: char)
    requires v != "" && v[0] == '/' && v[|v| - 1] != '/' && !IsJsWhitespace(v[|v| - 1])
    requires IsJsWhitespace(c)
    ensures NormalizeApiBaseUrl(Some(v + [c])) == v
  {
    TrimOneTrailingWhitespace(v, c);
    StripTrailingSlashesUnique(v, v);
  }

  lemma TrimOneTrailingWhitespace(v: string, c: char)
    requires v != "" && !IsJsWhitespace(v[0]) && !IsJsWhitespace(v[|v| - 1])
    requires IsJsWhitespace(c)
    ensures Trim(v + [c]) == v
  {
    var u := v + [c];
    assert u[..0] == [] && u[0..|v|] == v && u[|v|..] == [c];
    TrimUnique(u, 0, v);
  }

  /** A proxied URL carries the original, trimmed URL losslessly in a single
      query parameter: right after the endpoint and its separator comes
      `url=`, and what follows contains no `&`, `=`, `?` or `#` and decodes
      back to the original. */
  lemma ProxiedUrlCarriesSource(input: Option<string>, baseUrl: string)
    requires ShouldProxyAudioUrl(input)
    ensures var r := ToPlayableAudioUrl(input, baseUrl);
            var endpoint := JoinApiUrl(baseUrl, AudioProxyPath);
            var value := r[|endpoint| + 5..];
            && |endpoint| + 5 <= |r|
            && r[..|endpoint|] == endpoint
            && r[|endpoint|] == (if '?' in endpoint then '&' else '?')
            && r[|endpoint| + 1..|endpoint| + 5] == "url="
            && '&' !in value && '=' !in value && '?' !in value && '#' !in value
            && DecodeUriComponent(value) == Some(TrimInput(input))
  {
    ProxyQuery(JoinApiUrl(baseUrl, AudioProxyPath), TrimInput(input));
  }

  /** The proxy query `endpoint` + separator + `url=` + the encoded `raw`. */
  lemma ProxyQuery(endpoint: string, raw: string)
    ensures var r := endpoint + (if '?' in endpoint then "&" else "?") + "url=" + EncodeUriComponent(raw);
            var value := r[|endpoint| + 5..];
            && |endpoint| + 5 <= |r|
            && r[..|endpoint|] == endpoint
            && r[|endpoint|] == (if '?' in endpoint then '&' else '?')
            && r[|endpoint| + 1..|endpoint| + 5] == "url="
            && '&' !in value && '=' !in value && '?' !in value && '#' !in value
            && DecodeUriComponent(value) == Some(raw)
  {
    var separator := if '?' in endpoint then "&" else "?";
    QueryLayout(endpoint, separator, EncodeUriComponent(raw));
    EncodedHasNoQueryDelimiters(raw);
    DecodeEncodeRoundTrip(raw);
  }

  /** Where the pieces of `endpoint + separator + 'url=' + value` sit. */
  lemma QueryLayout(endpoint: string, separator: string, value: string)
    requires |separator| == 1
    ensures var r := endpoint + separator + "url=" + value;
            && |r| == |endpoint| + 5 + |value|
            && r[..|endpoint|] == endpoint
            && r[|endpoint|] == separator[0]
            && r[|endpoint| + 1..|endpoint| + 5] == "url="
            && r[|endpoint| + 5..] == value
  {
    var r := endpoint + separator + "url=" + value;
    assert r == endpoint + (separator + "url=" + value);
    assert r[|endpoint|..] == separator + "url=" + value;
  }

  /** With a base that has no query, the proxied URL is the base without its
      trailing slashes followed by `/audio/proxy`, `?url=` and the encoded
      URL. */
  lemma ProxiedUrlShape(input: Option<string>, baseUrl: string)
    requires ShouldProxyAudioUrl(input) && '?' !in baseUrl
    ensures ToPlayableAudioUrl(input, baseUrl)
            == StripTrailingSlashes(baseUrl) + AudioProxyPath + "?url=" + EncodeUriComponent(TrimInput(input))
  {
    var e := EncodeUriComponent(TrimInput(input));
    var endpoint := JoinApiUrl(baseUrl, AudioProxyPath);
    assert ToPlayableAudioUrl(input, baseUrl) == endpoint + (if '?' in endpoint then "&" else "?") + "url=" + e;
    ProxyRequestUnderPlainBase(baseUrl, e);
  }

  /** The proxy request for an encoded URL `e` under a base with no query. */
  lemma ProxyRequestUnderPlainBase(baseUrl: string, e: string)
    requires '?' !in baseUrl
    ensures var endpoint := JoinApiUrl(baseUrl, AudioProxyPath);
            endpoint + (if '?' in endpoint then "&" else "?") + "url=" + e
            == StripTrailingSlashes(baseUrl) + AudioProxyPath + "?url=" + e
  {
    var endpoint := JoinApiUrl(baseUrl, AudioProxyPath);
    ProxyPathHasNoQuery();
    JoinApiUrlHasNoQuery(baseUrl, AudioProxyPath);
    ProxyEndpoint(baseUrl);
    assert endpoint + "?" + "url=" + e == endpoint + ("?" + "url=") + e;
  }

  lemma ProxyPathHasNoQuery()
    ensures '?' !in AudioProxyPath
  {
  }

  /** The proxy endpoint: the base without its trailing slashes, then
      `/audio/proxy`. */
  lemma ProxyEndpoint(baseUrl: string)
    ensures JoinApiUrl(baseUrl, AudioProxyPath) == StripTrailingSlashes(baseUrl) + AudioProxyPath
  {
    assert AudioProxyPath[0] == '/' && AudioProxyPath[1] == 'a';
    JoinApiUrlRootedPath(baseUrl, AudioProxyPath);
  }

  /** A path with exactly one leading slash is appended as it is to the
      base without its trailing slashes. */
  lemma JoinApiUrlRootedPath(baseUrl: string, path: string)
    requires path != "" && path[0] == '/' && (|path| == 1 || path[1] != '/')
    ensures JoinApiUrl(baseUrl, path) == StripTrailingSlashes(baseUrl) + path
  {
    StripOneLeadingSlash(path);
    SlashThenRest(StripTrailingSlashes(baseUrl), path);
  }

  lemma StripOneLeadingSlash(path: string)
    requires path != "" && path[0] == '/' && (|path| == 1 || path[1] != '/')
    ensures StripLeadingSlashes(path) == path[1..]
  {
    assert StripLeadingSlashes(path[1..]) == path[1..];
  }

  lemma SlashThenRest(b: string, path: string)
    requires path != "" && path[0] == '/'
    ensures b + "/" + path[1..] == b + path
  {
    assert "/" + path[1..] == path;
    assert b + "/" + path[1..] == b + ("/" + path[1..]);
  }

  /** Joining a base and a path that have no `?` gives a URL with no `?`. */
  lemma JoinApiUrlHasNoQuery(baseUrl: string, path: string)
    requires '?' !in baseUrl && '?' !in path
    ensures '?' !in JoinApiUrl(baseUrl, path)
  {
    var b := StripTrailingSlashes(baseUrl);
    var p := StripLeadingSlashes(path);
    assert '?' !in b by {
      assert b == baseUrl[..|b|];
    }
    assert '?' !in p by {
      assert p == path[|path| - |p|..];
    }
    assert JoinApiUrl(baseUrl, path) == b + "/" + p;
  }
}
