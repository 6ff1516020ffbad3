# Music player client: API base address, audio proxy URLs, status-bar lyric debounce, auth store

A Dafny model of three pieces of a desktop/web music player client:

- **The API base-URL resolver** (`src/utils/apiBaseUrl.js`). It covers:
  - how the default backend address is chosen (build-time override, development mode, desktop shell, or the same-origin `/api`);
  - how a user-supplied base address is trimmed, checked and normalised;
  - how a base and a path are joined;
  - when an audio URL is rewritten to go through the backend's `/audio/proxy` endpoint, with the original URL percent-encoded in its `url` query parameter.

  Helper modules support it:
  - `JsText`: `String.prototype.trim`, the anchored slash regular expressions, and case-insensitive prefix tests.
  - `UrlParser`: the part of the URL Standard's basic URL parser that decides whether `new URL(raw)` throws and what `url.protocol` is.
  - `UriComponent`: `encodeURIComponent`, with a decoder beside it as its partner.
- **The macOS status-bar lyric** of the Electron main process (`electron/main.js`). The `lyrics-data` handler and its 2-second clear timer debounce the requests sent to the renderer on the `generate-statusbar-image` channel.
  - `StatusBarLyrics.StatusBar` is a class whose fields are the module variables `lastStatusBarLyric` and `clearLyricsTimeout`. Its handlers are proved against the pure step functions `OnLyricsData` and `OnClearTimerFires`.
  - Over any sequence of events these functions keep three facts: the cached lyric is what the status bar was last told to show, no request repeats what is already shown, and at most one clear timer is live.
- **The `MoeData` Pinia store** (`src/stores/store.js`): signed-in user, server configuration list, device record, its actions and its getter. It is a class `AuthStore.MoeAuthStore`.

The default base is computed once at load time. The model takes it as a parameter of `GetApiBaseUrl`, and the environment it is computed from as the `Environment` datatype. The stored settings are a parameter, already read and parsed. The platform, the stored `statusBarLyrics` setting and the presence of a tray are fields of `LyricsEvent`.

Two statements sometimes made about this module do not hold of the code. The model follows the code:

- `joinApiUrl('http://h/', '/p/')` is `'http://h/p/'`, not `'http://h/p'`. The path's own trailing slash is kept (`ApiBaseUrlExamples.JoinApiUrlKeepsPathSlashExample`).
- `normalizeApiBaseUrl` is not idempotent. The input is trimmed before its trailing slashes are removed, so `'/a /'` normalises to `'/a '`, which normalises to `'/a'` (`ApiBaseUrlExamples.NormalizeNotIdempotentExample`). Idempotence is proved for every value that does not end in whitespace.

## Model

| member | source | states |
|---|---|---|
| ApiBaseUrl.ResolveDefaultApiBaseUrl | src/utils/apiBaseUrl.js:6-18 | the default is never empty; a non-empty build-time override wins; otherwise development mode, or a window whose protocol is `file:` or that has `window.electron`, gives `http://127.0.0.1:6521`; otherwise `/api` |
| ApiBaseUrl.TrimInput | src/utils/apiBaseUrl.js:28 | a missing input is `''`; otherwise the result sits in the input right after its leading whitespace, with only whitespace around it, and neither starts nor ends with whitespace |
| ApiBaseUrl.ValidateApiBaseUrl | src/utils/apiBaseUrl.js:27-47 | a missing input is accepted as `''`; an accepted value is the trimmed input without its trailing slashes; a rejection concerns a present, non-empty trimmed input that does not start with `/` |
| ApiBaseUrl.ValidateTrimmed | src/utils/apiBaseUrl.js:27-47 | an accepted value is the trimmed input itself (not re-serialised) minus trailing slashes: a prefix followed only by `/`, never ending in `/`; a rejection only happens for a non-empty input that does not start with `/` |
| ApiBaseUrl.ValidateOutcome | src/utils/apiBaseUrl.js:28-46 | empty or all-whitespace input is accepted as `''`; a root-relative input is accepted minus its trailing slashes; "not a full http(s) address" exactly when `new URL` throws; "only http/https" exactly when it parses with another protocol |
| ApiBaseUrl.HttpAddressAccepted | src/utils/apiBaseUrl.js:36-46 | every address of the form `http://host/` or `https://host/`, with a host that has no userinfo and no `/`, `\`, `?` or `#`, is accepted as written without the trailing `/` |
| ApiBaseUrl.ValidateTrimmedStable | src/utils/apiBaseUrl.js:27-47 | validating an accepted value again accepts it unchanged |
| ApiBaseUrl.NormalizeApiBaseUrl | src/utils/apiBaseUrl.js:22-25 | the validated value on success, `''` on failure; the result never ends in `/` |
| ApiBaseUrl.NormalizeIdempotentUnlessTrailingWhitespace | src/utils/apiBaseUrl.js:22-32 | normalising a normalised value that does not end in whitespace gives it back |
| ApiBaseUrl.NormalizeUncoversWhitespace | src/utils/apiBaseUrl.js:28-32 | for a root-relative `v` and a whitespace `c`, `v + c + '/'` normalises to `v + c` and that to `v`, so idempotence needs its proviso |
| ApiBaseUrl.NormalizeDropsOneSlash | src/utils/apiBaseUrl.js:31-32 | a root-relative value without a trailing slash, given back with one `/` appended, normalises to itself |
| ApiBaseUrl.GetApiBaseUrl | src/utils/apiBaseUrl.js:49-58 | the normalised stored value when it is non-empty, otherwise the default |
| ApiBaseUrl.GetApiBaseUrlNeverEmpty | src/utils/apiBaseUrl.js:49-58 | with the default resolved from any environment, the base in use is never empty |
| ApiBaseUrl.JoinApiUrl | src/utils/apiBaseUrl.js:60-64 | the base without trailing slashes, one `/`, the path without leading slashes; an empty path gives the same `base + '/'` |
| ApiBaseUrl.JoinApiUrlOneSlash | src/utils/apiBaseUrl.js:60-64 | the join is a prefix of the base, exactly one `/`, and a suffix of the path, with no further `/` on either side of the junction |
| ApiBaseUrl.JoinApiUrlAbsorbsSlashes | src/utils/apiBaseUrl.js:61-62 | any number of extra slashes at the end of the base or the start of the path does not change the join |
| ApiBaseUrl.JoinApiUrlHasNoQuery | src/utils/apiBaseUrl.js:60-64 | a base and a path without `?` join to a URL without `?` |
| ApiBaseUrl.ShouldProxyAudioUrl | src/utils/apiBaseUrl.js:66-71 | false for empty input and for `blob:`, `data:`, `mediastream:`, `file:` URLs; true exactly when the trimmed input starts with `http://` or `https://` in any letter case |
| ApiBaseUrl.LocalAudioUrlIsNotHttp | src/utils/apiBaseUrl.js:3-4 | no input matches both the local-URL pattern and the absolute-http pattern |
| ApiBaseUrl.ToPlayableAudioUrl | src/utils/apiBaseUrl.js:73-81 | empty input gives `''`; input that is not proxied gives the trimmed input; otherwise the endpoint, `&` if it already holds `?` else `?`, `url=` and the encoded trimmed input |
| ApiBaseUrl.ProxiedUrlCarriesSource | src/utils/apiBaseUrl.js:78-80 | a proxied URL is the endpoint, its separator and `url=`, followed by a value that holds no `&`, `=`, `?` or `#` and decodes back to the trimmed input |
| ApiBaseUrl.ProxiedUrlShape | src/utils/apiBaseUrl.js:78-80 | under a base without `?` the proxied URL is the base without trailing slashes, `/audio/proxy?url=` and the encoded input |
| ApiBaseUrl.ProxyEndpoint | src/utils/apiBaseUrl.js:78 | the proxy endpoint is the base without trailing slashes followed by `/audio/proxy` |
| ApiBaseUrlExamples.JoinApiUrlKeepsPathSlashExample | src/utils/apiBaseUrl.js:60-64 | `joinApiUrl('http://h/', '/p/')` is `'http://h/p/'` |
| ApiBaseUrlExamples.JoinApiUrlEmptyPathExample | src/utils/apiBaseUrl.js:63 | `joinApiUrl('http://h', '')` is `'http://h/'` |
| ApiBaseUrlExamples.RootRelativeExample | src/utils/apiBaseUrl.js:31-32 | `'/api///'` is accepted as `'/api'` |
| ApiBaseUrlExamples.RootOnlyExample | src/utils/apiBaseUrl.js:31-32 | `'/'` is accepted as `''` |
| ApiBaseUrlExamples.NotAUrlExample | src/utils/apiBaseUrl.js:36-40 | `'not a url'` is refused as not a full http(s) address |
| ApiBaseUrlExamples.HttpsAcceptedExample | src/utils/apiBaseUrl.js:36-46 | `'https://host.example/'` is accepted as `'https://host.example'` |
| ApiBaseUrlExamples.BlobNotProxiedExample | src/utils/apiBaseUrl.js:69 | `'blob:xyz'` is not proxied |
| ApiBaseUrlExamples.LocalPathNotProxiedExample | src/utils/apiBaseUrl.js:70 | `'/local/a.mp3'` is not proxied |
| ApiBaseUrlExamples.NormalizeNotIdempotentExample | src/utils/apiBaseUrl.js:22-32 | `'/a /'` normalises to `'/a '`, which normalises to `'/a'` |
| UrlParser.Protocol | src/utils/apiBaseUrl.js:37 | a reported protocol ends in the `:` that ends the input's scheme; an input that does not start with an ASCII letter makes `new URL` throw |
| UrlParser.ProtocolWhenWellFormed | src/utils/apiBaseUrl.js:37 | the converse of ProtocolMeaning: an ASCII letter, scheme code points and `:`, followed by a host when the scheme needs one, parses, and the protocol is the lower-cased scheme and `:` |
| UrlParser.ProtocolMeaning | src/utils/apiBaseUrl.js:37 | a reported protocol is the input's leading letter and scheme code points, lower-cased, then `:`, where the input has that `:` right after the scheme; for `ftp`, `http(s)` and `ws(s)` the input has a non-empty host; with ProtocolWhenWellFormed this is an if-and-only-if |
| UrlParser.HostPresent | src/utils/apiBaseUrl.js:37 | after the slashes, an authority that starts with a host code point and has no `@` has a host |
| UrlParser.ProtocolIgnoresTrailingSlashes | src/utils/apiBaseUrl.js:37-46 | removing the trailing slashes changes neither whether `new URL` throws nor the protocol it reports, so an accepted value still passes |
| UriComponent.EncodeUriComponent | src/utils/apiBaseUrl.js:80 | the encoding holds only unreserved characters, `%` and hexadecimal digits, and is at least as long as its input |
| UriComponent.EncodedHasNoQueryDelimiters | src/utils/apiBaseUrl.js:80 | no `&`, `=`, `?` or `#` occurs in an encoding |
| UriComponent.DecodeEncodeChar | src/utils/apiBaseUrl.js:80 | the UTF-8 escape of one code point reads back as that code point, consuming exactly the escape |
| UriComponent.DecodeEncodeRoundTrip | src/utils/apiBaseUrl.js:80 | decoding an encoding gives back the original string |
| UriComponent.EncodeUriComponentInjective | src/utils/apiBaseUrl.js:80 | two strings with the same encoding are equal |
| JsText.Trim | src/utils/apiBaseUrl.js:28 | the trimmed string neither starts nor ends with whitespace |
| JsText.TrimIsInfix | src/utils/apiBaseUrl.js:28 | the trim is a contiguous piece of the input, starting where the leading whitespace ends, with only whitespace on either side |
| JsText.TrimUnique | src/utils/apiBaseUrl.js:28 | any piece with only whitespace around it that neither starts nor ends with whitespace is the trim |
| JsText.TrimIdempotent | src/utils/apiBaseUrl.js:28 | trimming twice is trimming once |
| JsText.StripTrailingSlashes | src/utils/apiBaseUrl.js:32 | `replace(/\/+$/, '')`: a prefix followed only by slashes, not ending in `/` |
| JsText.StripTrailingSlashesUnique | src/utils/apiBaseUrl.js:32 | any such prefix is the result |
| JsText.StripLeadingSlashes | src/utils/apiBaseUrl.js:62 | `replace(/^\/+/, '')`: a suffix preceded only by slashes, not starting with `/` |
| JsText.StripLeadingSlashesUnique | src/utils/apiBaseUrl.js:62 | any such suffix is the result |
| StatusBarLyrics.StatusBar.constructor | electron/main.js:18-19 | no lyric cached and no clear timer held |
| StatusBarLyrics.OnLyricsData | electron/main.js:207-252 | off macOS nothing changes; a non-empty lyric cancels the timer and becomes the cache, with a request exactly when it differs from the cache; with the feature on and no lyric nothing is sent, the cache is kept and the timer is armed when none is pending and the cache is non-empty (and only then is one newly armed); with the feature off a non-empty cache cancels the timer, and a tray gives a tray reset and a cleared cache while without a tray nothing is sent and the cache is kept; at most one request per message |
| StatusBarLyrics.StatusBar.HandleLyricsData | electron/main.js:207-252 | the handler's new fields and requests are those of `OnLyricsData`; the cache equals what the status bar was last told to show, no request repeats it, and at most one timer is live |
| StatusBarLyrics.OnClearTimerFires | electron/main.js:227-235 | the timer is gone afterwards; with the feature still on the placeholder `''` is requested; with it off nothing is sent and the cache is kept |
| StatusBarLyrics.StatusBar.HandleClearTimerFires | electron/main.js:227-235 | the callback's new fields and requests are those of `OnClearTimerFires`, and it keeps the same invariant |
| StatusBarLyrics.LyricsDataKeepsScreen | electron/main.js:207-252 | one `lyrics-data` message keeps the invariant: the new cache is what its requests leave on screen, and none of them repeats what is shown |
| StatusBarLyrics.ClearTimerKeepsScreen | electron/main.js:227-235 | the timer firing keeps the same invariant |
| StatusBarLyrics.Run | electron/main.js:200-253 | over any sequence of messages and timer firings: the invariant holds, at most one request per event, the cache is what the status bar shows, and no request repeats what is shown |
| StatusBarLyrics.NoRedundantImageMeans | electron/main.js:219-222 | "no redundant request" holds exactly when every image request differs from what the requests before it left on screen |
| StatusBarLyrics.RepeatedLyricSendsNothing | electron/main.js:219-222 | the same lyric sent twice produces no request the second time |
| StatusBarLyrics.GapClearsAfterTimer | electron/main.js:210-235 | a new lyric is requested, an empty one then arms the timer without a request, and the timer firing with the feature on requests the placeholder and clears the cache |
| AuthStore.MoeAuthStore.constructor | src/stores/store.js:4-8 | `UserInfo` and `Config` are null and `Device` is empty |
| AuthStore.FindIndex | src/stores/store.js:12 | `Array.prototype.find` stops at the first entry with the key, or finds none when no entry has it |
| AuthStore.FindIndexAppend | src/stores/store.js:12 | across a concatenation the first list's match wins, and a list without the key defers to the next |
| AuthStore.MoeAuthStore.FetchConfig | src/stores/store.js:10-14 | null while `Config` is null; otherwise the value of the first entry whose key is the argument, or null when there is none |
| AuthStore.MoeAuthStore.SetData | src/stores/store.js:15-18 | `UserInfo` and `Config` are each overwritten only by a truthy value and otherwise keep their old values; `Device` is untouched; a truthy user signs in |
| AuthStore.MoeAuthStore.ClearData | src/stores/store.js:19-21 | `UserInfo` becomes null and the store is signed out; `Config` and `Device` are unchanged |
| AuthStore.MoeAuthStore.IsAuthenticated | src/stores/store.js:24 | signed in exactly when `UserInfo` is not `undefined`, `null`, `false`, `0` or `''` |

## Left out

- `testApiBaseUrl` (src/utils/apiBaseUrl.js:83-115) is not modelled: it is a network request with a timeout.
- The module-load computation of `DEFAULT_API_BASE_URL` (src/utils/apiBaseUrl.js:20) is not modelled. The default is an explicit parameter, and `import.meta.env` and `window` are the `Environment` datatype.
- Reading `localStorage`, `JSON.parse` and its failure (src/utils/apiBaseUrl.js:50-57) are replaced by the already-read `apiBaseUrl` setting, an `Option<string>`.
- Non-string inputs are not modelled. `(input ?? '').toString()` on a number or an object is left out; inputs are strings or missing.
- UrlParser.Protocol: not modelled are the URL parser's removal of leading and trailing C0 controls and of every tab and newline before parsing, and its host, IPv4, IDNA and port validation. Inputs that fail only on host, IPv4, IDNA or port validation are reported as parsable. Inputs that parse only after C0, tab or newline removal, such as `'\u0001https://x'` or `'ht\ttps://x'`, which the source accepts, are reported as not parsable.
- UriComponent.EncodeUriComponent: Dafny characters are Unicode scalar values. JavaScript's lone UTF-16 surrogates, for which `encodeURIComponent` throws `URIError`, are not representable.
- ApiBaseUrl.ToPlayableAudioUrl: the default `baseUrl = getApiBaseUrl()` (src/utils/apiBaseUrl.js:73) is not modelled; the base is a required parameter, which a caller obtains from `GetApiBaseUrl`.
- The forwarding of `lyrics-data` to the lyrics window (electron/main.js:201-204) is not modelled: it is a plain message relay.
- The `update-statusbar-image` handler (electron/main.js:256-284) is not modelled: it draws the renderer's image into the tray.
- The tray and IPC calls are effects in the model: `webContents.send`, `tray.setTitle`, `tray.setImage` and `createTray` become `GenerateStatusBarImage` and `ResetTray`.
- The 2000 ms delay is not modelled. The timer is a held flag plus an explicit "fires" event, with no clock, and `store.get('settings')` is read through the event's fields.
- `mainWindow` being null when a message arrives is not modelled.
- The Pinia `persist` option (src/stores/store.js:26-35) and Pinia's reactivity are not modelled.
- AuthStore.MoeAuthStore.IsAuthenticated: numbers are integers, so `NaN` (also falsy) is not modelled. Objects and arrays are opaque references.
- AuthStore.MoeAuthStore.FetchConfig: a truthy `Config` that is not an array, or that holds `null` entries, makes `find` throw. This is not modelled: `Config` is a list of `{ key, value }` entries.
- AuthStore.MoeAuthStore.SetData: `setData(null)` or `setData(undefined)` throws at src/stores/store.js:16; `AuthData` always has both properties, so that throw is not modelled.
- `setData` being `async` makes no difference: it has no `await`.
- The auto-updater (`electron/updater.js`) and the preload bridge (`electron/preload.cjs`) are not part of this model.
