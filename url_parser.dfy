/** The part of the URL Standard's basic URL parser (WHATWG URL Standard,
    section 4.4) that decides whether `new URL(raw)`, with no base URL,
    throws, and what `url.protocol` then is. The scheme is read as in the
    "scheme start state" and "scheme state"; for the special schemes that
    need a host, the "special authority ignore slashes state", the
    "authority state" and the "host state" fail when the host is missing. */
module UrlParser {
  import opened Wrappers
  import opened JsText

  predicate IsAsciiAlpha(c: char) {
    ('a' <= c <= 'z') || ('A' <= c <= 'Z')
  }

  predicate IsAsciiDigit(c: char) {
    '0' <= c <= '9'
  }

  /** Code points the scheme state accepts after the first letter. */
  predicate IsSchemeChar(c: char) {
    IsAsciiAlpha(c) || IsAsciiDigit(c) || c == '+' || c == '-' || c == '.'
  }

  /** The index of the `:` that ends the scheme, when `s[1..i]` are scheme
      code points; none when a code point that is neither a scheme code point
      nor `:` comes first, or the input ends (the parser then goes to the
      "no scheme state", which fails without a base URL). */
  function ColonIndex(s: string, i: nat): (r: Option<nat>)
    requires 1 <= i <= |s|
    ensures r.Some? ==> i <= r.value < |s| && s[r.value] == ':'
    ensures r.Some? ==> forall j :: i <= j < r.value ==> IsSchemeChar(s[j])
    decreases |s| - i
  {
    if i == |s| then None
    else if s[i] == ':' then Some(i)
    else if IsSchemeChar(s[i]) then ColonIndex(s, i + 1)
    else None
  }

  function LowerAscii(s: string): (r: string)
    ensures |r| == |s| && forall i :: 0 <= i < |s| ==> r[i] == AsciiLower(s[i])
  {
    seq(|s|, i requires 0 <= i < |s| => AsciiLower(s[i]))
  }

  /** The lower-cased scheme and the remainder after its `:`. */
  function SplitScheme(s: string): (r: Option<(string, string)>)
    ensures r.Some? ==> |r.value.0| >= 1 && |r.value.0| + 1 + |r.value.1| == |s|
    ensures r.Some? ==> s[|r.value.0|] == ':' && r.value.1 == s[|r.value.0| + 1..]
    ensures r.Some? ==> IsAsciiAlpha(s[0]) && r.value.0 == LowerAscii(s[..|r.value.0|])
    ensures r.Some? ==> forall j :: 1 <= j < |r.value.0| ==> IsSchemeChar(s[j])
  {
    if s != [] && IsAsciiAlpha(s[0]) then
      match ColonIndex(s, 1)
      case Some(k) => Some((LowerAscii(s[..k]), s[k + 1..]))
      case None => None
    else None
  }

  /** Special schemes whose URLs must have a non-empty host. */
  predicate NeedsHost(scheme: string) {
    scheme in {"ftp", "http", "https", "ws", "wss"}
  }

  predicate IsSlash(c: char) {
    c == '/' || c == '\\'
  }

  /** The "special authority ignore slashes state": skip `/` and `\`. */
  function SkipSlashes(s: string): (r: string)
    ensures |r| <= |s| && r == s[|s| - |r|..]
    ensures r == [] || !IsSlash(r[0])
    decreases |s|
  {
    if s != [] && IsSlash(s[0]) then SkipSlashes(s[1..]) else s
  }

  predicate IsAuthorityEnd(c: char) {
    c == '/' || c == '\\' || c == '?' || c == '#'
  }

  /** The authority: everything up to the first `/`, `\`, `?` or `#`. */
  function Authority(s: string): (r: string)
    ensures |r| <= |s| && r == s[..|r|]
    ensures forall i :: 0 <= i < |r| ==> !IsAuthorityEnd(r[i])
    ensures |r| < |s| ==> IsAuthorityEnd(s[|r|])
  {
    if s == [] || IsAuthorityEnd(s[0]) then [] else [s[0]] + Authority(s[1..])
  }

  /** The host and port: the authority after its last `@`. */
  function AfterLastAt(s: string): (r: string)
    ensures |r| <= |s| && r == s[|s| - |r|..]
    ensures '@' !in r
    ensures |r| < |s| ==> s[|s| - |r| - 1] == '@'
  {
    if s == [] then []
    else if s[|s| - 1] == '@' then []
    else AfterLastAt(s[..|s| - 1]) + [s[|s| - 1]]
  }

  /** The "host-missing" failure: the host is empty, whether the host and
      port are empty or start with the port's `:`. */
  predicate HostMissing(afterScheme: string) {
    var hostAndPort := AfterLastAt(Authority(SkipSlashes(afterScheme)));
    hostAndPort == [] || hostAndPort[0] == ':'
  }

  /** `new URL(s).protocol`, or None when the constructor throws. A reported
      protocol ends in the `:` found in the input; an input that does not
      start with an ASCII letter has no scheme and fails. */
  function Protocol(s: string): (r: Option<string>)
    ensures r.Some? ==> 2 <= |r.value| <= |s| && r.value[|r.value| - 1] == ':' && s[|r.value| - 1] == ':'
    ensures s == [] || !IsAsciiAlpha(s[0]) ==> r.None?
  {
    match SplitScheme(s)
    case None => None
    case Some((scheme, rest)) =>
      WithColon(scheme);
      if NeedsHost(scheme) && HostMissing(rest) then None else Some(scheme + ":")
  }

  /** `s` starts with an ASCII letter followed by scheme code points up to
      a `:` at index `k`, and when the lower-cased scheme needs a host, the
      rest of `s` has one. */
  predicate SchemeThenHost(s: string, k: nat) {
    && 1 <= k < |s| && IsAsciiAlpha(s[0]) && s[k] == ':'
    && (forall j :: 1 <= j < k ==> IsSchemeChar(s[j]))
    && (NeedsHost(LowerAscii(s[..k])) ==> !HostMissing(s[k + 1..]))
  }

  /** What a reported protocol is: the input's leading letter and scheme
      code points, lower-cased, then `:`, where the input's scheme ends
      with a `:` and is followed by a host when it needs one. */
  lemma ProtocolMeaning(s: string)
    ensures Protocol(s).Some? ==>
              var k := |Protocol(s).value| - 1;
              SchemeThenHost(s, k) && Protocol(s).value == LowerAscii(s[..k]) + ":"
  {
    if Protocol(s).Some? {
      var scheme, rest := SplitScheme(s).value.0, SplitScheme(s).value.1;
      ProtocolOfSplit(s, scheme, rest);
      WithColon(scheme);
      SchemeThenHostOfSplit(s, scheme, rest);
    }
  }

  lemma SchemeThenHostOfSplit(s: string, scheme: string, rest: string)
    requires SplitScheme(s) == Some((scheme, rest))
    requires NeedsHost(scheme) ==> !HostMissing(rest)
    ensures SchemeThenHost(s, |scheme|)
  {
  }

  lemma WithColon(scheme: string)
    ensures var p := scheme + ":"; |p| == |scheme| + 1 && p[..|scheme|] == scheme && p[|scheme|] == ':'
  {
  }

  /** The converse of ProtocolMeaning: an input made of an ASCII letter,
      scheme code points and a `:`, followed by a host when the scheme needs
      one, parses, and its protocol is the lower-cased scheme and `:`. */
  lemma ProtocolWhenWellFormed(s: string, k: nat)
    requires SchemeThenHost(s, k)
    ensures Protocol(s) == Some(LowerAscii(s[..k]) + ":")
  {
    SplitSchemeWhenWellFormed(s, k);
    ProtocolOfSplit(s, LowerAscii(s[..k]), s[k + 1..]);
  }

  lemma SplitSchemeWhenWellFormed(s: string, k: nat)
    requires 1 <= k < |s| && IsAsciiAlpha(s[0]) && s[k] == ':'
    requires forall j :: 1 <= j < k ==> IsSchemeChar(s[j])
    ensures SplitScheme(s) == Some((LowerAscii(s[..k]), s[k + 1..]))
  {
    ColonIndexFinds(s, 1, k);
  }

  lemma ProtocolOfSplit(s: string, scheme: string, rest: string)
    requires SplitScheme(s) == Some((scheme, rest))
    ensures Protocol(s) == if NeedsHost(scheme) && HostMissing(rest) then None else Some(scheme + ":")
  {
  }

  lemma {:induction false} ColonIndexFinds(s: string, i: nat, k: nat)
    requires 1 <= i <= k < |s| && s[k] == ':'
    requires forall j :: i <= j < k ==> IsSchemeChar(s[j])
    ensures ColonIndex(s, i) == Some(k)
    decreases k - i
  {
    if i < k {
      assert s[i] != ':' by {
        assert IsSchemeChar(s[i]);
      }
      ColonIndexFinds(s, i + 1, k);
    }
  }

  /** The host is present when, after the slashes, the authority starts
      with a host code point and has no userinfo. */
  lemma HostPresent(rest: string)
    requires var a := SkipSlashes(rest);
             a != [] && a[0] != ':' && !IsAuthorityEnd(a[0]) && '@' !in a
    ensures !HostMissing(rest)
  {
    var a := SkipSlashes(rest);
    var auth := Authority(a);
    assert auth[0] == a[0];
    assert '@' !in auth by {
      forall i | 0 <= i < |auth| ensures auth[i] != '@' {
        assert auth[i] == a[i];
      }
    }
    assert AfterLastAt(auth) == auth;
  }

  lemma SkipTwoSlashes(rest: string)
    requires |rest| > 2 && IsSlash(rest[0]) && IsSlash(rest[1]) && !IsSlash(rest[2])
    ensures SkipSlashes(rest) == rest[2..]
  {
    var tail := rest[1..];
    assert tail[0] == rest[1] && tail[1..] == rest[2..];
    assert SkipSlashes(rest) == SkipSlashes(tail);
    assert SkipSlashes(tail) == SkipSlashes(rest[2..]);
  }

  lemma {:induction false} ColonIndexAppendSlash(s: string, i: nat)
    requires 1 <= i <= |s|
    ensures ColonIndex(s + "/", i) == ColonIndex(s, i)
    decreases |s| - i
  {
    if i < |s| {
      assert (s + "/")[i] == s[i];
      ColonIndexAppendSlash(s, i + 1);
    }
  }

  lemma {:induction false} SkipSlashesAppendSlash(s: string)
    ensures SkipSlashes(s + "/") == if SkipSlashes(s) == [] then [] else SkipSlashes(s) + "/"
    decreases |s|
  {
    if s != [] {
      assert (s + "/")[0] == s[0];
      if IsSlash(s[0]) {
        assert (s + "/")[1..] == s[1..] + "/";
        SkipSlashesAppendSlash(s[1..]);
      }
    }
  }

  lemma {:induction false} AuthorityAppendSlash(s: string)
    ensures Authority(s + "/") == Authority(s)
    decreases |s|
  {
    if s != [] {
      assert (s + "/")[0] == s[0];
      assert (s + "/")[1..] == s[1..] + "/";
      AuthorityAppendSlash(s[1..]);
    }
  }

  lemma SplitSchemeAppendSlash(s: string)
    ensures SplitScheme(s + "/") ==
      match SplitScheme(s)
      case Some((scheme, rest)) => Some((scheme, rest + "/"))
      case None => None
  {
    var t := s + "/";
    if s != [] {
      assert t[0] == s[0];
      ColonIndexAppendSlash(s, 1);
      if IsAsciiAlpha(s[0]) && ColonIndex(s, 1).Some? {
        var k := ColonIndex(s, 1).value;
        assert t[..k] == s[..k];
        assert t[k + 1..] == s[k + 1..] + "/";
      }
    } else {
      assert ColonIndex(t, 1) == None;
    }
  }

  lemma HostMissingAppendSlash(rest: string)
    ensures HostMissing(rest + "/") == HostMissing(rest)
  {
    SkipSlashesAppendSlash(rest);
    AuthorityAppendSlash(SkipSlashes(rest));
  }

  /** A `/` appended to the input changes neither whether `new URL` throws
      nor the protocol it reports. */
  lemma ProtocolAppendSlash(s: string)
    ensures Protocol(s + "/") == Protocol(s)
  {
    SplitSchemeAppendSlash(s);
    if SplitScheme(s).Some? {
      HostMissingAppendSlash(SplitScheme(s).value.1);
    }
  }

  /** Removing trailing slashes changes neither whether `new URL` throws nor
      the protocol it reports. */
  lemma {:induction false} ProtocolIgnoresTrailingSlashes(s: string)
    ensures Protocol(StripTrailingSlashes(s)) == Protocol(s)
    decreases |s|
  {
    if s != [] && s[|s| - 1] == '/' {
      var t := s[..|s| - 1];
      assert s == t + "/";
      ProtocolAppendSlash(t);
      ProtocolIgnoresTrailingSlashes(t);
    }
  }
}
