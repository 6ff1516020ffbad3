/** The string primitives the source relies on: `String.prototype.trim`,
    the anchored regular expressions `/\/+$/` and `/^\/+/`, and prefix tests
    under the `i` (ignore case) regular-expression flag. */
module JsText {

  /** The WhiteSpace and LineTerminator code points of ECMA-262
      (sections 12.2 and 12.3), which `String.prototype.trim` removes. */
  predicate IsJsWhitespace(c: char) {
    || c == '\t' || c == '\n' || c == '\U{B}' || c == '\U{C}' || c == '\r'
    || c == ' ' || c == '\U{A0}' || c == '\U{1680}'
    || ('\U{2000}' <= c <= '\U{200A}')
    || c == '\U{2028}' || c == '\U{2029}' || c == '\U{202F}' || c == '\U{205F}'
    || c == '\U{3000}' || c == '\U{FEFF}'
  }

  predicate AllWhitespace(s: string) {
    forall i :: 0 <= i < |s| ==> IsJsWhitespace(s[i])
  }

  /** Leading whitespace removed. */
  function TrimStart(s: string): (r: string)
    ensures |r| <= |s| && r == s[|s| - |r|..]
    ensures AllWhitespace(s[..|s| - |r|])
    ensures r == [] || !IsJsWhitespace(r[0])
    decreases |s|
  {
    if s != [] && IsJsWhitespace(s[0]) then
      var r := TrimStart(s[1..]);
      HeadThenPrefix(s, |s| - |r|);
      r
    else s
  }

  /** Trailing whitespace removed. */
  function TrimEnd(s: string): (r: string)
    ensures |r| <= |s| && r == s[..|r|]
    ensures AllWhitespace(s[|r|..])
    ensures r == [] || !IsJsWhitespace(r[|r| - 1])
    decreases |s|
  {
    if s != [] && IsJsWhitespace(s[|s| - 1]) then
      var r := TrimEnd(s[..|s| - 1]);
      SuffixThenLast(s, |r|);
      r
    else s
  }

  lemma HeadThenPrefix(s: string, k: nat)
    requires 1 <= k <= |s|
    ensures s[..k] == [s[0]] + s[1..][..k - 1]
  {
  }

  lemma SuffixThenLast(s: string, k: nat)
    requires k < |s|
    ensures s[k..] == s[..|s| - 1][k..] + [s[|s| - 1]]
  {
  }

  /** `s.trim()`: the input with whitespace removed at both ends. */
  function Trim(s: string): (r: string)
    ensures |r| <= |s|
    ensures r == [] || (!IsJsWhitespace(r[0]) && !IsJsWhitespace(r[|r| - 1]))
  {
    TrimEnd(TrimStart(s))
  }

  /** `r` occurs in `s` at index `i` with only whitespace before and after
      it. */
  predicate WhitespaceAround(s: string, i: nat, r: string) {
    i + |r| <= |s| && r == s[i..i + |r|] && AllWhitespace(s[..i]) && AllWhitespace(s[i + |r|..])
  }

  /** What `trim` keeps is a contiguous piece of the input with only
      whitespace around it; the piece starts where the leading whitespace
      ends. */
  lemma TrimIsInfix(s: string)
    ensures WhitespaceAround(s, |s| - |TrimStart(s)|, Trim(s))
  {
    TrimStartIsSuffix(s);
    TrimIsPrefixOfTrimStart(s);
    InfixOfSuffix(s, TrimStart(s), Trim(s));
  }

  lemma TrimStartIsSuffix(s: string)
    ensures var u := TrimStart(s); |u| <= |s| && u == s[|s| - |u|..] && AllWhitespace(s[..|s| - |u|])
  {
  }

  lemma TrimIsPrefixOfTrimStart(s: string)
    ensures var u, r := TrimStart(s), Trim(s); |r| <= |u| && r == u[..|r|] && AllWhitespace(u[|r|..])
  {
  }

  lemma InfixOfSuffix(s: string, u: string, r: string)
    requires |u| <= |s| && u == s[|s| - |u|..] && AllWhitespace(s[..|s| - |u|])
    requires |r| <= |u| && r == u[..|r|] && AllWhitespace(u[|r|..])
    ensures WhitespaceAround(s, |s| - |u|, r)
  {
    SliceOfSuffix(s, |s| - |u|, |r|);
  }

  lemma SliceOfSuffix(s: string, i: nat, k: nat)
    requires i + k <= |s|
    ensures s[i..][..k] == s[i..i + k] && s[i..][k..] == s[i + k..]
  {
  }

  /** A string with no whitespace at either end is its own trim. */
  lemma TrimmedIsFixed(s: string)
    requires s == [] || (!IsJsWhitespace(s[0]) && !IsJsWhitespace(s[|s| - 1]))
    ensures Trim(s) == s
  {
  }

  /** A string that starts and ends with `/` is its own trim. */
  lemma TrimKeepsSlashEnds(s: string)
    requires |s| >= 2 && s[0] == '/' && s[|s| - 1] == '/'
    ensures Trim(s) == s
  {
    TrimmedIsFixed(s);
  }

  /** Trimming twice is trimming once. */
  lemma TrimIdempotent(s: string)
    ensures Trim(Trim(s)) == Trim(s)
  {
    TrimmedIsFixed(Trim(s));
  }

  /** The converse of TrimStart's contract: a suffix preceded only by
      whitespace and not itself starting with whitespace is what
      TrimStart returns. */
  lemma {:induction false} TrimStartUnique(s: string, r: string)
    requires |r| <= |s| && r == s[|s| - |r|..] && AllWhitespace(s[..|s| - |r|])
    requires r == [] || !IsJsWhitespace(r[0])
    ensures TrimStart(s) == r
    decreases |s|
  {
    if |s| > |r| {
      assert IsJsWhitespace(s[0]);
      var t := s[1..];
      assert t[|t| - |r|..] == r;
      assert t[..|t| - |r|] == s[1..|s| - |r|];
      TrimStartUnique(t, r);
    } else {
      assert s == r;
    }
  }

  /** The converse of TrimEnd's contract. */
  lemma {:induction false} TrimEndUnique(s: string, r: string)
    requires |r| <= |s| && r == s[..|r|] && AllWhitespace(s[|r|..])
    requires r == [] || !IsJsWhitespace(r[|r| - 1])
    ensures TrimEnd(s) == r
    decreases |s|
  {
    if |s| > |r| {
      assert IsJsWhitespace(s[|s| - 1]);
      var t := s[..|s| - 1];
      assert t[..|r|] == r;
      assert t[|r|..] == s[|r|..|s| - 1];
      TrimEndUnique(t, r);
    } else {
      assert s == r;
    }
  }

  /** The converse of TrimIsInfix: whatever sits between two runs of
      whitespace, and neither starts nor ends with whitespace, is the trim. */
  lemma TrimUnique(s: string, i: nat, r: string)
    requires WhitespaceAround(s, i, r)
    requires r == [] || (!IsJsWhitespace(r[0]) && !IsJsWhitespace(r[|r| - 1]))
    ensures Trim(s) == r
  {
    var u := s[i..];
    if r == [] {
      assert AllWhitespace(s) by {
        forall k | 0 <= k < |s| ensures IsJsWhitespace(s[k]) {
          if k < i { assert s[k] == s[..i][k]; } else { assert s[k] == s[i..][k - i]; }
        }
      }
      assert s[..|s|] == s;
      TrimStartUnique(s, []);
    } else {
      assert u[0] == r[0];
      TrimStartUnique(s, u);
      assert u[..|r|] == r;
      assert u[|r|..] == s[i + |r|..];
      TrimEndUnique(u, r);
    }
  }

  predicate AllSlashes(s: string) {
    forall i :: 0 <= i < |s| ==> s[i] == '/'
  }

  /** `s.replace(/\/+$/, '')`: the maximal run of trailing `/` removed. */
  function StripTrailingSlashes(s: string): (r: string)
    ensures |r| <= |s| && r == s[..|r|]
    ensures AllSlashes(s[|r|..])
    ensures r == [] || r[|r| - 1] != '/'
    decreases |s|
  {
    if s != [] && s[|s| - 1] == '/' then
      var r := StripTrailingSlashes(s[..|s| - 1]);
      SuffixThenLast(s, |r|);
      r
    else s
  }

  /** `s.replace(/^\/+/, '')`: the maximal run of leading `/` removed. */
  function StripLeadingSlashes(s: string): (r: string)
    ensures |r| <= |s| && r == s[|s| - |r|..]
    ensures AllSlashes(s[..|s| - |r|])
    ensures r == [] || r[0] != '/'
    decreases |s|
  {
    if s != [] && s[0] == '/' then
      var r := StripLeadingSlashes(s[1..]);
      HeadThenPrefix(s, |s| - |r|);
      r
    else s
  }

  /** The converse of StripTrailingSlashes' contract: a prefix that is
      followed only by slashes and does not itself end in one is exactly
      what the function returns. Together the two say that the function
      computes "the input minus its trailing run of `/`" and nothing else. */
  lemma {:induction false} StripTrailingSlashesUnique(s: string, r: string)
    requires |r| <= |s| && r == s[..|r|] && AllSlashes(s[|r|..])
    requires r == [] || r[|r| - 1] != '/'
    ensures StripTrailingSlashes(s) == r
    decreases |s|
  {
    if |s| > |r| {
      assert s[|s| - 1] == '/';
      var t := s[..|s| - 1];
      assert t[..|r|] == r;
      assert t[|r|..] == s[|r|..|s| - 1];
      StripTrailingSlashesUnique(t, r);
    } else {
      assert s == r;
    }
  }

  /** Likewise for StripLeadingSlashes. */
  lemma {:induction false} StripLeadingSlashesUnique(s: string, r: string)
    requires |r| <= |s| && r == s[|s| - |r|..] && AllSlashes(s[..|s| - |r|])
    requires r == [] || r[0] != '/'
    ensures StripLeadingSlashes(s) == r
    decreases |s|
  {
    if |s| > |r| {
      assert s[0] == '/';
      var t := s[1..];
      assert t[|t| - |r|..] == r;
      assert t[..|t| - |r|] == s[1..|s| - |r|];
      StripLeadingSlashesUnique(t, r);
    } else {
      assert s == r;
    }
  }

  /** One trailing `/` after a value that does not end in one is stripped. */
  lemma StripOneTrailingSlash(v: string)
    requires v == [] || v[|v| - 1] != '/'
    ensures StripTrailingSlashes(v + "/") == v
  {
    var s := v + "/";
    assert s[..|v|] == v && s[|v|..] == "/";
    StripTrailingSlashesUnique(s, v);
  }

  /** A run of `k` slashes. */
  function Slashes(k: nat): (r: string)
    ensures |r| == k && AllSlashes(r)
  {
    if k == 0 then "" else "/" + Slashes(k - 1)
  }

  /** Extra trailing slashes are stripped along with the existing ones. */
  lemma StripTrailingSlashesAppend(s: string, k: nat)
    ensures StripTrailingSlashes(s + Slashes(k)) == StripTrailingSlashes(s)
  {
    var b := StripTrailingSlashes(s);
    SlashesAfterPrefix(s, b, Slashes(k));
    StripTrailingSlashesUnique(s + Slashes(k), b);
  }

  lemma SlashesAfterPrefix(s: string, b: string, x: string)
    requires |b| <= |s| && b == s[..|b|] && AllSlashes(s[|b|..]) && AllSlashes(x)
    ensures |b| <= |s + x| && b == (s + x)[..|b|] && AllSlashes((s + x)[|b|..])
  {
    assert (s + x)[|b|..] == s[|b|..] + x;
  }

  /** Extra leading slashes are stripped along with the existing ones. */
  lemma StripLeadingSlashesPrepend(s: string, k: nat)
    ensures StripLeadingSlashes(Slashes(k) + s) == StripLeadingSlashes(s)
  {
    var p := StripLeadingSlashes(s);
    SlashesBeforeSuffix(s, p, Slashes(k));
    StripLeadingSlashesUnique(Slashes(k) + s, p);
  }

  lemma SlashesBeforeSuffix(s: string, p: string, x: string)
    requires |p| <= |s| && p == s[|s| - |p|..] && AllSlashes(s[..|s| - |p|]) && AllSlashes(x)
    ensures var t := x + s; |p| <= |t| && p == t[|t| - |p|..] && AllSlashes(t[..|t| - |p|])
  {
    var t := x + s;
    assert t[|t| - |p|..] == s[|s| - |p|..];
    assert t[..|t| - |p|] == x + s[..|s| - |p|];
  }

  /** Lower-case an ASCII letter; every other character is unchanged. */
  function AsciiLower(c: char): char {
    if 'A' <= c <= 'Z' then (c as int + 32) as char else c
  }

  /** `/^prefix/i.test(s)` for a lower-case ASCII `prefix`: with the `i`
      flag and no `u` flag, only ASCII letters fold onto ASCII letters. */
  predicate StartsWithIgnoringCase(s: string, prefix: string) {
    |prefix| <= |s| && forall i :: 0 <= i < |prefix| ==> AsciiLower(s[i]) == prefix[i]
  }

  /** No string starts with two prefixes that differ at a common position. */
  lemma PrefixesClash(s: string, a: string, b: string, i: nat)
    requires i < |a| && i < |b| && a[i] != b[i]
    ensures !(StartsWithIgnoringCase(s, a) && StartsWithIgnoringCase(s, b))
  {
  }
}
