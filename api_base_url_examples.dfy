/** Validation, joining, normalisation and the audio-proxy test on
    concrete inputs. */
module ApiBaseUrlExamples {
  import opened Wrappers
  import opened JsText
  import opened UrlParser
  import opened ApiBaseUrl

  /** A root-relative base loses all of its trailing slashes. */
  lemma RootRelativeExample()
    ensures ValidateApiBaseUrl(Some("/api///")) == Accepted("/api")
  {
    TrimmedIsFixed("/api///");
    StripTrailingSlashesUnique("/api///", "/api");
  }

  /** `/` alone is accepted as the empty base. */
  lemma RootOnlyExample()
    ensures ValidateApiBaseUrl(Some("/")) == Accepted("")
  {
    TrimmedIsFixed("/");
    StripTrailingSlashesUnique("/", "");
  }

  /** Text with no scheme is not a full address. */
  lemma NotAUrlExample()
    ensures ValidateApiBaseUrl(Some("not a url")) == Rejected(NotFullHttpAddress)
  {
    NotAUrlIsTrimmed();
    NotAUrlHasNoProtocol();
  }

  lemma NotAUrlIsTrimmed()
    ensures TrimInput(Some("not a url")) == "not a url"
  {
    TrimmedIsFixed("not a url");
  }

  lemma NotAUrlHasNoProtocol()
    ensures Protocol("not a url") == None
  {
    NoColonBefore("not a url", 1, 3);
  }

  /** The scheme state stops without a `:` at a code point that is neither
      a scheme code point nor `:`. */
  lemma {:induction false} NoColonBefore(s: string, i: nat, k: nat)
    requires 1 <= i <= k < |s|
    requires forall j :: i <= j < k ==> IsSchemeChar(s[j])
    requires !IsSchemeChar(s[k]) && s[k] != ':'
    ensures ColonIndex(s, i) == None
    decreases k - i
  {
    if i < k {
      NoColonBefore(s, i + 1, k);
    }
  }

  /** An absolute https address is accepted without its trailing slash. */
  lemma HttpsAcceptedExample()
    ensures ValidateApiBaseUrl(Some("https://host.example/")) == Accepted("https://host.example")
  {
    ExampleHostIsPlain();
    ExampleAddressSpelling();
    HttpAddressAccepted("https", "host.example");
  }

  lemma ExampleHostIsPlain()
    ensures forall i :: 0 <= i < |"host.example"| ==>
              !IsAuthorityEnd("host.example"[i]) && "host.example"[i] != '@'
  {
  }

  lemma ExampleAddressSpelling()
    ensures "https" + "://" + "host.example" == "https://host.example"
    ensures "https" + "://" + "host.example" + "/" == "https://host.example/"
  {
  }

  /** A blob URL is played as it is. */
  lemma BlobNotProxiedExample()
    ensures !ShouldProxyAudioUrl(Some("blob:xyz"))
  {
    TrimmedIsFixed("blob:xyz");
    assert "blob:xyz"[..5] == "blob:";
    StartsWithLowerCase("blob:xyz", "blob:");
  }

  /** A root-relative audio path is not proxied. */
  lemma LocalPathNotProxiedExample()
    ensures !ShouldProxyAudioUrl(Some("/local/a.mp3"))
  {
    var s := "/local/a.mp3";
    TrimmedIsFixed(s);
    assert !StartsWithIgnoringCase(s, "http://") && !StartsWithIgnoringCase(s, "https://") by {
      assert AsciiLower(s[0]) == '/';
    }
  }

  /** A string that starts with a prefix free of upper-case letters starts
      with it ignoring case. */
  lemma StartsWithLowerCase(s: string, p: string)
    requires |p| <= |s| && s[..|p|] == p
    requires forall i :: 0 <= i < |p| ==> !('A' <= p[i] <= 'Z')
    ensures StartsWithIgnoringCase(s, p)
  {
    forall i | 0 <= i < |p| ensures AsciiLower(s[i]) == p[i] {
      assert s[i] == s[..|p|][i];
    }
  }

  /** The path keeps its own trailing slash. */
  lemma JoinApiUrlKeepsPathSlashExample()
    ensures JoinApiUrl("http://h/", "/p/") == "http://h/p/"
  {
    StripHostExample();
    StripPathExample();
    assert "http://h" + "/" + "p/" == "http://h/p/";
  }

  /** An empty path leaves a trailing `/`. */
  lemma JoinApiUrlEmptyPathExample()
    ensures JoinApiUrl("http://h", "") == "http://h/"
  {
    StripHostExample();
    assert "http://h" + "/" == "http://h/";
  }

  lemma StripHostExample()
    ensures StripTrailingSlashes("http://h/") == "http://h"
    ensures StripTrailingSlashes("http://h") == "http://h"
  {
    assert "http://h/"[..8] == "http://h";
  }

  lemma StripPathExample()
    ensures StripLeadingSlashes("/p/") == "p/"
  {
    assert "/p/"[1..] == "p/";
  }

  /** `"/a /"` normalises to `"/a "`, which normalises to `"/a"`. */
  lemma NormalizeNotIdempotentExample()
    ensures NormalizeApiBaseUrl(Some("/a /")) == "/a "
    ensures NormalizeApiBaseUrl(Some("/a ")) == "/a"
  {
    assert "/a" + [' '] + "/" == "/a /" && "/a" + [' '] == "/a ";
    NormalizeUncoversWhitespace("/a", ' ');
  }
}
