/** The URL normaliser `_normalize_url` applied to every href a provider page yields. */
module UrlNormalizer {
  import opened Text

  /** DuckDuckGo wraps its results as `...uddg=<target>&rut=<tracking>`. */
  function UnwrapDuckDuckGo(url: string): string {
    if Contains(url, "uddg=http") then
      ContainsPrefixOf(url, "uddg=http", "uddg=");
      var u := SplitAfter(url, "uddg=");
      if Contains(u, "&rut=") then SplitBefore(u, "&rut=") else u
    else url
  }

  /**
   * Yahoo wraps its results as `.../RU=<target>/RK=2/RS=<signature>`. The presence test is for
   * "/RK=2/RS" while the cut is at "/RK=2/RS=", so a string with the first but not the second
   * is kept whole.
   */
  function UnwrapYahoo(url: string): string {
    if Contains(url, "/RU=http") then
      ContainsPrefixOf(url, "/RU=http", "/RU=");
      var u := SplitAfter(url, "/RU=");
      if Contains(u, "/RK=2/RS") then SplitBefore(u, "/RK=2/RS=") else u
    else url
  }

  /** `_normalize_url`: both unwrappings in sequence, then spaces to `+`, then percent-decoding. */
  function Normalize(url: string): (r: string)
    ensures url == "" ==> r == ""
  {
    var u := UnwrapYahoo(UnwrapDuckDuckGo(url));
    if u == "" then "" else PercentDecode(ReplaceSpaces(u))
  }

  /**
   * A DuckDuckGo-wrapped link becomes the text after the first "uddg=", cut before the first
   * "&rut=" in that text when there is one; no "&rut=" remains.
   */
  lemma DuckDuckGoUnwrapped(url: string)
    requires Contains(url, "uddg=http")
    ensures exists i: nat :: IsFirstOccurrence(url, "uddg=", i) &&
                             UnwrapDuckDuckGo(url) == SplitBefore(url[i + 5..], "&rut=")
    ensures !Contains(UnwrapDuckDuckGo(url), "&rut=")
  {
    ContainsPrefixOf(url, "uddg=http", "uddg=");
    FindCorrect(url, "uddg=");
    var i := Find(url, "uddg=").value;
    var u := url[i + 5..];
    SplitBeforeRemovesMarker(u, "&rut=");
    assert UnwrapDuckDuckGo(url) == SplitBefore(u, "&rut=");
  }

  /**
   * A Yahoo-wrapped link becomes the text after the first "/RU=", cut before the first
   * "/RK=2/RS=" in that text when there is one; no "/RK=2/RS=" remains.
   */
  lemma YahooUnwrapped(url: string)
    requires Contains(url, "/RU=http")
    ensures exists i: nat :: IsFirstOccurrence(url, "/RU=", i) &&
                             UnwrapYahoo(url) == SplitBefore(url[i + 4..], "/RK=2/RS=")
    ensures !Contains(UnwrapYahoo(url), "/RK=2/RS=")
  {
    ContainsPrefixOf(url, "/RU=http", "/RU=");
    FindCorrect(url, "/RU=");
    var i := Find(url, "/RU=").value;
    var u := url[i + 4..];
    SignatureTestSuffices(u);
    SplitBeforeRemovesMarker(u, "/RK=2/RS=");
    assert UnwrapYahoo(url) == SplitBefore(u, "/RK=2/RS=");
  }

  /** When "/RK=2/RS" is absent so is "/RK=2/RS=", and cutting would change nothing. */
  lemma SignatureTestSuffices(u: string)
    ensures (if Contains(u, "/RK=2/RS") then SplitBefore(u, "/RK=2/RS=") else u)
            == SplitBefore(u, "/RK=2/RS=")
  {
    if Contains(u, "/RK=2/RS=") {
      assert StartsWith("/RK=2/RS=", "/RK=2/RS");
      ContainsPrefixOf(u, "/RK=2/RS=", "/RK=2/RS");
    }
  }

  /**
   * DuckDuckGo unwrapping leaves a link without "uddg=http" as it is, and otherwise returns a
   * contiguous piece of it: nothing is added or reordered.
   */
  lemma DuckDuckGoUnwrapIsSlice(url: string)
    ensures !Contains(url, "uddg=http") ==> UnwrapDuckDuckGo(url) == url
    ensures exists i, j :: 0 <= i <= j <= |url| && UnwrapDuckDuckGo(url) == url[i..j]
  {
    if Contains(url, "uddg=http") {
      ContainsPrefixOf(url, "uddg=http", "uddg=");
      FindCorrect(url, "uddg=");
      var i := Find(url, "uddg=").value + 5;
      var u := url[i..];
      assert SplitAfter(url, "uddg=") == u;
      FindCorrect(u, "&rut=");
      if Contains(u, "&rut=") {
        var k := Find(u, "&rut=").value;
        assert UnwrapDuckDuckGo(url) == u[..k] == url[i..i + k];
      } else {
        assert UnwrapDuckDuckGo(url) == url[i..|url|];
      }
    } else {
      assert UnwrapDuckDuckGo(url) == url[0..|url|];
    }
  }

  /**
   * Yahoo unwrapping leaves a link without "/RU=http" as it is, and otherwise returns a
   * contiguous piece of it.
   */
  lemma YahooUnwrapIsSlice(url: string)
    ensures !Contains(url, "/RU=http") ==> UnwrapYahoo(url) == url
    ensures exists i, j :: 0 <= i <= j <= |url| && UnwrapYahoo(url) == url[i..j]
  {
    if Contains(url, "/RU=http") {
      ContainsPrefixOf(url, "/RU=http", "/RU=");
      FindCorrect(url, "/RU=");
      var i := Find(url, "/RU=").value + 4;
      var u := url[i..];
      assert SplitAfter(url, "/RU=") == u;
      SignatureTestSuffices(u);
      FindCorrect(u, "/RK=2/RS=");
      if Contains(u, "/RK=2/RS=") {
        var k := Find(u, "/RK=2/RS=").value;
        assert UnwrapYahoo(url) == u[..k] == url[i..i + k];
      } else {
        assert UnwrapYahoo(url) == url[i..|url|];
      }
    } else {
      assert UnwrapYahoo(url) == url[0..|url|];
    }
  }

  /** A link with no redirect marker, no `%` and no space. */
  predicate IsPlainUrl(url: string) {
    !Contains(url, "uddg=http") && !Contains(url, "/RU=http") && '%' !in url && ' ' !in url
  }

  /** A plain link comes back unchanged. */
  lemma PlainUrlUnchanged(url: string)
    requires IsPlainUrl(url)
    ensures Normalize(url) == url
  {
  }

  /** A string shorter than both markers is not a wrapped link. */
  lemma ShortUrlNotUnwrapped(url: string)
    requires |url| < 8
    ensures UnwrapYahoo(UnwrapDuckDuckGo(url)) == url
  {
    FindCorrect(url, "uddg=http");
    FindCorrect(url, "/RU=http");
  }

  /** Normalising is not idempotent: "%2541" decodes to "%41", which decodes again to "A". */
  lemma NormalizeNotIdempotent()
    ensures Normalize("%2541") == "%41"
    ensures Normalize(Normalize("%2541")) == "A"
  {
    ShortUrlNotUnwrapped("%2541");
    ShortUrlNotUnwrapped("%41");
    assert ReplaceSpaces("%2541") == "%2541" && ReplaceSpaces("%41") == "%41";
    assert PercentDecode("41") == "41";
    assert PercentDecode("%2541") == "%41";
    assert PercentDecode("%41") == "A";
  }

  /** A non-empty href can normalise to the empty string, which the provider loops then skip. */
  lemma NormalizeCanEmpty()
    ensures Normalize("uddg=&rut=uddg=http") == ""
  {
    var url := "uddg=&rut=uddg=http";
    assert OccursAt(url, "uddg=http", 10);
    assert Contains(url, "uddg=http");
    assert IsFirstOccurrence(url, "uddg=", 0);
    assert SplitAfter(url, "uddg=") == "&rut=uddg=http";
    assert IsFirstOccurrence("&rut=uddg=http", "&rut=", 0);
    assert UnwrapDuckDuckGo(url) == "";
  }
}
