/**
 * The result filters of `_search_google`, `_search_bing`, `_search_yahoo` and
 * `_search_duckduckgo`. Fetching the page and selecting elements by XPath stay outside the
 * model: a provider page arrives as the sequence of selected elements, each reduced to the
 * first `href` its anchor path yields and to its own `class` attribute.
 */
module Parsers {
  import opened Wrappers
  import opened Text
  import opened Distinct
  import opened UrlNormalizer

  datatype Engine = Google | Bing | Yahoo | DuckDuckGo

  /** One element selected by the provider's XPath: the first href found under it, and its class. */
  datatype Anchor = Anchor(href: Option<string>, cls: Option<string>)

  /** The class Yahoo puts on the container of a result link. */
  const YahooResultClass := "d-ib v-v"

  /** The href after normalisation; a missing or empty href is None and is never normalised. */
  function NormalizedHref(a: Anchor): Option<string> {
    match a.href
    case None => None
    case Some(h) => if h == "" then None else Some(Normalize(h))
  }

  /** An element after its href has been normalised: what the provider's test looks at. */
  datatype Candidate = Candidate(link: Option<string>, cls: Option<string>)

  function Prepare(a: Anchor): Candidate {
    Candidate(NormalizedHref(a), a.cls)
  }

  function Prepared(anchors: seq<Anchor>): (cs: seq<Candidate>)
    ensures |cs| == |anchors|
  {
    seq(|anchors|, i requires 0 <= i < |anchors| => Prepare(anchors[i]))
  }

  /** The provider-specific test a normalised, non-empty href must pass to be kept. */
  predicate Accepts(e: Engine, cls: Option<string>, href: string) {
    match e
    case Google => StartsWith(href, "http")
    case Bing => StartsWith(href, "http")
    case Yahoo => cls == Some(YahooResultClass)
    case DuckDuckGo => true
  }

  /** The link an element contributes before duplicates are considered, if any. */
  function Kept(e: Engine, c: Candidate): Option<string> {
    match c.link
    case None => None
    case Some(h) => if h != "" && Accepts(e, c.cls, h) then Some(h) else None
  }

  /** All links the candidates contribute, in document order, repeats included. */
  function Accepted(e: Engine, cs: seq<Candidate>): seq<string>
    decreases |cs|
  {
    if cs == [] then []
    else
      var rest := Accepted(e, cs[..|cs| - 1]);
      match Kept(e, cs[|cs| - 1])
      case Some(h) => rest + [h]
      case None => rest
  }

  /** What a provider search returns for a page: its accepted links, first occurrences only. */
  function PageResults(e: Engine, anchors: seq<Anchor>): seq<string> {
    Dedup(Accepted(e, Prepared(anchors)))
  }

  /**
   * The loop shared by the four provider searches: normalise each element's href, keep it if it
   * passes the provider's test and is not in `cache`, and then add it to both `cache` and the
   * result list.
   */
  method CollectLinks(e: Engine, anchors: seq<Anchor>) returns (pageResults: seq<string>)
    ensures pageResults == PageResults(e, anchors)
    ensures NoDuplicates(pageResults)
  {
    ghost var cs := Prepared(anchors);
    pageResults := [];
    var cache: set<string> := {};
    var i := 0;
    while i < |anchors|
      invariant 0 <= i <= |anchors|
      invariant pageResults == Dedup(Accepted(e, cs[..i]))
      invariant forall h :: h in cache <==> h in pageResults
    {
      var c := Prepare(anchors[i]);
      AcceptedStep(e, cs, i);
      var href := c.link;
      if href.Some? && href.value != "" && Accepts(e, c.cls, href.value) && href.value !in cache {
        cache := cache + {href.value};
        pageResults := pageResults + [href.value];
      }
      i := i + 1;
    }
    assert cs[..i] == cs;
  }

  /** One more candidate extends the accepted links by what it contributes, if anything. */
  lemma AcceptedStep(e: Engine, cs: seq<Candidate>, i: nat)
    requires i < |cs|
    ensures Accepted(e, cs[..i + 1]) ==
      match Kept(e, cs[i])
      case Some(h) => Accepted(e, cs[..i]) + [h]
      case None => Accepted(e, cs[..i])
  {
    assert cs[..i + 1][..i] == cs[..i];
  }

  /** A link is accepted exactly when some candidate contributes it. */
  lemma {:induction false} AcceptedMembers(e: Engine, cs: seq<Candidate>, h: string)
    ensures h in Accepted(e, cs) <==> exists i :: 0 <= i < |cs| && Kept(e, cs[i]) == Some(h)
  {
    if cs != [] {
      var p := cs[..|cs| - 1];
      AcceptedMembers(e, p, h);
      if exists i :: 0 <= i < |p| && Kept(e, p[i]) == Some(h) {
        var i :| 0 <= i < |p| && Kept(e, p[i]) == Some(h);
        assert Kept(e, cs[i]) == Some(h);
      }
      if exists i :: 0 <= i < |cs| && Kept(e, cs[i]) == Some(h) {
        var i :| 0 <= i < |cs| && Kept(e, cs[i]) == Some(h);
        if i < |p| {
          assert Kept(e, p[i]) == Some(h);
        }
      }
    }
  }

  /**
   * The page results are distinct, contain exactly the links some element contributes, and list
   * them in the order in which each was first accepted.
   */
  lemma PageResultsFirstSeen(e: Engine, anchors: seq<Anchor>)
    ensures NoDuplicates(PageResults(e, anchors))
    ensures forall h :: h in PageResults(e, anchors) <==>
      exists i :: 0 <= i < |anchors| && Kept(e, Prepared(anchors)[i]) == Some(h)
    ensures forall i, j :: 0 <= i < j < |PageResults(e, anchors)| ==>
      FirstIndex(Accepted(e, Prepared(anchors)), PageResults(e, anchors)[i]) <
      FirstIndex(Accepted(e, Prepared(anchors)), PageResults(e, anchors)[j])
  {
    var cs := Prepared(anchors);
    var acc := Accepted(e, cs);
    forall h ensures h in PageResults(e, anchors) <==> h in acc {
      if h in acc {
        var k :| 0 <= k < |acc| && acc[k] == h;
      }
    }
    forall h ensures h in acc <==> exists i :: 0 <= i < |cs| && Kept(e, cs[i]) == Some(h) {
      AcceptedMembers(e, cs, h);
    }
    DedupFirstSeenOrder(acc);
  }

  /** Google and Bing: the results are exactly the distinct normalised hrefs that start with "http". */
  lemma GoogleBingResults(e: Engine, anchors: seq<Anchor>)
    requires e == Google || e == Bing
    ensures forall h :: h in PageResults(e, anchors) ==> StartsWith(h, "http")
    ensures forall h :: h in PageResults(e, anchors) <==>
      exists i :: 0 <= i < |anchors| && NormalizedHref(anchors[i]) == Some(h) && StartsWith(h, "http")
  {
    PageResultsFirstSeen(e, anchors);
    var cs := Prepared(anchors);
    forall i | 0 <= i < |anchors| ensures cs[i] == Prepare(anchors[i]) { }
  }

  /** Yahoo: exactly the distinct non-empty normalised hrefs of elements of class "d-ib v-v". */
  lemma YahooResults(anchors: seq<Anchor>)
    ensures forall h :: h in PageResults(Yahoo, anchors) <==>
      exists i :: 0 <= i < |anchors| && anchors[i].cls == Some(YahooResultClass) &&
                  NormalizedHref(anchors[i]) == Some(h) && h != ""
  {
    PageResultsFirstSeen(Yahoo, anchors);
    var cs := Prepared(anchors);
    forall i | 0 <= i < |anchors| ensures cs[i] == Prepare(anchors[i]) { }
  }

  /** DuckDuckGo: exactly the distinct non-empty normalised hrefs. */
  lemma DuckDuckGoResults(anchors: seq<Anchor>)
    ensures forall h :: h in PageResults(DuckDuckGo, anchors) <==>
      exists i :: 0 <= i < |anchors| && NormalizedHref(anchors[i]) == Some(h) && h != ""
  {
    PageResultsFirstSeen(DuckDuckGo, anchors);
    var cs := Prepared(anchors);
    forall i | 0 <= i < |anchors| ensures cs[i] == Prepare(anchors[i]) { }
  }

  /** Yahoo and DuckDuckGo keep links that do not start with "http", such as a relative path. */
  lemma RelativeLinkKept()
    ensures PageResults(DuckDuckGo, [Anchor(Some("/x"), None)]) == ["/x"]
    ensures PageResults(Yahoo, [Anchor(Some("/x"), Some(YahooResultClass))]) == ["/x"]
  {
    assert Normalize("/x") == "/x";
    var cs := [Candidate(Some("/x"), None)];
    assert Prepared([Anchor(Some("/x"), None)]) == cs;
    assert Accepted(DuckDuckGo, cs) == ["/x"];
    var ys := [Candidate(Some("/x"), Some(YahooResultClass))];
    assert Prepared([Anchor(Some("/x"), Some(YahooResultClass))]) == ys;
    assert Accepted(Yahoo, ys) == ["/x"];
  }

  /** A page of N accepted links of which M repeat an earlier one yields N - M results. */
  lemma PageResultsCount(e: Engine, anchors: seq<Anchor>)
    ensures |PageResults(e, anchors)| == |Accepted(e, Prepared(anchors))| - Repeats(Accepted(e, Prepared(anchors)))
  {
    DedupLength(Accepted(e, Prepared(anchors)));
  }

  /**
   * The per-provider tests: Google and Bing look only at the href, which must start with
   * "http"; Yahoo looks only at the element's class, which must be exactly "d-ib v-v";
   * DuckDuckGo has no test beyond a non-empty href.
   */
  lemma ProviderFilters(cls: Option<string>, href: string)
    ensures Accepts(Google, cls, href) <==> |href| >= 4 && href[..4] == "http"
    ensures Accepts(Bing, cls, href) <==> |href| >= 4 && href[..4] == "http"
    ensures Accepts(Yahoo, cls, href) <==> cls == Some("d-ib v-v")
    ensures Accepts(DuckDuckGo, cls, href)
  {
  }

  /**
   * An element yields a link after normalisation exactly when it has a non-empty href, and that
   * link is the normalised href; a plain href (no redirect marker, no `%`, no space) is kept as
   * it is.
   */
  lemma NormalizedHrefOf(a: Anchor)
    ensures NormalizedHref(a).Some? <==> a.href.Some? && a.href.value != ""
    ensures NormalizedHref(a).Some? ==> NormalizedHref(a).value == Normalize(a.href.value)
    ensures a.href.Some? && a.href.value != "" && IsPlainUrl(a.href.value) ==> NormalizedHref(a) == a.href
  {
    if a.href.Some? && a.href.value != "" && IsPlainUrl(a.href.value) {
      PlainUrlUnchanged(a.href.value);
    }
  }

  /**
   * One more element extends the page results as one turn of the provider loop does: its link,
   * if it passes the test and is not yet collected, is appended; otherwise nothing changes.
   */
  lemma PageResultsStep(e: Engine, anchors: seq<Anchor>, a: Anchor)
    ensures var rest := PageResults(e, anchors);
            var k := Kept(e, Prepare(a));
            PageResults(e, anchors + [a]) == if k.Some? && k.value !in rest then rest + [k.value] else rest
  {
    var cs := Prepared(anchors + [a]);
    assert cs[..|anchors|] == Prepared(anchors);
    assert cs[|anchors|] == Prepare(a);
    AcceptedStep(e, cs, |anchors|);
    assert cs[..|anchors| + 1] == cs;
    var acc := Accepted(e, Prepared(anchors));
    match Kept(e, Prepare(a)) {
      case Some(h) =>
        assert (acc + [h])[..|acc|] == acc;
      case None =>
    }
  }
}

