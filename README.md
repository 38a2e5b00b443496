# WebAccessTool search core, modelled in Dafny

This project models the deterministic core of WebAccessTool's search and scraping code:

- `_normalize_url`, which unwraps DuckDuckGo (`uddg=`) and Yahoo (`/RU=`) redirect links, turns spaces into `+` and percent-decodes.
- The result loops of the four provider searches (Google, Bing, Yahoo, DuckDuckGo). Each loop normalises every candidate href, applies the provider's filter and drops repeats with a `cache` set.
- `SearchEngine.search`. It dispatches on the provider and caps the result with `[:num_results]`. Its `auto` mode merges two engines' results, deduplicates them and caps them.
- `_search_with_error_handling` and `bulk_search`. These produce one record per query, in query order, and can optionally flatten the records into one list of links.
- From the scraper: the lazily cached `markdown` / `plain_text` properties of `Response`, the header merge `headers_job`, the plain-text serializer `unmark_element`, and the newline collapse in `convert_to_plain_text`.

Files, one module each:

| file | module | models |
|---|---|---|
| wrappers.dfy | Wrappers | `Option` for Python's `None`; `Result` for a value or a raised exception |
| text.dfy | Text | `in`, `startswith`, `split(sep, 1)`, `replace(" ", "+")`, `unquote` |
| dedup.dfy | Distinct | `dict.fromkeys` order-preserving dedup, `[:n]` |
| normalize.dfy | UrlNormalizer | `_normalize_url` |
| parsers.dfy | Parsers | the provider loops |
| search.dfy | Search | `search`, auto mode, `_search_with_error_handling`, `bulk_search` |
| scraper.dfy | Scraper | `Response` caching, `headers_job`, `unmark_element`, newline collapse |

Some things are inputs to the model rather than part of it:

- **Fetching and parsing.** Fetching a page and selecting its elements is a `Fetcher` parameter. It maps an engine, a query and a result count to a list of `Anchor`s, or to a failure standing for the exception.
- **Anchors.** An `Anchor` is one element the provider's XPath selects. It keeps the first `href` found under that element and the element's own `class`.
- **Auto mode's choices.** The two engines `random.sample` picks, in the order their futures completed, are a parameter. So are the choices made for each query of a bulk search.
- **Scraper collaborators.** The converters, the two generated header sets and the extracted domain are parameters.

Behaviour of the code worth knowing:

- **Unwrapping both markers.** The DuckDuckGo and Yahoo unwrappings are two separate `if`s, applied one after the other. They are not an `else if`.
- **Yahoo and DuckDuckGo links.** Only Google and Bing require a kept link to start with `http`. Neither Yahoo nor DuckDuckGo checks the scheme: DuckDuckGo keeps any non-empty normalised href, and Yahoo keeps any whose element has class `"d-ib v-v"` (`Parsers.RelativeLinkKept`).
- **Idempotence.** `_normalize_url` is not idempotent: `"%2541"` becomes `"%41"`, and normalising that gives `"A"` (`UrlNormalizer.NormalizeNotIdempotent`).
- **The Yahoo signature test.** The test is for `"/RK=2/RS"`, but the cut is made at `"/RK=2/RS="`. This is equivalent to always cutting at the first `"/RK=2/RS="` (`UrlNormalizer.SignatureTestSuffices`).

## Model

| member | source | states |
|---|---|---|
| Text.FindFromCorrect | webaccess/search_engine.py:14 | the index found is an occurrence of the pattern with none before it; None means no occurrence at or after the start |
| Text.FindCorrect | webaccess/search_engine.py:14 | `p in s` search: a result is the leftmost occurrence; None means `p` occurs nowhere |
| Text.ContainsIff | webaccess/search_engine.py:14 | `Contains` holds exactly when the pattern occurs at some index |
| Text.StartsWithAtStart | webaccess/search_engine.py:48 | `startswith(p)` (lines 48 and 73) holds exactly when `p` occurs at index 0, which is then what the search finds first |
| Text.ContainsPrefixOf | webaccess/search_engine.py:14-15 | if a marker such as "uddg=http" occurs, so does the prefix "uddg=" that `split` uses, and no later |
| Text.SplitAfterFirst | webaccess/search_engine.py:15 | `split(p, 1)[1]` is the text after the leftmost occurrence of `p` |
| Text.SplitBeforeFirst | webaccess/search_engine.py:17 | `split(p, 1)[0]` is the text before the leftmost occurrence, or the whole string when `p` is absent |
| Text.SplitBeforeRemovesMarker | webaccess/search_engine.py:17 | after the cut the marker no longer occurs |
| Text.ReplaceSpaces | webaccess/search_engine.py:23 | same length; every space becomes `+`, every other character is kept; no space left |
| Text.PercentDecode | webaccess/search_engine.py:23 | never lengthens the text; a string without `%` is returned unchanged (what an escape decodes to: `Text.PercentDecodeEncode`) |
| Text.PercentDecodeShrinks | webaccess/search_engine.py:23 | the length is kept exactly when no well-formed `%XX` escape occurs |
| Text.PercentDecodeNoEscape | webaccess/search_engine.py:23 | text without a well-formed `%XX` escape is returned unchanged, so a `%` not followed by two hexadecimal digits stays where it is |
| Text.PercentDecodeEncode | webaccess/search_engine.py:23 | decoding the `%XX` encoding of any text below 0x80 gives the text back: each escape decodes to the character with that code |
| UrlNormalizer.Normalize | webaccess/search_engine.py:23 | the empty string normalises to the empty string |
| UrlNormalizer.DuckDuckGoUnwrapped | webaccess/search_engine.py:14-17 | with "uddg=http" present: the text after the first "uddg=", cut before the first "&rut=" in it; no "&rut=" remains |
| UrlNormalizer.YahooUnwrapped | webaccess/search_engine.py:19-22 | with "/RU=http" present: the text after the first "/RU=", cut before the first "/RK=2/RS="; none remains |
| UrlNormalizer.DuckDuckGoUnwrapIsSlice | webaccess/search_engine.py:14-17 | `UnwrapDuckDuckGo` leaves a link without "uddg=http" unchanged, and otherwise returns a contiguous piece of it |
| UrlNormalizer.YahooUnwrapIsSlice | webaccess/search_engine.py:19-22 | `UnwrapYahoo` leaves a link without "/RU=http" unchanged, and otherwise returns a contiguous piece of it |
| UrlNormalizer.SignatureTestSuffices | webaccess/search_engine.py:21-22 | testing for "/RK=2/RS" and then cutting at "/RK=2/RS=" equals always cutting at "/RK=2/RS=" |
| UrlNormalizer.PlainUrlUnchanged | webaccess/search_engine.py:14-23 | a URL with no redirect marker, no `%` and no space is returned unchanged |
| UrlNormalizer.NormalizeNotIdempotent | webaccess/search_engine.py:23 | "%2541" normalises to "%41", which normalises to "A" |
| UrlNormalizer.NormalizeCanEmpty | webaccess/search_engine.py:14-23 | a non-empty href can normalise to "", which is why the loops test `if href` again |
| Distinct.FirstIndex | webaccess/search_engine.py:143 | the index returned holds the element and no earlier index does |
| Distinct.Dedup | webaccess/search_engine.py:143 | `dict.fromkeys`: no repeats, and exactly the elements of the input |
| Distinct.FirstIndexAppend | webaccess/search_engine.py:143 | appending elements does not move an existing first occurrence |
| Distinct.DedupFirstSeenOrder | webaccess/search_engine.py:143 | the kept elements are in the order of their first occurrence in the input |
| Distinct.DedupLength | webaccess/search_engine.py:48-50 | N elements of which M repeat an earlier one leave N - M |
| Distinct.DedupOfDistinct | webaccess/search_engine.py:143 | a list without repeats is unchanged |
| Distinct.DedupExtends | webaccess/search_engine.py:139-143 | deduplicating `a + b` starts with the deduplication of `a` |
| Distinct.DedupTakeKeepsPrefix | webaccess/search_engine.py:139-144 | a distinct list of at most n links stays, in front, after merging, dedup and cap |
| Distinct.Take | webaccess/search_engine.py:120 | `[:n]` has length min(n, len) and is a prefix |
| Distinct.TakeKeepsNoDuplicates | webaccess/search_engine.py:120 | cutting keeps a list free of repeats |
| Parsers.CollectLinks | webaccess/search_engine.py:35-115 | the loop returns exactly the first-seen dedup of the accepted normalised hrefs, with no repeats; its invariant keeps `cache` equal to the set of links appended |
| Parsers.ProviderFilters | webaccess/search_engine.py:48-111 | `Accepts`: Google (line 48) and Bing (73) keep an href only if it starts with "http", whatever the class; Yahoo (92) only elements of class exactly "d-ib v-v", whatever the href; DuckDuckGo (111) has no further test |
| Parsers.NormalizedHrefOf | webaccess/search_engine.py:46-47 | `NormalizedHref`: a link exactly when the element has a non-empty href, namely the normalised href; a plain href is kept as it is |
| Parsers.PageResultsStep | webaccess/search_engine.py:43-50 | `PageResults` of one more element: its link is appended when it passes the test and is not yet collected, otherwise nothing changes |
| Parsers.AcceptedMembers | webaccess/search_engine.py:43-50 | a link is accepted exactly when some element contributes it past the provider's filter |
| Parsers.PageResultsFirstSeen | webaccess/search_engine.py:43-52 | page results are distinct, are exactly the links some element contributes, and are ordered by first acceptance |
| Parsers.GoogleBingResults | webaccess/search_engine.py:43-52 | Google (and Bing, lines 65-77): every result starts with "http"; results are exactly the normalised hrefs starting with "http" |
| Parsers.YahooResults | webaccess/search_engine.py:87-96 | results are exactly the non-empty normalised hrefs of elements whose class is "d-ib v-v" |
| Parsers.DuckDuckGoResults | webaccess/search_engine.py:106-115 | results are exactly the non-empty normalised hrefs |
| Parsers.RelativeLinkKept | webaccess/search_engine.py:92 | Yahoo and DuckDuckGo keep "/x", a link not starting with "http" |
| Parsers.PageResultsCount | webaccess/search_engine.py:48-50 | N accepted links with M repeats give N - M results |
| Search.ProviderNamed | webaccess/search_engine.py:119-146 | "google", "bing", "yahoo" and "duckduckgo" select that engine; "auto" selects auto mode; any other name is unrecognised |
| Search.SearchConcrete | webaccess/search_engine.py:119-126 | a concrete search is its page results cut to n, or the fetch's exception |
| Search.SearchWith | webaccess/search_engine.py:117-146 | `search` with its auto loop computes the dispatch result, including the merge in completion order |
| Search.SearchDispatch | webaccess/search_engine.py:117-146 | `SearchResult` by name: each engine name runs that engine, any unknown name gives [], and only an engine name can raise |
| Search.ConcreteSearchIsPrefix | webaccess/search_engine.py:119-126 | a concrete provider returns the first min(n, len) links of its page results |
| Search.ConcreteSearchRaises | webaccess/search_engine.py:119-126 | a concrete provider raises its fetch's exception |
| Search.UnrecognisedIsEmpty | webaccess/search_engine.py:145-146 | an unrecognised provider returns [] |
| Search.SearchCapped | webaccess/search_engine.py:117-146 | any provider: at most n links, none repeated |
| Search.EngineSearchDistinct | webaccess/search_engine.py:119-126 | a successful concrete search has at most n distinct links |
| Search.EngineSearchSound | webaccess/search_engine.py:119-126 | `EngineSearch` raises exactly when its fetch raises; each link it returns came from a page element that passed the engine's test |
| Search.SuccessesMembers | webaccess/search_engine.py:137-141 | the merged list holds exactly the links of the successful sub-searches |
| Search.SuccessesOfTwo | webaccess/search_engine.py:137-141 | with two sub-searches, the first's links come before the second's, and a failed one gives nothing |
| Search.AutoSound | webaccess/search_engine.py:127-144 | auto never raises; each link returned comes from a successful sub-search; below the cap all of them are returned |
| Search.AutoFirstCompletedFirst | webaccess/search_engine.py:137-144 | the first-completed engine's results open the auto result, in their order |
| Search.AutoResilient | webaccess/search_engine.py:127-144 | if one chosen engine raises and the other returns L, auto returns exactly L |
| Search.AllFailEmpty | webaccess/search_engine.py:137-141 | if every sub-search raises, nothing is merged (auto returns []) |
| Search.AutoAllFailEmpty | webaccess/search_engine.py:127-144 | `AutoResults`: when every chosen engine's fetch raises, auto returns [] and does not raise |
| Search.SearchWithErrorHandling | webaccess/search_engine.py:148-155 | the record is `RecordFor` of the search outcome: it carries the query; an error exactly when search raised, then with no links; otherwise the search's links |
| Search.RecordForShape | webaccess/search_engine.py:148-155 | `RecordFor`: the record is for its query, never has both an error and links, and has at most n distinct links |
| Search.BulkSearch | webaccess/search_engine.py:157-180 | the loops compute one record per query in query order, or their flattening when combined |
| Search.BulkRecordsInQueryOrder | webaccess/search_engine.py:168-171 | one record per query; record i is for `queries[i]`; a failing query has no links and the error message |
| Search.ConcatUrlsAppend | webaccess/search_engine.py:172-179 | concatenating one more record appends its links |
| Search.CombinedIsConcatenation | webaccess/search_engine.py:172-179 | combined output is all records' links in query order; skipping empty lists changes nothing |
| Search.CombinedKeepsDuplicates | webaccess/search_engine.py:172-179 | the same link from two queries appears twice |
| Search.CombinedUrlsMembers | webaccess/search_engine.py:172-179 | `CombinedUrls`: a link is in the combined output exactly when some record holds it |
| Scraper.Response.constructor | webaccess/scraper.py:15-20 | both caches start empty and no converter has run |
| Scraper.Response.Markdown | webaccess/scraper.py:28-32 | returns the converter's result; converts only when nothing is cached; a success is cached and counted once; the plain-text cache is untouched |
| Scraper.Response.PlainText | webaccess/scraper.py:34-39 | the same for plain text, cached independently of markdown |
| Scraper.ReadMarkdownRepeatedly | webaccess/scraper.py:28-32 | reading markdown k times gives k equal values with one conversion |
| Scraper.HeadersJob | webaccess/scraper.py:56-71 | referer is the generated referer; keys of the second generated set win except referer; User-Agent comes from the first set unless the second has one; other caller keys keep their value; no other keys |
| Scraper.RefererNamesDomain | webaccess/scraper.py:50-54 | `ConvincingReferer`: the Google search prefix followed by the domain, so different domains give different referers |
| Scraper.UnmarkIntoAppends | webaccess/scraper.py:108-117 | writing an element appends exactly its text fragments, in document order, to the stream |
| Scraper.UnmarkIntoKeepsStream | webaccess/scraper.py:108-117 | `UnmarkInto` only appends: what the stream held before stays in front |
| Scraper.UnmarkChildrenIntoAppends | webaccess/scraper.py:113-114 | writing the children in turn appends their fragments in order |
| Scraper.UnmarkEachIsChildFragments | webaccess/scraper.py:113-114 | flattening each child on its own and concatenating gives the children's fragments |
| Scraper.UnmarkDocumentOrder | webaccess/scraper.py:108-117 | `unmark_element(e)` is text, then each child's flattening in order, then tail, absent parts empty |
| Scraper.ConcatAppend | webaccess/scraper.py:108-117 | concatenation distributes over appending fragment lists |
| Scraper.DropNewlines | webaccess/scraper.py:126 | never lengthens; the result does not start with a newline |
| Scraper.DropNewlinesIsSuffix | webaccess/scraper.py:126 | the result is a suffix of the input, and everything dropped in front of it is a newline |
| Scraper.CollapseNewlines | webaccess/scraper.py:126 | keeps the first character; never lengthens |
| Scraper.CollapseHasSingleNewlines | webaccess/scraper.py:126 | after the collapse no two newlines are adjacent |
| Scraper.CollapseFixpoint | webaccess/scraper.py:126 | a string without consecutive newlines is left unchanged |
| Scraper.NoDoubleNewlineIff | webaccess/scraper.py:126 | no consecutive newlines exactly when "\n\n" does not occur |
| Scraper.CollapseWithoutDoubleNewline | webaccess/scraper.py:126 | no "\n\n" in the input means no change |
| Scraper.CollapseIdempotent | webaccess/scraper.py:126 | collapsing twice equals collapsing once |
| Scraper.DropNewlinesKeepsText | webaccess/scraper.py:126 | dropping leading newlines removes no other character |
| Scraper.CollapseKeepsText | webaccess/scraper.py:126 | only newlines are removed, others survive in order; a newline stays exactly when there was one |
| Scraper.DropNewlinesAppend | webaccess/scraper.py:126 | leading newlines of `a + x` are all of `a` plus those of `x` when `a` is only newlines, and only `a`'s otherwise |
| Scraper.CollapseSameRun | webaccess/scraper.py:126 | two tails that start with a newline and agree after their leading newlines collapse alike behind any prefix |
| Scraper.CollapseDoubleNewline | webaccess/scraper.py:126 | "\n\n" collapses exactly as "\n" wherever it stands; with the fixpoint lemma, each run becomes one newline in place |
| Scraper.PlainTextHasSingleNewlines | webaccess/scraper.py:97-128 | plain text has no "\n\n"; a markdown-conversion failure is raised |
| Scraper.PlainTextIsCollapsedRender | webaccess/scraper.py:97-128 | `ConvertToPlainText`: the rendered markdown with the same non-newline characters in order, a newline exactly when it had one, and the rendering itself when it has no "\n\n" |

## Left out

- The HTTP transport is network I/O, so it is not modelled. This covers `BasicScraper.get`, the httpx client, proxy, retries, timeouts and the `fetch` singleton (webaccess/scraper.py:130-157). A fetch is the `Fetcher` parameter.
- HTML parsing and XPath selection use lxml, a foreign library. This includes the `isinstance` guards around them. A page arrives as the sequence of selected elements.
- Writing `bing.html` (webaccess/search_engine.py:59-60) is debug file output. A failure there counts among the fetcher's failures.
- The thread pools of `search` and `bulk_search` run sequentially here. `as_completed`'s order is an input, and `max_workers` is not modelled.
- `random.sample` is not modelled. The chosen engines are an input, taken in completion order. `Search.ValidChoice` (two distinct engines) is assumed only by `Search.AutoResilient`.
- `lru_cache` and `cached_property` are transparent memoisation, so they are not modelled.
- The foreign libraries are parameters:
  - MarkItDown and its temporary file (webaccess/scraper.py:73-96).
  - The `markdown` library's rendering (webaccess/scraper.py:119-124). It is the `render` parameter, with `unmark_element` modelled on its own as its serializer.
  - browserforge's `generate_headers`. Its two calls give the two header-set parameters.
  - tldextract. It gives the `domain` parameter.
- `Response.__getattr__` (webaccess/scraper.py:22-26) is pure delegation.
- The printed error message in `_search_with_error_handling` and both `__main__` demo blocks are console output.
- Text.PercentDecode: decodes each `%XX` to the character with that code. Python assembles escapes of bytes 0x80 and above into UTF-8 and replaces invalid sequences with U+FFFD. That assembly is not modelled, so the model agrees with `unquote` only for escapes below 0x80.
- Search.SearchWith: `num_results` is a natural number. Python's slice rules for a negative count are not modelled.
- Scraper.HeadersJob: returns a new map. A caller's non-empty dict is updated in place and returned in Python; that aliasing is not captured.
- Scraper.HeadersJob: a Dafny `map` has no key order. Python's dict keeps insertion order: the caller's keys, then `User-Agent` when new, then the new keys of the second generated set in their order, then `referer` when new. httpx sends headers in that order, which the model does not capture.
- Search.BulkSearch: a page depends only on engine, query and count. Two fetches of the same query cannot return different pages.
- Scraper.Response.Markdown: the converters are functions of the content, so a converter giving different results on different calls is not modelled.
- webaccess/search_&_extract.py is not part of this model. It holds the content extractor, bulk extraction with length ranking, and `SearchWithExtractor.auto_search_and_extract` (webaccess/search_&_extract.py:78), which searches and then extracts the pages found.
