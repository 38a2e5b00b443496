/**
 * `SearchEngine.search`, `_search_with_error_handling` and `bulk_search`. Fetching a result
 * page is a parameter (see `Fetcher`); the thread pools become sequential loops whose
 * completion order is an input, and `random.sample` becomes the list of chosen engines.
 */
module Search {
  import opened Wrappers
  import opened Distinct
  import opened Parsers

  datatype Provider = Concrete(engine: Engine) | Auto | Unrecognised(name: string)

  /** The `provider` string given to `SearchEngine(...)`, as the dispatch in `search` reads it. */
  function ProviderNamed(name: string): (p: Provider)
    ensures p.Unrecognised? <==> name !in {"google", "bing", "yahoo", "duckduckgo", "auto"}
    ensures p.Auto? <==> name == "auto"
    ensures name == "google" ==> p == Concrete(Google)
    ensures name == "bing" ==> p == Concrete(Bing)
    ensures name == "yahoo" ==> p == Concrete(Yahoo)
    ensures name == "duckduckgo" ==> p == Concrete(DuckDuckGo)
  {
    if name == "google" then Concrete(Google)
    else if name == "bing" then Concrete(Bing)
    else if name == "yahoo" then Concrete(Yahoo)
    else if name == "duckduckgo" then Concrete(DuckDuckGo)
    else if name == "auto" then Auto
    else Unrecognised(name)
  }

  /**
   * Fetching the result page of an engine for a query and result count, and selecting its
   * elements; `Failure(msg)` when the fetch raises.
   */
  type Fetcher = (Engine, string, nat) -> Result<seq<Anchor>>

  /** One concrete engine: its page results cut to `n`, or the fetch's exception. */
  function EngineSearch(e: Engine, query: string, n: nat, fetch: Fetcher): Result<seq<string>> {
    match fetch(e, query, n)
    case Failure(msg) => Failure(msg)
    case Success(anchors) => Success(Take(PageResults(e, anchors), n))
  }

  /** The outcomes of the sub-searches of auto mode, in the order they completed. */
  function SubSearches(completed: seq<Engine>, query: string, n: nat, fetch: Fetcher): (rs: seq<Result<seq<string>>>)
    ensures |rs| == |completed|
  {
    seq(|completed|, k requires 0 <= k < |completed| => EngineSearch(completed[k], query, n, fetch))
  }

  /** The successful outcomes concatenated in order; a failed one contributes nothing. */
  function Successes(outcomes: seq<Result<seq<string>>>): seq<string>
    decreases |outcomes|
  {
    if outcomes == [] then []
    else
      var rest := Successes(outcomes[..|outcomes| - 1]);
      match outcomes[|outcomes| - 1]
      case Success(urls) => rest + urls
      case Failure(_) => rest
  }

  /** Auto mode: the merged sub-results without repeats, cut to `n`. */
  function AutoResults(completed: seq<Engine>, query: string, n: nat, fetch: Fetcher): seq<string> {
    Take(Dedup(Successes(SubSearches(completed, query, n, fetch))), n)
  }

  /** What `search` returns or raises. `completed` matters only in auto mode. */
  function SearchResult(p: Provider, query: string, n: nat, fetch: Fetcher, completed: seq<Engine>): Result<seq<string>> {
    match p
    case Concrete(e) => EngineSearch(e, query, n, fetch)
    case Auto => Success(AutoResults(completed, query, n, fetch))
    case Unrecognised(_) => Success([])
  }

  /** `search` on a concrete engine: fetch, run the provider's loop, slice. */
  method SearchConcrete(e: Engine, query: string, n: nat, fetch: Fetcher) returns (r: Result<seq<string>>)
    ensures r == EngineSearch(e, query, n, fetch)
  {
    var page := fetch(e, query, n);
    if page.Failure? {
      return Failure(page.error);
    }
    var links := CollectLinks(e, page.value);
    r := Success(Take(links, n));
  }

  /**
   * `search`. In auto mode each engine of `completed` is searched in turn (the order in which
   * their futures completed) and its results are appended unless it raised; the merged list
   * is then deduplicated and cut.
   */
  method SearchWith(p: Provider, query: string, n: nat, fetch: Fetcher, completed: seq<Engine>)
    returns (r: Result<seq<string>>)
    ensures r == SearchResult(p, query, n, fetch, completed)
  {
    match p {
      case Concrete(e) =>
        r := SearchConcrete(e, query, n, fetch);
      case Auto =>
        ghost var subs := SubSearches(completed, query, n, fetch);
        var results: seq<string> := [];
        var k := 0;
        while k < |completed|
          invariant 0 <= k <= |completed|
          invariant results == Successes(subs[..k])
        {
          assert subs[..k + 1][..k] == subs[..k];
          var sub := SearchConcrete(completed[k], query, n, fetch);
          if sub.Success? {
            results := results + sub.value;
          }
          k := k + 1;
        }
        assert subs[..k] == subs;
        r := Success(Take(Dedup(results), n));
      case Unrecognised(_) =>
        r := Success([]);
    }
  }

  /** For a concrete engine whose page was fetched, the result is the first min(n, |links|) page results. */
  lemma ConcreteSearchIsPrefix(e: Engine, query: string, n: nat, fetch: Fetcher, completed: seq<Engine>)
    requires fetch(e, query, n).Success?
    ensures var links := PageResults(e, fetch(e, query, n).value);
            var r := SearchResult(Concrete(e), query, n, fetch, completed);
            r.Success? && |r.value| == (if n < |links| then n else |links|) && r.value == links[..|r.value|]
  {
  }

  /** For a concrete engine the fetch's exception is raised to the caller. */
  lemma ConcreteSearchRaises(e: Engine, query: string, n: nat, fetch: Fetcher, completed: seq<Engine>)
    ensures fetch(e, query, n).Failure? ==>
      SearchResult(Concrete(e), query, n, fetch, completed) == Failure(fetch(e, query, n).error)
  {
  }

  /** An unrecognised provider yields no results and raises nothing. */
  lemma UnrecognisedIsEmpty(name: string, query: string, n: nat, fetch: Fetcher, completed: seq<Engine>)
    requires ProviderNamed(name).Unrecognised?
    ensures SearchResult(ProviderNamed(name), query, n, fetch, completed) == Success([])
  {
  }

  /** Whatever the provider, a successful search returns at most `n` distinct links. */
  lemma SearchCapped(p: Provider, query: string, n: nat, fetch: Fetcher, completed: seq<Engine>)
    ensures var r := SearchResult(p, query, n, fetch, completed);
            r.Success? ==> |r.value| <= n && NoDuplicates(r.value)
  {
    match p {
      case Concrete(e) =>
        if fetch(e, query, n).Success? {
          TakeKeepsNoDuplicates(PageResults(e, fetch(e, query, n).value), n);
        }
      case Auto =>
        TakeKeepsNoDuplicates(Dedup(Successes(SubSearches(completed, query, n, fetch))), n);
      case Unrecognised(_) =>
    }
  }

  /**
   * The dispatch of `search`: each of the four engine names runs that engine, "auto" never
   * raises, and any other name returns [] — so only a concrete engine can raise.
   */
  lemma SearchDispatch(name: string, query: string, n: nat, fetch: Fetcher, completed: seq<Engine>)
    ensures var r := SearchResult(ProviderNamed(name), query, n, fetch, completed);
            (name == "google" ==> r == EngineSearch(Google, query, n, fetch)) &&
            (name == "bing" ==> r == EngineSearch(Bing, query, n, fetch)) &&
            (name == "yahoo" ==> r == EngineSearch(Yahoo, query, n, fetch)) &&
            (name == "duckduckgo" ==> r == EngineSearch(DuckDuckGo, query, n, fetch)) &&
            (name !in {"google", "bing", "yahoo", "duckduckgo", "auto"} ==> r == Success([])) &&
            (r.Failure? ==> name in {"google", "bing", "yahoo", "duckduckgo"})
  {
  }

  /**
   * A concrete search raises exactly when its fetch raises, and every link it returns came from
   * an element of the fetched page that passed the engine's test.
   */
  lemma EngineSearchSound(e: Engine, query: string, n: nat, fetch: Fetcher)
    ensures EngineSearch(e, query, n, fetch).Failure? <==> fetch(e, query, n).Failure?
    ensures var r := EngineSearch(e, query, n, fetch);
            r.Success? ==> forall h :: h in r.value ==>
              exists i :: 0 <= i < |fetch(e, query, n).value| &&
                          Kept(e, Prepare(fetch(e, query, n).value[i])) == Some(h)
  {
    if fetch(e, query, n).Success? {
      var anchors := fetch(e, query, n).value;
      var links := PageResults(e, anchors);
      PageResultsFirstSeen(e, anchors);
      forall h | h in Take(links, n)
        ensures exists i :: 0 <= i < |anchors| && Kept(e, Prepare(anchors[i])) == Some(h)
      {
        assert h in links;
        var i :| 0 <= i < |anchors| && Kept(e, Prepared(anchors)[i]) == Some(h);
        assert Prepared(anchors)[i] == Prepare(anchors[i]);
      }
    }
  }

  /** A link is in the merged list exactly when some successful outcome holds it. */
  lemma {:induction false} SuccessesMembers(outcomes: seq<Result<seq<string>>>, u: string)
    ensures u in Successes(outcomes) <==>
      exists k :: 0 <= k < |outcomes| && outcomes[k].Success? && u in outcomes[k].value
  {
    if outcomes != [] {
      var p := outcomes[..|outcomes| - 1];
      SuccessesMembers(p, u);
      if exists k :: 0 <= k < |p| && p[k].Success? && u in p[k].value {
        var k :| 0 <= k < |p| && p[k].Success? && u in p[k].value;
        assert outcomes[k] == p[k];
      }
      if exists k :: 0 <= k < |outcomes| && outcomes[k].Success? && u in outcomes[k].value {
        var k :| 0 <= k < |outcomes| && outcomes[k].Success? && u in outcomes[k].value;
        if k < |p| {
          assert outcomes[k] == p[k];
        }
      }
    }
  }

  /**
   * Auto mode never raises, and every link it returns came from a sub-search that succeeded;
   * when the merged links do not exceed the cap, every link of every successful sub-search is
   * returned.
   */
  lemma AutoSound(query: string, n: nat, fetch: Fetcher, completed: seq<Engine>)
    ensures SearchResult(Auto, query, n, fetch, completed).Success?
    ensures var subs := SubSearches(completed, query, n, fetch);
            forall u :: u in AutoResults(completed, query, n, fetch) ==>
              exists k :: 0 <= k < |subs| && subs[k].Success? && u in subs[k].value
    ensures var subs := SubSearches(completed, query, n, fetch);
            |Dedup(Successes(subs))| <= n ==>
              forall k, u :: 0 <= k < |subs| && subs[k].Success? && u in subs[k].value ==>
                u in AutoResults(completed, query, n, fetch)
  {
    var subs := SubSearches(completed, query, n, fetch);
    var merged := Successes(subs);
    var out := AutoResults(completed, query, n, fetch);
    forall u | u in out
      ensures exists k :: 0 <= k < |subs| && subs[k].Success? && u in subs[k].value
    {
      var i :| 0 <= i < |out| && out[i] == u;
      assert u in Dedup(merged);
      var j :| 0 <= j < |merged| && merged[j] == u;
      SuccessesMembers(subs, u);
    }
    if |Dedup(merged)| <= n {
      forall k, u | 0 <= k < |subs| && subs[k].Success? && u in subs[k].value
        ensures u in out
      {
        SuccessesMembers(subs, u);
        var j :| 0 <= j < |merged| && merged[j] == u;
      }
    }
  }

  /** A concrete search that succeeds returns at most `n` distinct links. */
  lemma EngineSearchDistinct(e: Engine, query: string, n: nat, fetch: Fetcher)
    ensures var r := EngineSearch(e, query, n, fetch);
            r.Success? ==> |r.value| <= n && NoDuplicates(r.value)
  {
    if fetch(e, query, n).Success? {
      TakeKeepsNoDuplicates(PageResults(e, fetch(e, query, n).value), n);
    }
  }

  /** The successful links of two completed sub-searches, first then second. */
  lemma SuccessesOfTwo(outcomes: seq<Result<seq<string>>>)
    requires |outcomes| == 2
    ensures Successes(outcomes) ==
      (if outcomes[0].Success? then outcomes[0].value else []) +
      (if outcomes[1].Success? then outcomes[1].value else [])
  {
    var o1 := outcomes[..1];
    assert o1[..0] == [];
    assert Successes(o1[..0]) == [];
    assert Successes(o1) == (if outcomes[0].Success? then outcomes[0].value else []);
    assert outcomes[..|outcomes| - 1] == o1;
  }

  /** The results of the engine that completed first come first, in their own order. */
  lemma AutoFirstCompletedFirst(query: string, n: nat, fetch: Fetcher, completed: seq<Engine>)
    requires |completed| == 2
    requires EngineSearch(completed[0], query, n, fetch).Success?
    ensures var first := EngineSearch(completed[0], query, n, fetch).value;
            var out := AutoResults(completed, query, n, fetch);
            |first| <= |out| && out[..|first|] == first
  {
    var subs := SubSearches(completed, query, n, fetch);
    var first := subs[0].value;
    var second := if subs[1].Success? then subs[1].value else [];
    SuccessesOfTwo(subs);
    EngineSearchDistinct(completed[0], query, n, fetch);
    DedupTakeKeepsPrefix(first, second, n);
  }

  /** Two distinct engines, as `random.sample(engines, 2)` picks them, in completion order. */
  predicate ValidChoice(completed: seq<Engine>) {
    |completed| == 2 && completed[0] != completed[1]
  }

  /**
   * If one chosen engine raises and the other returns `L`, auto mode returns exactly `L`,
   * whichever finished first.
   */
  lemma AutoResilient(query: string, n: nat, fetch: Fetcher, completed: seq<Engine>, failing: nat)
    requires ValidChoice(completed) && failing < 2
    requires EngineSearch(completed[failing], query, n, fetch).Failure?
    requires EngineSearch(completed[1 - failing], query, n, fetch).Success?
    ensures SearchResult(Auto, query, n, fetch, completed) ==
            EngineSearch(completed[1 - failing], query, n, fetch)
  {
    var subs := SubSearches(completed, query, n, fetch);
    var winner := EngineSearch(completed[1 - failing], query, n, fetch);
    EngineSearchDistinct(completed[1 - failing], query, n, fetch);
    assert subs[failing].Failure? && subs[1 - failing] == winner;
    assert AutoResults(completed, query, n, fetch) == Take(Dedup(Successes(subs)), n);
    OneSuccessMerged(subs, failing, n);
  }

  /** Of two outcomes one failed and the other holds at most `n` distinct links: those links result. */
  lemma OneSuccessMerged(outcomes: seq<Result<seq<string>>>, failing: nat, n: nat)
    requires |outcomes| == 2 && failing < 2
    requires outcomes[failing].Failure? && outcomes[1 - failing].Success?
    requires |outcomes[1 - failing].value| <= n && NoDuplicates(outcomes[1 - failing].value)
    ensures Take(Dedup(Successes(outcomes)), n) == outcomes[1 - failing].value
  {
    var l := outcomes[1 - failing].value;
    SuccessesOfTwo(outcomes);
    assert Successes(outcomes) == l;
    DedupOfDistinct(l);
  }

  /** If every chosen engine raises, auto mode returns the empty list and raises nothing. */
  lemma {:induction false} AllFailEmpty(outcomes: seq<Result<seq<string>>>)
    requires forall k :: 0 <= k < |outcomes| ==> outcomes[k].Failure?
    ensures Successes(outcomes) == []
  {
    if outcomes != [] {
      AllFailEmpty(outcomes[..|outcomes| - 1]);
    }
  }

  /** When every chosen engine raises, auto mode returns [] instead of raising. */
  lemma AutoAllFailEmpty(query: string, n: nat, fetch: Fetcher, completed: seq<Engine>)
    requires forall k :: 0 <= k < |completed| ==> fetch(completed[k], query, n).Failure?
    ensures SearchResult(Auto, query, n, fetch, completed) == Success([])
  {
    var subs := SubSearches(completed, query, n, fetch);
    forall k | 0 <= k < |subs| ensures subs[k].Failure? {
      assert subs[k] == EngineSearch(completed[k], query, n, fetch);
    }
    AllFailEmpty(subs);
    assert AutoResults(completed, query, n, fetch) == Take(Dedup(Successes(subs)), n);
  }

  /** The record `_search_with_error_handling` returns; `error` is present only on failure. */
  datatype SearchRecord = SearchRecord(query: string, urls: seq<string>, error: Option<string>)

  function RecordFor(p: Provider, query: string, n: nat, fetch: Fetcher, completed: seq<Engine>): SearchRecord {
    match SearchResult(p, query, n, fetch, completed)
    case Success(urls) => SearchRecord(query, urls, None)
    case Failure(msg) => SearchRecord(query, [], Some(msg))
  }

  /**
   * A record is for its query, never holds both an error and links, and holds at most `n`
   * distinct links.
   */
  lemma RecordForShape(p: Provider, query: string, n: nat, fetch: Fetcher, completed: seq<Engine>)
    ensures var r := RecordFor(p, query, n, fetch, completed);
            r.query == query && (r.error.Some? ==> r.urls == []) &&
            |r.urls| <= n && NoDuplicates(r.urls)
  {
    SearchCapped(p, query, n, fetch, completed);
  }

  /** `_search_with_error_handling`: any exception of `search` becomes an error record. */
  method SearchWithErrorHandling(p: Provider, query: string, n: nat, fetch: Fetcher, completed: seq<Engine>)
    returns (rec: SearchRecord)
    ensures rec == RecordFor(p, query, n, fetch, completed)
    ensures rec.query == query
    ensures rec.error.Some? <==> SearchResult(p, query, n, fetch, completed).Failure?
    ensures rec.error.Some? ==> rec.urls == [] && rec.error.value == SearchResult(p, query, n, fetch, completed).error
    ensures rec.error.None? ==> rec.urls == SearchResult(p, query, n, fetch, completed).value
  {
    var r := SearchWith(p, query, n, fetch, completed);
    match r {
      case Success(urls) => rec := SearchRecord(query, urls, None);
      case Failure(msg) => rec := SearchRecord(query, [], Some(msg));
    }
  }

  /** What `bulk_search` returns: the records, or the flattened links when `combined`. */
  datatype BulkOutput = Records(records: seq<SearchRecord>) | Links(urls: seq<string>)

  /** One record per query, in query order; `choices(i)` is the auto choice made for query `i`. */
  function BulkRecords(p: Provider, queries: seq<string>, n: nat, fetch: Fetcher, choices: nat -> seq<Engine>)
    : (rs: seq<SearchRecord>)
    ensures |rs| == |queries|
  {
    seq(|queries|, i requires 0 <= i < |queries| => RecordFor(p, queries[i], n, fetch, choices(i)))
  }

  /** The links of the records with a non-empty `urls`, record after record. */
  function CombinedUrls(records: seq<SearchRecord>): seq<string>
    decreases |records|
  {
    if records == [] then []
    else
      var rest := CombinedUrls(records[..|records| - 1]);
      var urls := records[|records| - 1].urls;
      if urls == [] then rest else rest + urls
  }

  /** A link is in the combined output exactly when some record holds it. */
  lemma {:induction false} CombinedUrlsMembers(records: seq<SearchRecord>, u: string)
    decreases |records|
    ensures u in CombinedUrls(records) <==> exists i :: 0 <= i < |records| && u in records[i].urls
  {
    if records != [] {
      var p := records[..|records| - 1];
      CombinedUrlsMembers(p, u);
      if exists i :: 0 <= i < |p| && u in p[i].urls {
        var i :| 0 <= i < |p| && u in p[i].urls;
        assert records[i] == p[i];
      }
      if exists i :: 0 <= i < |records| && u in records[i].urls {
        var i :| 0 <= i < |records| && u in records[i].urls;
        if i < |p| {
          assert records[i] == p[i];
        }
      }
    }
  }

  function BulkResult(p: Provider, queries: seq<string>, n: nat, combined: bool, fetch: Fetcher,
                      choices: nat -> seq<Engine>): BulkOutput
  {
    var records := BulkRecords(p, queries, n, fetch, choices);
    if combined then Links(CombinedUrls(records)) else Records(records)
  }

  /** `bulk_search`: one search per query in query order, then the optional flattening loop. */
  method BulkSearch(p: Provider, queries: seq<string>, n: nat, combined: bool, fetch: Fetcher,
                    choices: nat -> seq<Engine>) returns (out: BulkOutput)
    ensures out == BulkResult(p, queries, n, combined, fetch, choices)
  {
    var results: seq<SearchRecord> := [];
    var i := 0;
    while i < |queries|
      invariant 0 <= i <= |queries|
      invariant results == BulkRecords(p, queries, n, fetch, choices)[..i]
    {
      var rec := SearchWithErrorHandling(p, queries[i], n, fetch, choices(i));
      results := results + [rec];
      i := i + 1;
    }
    assert results == BulkRecords(p, queries, n, fetch, choices);
    if combined {
      var urls: seq<string> := [];
      var k := 0;
      while k < |results|
        invariant 0 <= k <= |results|
        invariant urls == CombinedUrls(results[..k])
      {
        assert results[..k + 1][..k] == results[..k];
        var url := results[k].urls;
        if url != [] {
          urls := urls + url;
        }
        k := k + 1;
      }
      assert results[..k] == results;
      return Links(urls);
    }
    out := Records(results);
  }

  /**
   * Without `combined`: exactly one record per query, record `i` for `queries[i]`; a query whose
   * search raised has no links and carries the exception's message, any other carries the
   * search's links and no error.
   */
  lemma BulkRecordsInQueryOrder(p: Provider, queries: seq<string>, n: nat, fetch: Fetcher,
                                choices: nat -> seq<Engine>, i: nat)
    requires i < |queries|
    ensures var rs := BulkRecords(p, queries, n, fetch, choices);
            var r := SearchResult(p, queries[i], n, fetch, choices(i));
            |rs| == |queries| && rs[i].query == queries[i] &&
            (r.Failure? ==> rs[i].urls == [] && rs[i].error == Some(r.error)) &&
            (r.Success? ==> rs[i].urls == r.value && rs[i].error == None)
  {
  }

  /** All records' links concatenated front to back, empty ones included. */
  function ConcatUrls(records: seq<SearchRecord>): seq<string>
    decreases |records|
  {
    if records == [] then [] else records[0].urls + ConcatUrls(records[1..])
  }

  lemma {:induction false} ConcatUrlsAppend(records: seq<SearchRecord>, r: SearchRecord)
    ensures ConcatUrls(records + [r]) == ConcatUrls(records) + r.urls
    decreases |records|
  {
    if records == [] {
      assert [r][1..] == [];
    } else {
      assert (records + [r])[1..] == records[1..] + [r];
      ConcatUrlsAppend(records[1..], r);
    }
  }

  /**
   * With `combined`: all records' links in query order and then within-query order; skipping
   * empty lists changes nothing, and nothing is dropped, so a link returned for two queries
   * appears twice.
   */
  lemma {:induction false} CombinedIsConcatenation(records: seq<SearchRecord>)
    ensures CombinedUrls(records) == ConcatUrls(records)
    decreases |records|
  {
    if records != [] {
      var p := records[..|records| - 1];
      CombinedIsConcatenation(p);
      assert records == p + [records[|records| - 1]];
      ConcatUrlsAppend(p, records[|records| - 1]);
    }
  }

  /** Duplicates across queries are kept: two records with the same link give it twice. */
  lemma CombinedKeepsDuplicates(q1: string, q2: string, u: string)
    ensures CombinedUrls([SearchRecord(q1, [u], None), SearchRecord(q2, [u], None)]) == [u, u]
  {
    var rs := [SearchRecord(q1, [u], None), SearchRecord(q2, [u], None)];
    assert rs[..1][..0] == [];
    assert CombinedUrls(rs[..1]) == [u];
    assert rs[..2 - 1] == rs[..1];
  }
}
