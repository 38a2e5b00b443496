/**
 * The deterministic parts of the scraper: the lazily cached conversions of a `Response`, the
 * header merge `headers_job`, the plain-text serializer `unmark_element` and the newline
 * collapse that ends `convert_to_plain_text`. The converters, the header generator and the
 * domain extraction are parameters.
 */
module Scraper {
  import opened Wrappers
  import opened Text

  /**
   * A fetched response with its two converters. Each conversion runs on first access and its
   * value is kept; a converter that raises leaves the cache empty and raises again next time.
   * The ghost counters record how often each converter has been called.
   */
  class Response {
    const content: seq<bv8>
    const convertToMarkdown: seq<bv8> -> Result<string>
    const convertToPlainText: seq<bv8> -> Result<string>
    var markdownCache: Option<string>
    var plainTextCache: Option<string>
    ghost var markdownCalls: nat
    ghost var plainTextCalls: nat

    /** A cached value is the converter's result, and a converter that succeeded ran once. */
    ghost predicate Valid()
      reads this
    {
      (markdownCache.Some? ==> convertToMarkdown(content) == Success(markdownCache.value) && markdownCalls == 1) &&
      (markdownCache.None? && markdownCalls > 0 ==> convertToMarkdown(content).Failure?) &&
      (plainTextCache.Some? ==> convertToPlainText(content) == Success(plainTextCache.value) && plainTextCalls == 1) &&
      (plainTextCache.None? && plainTextCalls > 0 ==> convertToPlainText(content).Failure?)
    }

    constructor (content: seq<bv8>, convertToMarkdown: seq<bv8> -> Result<string>,
                 convertToPlainText: seq<bv8> -> Result<string>)
      ensures Valid()
      ensures this.content == content && this.convertToMarkdown == convertToMarkdown
      ensures this.convertToPlainText == convertToPlainText
      ensures markdownCache == None && plainTextCache == None
      ensures markdownCalls == 0 && plainTextCalls == 0
    {
      this.content := content;
      this.convertToMarkdown := convertToMarkdown;
      this.convertToPlainText := convertToPlainText;
      markdownCache := None;
      plainTextCache := None;
      markdownCalls := 0;
      plainTextCalls := 0;
    }

    /**
     * The `markdown` property. A cached value is returned without converting; otherwise the
     * converter runs and a successful result is cached. The plain-text cache is not touched.
     */
    method Markdown() returns (md: Result<string>)
      requires Valid()
      modifies this`markdownCache, this`markdownCalls
      ensures Valid()
      ensures md == convertToMarkdown(content)
      ensures old(markdownCache).Some? ==> md == Success(old(markdownCache).value) && markdownCalls == old(markdownCalls)
      ensures old(markdownCache).None? ==> markdownCalls == old(markdownCalls) + 1
      ensures markdownCache == if md.Success? then Some(md.value) else None
      ensures md.Success? ==> markdownCalls == 1
    {
      if markdownCache.None? {
        md := convertToMarkdown(content);
        markdownCalls := markdownCalls + 1;
        if md.Success? {
          markdownCache := Some(md.value);
        }
      } else {
        md := Success(markdownCache.value);
      }
    }

    /**
     * The `plain_text` property, cached on its own: it neither reads nor sets the markdown
     * cache, and its converter runs from the raw content.
     */
    method PlainText() returns (text: Result<string>)
      requires Valid()
      modifies this`plainTextCache, this`plainTextCalls
      ensures Valid()
      ensures text == convertToPlainText(content)
      ensures old(plainTextCache).Some? ==> text == Success(old(plainTextCache).value) && plainTextCalls == old(plainTextCalls)
      ensures old(plainTextCache).None? ==> plainTextCalls == old(plainTextCalls) + 1
      ensures plainTextCache == if text.Success? then Some(text.value) else None
      ensures text.Success? ==> plainTextCalls == 1
    {
      if plainTextCache.None? {
        text := convertToPlainText(content);
        plainTextCalls := plainTextCalls + 1;
        if text.Success? {
          plainTextCache := Some(text.value);
        }
      } else {
        text := Success(plainTextCache.value);
      }
    }
  }

  /** Reading `markdown` any number of times converts once and always yields the same value. */
  method ReadMarkdownRepeatedly(r: Response, times: nat) returns (values: seq<Result<string>>)
    requires r.Valid() && r.markdownCache == None && r.markdownCalls == 0
    requires r.convertToMarkdown(r.content).Success?
    modifies r`markdownCache, r`markdownCalls
    ensures |values| == times
    ensures forall k :: 0 <= k < times ==> values[k] == r.convertToMarkdown(r.content)
    ensures r.markdownCalls == if times == 0 then 0 else 1
  {
    values := [];
    while |values| < times
      invariant r.Valid()
      invariant |values| <= times
      invariant forall k :: 0 <= k < |values| ==> values[k] == r.convertToMarkdown(r.content)
      invariant r.markdownCalls == if values == [] then 0 else 1
      invariant r.markdownCache.None? <==> values == []
    {
      var md := r.Markdown();
      values := values + [md];
    }
  }

  /** Request headers; a value is None where Python would store `None`. */
  type Headers = map<string, Option<string>>

  function Lookup(m: map<string, string>, k: string): Option<string> {
    if k in m then Some(m[k]) else None
  }

  /** `generate_convincing_referer`: a Google search for the URL's registered domain. */
  function ConvincingReferer(domain: string): string {
    "https://www.google.com/search?q=" + domain
  }

  /** The referer ends in the domain after a fixed Google search prefix, so different domains
      give different referers. */
  lemma RefererNamesDomain(d1: string, d2: string)
    ensures StartsWith(ConvincingReferer(d1), "https://www.google.com/search?q=")
    ensures ConvincingReferer(d1)[32..] == d1
    ensures ConvincingReferer(d1) == ConvincingReferer(d2) ==> d1 == d2
  {
    assert ConvincingReferer(d2)[32..] == d2;
  }

  /**
   * `headers_job`. `generated1` and `generated2` are the two header sets the generator returns
   * (the first is used only for its User-Agent), and `domain` is what domain extraction gives
   * for the request URL. The steps run in the source's order: User-Agent, the second generated
   * set, the referer.
   */
  method HeadersJob(headers: Option<Headers>, generated1: map<string, string>,
                    generated2: map<string, string>, domain: string) returns (result: Headers)
    ensures "referer" in result && result["referer"] == Some(ConvincingReferer(domain))
    ensures forall k :: k in generated2 && k != "referer" ==> k in result && result[k] == Some(generated2[k])
    ensures "User-Agent" in result
    ensures "User-Agent" !in generated2 ==> result["User-Agent"] == Lookup(generated1, "User-Agent")
    ensures forall k :: k in result && k != "User-Agent" && k != "referer" && k !in generated2 ==>
      headers.Some? && k in headers.value && result[k] == headers.value[k]
    ensures forall k :: headers.Some? && k in headers.value ==> k in result
    ensures forall k :: k in result ==>
      k == "User-Agent" || k == "referer" || k in generated2 || (headers.Some? && k in headers.value)
  {
    var h: Headers := if headers.Some? then headers.value else map[];
    h := h["User-Agent" := Lookup(generated1, "User-Agent")];
    var extra := map k | k in generated2 :: Some(generated2[k]);
    h := h + extra;
    h := h["referer" := Some(ConvincingReferer(domain))];
    result := h;
  }

  /** A node of the element tree the markdown library builds; absent text or tail is None. */
  datatype Element = Element(text: Option<string>, children: seq<Element>, tail: Option<string>)

  /**
   * `unmark_element` writing into `stream`: the element's text, then each child in order
   * (each writing its own text, children and tail), then the element's tail. The result is
   * what the stream holds afterwards.
   */
  function UnmarkInto(e: Element, stream: string): string
    decreases e, 1
  {
    UnmarkChildrenInto(e.children, stream + e.text.GetOr("")) + e.tail.GetOr("")
  }

  function UnmarkChildrenInto(children: seq<Element>, stream: string): string
    decreases children, 0
  {
    if children == [] then stream
    else UnmarkChildrenInto(children[1..], UnmarkInto(children[0], stream))
  }

  /** `unmark_element(e)` called without a stream: a fresh, empty one. */
  function Unmark(e: Element): string {
    UnmarkInto(e, "")
  }

  /** Writing an element only appends to the stream: what it held before stays in front. */
  lemma UnmarkIntoKeepsStream(e: Element, stream: string)
    ensures |stream| <= |UnmarkInto(e, stream)| && UnmarkInto(e, stream)[..|stream|] == stream
  {
    UnmarkIntoAppends(e, stream);
  }

  /** The text fragments of a tree in document order. */
  function Fragments(e: Element): seq<string>
    decreases e, 1
  {
    [e.text.GetOr("")] + ChildFragments(e.children) + [e.tail.GetOr("")]
  }

  function ChildFragments(children: seq<Element>): seq<string>
    decreases children, 0
  {
    if children == [] then [] else Fragments(children[0]) + ChildFragments(children[1..])
  }

  function Concat(parts: seq<string>): string
    decreases |parts|
  {
    if parts == [] then "" else parts[0] + Concat(parts[1..])
  }

  lemma {:induction false} ConcatAppend(a: seq<string>, b: seq<string>)
    ensures Concat(a + b) == Concat(a) + Concat(b)
    decreases |a|
  {
    if a == [] {
      assert a + b == b;
    } else {
      assert (a + b)[0] == a[0];
      assert (a + b)[1..] == a[1..] + b;
      ConcatAppend(a[1..], b);
    }
  }

  /** Writing an element appends exactly its fragments, in document order, to the stream. */
  lemma {:induction false} UnmarkIntoAppends(e: Element, stream: string)
    ensures UnmarkInto(e, stream) == stream + Concat(Fragments(e))
    decreases e, 1
  {
    var t, tl := e.text.GetOr(""), e.tail.GetOr("");
    UnmarkChildrenIntoAppends(e.children, stream + t);
    ConcatAppend([t] + ChildFragments(e.children), [tl]);
    ConcatAppend([t], ChildFragments(e.children));
    assert Concat([tl]) == tl;
    assert Concat([t]) == t;
  }

  lemma {:induction false} UnmarkChildrenIntoAppends(children: seq<Element>, stream: string)
    ensures UnmarkChildrenInto(children, stream) == stream + Concat(ChildFragments(children))
    decreases children, 0
  {
    if children != [] {
      UnmarkIntoAppends(children[0], stream);
      UnmarkChildrenIntoAppends(children[1..], UnmarkInto(children[0], stream));
      ConcatAppend(Fragments(children[0]), ChildFragments(children[1..]));
    }
  }

  /** The text of each child, flattened on its own, concatenated in order. */
  function UnmarkEach(children: seq<Element>): string
    decreases children
  {
    if children == [] then "" else Unmark(children[0]) + UnmarkEach(children[1..])
  }

  lemma {:induction false} UnmarkEachIsChildFragments(children: seq<Element>)
    ensures UnmarkEach(children) == Concat(ChildFragments(children))
    decreases children
  {
    if children != [] {
      UnmarkIntoAppends(children[0], "");
      UnmarkEachIsChildFragments(children[1..]);
      ConcatAppend(Fragments(children[0]), ChildFragments(children[1..]));
    }
  }

  /**
   * `unmark_element(e)` is `e`'s text, then `unmark_element` of each child in order, then
   * `e`'s tail, absent text or tail counted as empty: all fragments in document order.
   */
  lemma UnmarkDocumentOrder(e: Element)
    ensures Unmark(e) == e.text.GetOr("") + UnmarkEach(e.children) + e.tail.GetOr("")
    ensures Unmark(e) == Concat(Fragments(e))
  {
    UnmarkIntoAppends(e, "");
    var t, tl := e.text.GetOr(""), e.tail.GetOr("");
    UnmarkEachIsChildFragments(e.children);
    ConcatAppend([t] + ChildFragments(e.children), [tl]);
    ConcatAppend([t], ChildFragments(e.children));
    assert Concat([tl]) == tl;
    assert Concat([t]) == t;
  }

  /** No two consecutive newlines. */
  predicate NoDoubleNewline(s: string) {
    forall i :: 0 <= i < |s| - 1 ==> !(s[i] == '\n' && s[i + 1] == '\n')
  }

  /** `s` without its leading newlines. */
  function DropNewlines(s: string): (r: string)
    decreases |s|
    ensures |r| <= |s|
    ensures r != [] ==> r[0] != '\n'
  {
    if s != [] && s[0] == '\n' then DropNewlines(s[1..]) else s
  }

  /** What is dropped is a run of newlines at the front: the rest is a suffix of `s`. */
  lemma {:induction false} DropNewlinesIsSuffix(s: string)
    decreases |s|
    ensures var r := DropNewlines(s);
            r == s[|s| - |r|..] && forall i :: 0 <= i < |s| - |r| ==> s[i] == '\n'
  {
    if s != [] && s[0] == '\n' {
      DropNewlinesIsSuffix(s[1..]);
      var r := DropNewlines(s);
      assert s[1..][|s| - 1 - |r|..] == s[|s| - |r|..];
      forall i | 0 < i < |s| - |r| ensures s[i] == '\n' {
        assert s[1..][i - 1] == s[i];
      }
    }
  }

  /**
   * `re.sub(r"\n+", "\n", s)`: every maximal run of newlines becomes a single newline
   * (`CollapseHasSingleNewlines` states that no run of two is left).
   */
  function CollapseNewlines(s: string): (r: string)
    decreases |s|
    ensures |r| <= |s|
    ensures s != [] ==> r != [] && r[0] == s[0]
  {
    if s == [] then []
    else if s[0] == '\n' then "\n" + CollapseNewlines(DropNewlines(s[1..]))
    else [s[0]] + CollapseNewlines(s[1..])
  }

  /** After the collapse no two newlines are adjacent. */
  lemma {:induction false} CollapseHasSingleNewlines(s: string)
    decreases |s|
    ensures NoDoubleNewline(CollapseNewlines(s))
  {
    if s != [] {
      var r := CollapseNewlines(s);
      var t := if s[0] == '\n' then DropNewlines(s[1..]) else s[1..];
      CollapseHasSingleNewlines(t);
      var c := CollapseNewlines(t);
      assert r == [s[0]] + c && r[1..] == c;
      assert t != [] ==> c[0] == t[0];
      forall i | 0 <= i < |r| - 1 ensures !(r[i] == '\n' && r[i + 1] == '\n') {
        if i > 0 {
          assert r[i] == c[i - 1] && r[i + 1] == c[i];
        }
      }
    }
  }

  /** A string without consecutive newlines is left as it is. */
  lemma {:induction false} CollapseFixpoint(s: string)
    requires NoDoubleNewline(s)
    ensures CollapseNewlines(s) == s
    decreases |s|
  {
    if s != [] {
      assert NoDoubleNewline(s[1..]);
      CollapseFixpoint(s[1..]);
      if s[0] == '\n' {
        assert DropNewlines(s[1..]) == s[1..];
      }
    }
  }

  /** "No two consecutive newlines" is "\n\n" not occurring. */
  lemma NoDoubleNewlineIff(s: string)
    ensures NoDoubleNewline(s) <==> !Contains(s, "\n\n")
  {
    FindCorrect(s, "\n\n");
    if Contains(s, "\n\n") {
      var i := Find(s, "\n\n").value;
      assert s[i..i + 2] == "\n\n";
      assert s[i] == '\n' && s[i + 1] == '\n';
    }
    forall i | 0 <= i < |s| - 1 && s[i] == '\n' && s[i + 1] == '\n'
      ensures Contains(s, "\n\n")
    {
      assert s[i..i + 2] == "\n\n";
      assert OccursAt(s, "\n\n", i);
      ContainsIff(s, "\n\n");
    }
  }

  /** The collapse is unchanged when "\n\n" does not occur. */
  lemma CollapseWithoutDoubleNewline(s: string)
    requires !Contains(s, "\n\n")
    ensures CollapseNewlines(s) == s
  {
    NoDoubleNewlineIff(s);
    CollapseFixpoint(s);
  }

  /** Collapsing twice is collapsing once. */
  lemma CollapseIdempotent(s: string)
    ensures CollapseNewlines(CollapseNewlines(s)) == CollapseNewlines(s)
  {
    CollapseHasSingleNewlines(s);
    CollapseFixpoint(CollapseNewlines(s));
  }

  /** `s` with its newlines removed. */
  function NonNewlines(s: string): string
    decreases |s|
  {
    if s == [] then [] else (if s[0] == '\n' then [] else [s[0]]) + NonNewlines(s[1..])
  }

  lemma {:induction false} DropNewlinesKeepsText(s: string)
    ensures NonNewlines(DropNewlines(s)) == NonNewlines(s)
    decreases |s|
  {
    if s != [] && s[0] == '\n' {
      DropNewlinesKeepsText(s[1..]);
    }
  }

  /** Only newlines are removed: every other character survives, in order. */
  lemma {:induction false} CollapseKeepsText(s: string)
    ensures NonNewlines(CollapseNewlines(s)) == NonNewlines(s)
    ensures '\n' in CollapseNewlines(s) <==> '\n' in s
    decreases |s|
  {
    if s != [] {
      var r := CollapseNewlines(s);
      if s[0] == '\n' {
        var t := DropNewlines(s[1..]);
        CollapseKeepsText(t);
        DropNewlinesKeepsText(s[1..]);
        assert r[0] == '\n';
      } else {
        CollapseKeepsText(s[1..]);
        assert r == [s[0]] + CollapseNewlines(s[1..]);
        assert r[1..] == CollapseNewlines(s[1..]);
        assert '\n' in r <==> '\n' in r[1..];
        assert '\n' in s <==> '\n' in s[1..];
      }
    }
  }

  /** Dropping leading newlines from `a + x`: all of `a` goes exactly when it is only newlines. */
  lemma {:induction false} DropNewlinesAppend(a: string, x: string)
    decreases |a|
    ensures DropNewlines(a) == [] ==> DropNewlines(a + x) == DropNewlines(x)
    ensures DropNewlines(a) != [] ==> DropNewlines(a + x) == DropNewlines(a) + x
  {
    if a == [] {
      assert a + x == x;
    } else if a[0] == '\n' {
      assert (a + x)[1..] == a[1..] + x;
      DropNewlinesAppend(a[1..], x);
    }
  }

  /**
   * Two tails that start with a newline and agree once their leading newlines are dropped
   * collapse alike after any prefix: only the run, not its length, matters.
   */
  lemma {:induction false} CollapseSameRun(a: string, x: string, y: string)
    requires x != [] && y != [] && x[0] == '\n' && y[0] == '\n'
    requires DropNewlines(x) == DropNewlines(y)
    decreases |a|
    ensures CollapseNewlines(a + x) == CollapseNewlines(a + y)
  {
    if a == [] {
      assert a + x == x && a + y == y;
      assert CollapseNewlines(x) == "\n" + CollapseNewlines(DropNewlines(x[1..]));
      assert CollapseNewlines(y) == "\n" + CollapseNewlines(DropNewlines(y[1..]));
    } else if a[0] != '\n' {
      var ax, ay := a + x, a + y;
      assert ax[0] == a[0] && ax[1..] == a[1..] + x;
      assert ay[0] == a[0] && ay[1..] == a[1..] + y;
      assert CollapseNewlines(ax) == [a[0]] + CollapseNewlines(a[1..] + x);
      assert CollapseNewlines(ay) == [a[0]] + CollapseNewlines(a[1..] + y);
      CollapseSameRun(a[1..], x, y);
    } else {
      var t := a[1..];
      var ax, ay := a + x, a + y;
      assert ax[0] == '\n' && ax[1..] == t + x;
      assert ay[0] == '\n' && ay[1..] == t + y;
      assert CollapseNewlines(ax) == "\n" + CollapseNewlines(DropNewlines(t + x));
      assert CollapseNewlines(ay) == "\n" + CollapseNewlines(DropNewlines(t + y));
      DropNewlinesAppend(t, x);
      DropNewlinesAppend(t, y);
      var d := DropNewlines(t);
      if d != [] {
        CollapseSameRun(d, x, y);
      }
    }
  }

  /**
   * A run of two newlines collapses exactly as a single one does, wherever it stands.
   * With `CollapseFixpoint` this pins the rewrite down: each run becomes one newline in place.
   */
  lemma CollapseDoubleNewline(a: string, b: string)
    ensures CollapseNewlines(a + "\n\n" + b) == CollapseNewlines(a + "\n" + b)
  {
    var x2 := "\n\n" + b;
    var x1 := "\n" + b;
    assert a + "\n\n" + b == a + x2 && a + "\n" + b == a + x1;
    assert x2[1..] == x1 && x1[1..] == b;
    assert DropNewlines(x2) == DropNewlines(x1);
    CollapseSameRun(a, x2, x1);
  }

  /**
   * `convert_to_plain_text`: markdown conversion (which may raise), then the markdown
   * library's rendering with `unmark_element` as serializer (`render`), then the collapse.
   */
  function ConvertToPlainText(content: seq<bv8>, toMarkdown: seq<bv8> -> Result<string>,
                              render: string -> string): Result<string>
  {
    match toMarkdown(content)
    case Failure(msg) => Failure(msg)
    case Success(md) => Success(CollapseNewlines(render(md)))
  }

  /** Plain text never holds two consecutive newlines, and a conversion failure is raised. */
  lemma PlainTextHasSingleNewlines(content: seq<bv8>, toMarkdown: seq<bv8> -> Result<string>,
                                   render: string -> string)
    ensures var r := ConvertToPlainText(content, toMarkdown, render);
            (r.Success? ==> !Contains(r.value, "\n\n")) &&
            (toMarkdown(content).Failure? ==> r == Failure(toMarkdown(content).error))
  {
    var r := ConvertToPlainText(content, toMarkdown, render);
    if r.Success? {
      CollapseHasSingleNewlines(render(toMarkdown(content).value));
      NoDoubleNewlineIff(r.value);
    }
  }

  /**
   * Plain text is the rendered markdown with newline runs cut to one: the same other
   * characters in the same order, and the rendering itself when it has no "\n\n".
   */
  lemma PlainTextIsCollapsedRender(content: seq<bv8>, toMarkdown: seq<bv8> -> Result<string>,
                                    render: string -> string)
    requires toMarkdown(content).Success?
    ensures var text := render(toMarkdown(content).value);
            var r := ConvertToPlainText(content, toMarkdown, render);
            r.Success? && NonNewlines(r.value) == NonNewlines(text) &&
            ('\n' in r.value <==> '\n' in text) &&
            (!Contains(text, "\n\n") ==> r.value == text)
  {
    var text := render(toMarkdown(content).value);
    CollapseKeepsText(text);
    if !Contains(text, "\n\n") {
      CollapseWithoutDoubleNewline(text);
    }
  }
}

