/**
 * The Guardian news client: the HTML-to-text filter and the deep pagination over search and
 * "next" pages. The HTTP exchanges are given as the sequence of responses the server would
 * send, one per request, in request order.
 */
module GuardianApi {
  import opened Wrappers
  import opened Seqs

  // ---------------------------------------------------------------------------------------
  // strip_html

  /** The position of the first `>` in `s`, or `|s|` when there is none. */
  function CloseAt(s: string): (k: nat)
    ensures k <= |s|
    ensures k < |s| ==> s[k] == '>'
    ensures forall j :: 0 <= j < k ==> s[j] != '>'
  {
    if s == [] then 0 else if s[0] == '>' then 0 else 1 + CloseAt(s[1..])
  }

  /** The pattern `<[^>]+>` matches at the start of `s`: a `<`, at least one character that is
      not `>`, then the first `>`. */
  predicate TagAtStart(s: string) {
    s != [] && s[0] == '<' && 2 <= CloseAt(s) < |s|
  }

  /** `strip_html`: `re.sub(r"<[^>]+>", "", html)`, scanning left to right and removing each
      match. */
  function StripHtml(html: string): (text: string)
    ensures |text| <= |html|
    decreases |html|
  {
    if html == [] then []
    else if TagAtStart(html) then StripHtml(html[CloseAt(html) + 1..])
    else [html[0]] + StripHtml(html[1..])
  }

  /** A match of `<[^>]+>` anywhere in `s`. */
  predicate HasTag(s: string) {
    exists i :: 0 <= i < |s| && TagAtStart(s[i..])
  }

  lemma {:induction false} StripHtmlChars(html: string)
    ensures forall c :: c in StripHtml(html) ==> c in html
    decreases |html|
  {
    if html != [] {
      if TagAtStart(html) {
        StripHtmlChars(html[CloseAt(html) + 1..]);
      } else {
        StripHtmlChars(html[1..]);
      }
    }
  }

  /** Shifting increasing positions by `d` keeps them increasing. */
  lemma ShiftIncreasing(idx: seq<nat>, d: nat) returns (shifted: seq<nat>)
    requires StrictlyIncreasing(idx)
    ensures |shifted| == |idx| && StrictlyIncreasing(shifted)
    ensures forall k :: 0 <= k < |idx| ==> shifted[k] == idx[k] + d
  {
    shifted := seq(|idx|, k requires 0 <= k < |idx| => idx[k] + d);
    forall i, j | 0 <= i < j < |shifted| ensures shifted[i] < shifted[j] {
      assert idx[i] < idx[j];
    }
  }

  /** One step of the scan: either a tag of `skip` characters is dropped, or the first character
      is kept. */
  lemma StripHtmlStep(html: string) returns (skip: nat, kept: bool)
    requires html != []
    ensures 1 <= skip <= |html|
    ensures kept ==> skip == 1 && StripHtml(html) == [html[0]] + StripHtml(html[1..])
    ensures !kept ==> StripHtml(html) == StripHtml(html[skip..])
  {
    kept := !TagAtStart(html);
    skip := if kept then 1 else CloseAt(html) + 1;
  }

  /** The positions of `out` in `s`, from those of `tailOut` in `s[skip..]`, where `out` is
      `tailOut` or `s[0]` followed by it. */
  lemma ExtendOrigins(s: string, skip: nat, kept: bool, out: string, tailOut: string, rest: seq<nat>)
    returns (idx: seq<nat>)
    requires 1 <= skip <= |s|
    requires kept ==> skip == 1 && out == [s[0]] + tailOut
    requires !kept ==> out == tailOut
    requires |rest| == |tailOut| && StrictlyIncreasing(rest)
    requires forall k :: 0 <= k < |rest| ==> rest[k] < |s| - skip && tailOut[k] == s[skip..][rest[k]]
    ensures |idx| == |out| && StrictlyIncreasing(idx)
    ensures forall k :: 0 <= k < |idx| ==> idx[k] < |s| && out[k] == s[idx[k]]
  {
    var shifted := ShiftIncreasing(rest, skip);
    if !kept {
      idx := shifted;
    } else {
      idx := [0] + shifted;
      forall i, j | 0 <= i < j < |idx| ensures idx[i] < idx[j] {
        if i > 0 {
          assert idx[i] == shifted[i - 1];
        }
        assert idx[j] == shifted[j - 1];
      }
      forall k | 0 < k < |idx| ensures idx[k] < |s| && out[k] == s[idx[k]] {
        assert idx[k] == shifted[k - 1] && out[k] == tailOut[k - 1];
      }
    }
  }

  /** The output is a subsequence of the input: each kept character comes from its own input
      position, and positions increase along the output. */
  lemma {:induction false} StripHtmlSubsequence(html: string) returns (idx: seq<nat>)
    ensures |idx| == |StripHtml(html)|
    ensures StrictlyIncreasing(idx)
    ensures forall k :: 0 <= k < |idx| ==> idx[k] < |html| && StripHtml(html)[k] == html[idx[k]]
    decreases |html|
  {
    if html == [] {
      idx := [];
    } else {
      var skip, kept := StripHtmlStep(html);
      var rest := StripHtmlSubsequence(html[skip..]);
      idx := ExtendOrigins(html, skip, kept, StripHtml(html), StripHtml(html[skip..]), rest);
    }
  }

  lemma TagAtStartShift(s: string, i: nat)
    requires 0 < i < |s|
    ensures TagAtStart(s[i..]) == TagAtStart(s[1..][i - 1..])
  {
    assert s[i..] == s[1..][i - 1..];
  }

  /** Where no tag starts, the output starts with no tag either. */
  lemma KeptStartIsNoTag(html: string)
    requires html != [] && !TagAtStart(html)
    ensures !TagAtStart(StripHtml(html))
  {
    var rest := StripHtml(html[1..]);
    var text := StripHtml(html);
    assert text == [html[0]] + rest;
    if html[0] == '<' {
      if CloseAt(html) < |html| {
        assert CloseAt(html) == 1;
        assert html[1..][0] == '>';
        assert rest[0] == '>';
        assert CloseAt(text) == 1;
      } else {
        StripHtmlChars(html[1..]);
        assert '>' !in html[1..];
        assert '>' !in text;
        assert CloseAt(text) == |text|;
      }
    }
  }

  /** No tag is left in the output of `strip_html`. */
  lemma {:induction false} StripHtmlRemovesTags(html: string)
    ensures !HasTag(StripHtml(html))
    decreases |html|
  {
    if html != [] {
      if TagAtStart(html) {
        StripHtmlRemovesTags(html[CloseAt(html) + 1..]);
      } else {
        var rest := StripHtml(html[1..]);
        var text := StripHtml(html);
        StripHtmlRemovesTags(html[1..]);
        assert text[1..] == rest;
        KeptStartIsNoTag(html);
        forall i | 0 <= i < |text| ensures !TagAtStart(text[i..]) {
          if i == 0 {
            assert text[0..] == text;
          } else {
            TagAtStartShift(text, i);
          }
        }
      }
    }
  }

  /** Text without tags passes through `strip_html` unchanged. */
  lemma {:induction false} StripHtmlKeepsPlainText(text: string)
    requires !HasTag(text)
    ensures StripHtml(text) == text
    decreases |text|
  {
    if text != [] {
      assert !TagAtStart(text[0..]);
      assert text[0..] == text;
      forall i | 0 <= i < |text[1..]| ensures !TagAtStart(text[1..][i..]) {
        TagAtStartShift(text, i + 1);
      }
      StripHtmlKeepsPlainText(text[1..]);
    }
  }

  /** `strip_html` is idempotent. */
  lemma StripHtmlIdempotent(html: string)
    ensures StripHtml(StripHtml(html)) == StripHtml(html)
  {
    StripHtmlRemovesTags(html);
    StripHtmlKeepsPlainText(StripHtml(html));
  }

  // ---------------------------------------------------------------------------------------
  // fetch_guardian_all_pages

  /** One search result. The source's defaults for a missing body, title, URL or date (the empty
      string) are already applied; the source gives `id` no default, and every result here
      carries one. */
  datatype SearchResult = SearchResult(id: string, body: string, webTitle: string, webUrl: string, date: string)

  /** What one request yields: the results of the page, or the HTTP error status that
      `raise_for_status` raises on. */
  datatype PageResponse = Page(results: seq<SearchResult>) | HttpError(status: int)

  datatype NewsArticle = NewsArticle(text: string, title: string, url: string, date: string, kind: string)

  function ToArticle(r: SearchResult): (a: NewsArticle)
    ensures a.kind == "news" && a.title == r.webTitle && a.url == r.webUrl && a.date == r.date
    ensures a.text == StripHtml(r.body)
  {
    NewsArticle(StripHtml(r.body), r.webTitle, r.webUrl, r.date, "news")
  }

  function ToArticles(results: seq<SearchResult>): (arts: seq<NewsArticle>)
    ensures |arts| == |results|
  {
    seq(|results|, i requires 0 <= i < |results| => ToArticle(results[i]))
  }

  /** The answer to request `i`: past the responses given, the server has nothing more. */
  function Response(pages: seq<PageResponse>, i: nat): PageResponse {
    if i < |pages| then pages[i] else Page([])
  }

  /** The articles of the answer to request `i`; an error page has none. */
  function PageArticles(pages: seq<PageResponse>, i: nat): seq<NewsArticle> {
    match Response(pages, i)
    case Page(results) => ToArticles(results)
    case HttpError(_) => []
  }

  /** The articles of the first `n` answers, in request order. */
  function Harvest(pages: seq<PageResponse>, n: nat): seq<NewsArticle> {
    if n == 0 then [] else Harvest(pages, n - 1) + PageArticles(pages, n - 1)
  }

  /** `a` is the plain-text form of a result of one of the first `n` answers. */
  ghost predicate FromPages(pages: seq<PageResponse>, n: nat, a: NewsArticle) {
    exists j, k :: 0 <= j < n && Response(pages, j).Page? && 0 <= k < |Response(pages, j).results|
                   && a == ToArticle(Response(pages, j).results[k])
  }

  /** Every harvested article is the plain-text form of a result of one of the pages. */
  lemma {:induction false} HarvestOrigin(pages: seq<PageResponse>, n: nat)
    ensures forall a :: a in Harvest(pages, n) ==> FromPages(pages, n, a)
  {
    if n > 0 {
      HarvestOrigin(pages, n - 1);
      forall a | a in Harvest(pages, n) ensures FromPages(pages, n, a) {
        if a in Harvest(pages, n - 1) {
          var j, k :| 0 <= j < n - 1 && Response(pages, j).Page? && 0 <= k < |Response(pages, j).results|
                      && a == ToArticle(Response(pages, j).results[k]);
        } else {
          var results := Response(pages, n - 1).results;
          var k :| 0 <= k < |results| && ToArticles(results)[k] == a;
          assert a == ToArticle(Response(pages, n - 1).results[k]);
        }
      }
    }
  }

  lemma HarvestStep(pages: seq<PageResponse>, q: nat, arts: seq<NewsArticle>)
    requires Response(pages, q).Page? && arts == ToArticles(Response(pages, q).results)
    ensures Harvest(pages, q + 1) == Harvest(pages, q) + arts
  {
  }

  /** After answer `j`, there is a next page to ask for: the answer is a non-empty page whose
      last result has an id, and, for a "next" page (every answer after the search), the page
      is full. */
  predicate Continues(pages: seq<PageResponse>, j: nat, pageSize: int) {
    var resp := Response(pages, j);
    && resp.Page?
    && |resp.results| > 0
    && resp.results[|resp.results| - 1].id != ""
    && (j == 0 || |resp.results| >= pageSize)
  }

  lemma FullPageContinues(pages: seq<PageResponse>, q: nat, pageSize: int, lastId: string)
    requires Response(pages, q).Page? && |Response(pages, q).results| > 0
    requires |Response(pages, q).results| >= pageSize
    requires lastId == Response(pages, q).results[|Response(pages, q).results| - 1].id
    ensures Continues(pages, q, pageSize) <==> lastId != ""
  {
  }

  /** The page limit lets request `i` (counted from 0, the search being request 0) go out. */
  predicate Allowed(i: nat, maxPages: Option<int>) {
    maxPages.None? || i < maxPages.value
  }

  /** Each of the first `n - 1` answers led to the next request. */
  predicate Chained(pages: seq<PageResponse>, n: nat, pageSize: int, maxPages: Option<int>) {
    forall j :: 0 <= j < n - 1 ==> Continues(pages, j, pageSize) && Allowed(j + 1, maxPages)
  }

  lemma ChainedExtend(pages: seq<PageResponse>, n: nat, pageSize: int, maxPages: Option<int>)
    requires n >= 1 && Chained(pages, n, pageSize, maxPages)
    requires Continues(pages, n - 1, pageSize) && Allowed(n, maxPages)
    ensures Chained(pages, n + 1, pageSize, maxPages)
  {
  }

  /** The page limit bounds the number of requests: with `max_pages` set to `m`, at most
      `m` requests go out, and never fewer than the one search. */
  lemma PageLimit(pages: seq<PageResponse>, n: nat, pageSize: int, maxPages: Option<int>)
    requires n >= 1 && Chained(pages, n, pageSize, maxPages) && maxPages.Some?
    ensures n <= if maxPages.value < 1 then 1 else maxPages.value
  {
    if n >= 2 {
      assert Continues(pages, n - 2, pageSize) && Allowed(n - 1, maxPages);
    }
  }

  /** The outcome of a fetch that sent `requests` requests: each answer but the last led to
      the next request, the last did not (or was an error), an error status is returned as
      such, and otherwise the articles of all answers are returned in request order. */
  predicate Outcome(pages: seq<PageResponse>, pageSize: int, maxPages: Option<int>,
                    r: Result<seq<NewsArticle>, int>, requests: nat)
  {
    && 1 <= requests <= |pages| + 1
    && Chained(pages, requests, pageSize, maxPages)
    && (Response(pages, requests - 1).Page? ==>
          !(Continues(pages, requests - 1, pageSize) && Allowed(requests, maxPages)))
    && (r.Err? <==> Response(pages, requests - 1).HttpError?)
    && (r.Err? ==> r.error == Response(pages, requests - 1).status)
    && (r.Ok? ==> r.value == Harvest(pages, requests))
  }

  /** The state of the pagination loop after `requests` requests: the answers so far chained,
      the last one was a page, `articles` holds everything harvested, and `lastId` is non-empty
      exactly when that page leads on. */
  predicate Paging(pages: seq<PageResponse>, pageSize: int, maxPages: Option<int>,
                   requests: nat, articles: seq<NewsArticle>, lastId: string)
  {
    && 1 <= requests <= |pages| + 1
    && (lastId != "" ==> requests <= |pages|)
    && articles == Harvest(pages, requests)
    && Chained(pages, requests, pageSize, maxPages)
    && Response(pages, requests - 1).Page?
    && (Continues(pages, requests - 1, pageSize) <==> lastId != "")
  }

  /** The search answered with a page starts the loop. */
  lemma PagingStart(pages: seq<PageResponse>, pageSize: int, maxPages: Option<int>, lastId: string)
    requires Response(pages, 0).Page?
    requires var results := Response(pages, 0).results;
      lastId == if |results| > 0 then results[|results| - 1].id else ""
    ensures Paging(pages, pageSize, maxPages, 1, ToArticles(Response(pages, 0).results), lastId)
  {
    HarvestStep(pages, 0, ToArticles(Response(pages, 0).results));
  }

  /** The loop stops with the articles it has when the last page does not lead on or the page
      limit is reached. */
  lemma StoppedOk(pages: seq<PageResponse>, pageSize: int, maxPages: Option<int>,
                  requests: nat, articles: seq<NewsArticle>, lastId: string)
    requires Paging(pages, pageSize, maxPages, requests, articles, lastId)
    requires !(lastId != "" && Allowed(requests, maxPages))
    ensures Outcome(pages, pageSize, maxPages, Ok(articles), requests)
  {
  }

  /** An HTTP error status on a "next" page ends the fetch with that status. */
  lemma StoppedOnError(pages: seq<PageResponse>, pageSize: int, maxPages: Option<int>,
                       q: nat, articles: seq<NewsArticle>, lastId: string)
    requires Paging(pages, pageSize, maxPages, q, articles, lastId)
    requires lastId != "" && Allowed(q, maxPages) && Response(pages, q).HttpError?
    ensures Outcome(pages, pageSize, maxPages, Err(Response(pages, q).status), q + 1)
  {
    ChainedExtend(pages, q, pageSize, maxPages);
  }

  /** An empty "next" page ends the fetch with the articles so far. */
  lemma StoppedOnEmpty(pages: seq<PageResponse>, pageSize: int, maxPages: Option<int>,
                       q: nat, articles: seq<NewsArticle>, lastId: string)
    requires Paging(pages, pageSize, maxPages, q, articles, lastId)
    requires lastId != "" && Allowed(q, maxPages) && Response(pages, q) == Page([])
    ensures Outcome(pages, pageSize, maxPages, Ok(articles), q + 1)
  {
    ChainedExtend(pages, q, pageSize, maxPages);
    HarvestStep(pages, q, []);
    assert articles + [] == articles;
  }

  /** A non-empty "next" page is harvested; the fetch ends there when it is short, and the loop
      goes on with its last id otherwise. */
  lemma Harvested(pages: seq<PageResponse>, pageSize: int, maxPages: Option<int>,
                  q: nat, articles: seq<NewsArticle>, lastId: string)
    requires Paging(pages, pageSize, maxPages, q, articles, lastId)
    requires lastId != "" && Allowed(q, maxPages)
    requires Response(pages, q).Page? && |Response(pages, q).results| > 0
    ensures var results := Response(pages, q).results;
      var more := articles + ToArticles(results);
      && (|results| < pageSize ==> Outcome(pages, pageSize, maxPages, Ok(more), q + 1))
      && (|results| >= pageSize ==>
            Paging(pages, pageSize, maxPages, q + 1, more, results[|results| - 1].id))
  {
    var results := Response(pages, q).results;
    ChainedExtend(pages, q, pageSize, maxPages);
    HarvestStep(pages, q, ToArticles(results));
    if |results| >= pageSize {
      FullPageContinues(pages, q, pageSize, results[|results| - 1].id);
    }
  }

  /** `fetch_guardian_all_pages`: the search, then the "next" pages. Without an API key
      nothing is requested. */
  method FetchGuardianAllPages(apiKey: string, pages: seq<PageResponse>, pageSize: int, maxPages: Option<int>)
    returns (r: Result<seq<NewsArticle>, int>, requests: nat)
    ensures apiKey == "" ==> r == Ok([]) && requests == 0
    ensures apiKey != "" ==> Outcome(pages, pageSize, maxPages, r, requests)
  {
    if apiKey == "" {
      return Ok([]), 0;
    }
    var resp := Response(pages, 0);
    if resp.HttpError? {
      return Err(resp.status), 1;
    }
    var results := resp.results;
    var articles := ToArticles(results);
    var lastId := if |results| > 0 then results[|results| - 1].id else "";
    PagingStart(pages, pageSize, maxPages, lastId);
    r, requests := FollowNextPages(pages, pageSize, maxPages, articles, lastId);
  }

  /** The deep pagination after the search: "next" pages while the last result has an id and
      the page limit allows, stopping at an empty or short page; an HTTP error status ends the
      fetch with that status. `requests` counts the search too. */
  method FollowNextPages(pages: seq<PageResponse>, pageSize: int, maxPages: Option<int>,
                         searchArticles: seq<NewsArticle>, searchLastId: string)
    returns (r: Result<seq<NewsArticle>, int>, requests: nat)
    requires Paging(pages, pageSize, maxPages, 1, searchArticles, searchLastId)
    ensures Outcome(pages, pageSize, maxPages, r, requests)
  {
    var articles := searchArticles;
    var lastId := searchLastId;
    var pagesFetched := 1;
    requests := 1;
    while lastId != "" && (maxPages.None? || pagesFetched < maxPages.value)
      invariant Paging(pages, pageSize, maxPages, requests, articles, lastId)
      invariant pagesFetched == requests
      decreases |pages| + 1 - requests
    {
      var q := requests;
      var resp := Response(pages, q);
      requests := q + 1;
      if resp.HttpError? {
        StoppedOnError(pages, pageSize, maxPages, q, articles, lastId);
        return Err(resp.status), requests;
      }
      var nextResults := resp.results;
      if |nextResults| == 0 {
        StoppedOnEmpty(pages, pageSize, maxPages, q, articles, lastId);
        return Ok(articles), requests;
      }
      Harvested(pages, pageSize, maxPages, q, articles, lastId);
      articles := articles + ToArticles(nextResults);
      lastId := nextResults[|nextResults| - 1].id;
      pagesFetched := pagesFetched + 1;
      if |nextResults| < pageSize {
        return Ok(articles), requests;
      }
    }
    StoppedOk(pages, pageSize, maxPages, requests, articles, lastId);
    return Ok(articles), requests;
  }
}
