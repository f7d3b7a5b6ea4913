/**
 * `check_plagiarism` from the sentence split to the report: the search query, the candidate
 * list built from the CORE and Guardian results, the per-sentence matching (exact pass over
 * all candidates, then partial pass, first candidate wins), the fold into the highest
 * similarity, the matched titles and the flag, and the two early empty reports.
 */
module Plagiarism {
  import opened Wrappers
  import opened Strings
  import opened Seqs
  import opened TextUtils
  import opened Keywords
  import opened GuardianApi
  import opened CoreApi
  import opened Elapsed

  const MAX_KEYWORDS: nat := 5
  /** How much of the raw text becomes the query when no keyword survives. */
  const QUERY_FALLBACK_LENGTH: nat := 100
  /** A report is flagged when its rounded percentage exceeds this. */
  const FLAG_PERCENT: real := 70.0
  const EMPTY_TIME: string := "00:00"
  const CORE_WORKS_URL: string := "https://core.ac.uk/works/"

  /**
   * What the router awaits, as functions of the query: the CORE articles, the Guardian
   * articles or the HTTP status the Guardian fetch raised, and the text extracted from a PDF
   * URL ("" when the download or the extraction fails).
   */
  datatype Services = Services(
    core: string -> seq<CoreArticle>,
    guardian: string -> Result<seq<NewsArticle>, int>,
    pdfText: string -> string)

  /** One entry of `external_texts`. */
  datatype Candidate = Candidate(text: string, title: string, sourceUrl: string, kind: string)

  /** A recorded match before rounding: the matched text, the unrounded similarity, and the
      candidate it was found in. */
  datatype Hit = Hit(matchedText: string, sim: real, source: Candidate)

  /** One entry of `plagiarism_data`. */
  datatype MatchDetail = MatchDetail(matchedText: string, similarity: real, sourceType: string,
                                     sourceTitle: string, sourceUrl: string)

  /** The report: the percentage, the matched titles, the word count, the elapsed time and the
      flag, which only the stored report document carries, and the match entries, which the
      HTTP response returns. */
  datatype Report = Report(similarity: real, sources: set<string>, wordCount: nat, timeSpent: string,
                           flagged: bool, matches: seq<MatchDetail>)

  /** The request is refused for want of text (either 400 refusal of blank text), or the
      Guardian fetch raised an HTTP status. */
  datatype CheckError = NoReadableText | GuardianFailed(status: int)

  // ---------------------------------------------------------------------------------------
  // The search query

  function Min(a: nat, b: nat): nat {
    if a <= b then a else b
  }

  /** The keywords joined by single spaces, or the start of the raw text when there are none. */
  function BuildQuery(raw: string, x: Externals): string {
    var keywords := ExtractKeywords(raw, MAX_KEYWORDS, x);
    if keywords != [] then Join(keywords) else raw[..Min(QUERY_FALLBACK_LENGTH, |raw|)]
  }

  lemma KeywordsAreTokens(raw: string, x: Externals)
    ensures var keywords := ExtractKeywords(raw, MAX_KEYWORDS, x);
      forall i :: 0 <= i < |keywords| ==> IsToken(keywords[i])
  {
    var keywords := ExtractKeywords(raw, MAX_KEYWORDS, x);
    KeywordsSpec(raw, MAX_KEYWORDS, x);
    forall i | 0 <= i < |keywords| ensures IsToken(keywords[i]) {
      assert IsCandidate(keywords[i], x.stopWords);
    }
  }

  /** With keywords, the query splits back into exactly the keywords, in order; without, it is
      the first hundred characters of the raw text, or all of a shorter one. */
  lemma QuerySpec(raw: string, x: Externals)
    ensures var keywords := ExtractKeywords(raw, MAX_KEYWORDS, x);
      var query := BuildQuery(raw, x);
      && (keywords != [] ==> Split(query) == keywords && 1 <= |keywords| <= MAX_KEYWORDS)
      && (keywords == [] ==> query <= raw && |query| == Min(QUERY_FALLBACK_LENGTH, |raw|))
  {
    var keywords := ExtractKeywords(raw, MAX_KEYWORDS, x);
    KeywordsSpec(raw, MAX_KEYWORDS, x);
    if keywords != [] {
      KeywordsAreTokens(raw, x);
      SplitJoin(keywords);
    }
  }

  // ---------------------------------------------------------------------------------------
  // The candidate list

  /** The text a CORE article is matched against: its own text, or the text of its PDF when
      its own text is blank and it has a download URL. */
  function CoreContent(a: CoreArticle, pdfText: string -> string): string {
    if Strip(a.text) == [] && Truthy(a.downloadUrl) then pdfText(a.downloadUrl.value) else a.text
  }

  function CoreCandidate(pdfText: string -> string): CoreArticle -> Option<Candidate> {
    a =>
      var content := CoreContent(a, pdfText);
      if Strip(content) != [] then Some(Candidate(content, a.title, CORE_WORKS_URL + a.id, "academic"))
      else None
  }

  function GuardianCandidate(a: NewsArticle): Option<Candidate> {
    var txt := Strip(a.text);
    if txt != [] then Some(Candidate(txt, a.title, a.url, "news")) else None
  }

  /** `external_texts`: the usable CORE articles, then the usable Guardian articles. */
  function ExternalTexts(core: seq<CoreArticle>, news: seq<NewsArticle>, pdfText: string -> string): seq<Candidate> {
    FilterMap(core, CoreCandidate(pdfText)) + FilterMap(news, GuardianCandidate)
  }

  /** Steps 5 and 6: two loops appending to the candidate list. */
  method CollectCandidates(core: seq<CoreArticle>, news: seq<NewsArticle>, pdfText: string -> string)
    returns (externalTexts: seq<Candidate>)
    ensures externalTexts == ExternalTexts(core, news, pdfText)
  {
    externalTexts := [];
    for i := 0 to |core|
      invariant CoreCollected(core, i, pdfText, externalTexts)
    {
      var work := core[i];
      var content := work.text;
      if Strip(content) == [] && Truthy(work.downloadUrl) {
        content := pdfText(work.downloadUrl.value);
      }
      CoreStep(core, i, pdfText, content, externalTexts);
      if Strip(content) != [] {
        externalTexts := externalTexts + [Candidate(content, work.title, CORE_WORKS_URL + work.id, "academic")];
      }
    }
    assert core[..|core|] == core;
    var academic := externalTexts;
    for i := 0 to |news|
      invariant externalTexts == academic + FilterMap(news[..i], GuardianCandidate)
    {
      var txt := Strip(news[i].text);
      GuardianStep(news, i, academic);
      if txt != [] {
        externalTexts := externalTexts + [Candidate(txt, news[i].title, news[i].url, "news")];
      }
    }
    assert news[..|news|] == news;
  }

  /** The state of the loop of step 5 after `i` articles. */
  predicate CoreCollected(core: seq<CoreArticle>, i: nat, pdfText: string -> string, acc: seq<Candidate>)
    requires i <= |core|
  {
    acc == FilterMap(core[..i], CoreCandidate(pdfText))
  }

  /** One CORE article processed by the loop of step 5. */
  lemma CoreStep(core: seq<CoreArticle>, i: nat, pdfText: string -> string, content: string, acc: seq<Candidate>)
    requires i < |core| && content == CoreContent(core[i], pdfText)
    requires CoreCollected(core, i, pdfText, acc)
    ensures var a := core[i];
      CoreCollected(core, i + 1, pdfText,
        acc + (if Strip(content) != [] then [Candidate(content, a.title, CORE_WORKS_URL + a.id, "academic")] else []))
  {
    FilterMapSnoc(core, i, CoreCandidate(pdfText));
  }

  /** One Guardian article processed by the loop of step 6. */
  lemma GuardianStep(news: seq<NewsArticle>, i: nat, academic: seq<Candidate>)
    requires i < |news|
    ensures var a := news[i];
      var txt := Strip(a.text);
      academic + FilterMap(news[..i + 1], GuardianCandidate)
        == academic + FilterMap(news[..i], GuardianCandidate) + (if txt != [] then [Candidate(txt, a.title, a.url, "news")] else [])
  {
    FilterMapSnoc(news, i, GuardianCandidate);
  }

  /** A CORE article's content falls back to its PDF text only when its own text is blank and
      it has a download URL. */
  lemma CoreContentSpec(a: CoreArticle, pdfText: string -> string)
    ensures !IsBlank(a.text) ==> CoreContent(a, pdfText) == a.text
    ensures IsBlank(a.text) && Truthy(a.downloadUrl) ==> CoreContent(a, pdfText) == pdfText(a.downloadUrl.value)
    ensures IsBlank(a.text) && !Truthy(a.downloadUrl) ==> IsBlank(CoreContent(a, pdfText))
  {
    StripSlice(a.text);
  }

  /** The CORE part of the candidate list: one "academic" candidate per article with
      non-blank content, in article order, each with that content, the article's title and its
      CORE works URL; no article with non-blank content is left out. */
  lemma CoreCandidatesSpec(core: seq<CoreArticle>, pdfText: string -> string) returns (origin: seq<nat>)
    ensures var cs := FilterMap(core, CoreCandidate(pdfText));
      && |origin| == |cs|
      && StrictlyIncreasing(origin)
      && (forall k :: 0 <= k < |cs| ==>
            && origin[k] < |core|
            && var a := core[origin[k]];
            && cs[k] == Candidate(CoreContent(a, pdfText), a.title, CORE_WORKS_URL + a.id, "academic")
            && !IsBlank(cs[k].text))
      && (forall i :: 0 <= i < |core| && !IsBlank(CoreContent(core[i], pdfText)) ==> i in origin)
  {
    var f := CoreCandidate(pdfText);
    var cs := FilterMap(core, f);
    origin := FilterMapOrigins(core, f);
    forall k | 0 <= k < |cs|
      ensures var a := core[origin[k]];
        cs[k] == Candidate(CoreContent(a, pdfText), a.title, CORE_WORKS_URL + a.id, "academic")
        && !IsBlank(cs[k].text)
    {
      var a := core[origin[k]];
      assert f(a) == Some(cs[k]);
      StripSlice(CoreContent(a, pdfText));
    }
    forall i | 0 <= i < |core| && !IsBlank(CoreContent(core[i], pdfText)) ensures i in origin {
      StripSlice(CoreContent(core[i], pdfText));
      assert f(core[i]).Some?;
    }
  }

  /** The Guardian part of the candidate list: one "news" candidate per article whose stripped
      text is non-empty, in article order, holding that stripped text; none is left out. */
  lemma GuardianCandidatesSpec(news: seq<NewsArticle>) returns (origin: seq<nat>)
    ensures var gs := FilterMap(news, GuardianCandidate);
      && |origin| == |gs|
      && StrictlyIncreasing(origin)
      && (forall k :: 0 <= k < |gs| ==>
            && origin[k] < |news|
            && var a := news[origin[k]];
            && gs[k] == Candidate(Strip(a.text), a.title, a.url, "news")
            && gs[k].text != [])
      && (forall i :: 0 <= i < |news| && !IsBlank(news[i].text) ==> i in origin)
  {
    var gs := FilterMap(news, GuardianCandidate);
    origin := FilterMapOrigins(news, GuardianCandidate);
    forall k | 0 <= k < |gs|
      ensures var a := news[origin[k]]; gs[k] == Candidate(Strip(a.text), a.title, a.url, "news")
    {
      assert GuardianCandidate(news[origin[k]]) == Some(gs[k]);
    }
    forall i | 0 <= i < |news| && !IsBlank(news[i].text) ensures i in origin {
      StripSlice(news[i].text);
      assert GuardianCandidate(news[i]).Some?;
    }
  }

  // ---------------------------------------------------------------------------------------
  // Matching one sentence

  /** The exact matcher's answer for each candidate, in list order. */
  function ExactResults(orig: string, exts: seq<Candidate>, x: Externals, thr: real): (rs: seq<Option<real>>)
    ensures |rs| == |exts|
    ensures forall i :: 0 <= i < |exts| ==> rs[i] == FindExactMatch(orig, exts[i].text, x, thr)
  {
    seq(|exts|, i requires 0 <= i < |exts| => FindExactMatch(orig, exts[i].text, x, thr))
  }

  /** The partial matcher's answer for each candidate, in list order. */
  function PartialResults(orig: string, exts: seq<Candidate>, x: Externals): (rs: seq<Option<(string, real)>>)
    ensures |rs| == |exts|
    ensures forall i :: 0 <= i < |exts| ==> rs[i] == PartialPhraseMatch(orig, exts[i].text, x)
  {
    seq(|exts|, i requires 0 <= i < |exts| => PartialPhraseMatch(orig, exts[i].text, x))
  }

  /** What one sentence records: the first exact match over all candidates; failing that, the
      first partial match; failing that, nothing. */
  function SentenceHit(orig: string, exts: seq<Candidate>, x: Externals, thr: real): Option<Hit> {
    match FirstSome(ExactResults(orig, exts, x, thr), 0)
    case Some((j, sim)) => Some(Hit(orig, sim, exts[j]))
    case None =>
      match FirstSome(PartialResults(orig, exts, x), 0)
      case Some((j, p)) => Some(Hit(p.0, p.1, exts[j]))
      case None => None
  }

  /** The inner loops of step 9 for one sentence: the exact pass with its `matched` flag and
      `break`, then, only when nothing matched, the partial pass. */
  method MatchSentence(orig: string, exts: seq<Candidate>, x: Externals, thr: real) returns (hit: Option<Hit>)
    ensures hit == SentenceHit(orig, exts, x, thr)
  {
    ghost var exact := ExactResults(orig, exts, x, thr);
    var matched := false;
    hit := None;
    for j := 0 to |exts|
      invariant !matched ==> hit == None && FirstSome(exact, 0) == FirstSome(exact, j)
      invariant matched ==> hit == SentenceHit(orig, exts, x, thr)
    {
      var sim := FindExactMatch(orig, exts[j].text, x, thr);
      assert exact[j] == sim;
      if sim.Some? {
        hit := Some(Hit(orig, sim.value, exts[j]));
        matched := true;
        break;
      }
    }
    if !matched {
      ghost var partials := PartialResults(orig, exts, x);
      for j := 0 to |exts|
        invariant hit == None
        invariant FirstSome(partials, 0) == FirstSome(partials, j)
      {
        var partial := FindPartialPhraseMatch(orig, exts[j].text, x);
        assert partials[j] == partial;
        if partial.Some? {
          var (phrase, sim) := partial.value;
          hit := Some(Hit(phrase, sim, exts[j]));
          return;
        }
      }
    }
  }

  /** The sentence-level rules: an exact match is recorded against the earliest candidate that
      has one, with the sentence itself as matched text; a partial match only when no
      candidate matches exactly, against the earliest candidate with a partial match, with the
      matched phrase; nothing exactly when neither matcher accepts any candidate. */
  lemma SentenceHitSpec(orig: string, exts: seq<Candidate>, x: Externals, thr: real)
    ensures var h := SentenceHit(orig, exts, x, thr);
      && (h.Some? && (exists i :: 0 <= i < |exts| && FindExactMatch(orig, exts[i].text, x, thr).Some?) ==>
            exists k :: && 0 <= k < |exts|
                        && FindExactMatch(orig, exts[k].text, x, thr) == Some(h.value.sim)
                        && (forall i :: 0 <= i < k ==> FindExactMatch(orig, exts[i].text, x, thr) == None)
                        && h.value == Hit(orig, h.value.sim, exts[k]))
      && (h.Some? && (forall i :: 0 <= i < |exts| ==> FindExactMatch(orig, exts[i].text, x, thr) == None) ==>
            exists k :: && 0 <= k < |exts|
                        && PartialPhraseMatch(orig, exts[k].text, x) == Some((h.value.matchedText, h.value.sim))
                        && (forall i :: 0 <= i < k ==> PartialPhraseMatch(orig, exts[i].text, x) == None)
                        && h.value.source == exts[k])
      && (h.None? <==> (&& (forall i :: 0 <= i < |exts| ==> FindExactMatch(orig, exts[i].text, x, thr) == None)
                        && (forall i :: 0 <= i < |exts| ==> PartialPhraseMatch(orig, exts[i].text, x) == None)))
  {
    var exact := ExactResults(orig, exts, x, thr);
    var partials := PartialResults(orig, exts, x);
    FirstSomeSpec(exact, 0);
    FirstSomeSpec(partials, 0);
  }

  // ---------------------------------------------------------------------------------------
  // Matching all sentences and the fold

  function HitOf(exts: seq<Candidate>, x: Externals, thr: real): string -> Option<Hit> {
    s => SentenceHit(s, exts, x, thr)
  }

  /** The recorded matches, in sentence order. */
  function Hits(sentences: seq<string>, exts: seq<Candidate>, x: Externals, thr: real): seq<Hit> {
    FilterMap(sentences, HitOf(exts, x, thr))
  }

  /** Python's `max(a, b)`. */
  function Max(a: real, b: real): real {
    if b > a then b else a
  }

  /** `highest_similarity` after recording `hits`, from 0.0. */
  function Highest(hits: seq<Hit>): real {
    if hits == [] then 0.0 else Max(Highest(hits[..|hits| - 1]), hits[|hits| - 1].sim)
  }

  /** `all_matched_titles` after recording `hits`. */
  function Titles(hits: seq<Hit>): set<string> {
    if hits == [] then {} else Titles(hits[..|hits| - 1]) + {hits[|hits| - 1].source.title}
  }

  /** The entry recorded for a hit, with the similarity rounded to three places. */
  function ToDetail(h: Hit, x: Externals): MatchDetail {
    MatchDetail(h.matchedText, x.round3(h.sim), h.source.kind, h.source.title, h.source.sourceUrl)
  }

  /** `plagiarism_data_for_db` after recording `hits`. */
  function Details(hits: seq<Hit>, x: Externals): seq<MatchDetail> {
    if hits == [] then [] else Details(hits[..|hits| - 1], x) + [ToDetail(hits[|hits| - 1], x)]
  }

  /** The state of step 9 after recording `hits`. */
  predicate Tallied(hits: seq<Hit>, x: Externals, data: seq<MatchDetail>, highest: real, titles: set<string>) {
    data == Details(hits, x) && highest == Highest(hits) && titles == Titles(hits)
  }

  lemma HitsSnoc(sentences: seq<string>, k: nat, exts: seq<Candidate>, x: Externals, thr: real)
    requires k < |sentences|
    ensures var h := SentenceHit(sentences[k], exts, x, thr);
      Hits(sentences[..k + 1], exts, x, thr) == Hits(sentences[..k], exts, x, thr) + (if h.Some? then [h.value] else [])
  {
    FilterMapSnoc(sentences, k, HitOf(exts, x, thr));
  }

  lemma TallySnoc(hits: seq<Hit>, h: Hit, x: Externals)
    ensures Details(hits + [h], x) == Details(hits, x) + [ToDetail(h, x)]
    ensures Highest(hits + [h]) == Max(Highest(hits), h.sim)
    ensures Titles(hits + [h]) == Titles(hits) + {h.source.title}
  {
    assert (hits + [h])[..|hits|] == hits;
  }

  /** One sentence recorded: what the loop body of step 9 does to its state. */
  lemma TallyStep(sentences: seq<string>, k: nat, exts: seq<Candidate>, x: Externals, thr: real,
                  hit: Option<Hit>, data: seq<MatchDetail>, highest: real, titles: set<string>)
    requires k < |sentences| && hit == SentenceHit(sentences[k], exts, x, thr)
    requires Tallied(Hits(sentences[..k], exts, x, thr), x, data, highest, titles)
    ensures var hits := Hits(sentences[..k + 1], exts, x, thr);
      && (hit.Some? ==> Tallied(hits, x, data + [ToDetail(hit.value, x)], Max(highest, hit.value.sim),
                                titles + {hit.value.source.title}))
      && (hit.None? ==> Tallied(hits, x, data, highest, titles))
  {
    var prev := Hits(sentences[..k], exts, x, thr);
    HitsSnoc(sentences, k, exts, x, thr);
    if hit.Some? {
      TallySnoc(prev, hit.value, x);
    } else {
      assert prev + [] == prev;
    }
  }

  /** Step 9: one pass over the sentences, recording each sentence's match and updating the
      highest similarity and the matched titles as it goes. */
  method MatchSentences(sentences: seq<string>, exts: seq<Candidate>, x: Externals, thr: real)
    returns (data: seq<MatchDetail>, highest: real, titles: set<string>)
    ensures Tallied(Hits(sentences, exts, x, thr), x, data, highest, titles)
  {
    data, highest, titles := [], 0.0, {};
    for k := 0 to |sentences|
      invariant Tallied(Hits(sentences[..k], exts, x, thr), x, data, highest, titles)
    {
      var hit := MatchSentence(sentences[k], exts, x, thr);
      TallyStep(sentences, k, exts, x, thr, hit, data, highest, titles);
      if hit.Some? {
        data := data + [ToDetail(hit.value, x)];
        highest := Max(highest, hit.value.sim);
        titles := titles + {hit.value.source.title};
      }
    }
    assert sentences[..|sentences|] == sentences;
  }

  /** At most one recorded match per sentence, in sentence order: each comes from its own
      sentence, the sentences increase along the list, and every sentence that has a match is
      among them. */
  lemma HitsSpec(sentences: seq<string>, exts: seq<Candidate>, x: Externals, thr: real) returns (origin: seq<nat>)
    ensures var hits := Hits(sentences, exts, x, thr);
      && |origin| == |hits| <= |sentences|
      && StrictlyIncreasing(origin)
      && (forall k :: 0 <= k < |hits| ==>
            origin[k] < |sentences| && SentenceHit(sentences[origin[k]], exts, x, thr) == Some(hits[k]))
      && (forall i :: 0 <= i < |sentences| && SentenceHit(sentences[i], exts, x, thr).Some? ==> i in origin)
  {
    origin := FilterMapOrigins(sentences, HitOf(exts, x, thr));
  }

  /** The highest similarity is 0.0 or the similarity of one of the hits, and no hit exceeds
      it; with non-negative similarities it is their maximum, or 0.0 when there are none. */
  lemma {:induction false} HighestSpec(hits: seq<Hit>)
    ensures forall k :: 0 <= k < |hits| ==> hits[k].sim <= Highest(hits)
    ensures 0.0 <= Highest(hits)
    ensures Highest(hits) == 0.0 || exists k :: 0 <= k < |hits| && hits[k].sim == Highest(hits)
  {
    if hits != [] {
      var init := hits[..|hits| - 1];
      HighestSpec(init);
      assert forall k :: 0 <= k < |init| ==> init[k] == hits[k];
    }
  }

  /** The matched titles are exactly the source titles of the hits. */
  lemma {:induction false} TitlesSpec(hits: seq<Hit>)
    ensures forall t :: t in Titles(hits) <==> exists k :: 0 <= k < |hits| && hits[k].source.title == t
  {
    if hits != [] {
      var init := hits[..|hits| - 1];
      TitlesSpec(init);
      assert forall k :: 0 <= k < |init| ==> init[k] == hits[k];
      forall t | t in Titles(hits) ensures exists k :: 0 <= k < |hits| && hits[k].source.title == t {
        if t in Titles(init) {
          var k :| 0 <= k < |init| && init[k].source.title == t;
          assert hits[k].source.title == t;
        }
      }
    }
  }

  /** One entry per hit, in the same order, each carrying the rounded similarity and the
      candidate's type, title and URL. */
  lemma {:induction false} DetailsSpec(hits: seq<Hit>, x: Externals)
    ensures |Details(hits, x)| == |hits|
    ensures forall k :: 0 <= k < |hits| ==> Details(hits, x)[k] == ToDetail(hits[k], x)
  {
    if hits != [] {
      var init := hits[..|hits| - 1];
      DetailsSpec(init, x);
      assert forall k :: 0 <= k < |init| ==> init[k] == hits[k];
    }
  }

  // ---------------------------------------------------------------------------------------
  // The report

  /** The report of steps 2 and 7 when there is nothing to compare. */
  function EmptyReport(raw: string): Report {
    Report(0.0, {}, |Split(raw)|, EMPTY_TIME, false, [])
  }

  /** Whether `round(highest * 100, 1)` exceeds the flag threshold. */
  predicate Flagged(highest: real, x: Externals) {
    x.round1(highest * 100.0) > FLAG_PERCENT
  }

  /** The report of step 11. */
  function FullReport(raw: string, hits: seq<Hit>, x: Externals, elapsedSeconds: int): Report {
    var highest := Highest(hits);
    Report(x.round1(highest * 100.0), Titles(hits), |Split(raw)|, FormatElapsed(elapsedSeconds),
           Flagged(highest, x), Details(hits, x))
  }

  /** Step 7 onwards, once the candidates are known. */
  function Assess(raw: string, sentences: seq<string>, exts: seq<Candidate>, x: Externals, thr: real,
                  elapsedSeconds: int): Result<Report, CheckError> {
    if exts == [] then Ok(EmptyReport(raw))
    else Ok(FullReport(raw, Hits(sentences, exts, x, thr), x, elapsedSeconds))
  }

  /** Steps 3 to 11, once there are sentences to compare. */
  function Compare(raw: string, sentences: seq<string>, x: Externals, thr: real, services: Services,
                   elapsedSeconds: int): Result<Report, CheckError> {
    var query := BuildQuery(raw, x);
    match services.guardian(query)
    case Err(status) => Err(GuardianFailed(status))
    case Ok(news) => Assess(raw, sentences, ExternalTexts(services.core(query), news, services.pdfText), x, thr, elapsedSeconds)
  }

  /** Step 11 from the state step 9 leaves. */
  lemma ReportOfTally(raw: string, hits: seq<Hit>, x: Externals, elapsedSeconds: int,
                      data: seq<MatchDetail>, highest: real, titles: set<string>)
    requires Tallied(hits, x, data, highest, titles)
    ensures var pct := x.round1(highest * 100.0);
      Report(pct, titles, |Split(raw)|, FormatElapsed(elapsedSeconds), pct > FLAG_PERCENT, data)
        == FullReport(raw, hits, x, elapsedSeconds)
  {
  }

  /** `check_plagiarism` from the blank-text check to the report, as a function. */
  function Check(raw: string, x: Externals, thr: real, services: Services, elapsedSeconds: int): Result<Report, CheckError> {
    if Strip(raw) == [] then Err(NoReadableText)
    else
      var sentences := MeaningfulSentences(x.sentTokenize(raw), x.wordTokenize);
      if sentences == [] then Ok(EmptyReport(raw))
      else Compare(raw, sentences, x, thr, services, elapsedSeconds)
  }

  /** `check_plagiarism`, steps 1 (the blank check) to 11. */
  method CheckPlagiarism(raw: string, x: Externals, thr: real, services: Services, elapsedSeconds: int)
    returns (r: Result<Report, CheckError>)
    ensures r == Check(raw, x, thr, services, elapsedSeconds)
  {
    if Strip(raw) == [] {
      return Err(NoReadableText);
    }
    var sentences := GetMeaningfulSentences(raw, x);
    if sentences == [] {
      return Ok(EmptyReport(raw));
    }
    r := CompareSentences(raw, sentences, x, thr, services, elapsedSeconds);
  }

  /** Steps 3 to 11: the query, the fetches, the candidates, the matching and the report. */
  method CompareSentences(raw: string, sentences: seq<string>, x: Externals, thr: real, services: Services,
                          elapsedSeconds: int)
    returns (r: Result<Report, CheckError>)
    ensures r == Compare(raw, sentences, x, thr, services, elapsedSeconds)
  {
    var keywords := ExtractKeywords(raw, MAX_KEYWORDS, x);
    var query := if keywords != [] then Join(keywords) else raw[..Min(QUERY_FALLBACK_LENGTH, |raw|)];
    assert query == BuildQuery(raw, x);
    var coreWorks := services.core(query);
    var guardianArticles := services.guardian(query);
    if guardianArticles.Err? {
      return Err(GuardianFailed(guardianArticles.error));
    }
    var externalTexts := CollectCandidates(coreWorks, guardianArticles.value, services.pdfText);
    if externalTexts == [] {
      return Ok(EmptyReport(raw));
    }
    var data, highest, titles := MatchSentences(sentences, externalTexts, x, thr);
    var timeSpent := FormatElapsed(elapsedSeconds);
    var highestPct := x.round1(highest * 100.0);
    var flagged := highestPct > FLAG_PERCENT;
    r := Ok(Report(highestPct, titles, |Split(raw)|, timeSpent, flagged, data));
    ReportOfTally(raw, Hits(sentences, externalTexts, x, thr), x, elapsedSeconds, data, highest, titles);
  }

  /** Blank text is refused, and only blank text. */
  lemma BlankRefused(raw: string, x: Externals, thr: real, services: Services, elapsedSeconds: int)
    ensures Check(raw, x, thr, services, elapsedSeconds) == Err(NoReadableText) <==> IsBlank(raw)
  {
    StripSlice(raw);
  }

  /** With no meaningful sentence, or no usable candidate, the report is empty: similarity
      0.0, no sources, no matches, not flagged, time "00:00", and the whitespace-separated
      word count of the text. */
  lemma EmptyReportShape(raw: string, x: Externals, thr: real, services: Services, elapsedSeconds: int)
    requires !IsBlank(raw)
    requires var sentences := MeaningfulSentences(x.sentTokenize(raw), x.wordTokenize);
      var query := BuildQuery(raw, x);
      || sentences == []
      || (services.guardian(query).Ok? && ExternalTexts(services.core(query), services.guardian(query).value, services.pdfText) == [])
    ensures var r := Check(raw, x, thr, services, elapsedSeconds);
      && r.Ok?
      && r.value.similarity == 0.0 && r.value.sources == {} && r.value.matches == []
      && !r.value.flagged && r.value.timeSpent == "00:00"
      && r.value.wordCount == |Split(raw)|
  {
    StripSlice(raw);
  }

  /** Without a meaningful sentence nothing is fetched: the report does not depend on the
      services. */
  lemma NoSentencesFetchesNothing(raw: string, x: Externals, thr: real, s1: Services, s2: Services,
                                  elapsedSeconds: int)
    requires MeaningfulSentences(x.sentTokenize(raw), x.wordTokenize) == []
    ensures Check(raw, x, thr, s1, elapsedSeconds) == Check(raw, x, thr, s2, elapsedSeconds)
  {
  }

  /** `round(v, 1)` is within half a tenth of `v`. */
  ghost predicate RoundsToTenth(round1: real -> real) {
    forall v :: -0.05 <= round1(v) - v <= 0.05
  }

  /** With rounding to a tenth, a highest similarity above 0.7005 is flagged and one at or
      below 0.6995 is not. */
  lemma FlagBounds(highest: real, x: Externals)
    requires RoundsToTenth(x.round1)
    ensures highest > 0.7005 ==> Flagged(highest, x)
    ensures highest <= 0.6995 ==> !Flagged(highest, x)
  {
    var v := highest * 100.0;
    assert -0.05 <= x.round1(v) - v <= 0.05;
  }

  /** A report is flagged when the text has a meaningful sentence copied verbatim into one of
      the candidates, as long as the TF-IDF threshold is at least 0.71: whichever candidate
      the sentence matches first, it matches with a similarity of at least 0.71. */
  lemma VerbatimCopyFlagged(raw: string, x: Externals, thr: real, services: Services, elapsedSeconds: int,
                            i: nat, j: nat, before: string, after: string)
    requires thr >= 0.71 && RoundsToTenth(x.round1) && !IsBlank(raw)
    requires var sentences := MeaningfulSentences(x.sentTokenize(raw), x.wordTokenize);
      var query := BuildQuery(raw, x);
      && i < |sentences|
      && |Normalize(sentences[i])| >= MIN_SENTENCE_LENGTH
      && services.guardian(query).Ok?
      && var exts := ExternalTexts(services.core(query), services.guardian(query).value, services.pdfText);
      && j < |exts|
      && exts[j].text == before + sentences[i] + after
    ensures var r := Check(raw, x, thr, services, elapsedSeconds);
      r.Ok? && r.value.flagged && r.value.matches != []
  {
    var sentences := MeaningfulSentences(x.sentTokenize(raw), x.wordTokenize);
    var query := BuildQuery(raw, x);
    var exts := ExternalTexts(services.core(query), services.guardian(query).value, services.pdfText);
    var s := sentences[i];
    StripSlice(raw);
    ExactMatchVerbatim(before, s, after, x, thr);
    var hit := ExactHitAtLeast(s, exts, x, thr, j);
    var hits := Hits(sentences, exts, x, thr);
    var origin := HitsSpec(sentences, exts, x, thr);
    assert i in origin;
    var k :| 0 <= k < |origin| && origin[k] == i;
    assert hits[k] == hit;
    HighestSpec(hits);
    FlagBounds(Highest(hits), x);
    DetailsSpec(hits, x);
  }

  /** A sentence that some candidate matches exactly is recorded with a similarity of at least
      `min(1.0, thr)`. */
  lemma ExactHitAtLeast(s: string, exts: seq<Candidate>, x: Externals, thr: real, j: nat) returns (h: Hit)
    requires j < |exts| && FindExactMatch(s, exts[j].text, x, thr).Some?
    ensures SentenceHit(s, exts, x, thr) == Some(h)
    ensures h.sim >= thr || h.sim == EXACT_MATCH_SCORE
  {
    var exact := ExactResults(s, exts, x, thr);
    FirstSomeSpec(exact, 0);
    var first := FirstSome(exact, 0);
    assert first.Some?;
    var k := first.value.0;
    ExactMatchCases(s, exts[k].text, x, thr);
    h := SentenceHit(s, exts, x, thr).value;
  }
}
