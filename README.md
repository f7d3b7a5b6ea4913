# Plagiarism checker: matching engine, report assembly and fetcher logic

This project models the core of a plagiarism checker, a web service that takes a submitted
text and compares it with academic works from the CORE search API and news articles from
the Guardian API.

The request handler `check_plagiarism` runs these steps:

1. It refuses blank text.
2. It keeps the meaningful sentences.
3. It builds a search query from the text's keywords.
4. It builds a list of candidate source texts from both services.
5. It matches each sentence against the candidates: first an exact or TF-IDF match, otherwise a five-word phrase match. In each pass the first candidate to answer wins.
6. It folds the matches into a report. The report holds:
   - the highest similarity as a rounded percentage;
   - the matched titles;
   - a flag that is set above 70%;
   - the word count;
   - the elapsed time as `H:MM:SS` or `MM:SS`;
   - one entry per matched sentence.

The text utilities behind these steps are modelled too:

- `normalize_text`;
- the sentence filter;
- keyword extraction;
- the TF-IDF guard;
- the exact and partial matchers.

So are the two pieces of fetcher logic that do not depend on I/O:

- the Guardian client's HTML stripping and deep pagination;
- the CORE client's three-attempt retry with exponential back-off, and its text assembly for each work.

The modules are:

- **`Wrappers`** (`wrappers.dfy`): `Option` and `Result`.
- **`Strings`** (`strings.dfy`): Python's `str.strip`, `str.split()`, `" ".join`, `in` and `lower` over characters.
- **`Seqs`** (`seqs.dfy`): the filter-and-append loop shape and the first-answer scan.
- **`TextUtils`** (`text_utils.dfy`): `app/utils/text_utils.py`.
- **`Keywords`** (`keywords.dfy`): `extract_keywords`.
- **`GuardianApi`** (`guardian_api.dfy`): `app/services/guardian_api.py`.
- **`CoreApi`** (`core_api.dfy`): `app/services/core_api.py`.
- **`Elapsed`** (`elapsed.dfy`): the `time_spent` formatting.
- **`Plagiarism`** (`plagiarism.dfy`): `app/routers/plagiarism.py`, lines 76-234.

The library calls are fields of the `TextUtils.Externals` datatype:

- nltk's `sent_tokenize` and `word_tokenize`;
- the stopword set;
- `SequenceMatcher.ratio`;
- the TF-IDF cosine;
- Python's `round(x, 3)` and `round(x, 1)`.

The remote services are functions of the query, in `Plagiarism.Services`, or sequences of answers.

Code that loops in the source is a `method` with a loop, proved equal to a specification function. The properties are proved about those functions. This applies to:

- `get_meaningful_sentences`;
- `find_partial_phrase_match`;
- the pagination loop;
- the retry loop;
- the candidate loops;
- the matching loops.

The `config.py` shown does not define `TFIDF_THRESHOLD`. `app/utils/text_utils.py` imports it from `app.config`, which is not shown, so its value is unknown and the model takes it as the parameter `thr` throughout.

## Model

| member | source | states |
|---|---|---|
| TextUtils.NormalizeIsNormal | app/utils/text_utils.py:13-17 | normalised text contains only spaces and lower-case word characters; it has no leading, trailing or doubled space, so no punctuation survives |
| TextUtils.ScrubbedChars | app/utils/text_utils.py:14-15 | after lower-casing and replacing non-word, non-space characters, every character is whitespace or a lower-case word character |
| TextUtils.CollapseShape | app/utils/text_utils.py:16 | collapsing whitespace runs keeps only normal characters and leaves no two adjacent spaces; it empties only the empty string and keeps whether each end is whitespace |
| TextUtils.CollapseEnds | app/utils/text_utils.py:16 | collapsing empties only the empty string and keeps whether the text starts, and whether it ends, with whitespace |
| TextUtils.CollapseChars | app/utils/text_utils.py:16 | collapsing text made of whitespace and normal characters leaves only normal characters |
| TextUtils.CollapseNoDouble | app/utils/text_utils.py:16 | collapsing leaves no two whitespace characters side by side |
| TextUtils.CollapseFixes | app/utils/text_utils.py:16 | text whose only whitespace is single `' '` characters is left unchanged by the collapse |
| TextUtils.NormalizeFixesNormal | app/utils/text_utils.py:13-17 | normalising text that is already normal changes nothing |
| TextUtils.NormalizeIdempotent | app/utils/text_utils.py:13-17 | `normalize_text(normalize_text(x)) == normalize_text(x)` |
| TextUtils.CollapseAppend | app/utils/text_utils.py:16 | collapsing a concatenation whose first part ends in a non-space is collapsing each part |
| TextUtils.NormalizeCore | app/utils/text_utils.py:13-17 | for scrubbed text (whitespace and normal characters only) whose normalisation is non-empty: the text is a blank prefix, a core that starts and ends with non-whitespace, and a blank suffix, and the normalised text is the collapse of that core |
| TextUtils.VerbatimContained | app/utils/text_utils.py:13-58 | a sentence pasted into a text has its normalised form inside the normalised text |
| TextUtils.GetMeaningfulSentences | app/utils/text_utils.py:20-27 | the loop returns the stripped sentences that have at least five tokens and a stripped length of at least 15, in tokenizer order |
| TextUtils.MeaningfulSentencesSpec | app/utils/text_utils.py:21-27 | each kept sentence comes from its own input position, in increasing order; it qualifies, it is the stripped input, and it is at least 15 long; every qualifying sentence is kept |
| Keywords.CandidatesQualify | app/utils/text_utils.py:31-33 | the filtered tokens are exactly the tokens of the lower-cased text that are alphabetic, not stopwords and longer than three characters |
| Keywords.RankRanked | app/utils/text_utils.py:34-35 | ranking distinct words orders them by descending count, with ties in first-occurrence order |
| Keywords.InsertRanked | app/utils/text_utils.py:34-35 | inserting a word into a ranked list keeps it ranked |
| Keywords.RankedCandidates | app/utils/text_utils.py:34-35 | the ranked distinct candidates hold every candidate exactly once, in ranking order |
| Keywords.TakeRanked | app/utils/text_utils.py:35 | a prefix of the ranked list stays ranked and distinct; a word is left out only when the list is full of words ranked above it |
| Keywords.KeywordsSpec | app/utils/text_utils.py:30-35 | at most `max_keywords` distinct qualifying tokens, ranked by frequency with ties in first-occurrence order; a candidate is left out only when the list is full of higher-ranked ones |
| TextUtils.TfIdfSimilarity | app/utils/text_utils.py:38-40 | 0.0 when either text is empty, otherwise the cosine, which lies in [0, 1] for a unit cosine |
| TextUtils.ExactMatchCases | app/utils/text_utils.py:50-68 | None below 15 normalised characters; 1.0 when the normalised sentence is a substring of the normalised text; any other answer passed the 0.75 ratio gate and is a TF-IDF value at or above the threshold; the exact conditions for an answer |
| TextUtils.ExactMatchVerbatim | app/utils/text_utils.py:50-58 | a sentence with at least 15 normalised characters, copied verbatim into a text, is an exact match of it, scoring 1.0 |
| TextUtils.ExactMatchSkipsTfIdfBelowGate | app/utils/text_utils.py:61-66 | below the ratio gate the answer does not depend on the TF-IDF cosine |
| TextUtils.FirstHitFromSpec | app/utils/text_utils.py:78-84 | the window found is the lowest qualifying one from the start index; None means no window from there qualifies |
| TextUtils.FindPartialPhraseMatch | app/utils/text_utils.py:71-86 | the index loop with early return computes the partial-match function |
| TextUtils.PartialPhraseIsFirstHit | app/utils/text_utils.py:71-86 | None below five words; otherwise the lowest five-word window, at least 15 long and a substring of the normalised text, with its TF-IDF similarity and no threshold; None exactly when no window qualifies |
| Strings.StripSlice | app/utils/text_utils.py:17 | `strip()` is the slice between leading and trailing whitespace; its ends are not whitespace, and it is empty exactly for blank text |
| Strings.StripDecompose | app/utils/text_utils.py:17 | a string is its blank leading part, its stripped form and its blank trailing part |
| Strings.StripKeepsCore | app/services/core_api.py:39 | stripping keeps every stretch that starts and ends with non-whitespace |
| Strings.JoinSplit | app/utils/text_utils.py:74-79 | splitting single-spaced text and joining it with `' '` gives the text back |
| Strings.SplitJoin | app/routers/plagiarism.py:104 | splitting the `' '`-join of tokens gives the tokens back |
| Strings.ContainsIff | app/utils/text_utils.py:57 | `needle in hay` holds exactly when the needle occurs at some position |
| GuardianApi.StripHtmlChars | app/services/guardian_api.py:11-13 | every output character comes from the input |
| GuardianApi.StripHtmlRemovesTags | app/services/guardian_api.py:11-13 | no match of `<[^>]+>` is left in the output |
| GuardianApi.StripHtmlKeepsPlainText | app/services/guardian_api.py:13 | text with no match of `<[^>]+>` is unchanged, including any text without `<` |
| GuardianApi.StripHtmlIdempotent | app/services/guardian_api.py:11-13 | stripping twice is stripping once |
| GuardianApi.ToArticle | app/services/guardian_api.py:49-57 | an article's text is the stripped body, with type "news" and the title, URL and date of the result |
| GuardianApi.HarvestOrigin | app/services/guardian_api.py:49-85 | every harvested article is the plain-text form of a result of one of the pages answered |
| GuardianApi.PageLimit | app/services/guardian_api.py:60-88 | with `max_pages` set, the number of requests is at most `max_pages`, and at least the one search |
| GuardianApi.FetchGuardianAllPages | app/services/guardian_api.py:15-92 | no key: `[]` and no request; otherwise the outcome below |
| GuardianApi.FollowNextPages | app/services/guardian_api.py:59-92 | every answer but the last led on, and the last did not or was an error; an HTTP error is returned as its status; otherwise the articles of all pages, in page then result order |
| GuardianApi.StoppedOnEmpty | app/services/guardian_api.py:74-75 | an empty "next" page ends the fetch with the articles so far |
| GuardianApi.Harvested | app/services/guardian_api.py:77-90 | a non-empty page is appended; a short page ends the fetch; a full page continues from its last id |
| GuardianApi.StoppedOnError | app/services/guardian_api.py:71 | an HTTP error status on a "next" page ends the fetch with that status |
| GuardianApi.StoppedOk | app/services/guardian_api.py:63-92 | when the last page does not lead on, or the page limit is reached, the fetch ends with the articles it has |
| CoreApi.AssembleText | app/services/core_api.py:30-39 | the appends to `parts`, joined and stripped, give the work's text |
| CoreApi.WorkTextHoldsParts | app/services/core_api.py:30-39 | the text holds each part, stripped, and is empty exactly when every part is whitespace |
| CoreApi.ToCoreArticle | app/services/core_api.py:38-44 | the text is the assembled work text; type "academic", the download URL, a title defaulting to "Unknown" and an id defaulting to "" |
| CoreApi.RetriesAfter | app/services/core_api.py:47-67 | a retry follows exactly a 5xx status or any other failure, and never the third attempt |
| CoreApi.FetchCoreArticles | app/services/core_api.py:9-69 | no key: nothing; otherwise 1 to 3 attempts, every one before the last retryable, the last one not retryable unless it is the third, waits of `2^i` seconds between them, and the articles of every attempt in order |
| CoreApi.BackoffExtend | app/services/core_api.py:56-65 | the next wait, `2^attempt` seconds, keeps the back-off schedule |
| CoreApi.ParseFailureKept | app/services/core_api.py:29-66 | when parsing fails part-way through attempt one and attempt two succeeds, two attempts are made; the articles appended before the failure stay, with the retry's articles after them |
| Elapsed.DivmodTotal | app/routers/plagiarism.py:207-209 | `hours*3600 + mins*60 + secs == total_sec`, with minutes and seconds below 60 |
| Elapsed.ParseFormat | app/routers/plagiarism.py:207-210 | reading the formatted time back gives the elapsed seconds |
| Elapsed.FormatShape | app/routers/plagiarism.py:210 | `MM:SS` exactly when the hours are zero, otherwise the hours, a colon and `MM:SS`; minutes and seconds are zero-padded to two digits |
| Elapsed.UnderAnHour | app/routers/plagiarism.py:207-210 | under an hour the time is the padded whole minutes and seconds |
| Elapsed.NatToStringValue | app/routers/plagiarism.py:210 | the digits written for a number denote that number |
| Elapsed.ParseIntToString | app/routers/plagiarism.py:210 | `f"{h:d}"` reads back as `h`, sign included |
| Elapsed.Pad2Value | app/routers/plagiarism.py:210 | `f"{n:02d}"` reads back as `n` |
| Plagiarism.QuerySpec | app/routers/plagiarism.py:103-104 | with keywords, the query splits back into exactly the keywords, at most five; without, it is the first 100 characters of the text, or all of a shorter text |
| Plagiarism.KeywordsAreTokens | app/routers/plagiarism.py:103 | every keyword is a whitespace-free token |
| Plagiarism.CollectCandidates | app/routers/plagiarism.py:111-137 | the two loops build the candidate list: usable CORE works first, then usable Guardian articles |
| Plagiarism.CoreContentSpec | app/routers/plagiarism.py:115-117 | the content is the work's text unless that text is blank and there is a download URL, in which case it is the PDF text |
| Plagiarism.CoreCandidatesSpec | app/routers/plagiarism.py:114-126 | one "academic" candidate per work with non-blank content, in order, carrying that content, the title and the CORE works URL; none is left out |
| Plagiarism.GuardianCandidatesSpec | app/routers/plagiarism.py:129-137 | one "news" candidate per article with non-blank text, in order, carrying the stripped text; none is left out |
| Plagiarism.MatchSentence | app/routers/plagiarism.py:171-203 | the exact loop with its `matched` flag and `break`, then the partial loop, compute the sentence's hit |
| Plagiarism.SentenceHitSpec | app/routers/plagiarism.py:171-203 | an exact match is recorded against the earliest candidate that has one, with the sentence as matched text; a partial match is recorded only when no candidate matches exactly, against the earliest candidate with one; nothing is recorded exactly when neither matcher accepts a candidate |
| Plagiarism.MatchSentences | app/routers/plagiarism.py:166-203 | the sentence loop leaves the entries, the highest similarity and the titles of the hits, in sentence order |
| Plagiarism.TallyStep | app/routers/plagiarism.py:176-202 | one sentence's append, `max` and title insertion advance the state by that sentence's hit |
| Plagiarism.HitsSpec | app/routers/plagiarism.py:170-203 | at most one entry per sentence, in sentence order; every sentence with a match has its entry |
| Plagiarism.HighestSpec | app/routers/plagiarism.py:167-201 | the highest similarity is at least every unrounded similarity and at least 0.0; it is 0.0 or equal to one of them |
| Plagiarism.TitlesSpec | app/routers/plagiarism.py:168-202 | a title is in the set exactly when some entry's source has that title |
| Plagiarism.DetailsSpec | app/routers/plagiarism.py:174-200 | one entry per hit, in order, with the similarity rounded to three places and the source's type, title and URL |
| Plagiarism.ReportOfTally | app/routers/plagiarism.py:213-224 | the report holds the rounded percentage, the titles, the word count, the time, the flag and the entries |
| Plagiarism.CheckPlagiarism | app/routers/plagiarism.py:76-234 | the handler from the blank check to the report computes `Check` |
| Plagiarism.CompareSentences | app/routers/plagiarism.py:103-234 | steps 3 to 11 compute `Compare` |
| Plagiarism.BlankRefused | app/routers/plagiarism.py:70-77 | the request is refused for want of text exactly when the text is blank: pasted blank text at line 74 ("No file or text provided."), blank file text at line 77 ("No readable text found."), both HTTP 400 |
| Plagiarism.EmptyReportShape | app/routers/plagiarism.py:81-159 | with no meaningful sentence, or no usable candidate, the report has similarity 0.0, no sources, no entries, flag false, time "00:00" and the whitespace word count |
| Plagiarism.NoSentencesFetchesNothing | app/routers/plagiarism.py:80-100 | with no meaningful sentence the report does not depend on the services |
| Plagiarism.FlagBounds | app/routers/plagiarism.py:213-214 | with rounding to a tenth, a highest similarity above 0.7005 is flagged and one at or below 0.6995 is not |
| Plagiarism.ExactHitAtLeast | app/routers/plagiarism.py:172-186 | a sentence that some candidate matches exactly is recorded with a similarity of 1.0 or at least the threshold |
| Plagiarism.VerbatimCopyFlagged | app/routers/plagiarism.py:170-214 | when a meaningful sentence is copied verbatim into a candidate and the TF-IDF threshold is at least 0.71, the report is flagged and has entries |
| TextUtils.Normalize | app/utils/text_utils.py:13-17 | `normalize_text`: lower-case, replace `[^\w\s]` by a space, collapse whitespace runs, strip; its properties are NormalizeIsNormal and NormalizeIdempotent |
| TextUtils.FindExactMatch | app/utils/text_utils.py:50-68 | `find_exact_matches`: the length gate, the substring test, then the ratio and TF-IDF gates; characterised by ExactMatchCases |
| TextUtils.PartialPhraseMatch | app/utils/text_utils.py:71-86 | `find_partial_phrase_match` as a function: the first qualifying five-word window; characterised by PartialPhraseIsFirstHit |
| Keywords.ExtractKeywords | app/utils/text_utils.py:30-35 | `extract_keywords`: the filtered tokens, ranked by count with ties in first-occurrence order, cut to `max_keywords`; characterised by KeywordsSpec |
| GuardianApi.StripHtml | app/services/guardian_api.py:11-13 | `re.sub(r"<[^>]+>", "", html)`, scanning left to right; the output is never longer than the input |
| GuardianApi.StripHtmlSubsequence | app/services/guardian_api.py:13 | the output is a subsequence of the input: each kept character comes from its own input position, in increasing order |
| GuardianApi.Outcome | app/services/guardian_api.py:41-92 | what the search and "next" loop returns after a number of requests: the chaining and stopping rules, the error status, or the articles of all pages in order |
| CoreApi.WorkText | app/services/core_api.py:30-39 | the abstract, title and full text that are present and non-empty, joined by single spaces and stripped; characterised by WorkTextHoldsParts |
| Elapsed.Divmod | app/routers/plagiarism.py:208-209 | the two floor `divmod` calls; minutes and seconds are below 60, and DivmodTotal adds them back up |
| Elapsed.FormatElapsed | app/routers/plagiarism.py:210 | `H:MM:SS` with hours, `MM:SS` without; characterised by FormatShape and ParseFormat |
| Plagiarism.BuildQuery | app/routers/plagiarism.py:103-104 | the keywords joined by spaces, or the first 100 characters; characterised by QuerySpec |
| Plagiarism.ExternalTexts | app/routers/plagiarism.py:111-137 | `external_texts`: usable CORE articles, then usable Guardian articles; characterised by CoreCandidatesSpec and GuardianCandidatesSpec |
| Plagiarism.SentenceHit | app/routers/plagiarism.py:170-203 | one sentence's entry: the exact pass, then the partial pass, first candidate wins; characterised by SentenceHitSpec |
| Plagiarism.Compare | app/routers/plagiarism.py:103-234 | query, fetches, candidates, matching and report; a Guardian HTTP error is the request's failure |
| Plagiarism.Check | app/routers/plagiarism.py:76-234 | blank text is refused, no meaningful sentence gives the empty report, otherwise Compare; characterised by BlankRefused, EmptyReportShape and VerbatimCopyFlagged |

## Left out

- Whitespace is Python's full `str.isspace` set, which `\s`, `strip()` and `split()` share. The word class `\w`, `isalpha` and `lower()` are ASCII only: letters and digits beyond ASCII count as punctuation in `normalize_text`, never pass the keyword filter and are not lower-cased.
- JSON `null` values and missing keys are both the missing case. `work.get("title", "Unknown")` on a `null` title gives `None` in the source and "Unknown" here.
- HTTP routing, request validation, JWT checking, the upload and text extraction before line 80 (apart from the blank check) and MongoDB persistence are not modelled. The same goes for the report's date, name, user id and inserted id.
- `Plagiarism.Report` holds `similarity`, `sources`, `word_count`, `time_spent` and `flagged`, which exist only in the `report_doc` the handler stores (`app/routers/plagiarism.py:216-225`), together with the entries of `plagiarism_data_for_db`. The HTTP response `ReportDetail` (`app/routers/plagiarism.py:236-241`) carries only the inserted id, the name, the content and those entries; the stored entries drop `matched_text`.
- `Plagiarism.CheckError.NoReadableText` stands for both 400 refusals of blank text: pasted text that is blank is refused at `app/routers/plagiarism.py:70-74` before line 76 is reached, and blank text extracted from a file at lines 76-77. The model does not tell the two apart.
- Dates and `datetime.utcnow()` are not modelled: the elapsed whole seconds are an input.
- `asyncio.gather` concurrency is not modelled: the two fetch results are functions of the query.
- Guardian answers are a finite sequence of responses. A request past its end gets an empty page.
- GuardianApi.FollowNextPages: terminates because the responses are finite. With `max_pages=None` the source keeps requesting for as long as the server returns full pages; the handler always passes `max_pages=3` (`app/routers/plagiarism.py:108`).
- The Guardian fetch's only failure in the model is an HTTP error status from `raise_for_status`. Timeouts and connection errors on `client.get`, a body that is not JSON at `resp.json()`, and a result without `"id"` at `results[-1]["id"]` or `next_results[-1]["id"]` (a `KeyError`) are not modelled: each result carries an id, and every response is a page or an error status. In the source all of these escape the handler the same way an HTTP error does.
- CORE answers are a function from the attempt number to its outcome.
- `sleep` is recorded as the list of waits.
- An HTTP error on the Guardian fetch is not caught by the handler, so the request fails. The model returns `GuardianFailed(status)`. This follows the code, not a degrade-to-empty design.
- The CORE fetch never fails the handler. It swallows its own errors.
- The abstract fallback at `app/routers/plagiarism.py:118-119` is dead. Articles from `fetch_core_articles` have no `abstract` key; the abstract is already part of their `text`. The model's `CoreArticle` has no such field.
- The write of `ext["normalized_text"]` at `app/routers/plagiarism.py:162-163` is never read. It is not modelled.
- nltk's tokenizers, the stopword list, `SequenceMatcher.ratio`, the TF-IDF vectorizer and cosine, and Python's float `round` are uninterpreted functions. `compute_tfidf_similarity` is modelled only through its empty-input guard. Similarities are Dafny reals, not floats.
- `TFIDF_THRESHOLD`: the `config.py` shown does not define it. `app/utils/text_utils.py` imports it from `app.config`, which is not shown, so its value is unknown and the model takes it as the parameter `thr`.
- `extract_full_text_from_pdf_url` and `extract_full_text_from_news_article` are network calls. The PDF text is a function of the URL in `Plagiarism.Services`.
- `app/services/news_api.py`, `app/services/semantic_analysis.py`, the auth routers, `app/main.py` and the health router are not part of this model.
