/**
 * The CORE academic search client: up to three attempts with exponential back-off, and the
 * text assembled for each returned work. The server's answer to each attempt is given as a
 * function of the attempt number.
 */
module CoreApi {
  import opened Wrappers
  import opened Strings

  const MAX_ATTEMPTS: nat := 3

  /** One returned work; `None` is a missing key. */
  datatype Work = Work(abstractText: Option<string>, title: Option<string>, fullText: Option<string>,
                       downloadUrl: Option<string>, id: Option<string>)

  /** What one attempt ends with: the works of a parsed answer, an HTTP error status, a failure
      before any answer (network error, timeout), or a failure part-way through parsing the
      answer, after the works listed were already appended. */
  datatype Attempt =
    | Fetched(works: seq<Work>)
    | StatusError(status: int)
    | RequestFailed
    | ParseFailed(appended: seq<Work>)

  datatype CoreArticle = CoreArticle(text: string, downloadUrl: Option<string>, title: string, id: string, kind: string)

  /** Python's truthiness of an optional string: present and non-empty. */
  predicate Truthy(v: Option<string>) {
    v.Some? && v.value != ""
  }

  /** `work.get(key, default)` */
  function GetOr(v: Option<string>, fallback: string): string {
    if v.Some? then v.value else fallback
  }

  /** The abstract, the title and the full text, in that order, each when present and
      non-empty. */
  function Parts(w: Work): (parts: seq<string>)
    ensures forall i :: 0 <= i < |parts| ==> parts[i] != []
  {
    (if Truthy(w.abstractText) then [w.abstractText.value] else [])
    + (if Truthy(w.title) then [w.title.value] else [])
    + (if Truthy(w.fullText) then [w.fullText.value] else [])
  }

  /** `" ".join(parts).strip()` */
  function WorkText(w: Work): string {
    Strip(Join(Parts(w)))
  }

  function ToCoreArticle(w: Work): (a: CoreArticle)
    ensures a.text == WorkText(w)
    ensures a.kind == "academic" && a.downloadUrl == w.downloadUrl
    ensures a.title == GetOr(w.title, "Unknown") && a.id == GetOr(w.id, "")
  {
    CoreArticle(WorkText(w), w.downloadUrl, GetOr(w.title, "Unknown"), GetOr(w.id, ""), "academic")
  }

  function ToCoreArticles(works: seq<Work>): (arts: seq<CoreArticle>)
    ensures |arts| == |works|
  {
    seq(|works|, i requires 0 <= i < |works| => ToCoreArticle(works[i]))
  }

  /** The loop body over one work: `parts` built by successive appends, then joined and
      stripped. */
  method AssembleText(w: Work) returns (text: string)
    ensures text == WorkText(w)
  {
    var parts: seq<string> := [];
    if Truthy(w.abstractText) {
      parts := parts + [w.abstractText.value];
    }
    if Truthy(w.title) {
      parts := parts + [w.title.value];
    }
    if Truthy(w.fullText) {
      parts := parts + [w.fullText.value];
    }
    assert parts == Parts(w);
    text := Strip(Join(parts));
  }

  /** `Join(ws)` holds each of its pieces at some position. */
  lemma {:induction false} JoinHolds(ws: seq<string>, k: nat) returns (before: string, after: string)
    requires k < |ws|
    ensures Join(ws) == before + ws[k] + after
  {
    if k == 0 {
      before := [];
      after := if |ws| == 1 then [] else " " + Join(ws[1..]);
    } else {
      var b, a := JoinHolds(ws[1..], k - 1);
      before := ws[0] + " " + b;
      after := a;
    }
  }

  /** Joining whitespace-only pieces gives whitespace only. */
  lemma {:induction false} JoinBlank(ws: seq<string>)
    requires forall i :: 0 <= i < |ws| ==> IsBlank(ws[i])
    ensures IsBlank(Join(ws))
  {
    if |ws| > 1 {
      JoinBlank(ws[1..]);
      var t := Join(ws[1..]);
      assert Join(ws) == ws[0] + " " + t;
      forall i | 0 <= i < |Join(ws)| ensures IsSpace(Join(ws)[i]) {
        if i < |ws[0]| {
          assert Join(ws)[i] == ws[0][i];
        } else if i > |ws[0]| {
          assert Join(ws)[i] == t[i - |ws[0]| - 1];
        }
      }
    }
  }

  /** The text of a work holds each of its parts, stripped, and is empty exactly when every
      part is whitespace. */
  lemma WorkTextHoldsParts(w: Work)
    ensures forall i :: 0 <= i < |Parts(w)| ==> Contains(WorkText(w), Strip(Parts(w)[i]))
    ensures WorkText(w) == [] <==> forall i :: 0 <= i < |Parts(w)| ==> IsBlank(Parts(w)[i])
  {
    var parts := Parts(w);
    forall i | 0 <= i < |parts| ensures Contains(WorkText(w), Strip(parts[i])) {
      PartHeld(parts, i);
    }
    if forall i :: 0 <= i < |parts| ==> IsBlank(parts[i]) {
      JoinBlank(parts);
      StripSlice(Join(parts));
    } else {
      var i :| 0 <= i < |parts| && !IsBlank(parts[i]);
      PartHeld(parts, i);
      StripSlice(parts[i]);
      ContainsIff(WorkText(w), Strip(parts[i]));
    }
  }

  lemma PartHeld(parts: seq<string>, i: nat)
    requires i < |parts|
    ensures Contains(Strip(Join(parts)), Strip(parts[i]))
  {
    var core := Strip(parts[i]);
    var joined := Join(parts);
    if core == [] {
      assert core <= Strip(joined);
    } else {
      var before, after := JoinHolds(parts, i);
      var p, q := StripDecompose(parts[i]);
      Regroup(before, p, core, q, after);
      assert !IsSpace(core[0]) && !IsSpace(core[|core| - 1]) by {
        StripSlice(parts[i]);
      }
      StripKeepsCore(joined, before + p, core, q + after);
    }
  }

  // ---------------------------------------------------------------------------------------
  // fetch_core_articles

  /** An attempt after which the source sleeps and tries again, unless it was the last. */
  predicate Retryable(a: Attempt) {
    (a.StatusError? && a.status >= 500) || a.RequestFailed? || a.ParseFailed?
  }

  /** Whether the source sleeps and tries again after attempt number `attempt` (from 0): a
      parsed answer ends the loop, an HTTP status is retried only when it is 5xx, any other
      failure is retried, and nothing follows the last attempt. */
  function RetriesAfter(a: Attempt, attempt: nat): (retry: bool)
    ensures retry <==> Retryable(a) && attempt < MAX_ATTEMPTS - 1
  {
    match a
    case Fetched(_) => false
    case StatusError(status) => status >= 500 && attempt < MAX_ATTEMPTS - 1
    case _ => attempt < MAX_ATTEMPTS - 1
  }

  /** The articles an attempt appends: all its works when parsed, the ones already appended
      when parsing failed part-way, none otherwise. */
  function Contribution(a: Attempt): seq<CoreArticle> {
    match a
    case Fetched(works) => ToCoreArticles(works)
    case ParseFailed(appended) => ToCoreArticles(appended)
    case _ => []
  }

  /** The articles of the first `n` attempts, in order. */
  function Gathered(outcome: nat -> Attempt, n: nat): seq<CoreArticle> {
    if n == 0 then [] else Gathered(outcome, n - 1) + Contribution(outcome(n - 1))
  }

  lemma GatheredStep(outcome: nat -> Attempt, n: nat)
    ensures Gathered(outcome, n + 1) == Gathered(outcome, n) + Contribution(outcome(n))
  {
  }

  /** `2 ** n`, the back-off factor. */
  function Pow2(n: nat): nat {
    if n == 0 then 1 else 2 * Pow2(n - 1)
  }

  /** Each of the first `n` attempts failed in a way that is retried. */
  predicate RetriedBefore(outcome: nat -> Attempt, n: nat) {
    forall i :: 0 <= i < n ==> Retryable(outcome(i))
  }

  lemma RetriedExtend(outcome: nat -> Attempt, n: nat)
    requires RetriedBefore(outcome, n) && Retryable(outcome(n))
    ensures RetriedBefore(outcome, n + 1)
  {
  }

  /** The `i`-th wait lasts `2^i` seconds: 1, then 2. */
  predicate Backoff(waits: seq<nat>) {
    forall i :: 0 <= i < |waits| ==> waits[i] == Pow2(i)
  }

  lemma BackoffExtend(waits: seq<nat>)
    requires Backoff(waits)
    ensures Backoff(waits + [Pow2(|waits|)])
  {
  }

  /** Whatever ends a run of the loop, the attempts made and the articles kept are the ones
      `FetchCoreArticles` promises: this pins them down when the first attempt fails part-way
      through parsing and the second one succeeds. The works appended before the failure stay,
      and the works of the retry follow them. */
  lemma ParseFailureKept(outcome: nat -> Attempt, attempts: nat, appended: seq<Work>, works: seq<Work>)
    requires outcome(0) == ParseFailed(appended) && outcome(1) == Fetched(works)
    requires 1 <= attempts <= MAX_ATTEMPTS && RetriedBefore(outcome, attempts - 1)
    requires attempts < MAX_ATTEMPTS ==> !Retryable(outcome(attempts - 1))
    ensures attempts == 2
    ensures Gathered(outcome, attempts) == ToCoreArticles(appended) + ToCoreArticles(works)
  {
    assert Retryable(outcome(0)) && !Retryable(outcome(1));
    GatheredTwo(outcome);
    assert Contribution(outcome(0)) == ToCoreArticles(appended);
    assert Contribution(outcome(1)) == ToCoreArticles(works);
  }

  lemma GatheredTwo(outcome: nat -> Attempt)
    ensures Gathered(outcome, 2) == Contribution(outcome(0)) + Contribution(outcome(1))
  {
    GatheredStep(outcome, 0);
    GatheredStep(outcome, 1);
    assert Gathered(outcome, 0) == [];
    assert [] + Contribution(outcome(0)) == Contribution(outcome(0));
  }

  /** `fetch_core_articles`: tries up to three times; after a retryable failure that is not the
      last attempt, waits `2^attempt` seconds (`waits` lists the waits) and tries again. */
  method FetchCoreArticles(apiKey: string, outcome: nat -> Attempt)
    returns (articles: seq<CoreArticle>, attempts: nat, waits: seq<nat>)
    ensures apiKey == "" ==> articles == [] && attempts == 0 && waits == []
    ensures apiKey != "" ==> 1 <= attempts <= MAX_ATTEMPTS
    ensures apiKey != "" ==> RetriedBefore(outcome, attempts - 1)
    ensures apiKey != "" && attempts < MAX_ATTEMPTS ==> !Retryable(outcome(attempts - 1))
    ensures apiKey != "" ==> |waits| == attempts - 1
    ensures Backoff(waits)
    ensures articles == Gathered(outcome, attempts)
  {
    articles, attempts, waits := [], 0, [];
    if apiKey == "" {
      return;
    }
    for attempt := 0 to MAX_ATTEMPTS
      invariant attempt < MAX_ATTEMPTS && attempts == attempt
      invariant RetriedBefore(outcome, attempt)
      invariant |waits| == attempt && Backoff(waits)
      invariant articles == Gathered(outcome, attempt)
    {
      var a := outcome(attempt);
      attempts := attempt + 1;
      GatheredStep(outcome, attempt);
      articles := articles + Contribution(a);
      var retry := RetriesAfter(a, attempt);
      if !retry {
        break;
      }
      BackoffExtend(waits);
      RetriedExtend(outcome, attempt);
      waits := waits + [Pow2(attempt)];
    }
  }
}
