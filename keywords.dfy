/**
 * `extract_keywords`: the most frequent long, alphabetic, non-stopword tokens of a text, most
 * frequent first, ties in order of first appearance (the order `FreqDist.most_common` gives).
 */
module Keywords {
  import opened Wrappers
  import opened Strings
  import opened Seqs
  import opened TextUtils

  /** The filter of the comprehension: alphabetic, not a stopword, longer than three characters. */
  predicate IsCandidate(w: string, stopWords: set<string>) {
    && |w| > 3
    && (forall i :: 0 <= i < |w| ==> IsAlpha(w[i]))
    && w !in stopWords
  }

  function KeepCandidate(stopWords: set<string>): string -> Option<string> {
    w => if IsCandidate(w, stopWords) then Some(w) else None
  }

  /** The tokens of the lower-cased text that survive the filter, in text order. */
  function Candidates(text: string, x: Externals): seq<string> {
    FilterMap(x.wordTokenize(Lower(text)), KeepCandidate(x.stopWords))
  }

  function Count(ws: seq<string>, w: string): nat {
    multiset(ws)[w]
  }

  /** The position of the first occurrence of `w` in `ws`, or `|ws|` when it does not occur. */
  function FirstIndex(ws: seq<string>, w: string): (k: nat)
    ensures k <= |ws|
    ensures k < |ws| <==> w in ws
    ensures k < |ws| ==> ws[k] == w
    ensures forall j :: 0 <= j < k ==> ws[j] != w
  {
    if ws == [] then 0 else if ws[0] == w then 0 else 1 + FirstIndex(ws[1..], w)
  }

  /** The ranking of `most_common`: higher count first, then earlier first occurrence. */
  predicate Before(ws: seq<string>, a: string, b: string) {
    Count(ws, a) > Count(ws, b) || (Count(ws, a) == Count(ws, b) && FirstIndex(ws, a) < FirstIndex(ws, b))
  }

  /** Two different words of `ws` are always ranked one way or the other. */
  lemma BeforeTotal(ws: seq<string>, a: string, b: string)
    requires a in ws && b in ws && a != b
    ensures Before(ws, a, b) || Before(ws, b, a)
  {
  }

  predicate Distinct(ws: seq<string>) {
    forall i, j :: 0 <= i < j < |ws| ==> ws[i] != ws[j]
  }

  predicate Ranked(c: seq<string>, ws: seq<string>) {
    forall i, j :: 0 <= i < j < |ws| ==> Before(c, ws[i], ws[j])
  }

  /** The distinct words of `ws`, each once. */
  function Dedup(ws: seq<string>): (ds: seq<string>)
    ensures Distinct(ds)
    ensures forall w :: w in ds <==> w in ws
  {
    if ws == [] then []
    else
      var ds := Dedup(ws[..|ws| - 1]);
      var w := ws[|ws| - 1];
      assert ws == ws[..|ws| - 1] + [w];
      if w in ds then ds else ds + [w]
  }

  /** Puts `w` into the ranked list `rs` at its place. */
  function Insert(c: seq<string>, w: string, rs: seq<string>): (r: seq<string>)
    ensures multiset(r) == multiset(rs) + multiset{w}
  {
    if rs == [] then [w]
    else if Before(c, w, rs[0]) then [w] + rs
    else
      assert rs == [rs[0]] + rs[1..];
      [rs[0]] + Insert(c, w, rs[1..])
  }

  lemma {:induction false} InsertRanked(c: seq<string>, w: string, rs: seq<string>)
    requires w in c && w !in rs && (forall v :: v in rs ==> v in c)
    requires Ranked(c, rs)
    ensures Ranked(c, Insert(c, w, rs))
  {
    if rs != [] && !Before(c, w, rs[0]) {
      BeforeTotal(c, w, rs[0]);
      InsertRanked(c, w, rs[1..]);
      var t := Insert(c, w, rs[1..]);
      assert Insert(c, w, rs) == [rs[0]] + t;
      forall v | v in t ensures Before(c, rs[0], v) {
        assert v in multiset(t);
        if v != w {
          assert v in multiset(rs[1..]);
          var k :| 0 <= k < |rs[1..]| && rs[1..][k] == v;
          assert rs[k + 1] == v;
        }
      }
    }
  }

  /** Insertion sort by the `most_common` ranking. */
  function Rank(c: seq<string>, ds: seq<string>): (r: seq<string>)
    ensures multiset(r) == multiset(ds)
  {
    if ds == [] then [] else
      assert ds == [ds[0]] + ds[1..];
      Insert(c, ds[0], Rank(c, ds[1..]))
  }

  lemma {:induction false} RankRanked(c: seq<string>, ds: seq<string>)
    requires Distinct(ds) && (forall v :: v in ds ==> v in c)
    ensures Ranked(c, Rank(c, ds))
  {
    if ds != [] {
      var rest := ds[1..];
      RankRanked(c, rest);
      var r := Rank(c, rest);
      forall v | v in r ensures v in c && v != ds[0] {
        assert v in multiset(rest);
      }
      InsertRanked(c, ds[0], r);
    }
  }

  function Take(ws: seq<string>, n: nat): (r: seq<string>)
    ensures |r| == if n < |ws| then n else |ws|
  {
    if n < |ws| then ws[..n] else ws
  }

  /** `extract_keywords(text, max_keywords)` */
  function ExtractKeywords(text: string, maxKeywords: nat, x: Externals): seq<string> {
    var c := Candidates(text, x);
    Take(Rank(c, Dedup(c)), maxKeywords)
  }

  /** The candidates are exactly the tokens of the lower-cased text that pass the filter. */
  lemma CandidatesQualify(text: string, x: Externals)
    ensures forall w :: w in Candidates(text, x) ==> IsCandidate(w, x.stopWords)
    ensures forall w :: w in x.wordTokenize(Lower(text)) && IsCandidate(w, x.stopWords) ==> w in Candidates(text, x)
  {
    var c := Candidates(text, x);
    var toks := x.wordTokenize(Lower(text));
    var origin := FilterMapOrigins(toks, KeepCandidate(x.stopWords));
    forall w | w in c ensures IsCandidate(w, x.stopWords) {
      var k :| 0 <= k < |c| && c[k] == w;
      assert KeepCandidate(x.stopWords)(toks[origin[k]]) == Some(c[k]);
    }
    forall w | w in toks && IsCandidate(w, x.stopWords) ensures w in c {
      var i :| 0 <= i < |toks| && toks[i] == w;
      assert KeepCandidate(x.stopWords)(toks[i]).Some?;
      var k :| 0 <= k < |origin| && origin[k] == i;
      assert c[k] == w;
    }
  }

  /** The ranked distinct candidates: every candidate exactly once, in ranking order. */
  lemma RankedCandidates(c: seq<string>)
    ensures var s := Rank(c, Dedup(c));
      Ranked(c, s) && Distinct(s) && forall w :: w in s <==> w in c
  {
    var ds := Dedup(c);
    var s := Rank(c, ds);
    RankRanked(c, ds);
    forall w ensures w in s <==> w in ds {
      assert w in s <==> w in multiset(s);
      assert w in ds <==> w in multiset(ds);
    }
  }

  /** A prefix of a ranked list of all the words of `c` keeps the ranking, and leaves out only
      words ranked below all it holds. */
  lemma TakeRanked(c: seq<string>, s: seq<string>, n: nat)
    requires Ranked(c, s) && Distinct(s) && forall w :: w in s <==> w in c
    ensures var r := Take(s, n);
      && Ranked(c, r) && Distinct(r) && (forall w :: w in r ==> w in c)
      && (forall w :: w in c && w !in r ==> |r| == n && forall i :: 0 <= i < |r| ==> Before(c, r[i], w))
  {
    var r := Take(s, n);
    assert forall i :: 0 <= i < |r| ==> r[i] == s[i];
    forall w | w in c && w !in r
      ensures |r| == n && forall i :: 0 <= i < |r| ==> Before(c, r[i], w)
    {
      var k :| 0 <= k < |s| && s[k] == w;
      assert n <= k;
    }
  }

  /** The keywords are at most `maxKeywords` distinct candidate tokens, ranked by frequency
      with ties in order of first appearance; a candidate is left out only when the list is
      full of candidates ranked above it. */
  lemma KeywordsSpec(text: string, maxKeywords: nat, x: Externals)
    ensures var c := Candidates(text, x);
      var r := ExtractKeywords(text, maxKeywords, x);
      && |r| <= maxKeywords
      && Distinct(r)
      && (forall i :: 0 <= i < |r| ==> r[i] in c && IsCandidate(r[i], x.stopWords))
      && Ranked(c, r)
      && (forall w :: w in c && w !in r ==>
            |r| == maxKeywords && forall i :: 0 <= i < |r| ==> Before(c, r[i], w))
  {
    var c := Candidates(text, x);
    RankedCandidates(c);
    TakeRanked(c, Rank(c, Dedup(c)), maxKeywords);
    CandidatesQualify(text, x);
  }
}
