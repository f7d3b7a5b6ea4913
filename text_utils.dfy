/**
 * The text utilities of the matching engine: normalisation, the sentence filter, the
 * degenerate-input guard of the TF-IDF similarity, and the exact and partial-phrase matchers.
 */
module TextUtils {
  import opened Wrappers
  import opened Strings
  import opened Seqs

  const MIN_WORDS_PER_SENTENCE: nat := 5
  const MIN_SENTENCE_LENGTH: nat := 15
  const SEQUENCE_THRESHOLD: real := 0.75
  const EXACT_MATCH_SCORE: real := 1.0
  /** The width of the sliding window of the partial-phrase matcher. */
  const PHRASE_WORDS: nat := 5

  /**
   * The library calls the engine makes, as uninterpreted functions:
   * nltk's `sent_tokenize` and `word_tokenize`, the English stopword list,
   * `SequenceMatcher(None, a, b).ratio()`, the cosine of the two TF-IDF vectors of a pair of
   * texts (0.0 when the vectorizer raises), and Python's `round(x, 3)` and `round(x, 1)`.
   */
  datatype Externals = Externals(
    sentTokenize: string -> seq<string>,
    wordTokenize: string -> seq<string>,
    stopWords: set<string>,
    ratio: (string, string) -> real,
    cosine: (string, string) -> real,
    round3: real -> real,
    round1: real -> real)

  /** A cosine of non-negative TF-IDF vectors lies in [0, 1]. */
  ghost predicate UnitCosine(cosine: (string, string) -> real) {
    forall a, b :: 0.0 <= cosine(a, b) <= 1.0
  }

  // ---------------------------------------------------------------------------------------
  // normalize_text

  /** `re.sub(r"[^\w\s]", " ", text)`: every character outside the word and whitespace classes
      becomes a space. */
  function ScrubPunctuation(s: string): (r: string)
    ensures |r| == |s|
  {
    seq(|s|, i requires 0 <= i < |s| => if IsWordChar(s[i]) || IsSpace(s[i]) then s[i] else ' ')
  }

  /** `re.sub(r"\s+", " ", text)`: every maximal run of whitespace becomes one space. */
  function CollapseSpaces(s: string): (r: string)
    decreases |s|
  {
    if s == [] then []
    else if IsSpace(s[0]) then [' '] + CollapseSpaces(s[LeadingSpaces(s)..])
    else [s[0]] + CollapseSpaces(s[1..])
  }

  /** `normalize_text` */
  function Normalize(text: string): string {
    Strip(CollapseSpaces(ScrubLower(text)))
  }

  /** A character normalisation may leave: the space or a lower-case word character. */
  predicate NormalChar(c: char) {
    c == ' ' || (IsWordChar(c) && !('A' <= c <= 'Z'))
  }

  /** The shape of normalised text: lower-case word characters separated by single spaces,
      with no space at either end. */
  predicate IsNormal(t: string) {
    && (forall i :: 0 <= i < |t| ==> NormalChar(t[i]))
    && SingleSpaced(t)
  }

  lemma ScrubbedChars(s: string)
    ensures forall i :: 0 <= i < |s| ==>
      var c := ScrubLower(s)[i]; IsSpace(c) || NormalChar(c)
  {
  }

  /** Collapsing empties only the empty string, and keeps whether the text starts, and whether
      it ends, with whitespace. */
  lemma {:induction false} CollapseEnds(s: string)
    ensures var r := CollapseSpaces(s);
      && (r == [] <==> s == [])
      && (s != [] ==> (IsSpace(r[0]) <==> IsSpace(s[0])))
      && (s != [] ==> (IsSpace(r[|r| - 1]) <==> IsSpace(s[|s| - 1])))
    decreases |s|
  {
    if s != [] {
      var n := if IsSpace(s[0]) then LeadingSpaces(s) else 1;
      var rest := s[n..];
      CollapseEnds(rest);
      if rest == [] {
        LeadingSpacesAreSpaces(s);
        assert IsSpace(s[|s| - 1]) <==> IsSpace(s[0]);
      } else {
        assert s[|s| - 1] == rest[|rest| - 1];
      }
    }
  }

  /** Collapsing text made of whitespace and normal characters leaves only normal ones. */
  lemma {:induction false} CollapseChars(s: string)
    requires forall i :: 0 <= i < |s| ==> IsSpace(s[i]) || NormalChar(s[i])
    ensures forall i :: 0 <= i < |CollapseSpaces(s)| ==> NormalChar(CollapseSpaces(s)[i])
    decreases |s|
  {
    if s != [] {
      var n := if IsSpace(s[0]) then LeadingSpaces(s) else 1;
      var rest := s[n..];
      assert forall i :: 0 <= i < |rest| ==> rest[i] == s[n + i];
      CollapseChars(rest);
    }
  }

  /** Collapsing leaves no two whitespace characters side by side. */
  lemma {:induction false} CollapseNoDouble(s: string)
    ensures var r := CollapseSpaces(s);
      forall i :: 0 <= i < |r| - 1 ==> !(IsSpace(r[i]) && IsSpace(r[i + 1]))
    decreases |s|
  {
    if s != [] {
      var n := if IsSpace(s[0]) then LeadingSpaces(s) else 1;
      var rest := s[n..];
      CollapseNoDouble(rest);
      CollapseEnds(rest);
      var r, rr := CollapseSpaces(s), CollapseSpaces(rest);
      assert r == [r[0]] + rr;
      if rr != [] {
        if IsSpace(s[0]) {
          assert rest[0] == s[n];
          assert !IsSpace(rr[0]);
        } else {
          assert r[0] == s[0];
        }
      }
      forall i | 0 <= i < |r| - 1 ensures !(IsSpace(r[i]) && IsSpace(r[i + 1])) {
        if i > 0 {
          assert r[i] == rr[i - 1] && r[i + 1] == rr[i];
        } else {
          assert r[1] == rr[0];
        }
      }
    }
  }

  /** What collapsing does to text whose characters are whitespace or normal: the result holds
      only normal characters, no two adjacent spaces, and starts and ends with a space exactly
      when the input does. */
  lemma CollapseShape(s: string)
    requires forall i :: 0 <= i < |s| ==> IsSpace(s[i]) || NormalChar(s[i])
    ensures var r := CollapseSpaces(s);
      && (forall i :: 0 <= i < |r| ==> NormalChar(r[i]))
      && (forall i :: 0 <= i < |r| - 1 ==> !(IsSpace(r[i]) && IsSpace(r[i + 1])))
      && (r == [] <==> s == [])
      && (s != [] ==> (IsSpace(r[0]) <==> IsSpace(s[0])))
      && (s != [] ==> (IsSpace(r[|r| - 1]) <==> IsSpace(s[|s| - 1])))
  {
    CollapseChars(s);
    CollapseNoDouble(s);
    CollapseEnds(s);
  }

  /** Stripping text made of normal characters with no doubled space gives normal text. */
  lemma StripCollapsed(k: string)
    requires forall i :: 0 <= i < |k| ==> NormalChar(k[i])
    requires forall i :: 0 <= i < |k| - 1 ==> !(IsSpace(k[i]) && IsSpace(k[i + 1]))
    ensures IsNormal(Strip(k))
  {
    var r := Strip(k);
    StripSlice(k);
    var a := LeadingSpaces(k);
    assert forall i :: 0 <= i < |r| ==> r[i] == k[a + i];
  }

  lemma CollapseKeepsEnds(s: string)
    requires forall i :: 0 <= i < |s| ==> IsSpace(s[i]) || NormalChar(s[i])
    requires s != [] && !IsSpace(s[0]) && !IsSpace(s[|s| - 1])
    ensures var c := CollapseSpaces(s); c != [] && !IsSpace(c[0]) && !IsSpace(c[|c| - 1])
  {
    CollapseShape(s);
  }

  /** Normalised text has the normal shape: no leading, trailing or doubled space, and
      punctuation never survives. */
  lemma NormalizeIsNormal(text: string)
    ensures IsNormal(Normalize(text))
  {
    var c := ScrubLower(text);
    ScrubbedChars(text);
    CollapseShape(c);
    StripCollapsed(CollapseSpaces(c));
  }

  /** Collapsing leaves single-spaced text alone. */
  lemma {:induction false} CollapseFixes(t: string)
    requires forall i :: 0 <= i < |t| && IsSpace(t[i]) ==> t[i] == ' '
    requires forall i :: 0 <= i < |t| - 1 ==> !(IsSpace(t[i]) && IsSpace(t[i + 1]))
    ensures CollapseSpaces(t) == t
    decreases |t|
  {
    if t != [] {
      if IsSpace(t[0]) {
        var a := LeadingSpaces(t);
        assert LeadingSpaces(t[1..]) == 0 by {
          if |t| > 1 { assert !IsSpace(t[1]); assert t[1..][0] == t[1]; }
        }
        CollapseFixes(t[1..]);
      } else {
        CollapseFixes(t[1..]);
      }
    }
  }

  /** Normalising normal text changes nothing. */
  lemma NormalizeFixesNormal(t: string)
    requires IsNormal(t)
    ensures Normalize(t) == t
  {
    assert Lower(t) == t;
    assert ScrubLower(t) == t;
    CollapseFixes(t);
    if t != [] {
      assert LeadingSpaces(t) == 0;
      assert TrimEnd(t, 0, |t|) == |t|;
      assert t[0..] == t && t[..|t|] == t;
    }
  }

  /** `normalize_text` is idempotent. */
  lemma NormalizeIdempotent(text: string)
    ensures Normalize(Normalize(text)) == Normalize(text)
  {
    NormalizeIsNormal(text);
    NormalizeFixesNormal(Normalize(text));
  }

  /** How far the first step of collapsing advances: past the whole leading whitespace run,
      or past one other character. */
  function Skip(s: string): (n: nat)
    requires s != []
    ensures 0 < n <= |s|
  {
    if IsSpace(s[0]) then LeadingSpaces(s) else 1
  }

  /** One step of collapsing: the first character, or one space for the leading run, then the
      collapse of what follows. */
  lemma CollapseHead(s: string)
    requires s != []
    ensures CollapseSpaces(s) == [Head(s)] + CollapseSpaces(s[Skip(s)..])
  {
  }

  /** Appending text that does not start a whitespace run leaves the first step unchanged. */
  lemma SkipAppend(x: string, y: string)
    requires x != [] && (y == [] || !IsSpace(x[|x| - 1]) || !IsSpace(y[0]))
    ensures Skip(x + y) == Skip(x)
  {
    if IsSpace(x[0]) {
      var n := LeadingSpaces(x);
      LeadingSpacesAreSpaces(x);
      assert forall i :: 0 <= i < n ==> (x + y)[i] == x[i];
      if n < |x| {
        assert (x + y)[n] == x[n];
      } else if y != [] {
        assert (x + y)[n] == y[0];
      }
      LeadingSpacesFirst(x + y, n);
    }
  }

  /** The first character collapsing emits for non-empty `s`. */
  function Head(s: string): char
    requires s != []
  {
    if IsSpace(s[0]) then ' ' else s[0]
  }

  /** The first step of collapsing `x + y` is that of `x` when the seam is not inside a
      whitespace run. */
  lemma CollapseAppendHead(x: string, y: string)
    requires x != [] && (y == [] || !IsSpace(x[|x| - 1]) || !IsSpace(y[0]))
    ensures CollapseSpaces(x + y) == [Head(x)] + CollapseSpaces(x[Skip(x)..] + y)
    ensures CollapseSpaces(x) == [Head(x)] + CollapseSpaces(x[Skip(x)..])
  {
    SkipAppend(x, y);
    HeadAppend(x, y);
    DropAppend(x, y, Skip(x));
    CollapseHead(x + y);
    CollapseHead(x);
  }

  lemma HeadAppend(x: string, y: string)
    requires x != []
    ensures Head(x + y) == Head(x)
  {
    assert (x + y)[0] == x[0];
  }

  lemma DropAppend(x: string, y: string, n: nat)
    requires n <= |x|
    ensures (x + y)[n..] == x[n..] + y
  {
  }

  /** Collapsing works piecewise wherever the seam does not fall inside a whitespace run. */
  lemma {:induction false} CollapseAppend(x: string, y: string)
    requires x == [] || y == [] || !IsSpace(x[|x| - 1]) || !IsSpace(y[0])
    ensures CollapseSpaces(x + y) == CollapseSpaces(x) + CollapseSpaces(y)
    decreases |x|
  {
    if x == [] {
      assert x + y == y;
    } else {
      var rest := x[Skip(x)..];
      assert rest != [] ==> rest[|rest| - 1] == x[|x| - 1];
      CollapseAppend(rest, y);
      CollapseAppendHead(x, y);
      Assoc([Head(x)], CollapseSpaces(rest), CollapseSpaces(y));
    }
  }

  lemma Assoc(a: string, b: string, c: string)
    ensures a + (b + c) == (a + b) + c
  {
  }

  /** A stretch that starts and ends with non-whitespace collapses on its own, whatever
      surrounds it. */
  lemma CollapseAround(x: string, core: string, z: string)
    requires core != [] && !IsSpace(core[0]) && !IsSpace(core[|core| - 1])
    ensures CollapseSpaces(x + core + z) == CollapseSpaces(x) + CollapseSpaces(core) + CollapseSpaces(z)
  {
    Assoc(x, core, z);
    CollapseAppend(x, core + z);
    CollapseAppend(core, z);
    Assoc(CollapseSpaces(x), CollapseSpaces(core), CollapseSpaces(z));
  }

  /** Whitespace collapses to at most one space. */
  lemma CollapseBlank(y: string)
    requires IsBlank(y)
    ensures y == [] ==> CollapseSpaces(y) == []
    ensures y != [] ==> CollapseSpaces(y) == [' ']
  {
    if y != [] {
      LeadingSpacesFirst(y, |y|);
      assert y[|y|..] == [];
    }
  }

  /** The per-character part of normalisation: lower-casing and scrubbing punctuation. */
  function ScrubLower(s: string): (r: string)
    ensures |r| == |s|
  {
    ScrubPunctuation(Lower(s))
  }

  lemma ScrubLowerAppend(a: string, b: string)
    ensures ScrubLower(a + b) == ScrubLower(a) + ScrubLower(b)
  {
  }

  /** Normalisation is stripping whitespace first, then collapsing the inner runs; the result
      is the collapse of the scrubbed text between its outer whitespace. */
  lemma NormalizeCore(y: string) returns (p: string, core: string, q: string)
    requires forall i :: 0 <= i < |y| ==> IsSpace(y[i]) || NormalChar(y[i])
    requires Strip(CollapseSpaces(y)) != []
    ensures y == p + core + q && IsBlank(p) && IsBlank(q)
    ensures core != [] && !IsSpace(core[0]) && !IsSpace(core[|core| - 1])
    ensures Strip(CollapseSpaces(y)) == CollapseSpaces(core)
    ensures CollapseSpaces(core) != []
    ensures !IsSpace(CollapseSpaces(core)[0]) && !IsSpace(CollapseSpaces(core)[|CollapseSpaces(core)| - 1])
  {
    core := Strip(y);
    p, q := StripDecompose(y);
    NonBlankCore(y);
    MiddleChars(p, core, q);
    CollapseKeepsEnds(core);
    StripCollapseFramed(p, core, q);
  }

  /** Collapsing a stretch with only whitespace around it, then stripping, gives the collapse
      of the stretch alone. */
  lemma StripCollapseFramed(p: string, core: string, q: string)
    requires IsBlank(p) && IsBlank(q)
    requires core != [] && !IsSpace(core[0]) && !IsSpace(core[|core| - 1])
    requires var c := CollapseSpaces(core); c != [] && !IsSpace(c[0]) && !IsSpace(c[|c| - 1])
    ensures Strip(CollapseSpaces(p + core + q)) == CollapseSpaces(core)
  {
    var c := CollapseSpaces(core);
    var cp, cq := CollapseSpaces(p), CollapseSpaces(q);
    CollapseAround(p, core, q);
    CollapseBlank(p);
    CollapseBlank(q);
    StripBlankFrame(cp, c, cq);
  }

  /** Text that does not collapse to whitespace strips to a stretch with non-whitespace
      ends. */
  lemma NonBlankCore(y: string)
    requires Strip(CollapseSpaces(y)) != []
    ensures var core := Strip(y); core != [] && !IsSpace(core[0]) && !IsSpace(core[|core| - 1])
  {
    StripSlice(y);
    if IsBlank(y) {
      CollapseBlank(y);
      StripSlice(CollapseSpaces(y));
    }
  }

  lemma MiddleChars(p: string, core: string, q: string)
    requires forall i :: 0 <= i < |p + core + q| ==> IsSpace((p + core + q)[i]) || NormalChar((p + core + q)[i])
    ensures forall i :: 0 <= i < |core| ==> IsSpace(core[i]) || NormalChar(core[i])
  {
    forall i | 0 <= i < |core| ensures IsSpace(core[i]) || NormalChar(core[i]) {
      assert core[i] == (p + core + q)[|p| + i];
    }
  }

  lemma ScrubLowerThree(a: string, b: string, c: string)
    ensures ScrubLower(a + b + c) == ScrubLower(a) + ScrubLower(b) + ScrubLower(c)
  {
    ScrubLowerAppend(a + b, c);
    ScrubLowerAppend(a, b);
  }

  /** A sentence copied verbatim into a text, with anything before and after it, survives
      normalisation of that text as a substring of it. */
  lemma VerbatimContained(before: string, sentence: string, after: string)
    requires Normalize(sentence) != []
    ensures Contains(Normalize(before + sentence + after), Normalize(sentence))
  {
    var y := ScrubLower(sentence);
    ScrubbedChars(sentence);
    var p, core, q := NormalizeCore(y);
    var c := CollapseSpaces(core);
    var x := ScrubLower(before) + p;
    var z := q + ScrubLower(after);
    ScrubLowerThree(before, sentence, after);
    Regroup(ScrubLower(before), p, core, q, ScrubLower(after));
    CollapseAround(x, core, z);
    StripFrame(CollapseSpaces(x), c, CollapseSpaces(z));
    ContainsIff(Normalize(before + sentence + after), c);
  }

  // ---------------------------------------------------------------------------------------
  // get_meaningful_sentences

  /** The filter of `get_meaningful_sentences`: enough tokens, and long enough once stripped. */
  predicate IsMeaningful(sentence: string, wordTokenize: string -> seq<string>) {
    |wordTokenize(sentence)| >= MIN_WORDS_PER_SENTENCE && |Strip(sentence)| >= MIN_SENTENCE_LENGTH
  }

  function KeepMeaningful(wordTokenize: string -> seq<string>): string -> Option<string> {
    s => if IsMeaningful(s, wordTokenize) then Some(Strip(s)) else None
  }

  /** The stripped meaningful sentences, in tokenizer order. */
  function MeaningfulSentences(sentences: seq<string>, wordTokenize: string -> seq<string>): seq<string> {
    FilterMap(sentences, KeepMeaningful(wordTokenize))
  }

  /** `get_meaningful_sentences` */
  method GetMeaningfulSentences(text: string, x: Externals) returns (filtered: seq<string>)
    ensures filtered == MeaningfulSentences(x.sentTokenize(text), x.wordTokenize)
  {
    var sentences := x.sentTokenize(text);
    filtered := [];
    for k := 0 to |sentences|
      invariant filtered == MeaningfulSentences(sentences[..k], x.wordTokenize)
    {
      var s := sentences[k];
      var words := x.wordTokenize(s);
      FilterMapSnoc(sentences, k, KeepMeaningful(x.wordTokenize));
      if |words| >= MIN_WORDS_PER_SENTENCE && |Strip(s)| >= MIN_SENTENCE_LENGTH {
        filtered := filtered + [Strip(s)];
      }
    }
    assert sentences[..|sentences|] == sentences;
  }

  /** The kept sentences are exactly the stripped qualifying ones, in tokenizer order: each
      output comes from its own input position, the positions increase, every qualifying
      sentence is among them, and every output is long enough and blank-free at both ends. */
  lemma MeaningfulSentencesSpec(sentences: seq<string>, wordTokenize: string -> seq<string>)
    returns (origin: seq<nat>)
    ensures var kept := MeaningfulSentences(sentences, wordTokenize);
      && |origin| == |kept| <= |sentences|
      && StrictlyIncreasing(origin)
      && (forall k :: 0 <= k < |kept| ==>
            && origin[k] < |sentences|
            && IsMeaningful(sentences[origin[k]], wordTokenize)
            && kept[k] == Strip(sentences[origin[k]])
            && |kept[k]| >= MIN_SENTENCE_LENGTH)
      && (forall i :: 0 <= i < |sentences| && IsMeaningful(sentences[i], wordTokenize) ==> i in origin)
  {
    var f := KeepMeaningful(wordTokenize);
    origin := FilterMapOrigins(sentences, f);
    var kept := MeaningfulSentences(sentences, wordTokenize);
    forall k | 0 <= k < |kept|
      ensures IsMeaningful(sentences[origin[k]], wordTokenize) && kept[k] == Strip(sentences[origin[k]])
    {
      assert f(sentences[origin[k]]) == Some(kept[k]);
    }
    forall i | 0 <= i < |sentences| && IsMeaningful(sentences[i], wordTokenize) ensures i in origin {
      assert f(sentences[i]).Some?;
    }
  }

  // ---------------------------------------------------------------------------------------
  // compute_tfidf_similarity

  /** `compute_tfidf_similarity`: 0.0 when either text is empty, otherwise the cosine of the
      two TF-IDF vectors. */
  function TfIdfSimilarity(text1: string, text2: string, cosine: (string, string) -> real): (sim: real)
    ensures text1 == [] || text2 == [] ==> sim == 0.0
    ensures text1 != [] && text2 != [] ==> sim == cosine(text1, text2)
    ensures UnitCosine(cosine) ==> 0.0 <= sim <= 1.0
  {
    if text1 == [] || text2 == [] then 0.0 else cosine(text1, text2)
  }

  // ---------------------------------------------------------------------------------------
  // find_exact_matches

  /** `find_exact_matches`: the exact-match score when the normalised sentence occurs in the
      normalised text; otherwise the TF-IDF similarity, computed only when the character ratio
      clears its gate and returned only when it clears its own threshold. */
  function FindExactMatch(sentence: string, externalText: string, x: Externals, tfidfThreshold: real): Option<real> {
    var ns := Normalize(sentence);
    var ne := Normalize(externalText);
    if |ns| < MIN_SENTENCE_LENGTH then None
    else if Contains(ne, ns) then Some(EXACT_MATCH_SCORE)
    else if x.ratio(ns, ne) >= SEQUENCE_THRESHOLD then
      var tfidf := TfIdfSimilarity(ns, ne, x.cosine);
      if tfidf >= tfidfThreshold then Some(tfidf) else None
    else None
  }

  /** When the exact matcher answers, and with what. */
  lemma ExactMatchCases(sentence: string, externalText: string, x: Externals, tfidfThreshold: real)
    ensures var ns := Normalize(sentence);
      var ne := Normalize(externalText);
      var r := FindExactMatch(sentence, externalText, x, tfidfThreshold);
      && (|ns| < MIN_SENTENCE_LENGTH ==> r == None)
      && (|ns| >= MIN_SENTENCE_LENGTH && Contains(ne, ns) ==> r == Some(EXACT_MATCH_SCORE))
      && (r.Some? && r.value != EXACT_MATCH_SCORE ==>
            && x.ratio(ns, ne) >= SEQUENCE_THRESHOLD
            && r.value >= tfidfThreshold
            && r.value == TfIdfSimilarity(ns, ne, x.cosine))
      && (r.Some? <==> |ns| >= MIN_SENTENCE_LENGTH
                       && (Contains(ne, ns)
                           || (x.ratio(ns, ne) >= SEQUENCE_THRESHOLD
                               && TfIdfSimilarity(ns, ne, x.cosine) >= tfidfThreshold)))
      && (UnitCosine(x.cosine) ==> r.Some? ==> 0.0 <= r.value <= 1.0)
  {
    var ns := Normalize(sentence);
    if |ns| >= MIN_SENTENCE_LENGTH {
      assert ns != [];
    }
  }

  /** A sentence copied verbatim into a source text is an exact match of it, whatever the
      ratio and TF-IDF oracles answer. */
  lemma ExactMatchVerbatim(before: string, sentence: string, after: string, x: Externals, tfidfThreshold: real)
    requires |Normalize(sentence)| >= MIN_SENTENCE_LENGTH
    ensures FindExactMatch(sentence, before + sentence + after, x, tfidfThreshold) == Some(EXACT_MATCH_SCORE)
  {
    VerbatimContained(before, sentence, after);
  }

  /** Below the ratio gate the TF-IDF similarity is never consulted: any two cosine oracles
      give the same answer. */
  lemma ExactMatchSkipsTfIdfBelowGate(sentence: string, externalText: string, x: Externals,
                                      cosine2: (string, string) -> real, tfidfThreshold: real)
    requires x.ratio(Normalize(sentence), Normalize(externalText)) < SEQUENCE_THRESHOLD
    ensures FindExactMatch(sentence, externalText, x, tfidfThreshold)
         == FindExactMatch(sentence, externalText, x.(cosine := cosine2), tfidfThreshold)
  {
  }

  // ---------------------------------------------------------------------------------------
  // find_partial_phrase_match

  /** The phrase of five consecutive words starting at word `i`, joined by single spaces. */
  function Window(words: seq<string>, i: nat): string
    requires i + PHRASE_WORDS <= |words|
  {
    Join(words[i..i + PHRASE_WORDS])
  }

  /** Window `i` qualifies: long enough, and a literal substring of the normalised text. */
  predicate WindowHits(words: seq<string>, i: nat, normalizedExternal: string)
    requires i + PHRASE_WORDS <= |words|
  {
    |Window(words, i)| >= MIN_SENTENCE_LENGTH && Contains(normalizedExternal, Window(words, i))
  }

  /** The lowest window index at or after `i` that qualifies. */
  function FirstHitFrom(words: seq<string>, normalizedExternal: string, i: nat): (r: Option<nat>)
    ensures r.Some? ==> i <= r.value && r.value + PHRASE_WORDS <= |words|
    decreases |words| - i
  {
    if i + PHRASE_WORDS > |words| then None
    else if WindowHits(words, i, normalizedExternal) then Some(i)
    else FirstHitFrom(words, normalizedExternal, i + 1)
  }

  lemma {:induction false} FirstHitFromSpec(words: seq<string>, normalizedExternal: string, i: nat)
    ensures match FirstHitFrom(words, normalizedExternal, i)
      case Some(k) =>
        && i <= k && k + PHRASE_WORDS <= |words|
        && WindowHits(words, k, normalizedExternal)
        && forall j :: i <= j < k ==> !WindowHits(words, j, normalizedExternal)
      case None =>
        forall j :: i <= j && j + PHRASE_WORDS <= |words| ==> !WindowHits(words, j, normalizedExternal)
    decreases |words| - i
  {
    if i + PHRASE_WORDS <= |words| && !WindowHits(words, i, normalizedExternal) {
      FirstHitFromSpec(words, normalizedExternal, i + 1);
    }
  }

  /** What `find_partial_phrase_match` returns, as a function. */
  function PartialPhraseMatch(sentence: string, externalText: string, x: Externals): Option<(string, real)> {
    var ne := Normalize(externalText);
    var words := Split(Normalize(sentence));
    if |words| < PHRASE_WORDS then None
    else
      match FirstHitFrom(words, ne, 0)
      case None => None
      case Some(i) =>
        var phrase := Window(words, i);
        Some((phrase, TfIdfSimilarity(phrase, ne, x.cosine)))
  }

  /** `find_partial_phrase_match`: slides the five-word window and returns at the first hit. */
  method FindPartialPhraseMatch(sentence: string, externalText: string, x: Externals)
    returns (r: Option<(string, real)>)
    ensures r == PartialPhraseMatch(sentence, externalText, x)
  {
    var normalizedSentence := Normalize(sentence);
    var normalizedExternal := Normalize(externalText);
    var words := Split(normalizedSentence);
    if |words| < PHRASE_WORDS {
      return None;
    }
    for i := 0 to |words| - (PHRASE_WORDS - 1)
      invariant FirstHitFrom(words, normalizedExternal, 0) == FirstHitFrom(words, normalizedExternal, i)
    {
      var phrase := Join(words[i..i + PHRASE_WORDS]);
      if |phrase| < MIN_SENTENCE_LENGTH {
        continue;
      }
      if Contains(normalizedExternal, phrase) {
        var sim := TfIdfSimilarity(phrase, normalizedExternal, x.cosine);
        return Some((phrase, sim));
      }
    }
    return None;
  }

  /** The partial matcher answers with the lowest qualifying window and the TF-IDF similarity of
      that phrase to the normalised text, with no threshold; it answers None exactly when no
      window qualifies, in particular for fewer than five words. */
  lemma PartialPhraseIsFirstHit(sentence: string, externalText: string, x: Externals)
    ensures var words := Split(Normalize(sentence));
      var ne := Normalize(externalText);
      var r := PartialPhraseMatch(sentence, externalText, x);
      && (|words| < PHRASE_WORDS ==> r == None)
      && (r == None <==> forall i: nat :: i + PHRASE_WORDS <= |words| ==> !WindowHits(words, i, ne))
      && (r.Some? ==> exists i: nat :: && i + PHRASE_WORDS <= |words|
                                  && WindowHits(words, i, ne)
                                  && (forall j: nat :: j < i ==> !WindowHits(words, j, ne))
                                  && r.value.0 == Window(words, i)
                                  && |r.value.0| >= MIN_SENTENCE_LENGTH
                                  && Contains(ne, r.value.0)
                                  && r.value.1 == TfIdfSimilarity(r.value.0, ne, x.cosine))
  {
    var words := Split(Normalize(sentence));
    var ne := Normalize(externalText);
    FirstHitFromSpec(words, ne, 0);
  }
}
