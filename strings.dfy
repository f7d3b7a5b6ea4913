/**
 * The pieces of Python's `str` and `re` behaviour the matching engine relies on:
 * the whitespace and word character classes, `lower()`, `strip()`, `split()`,
 * `" ".join(...)` and the `in` substring test.
 */
module Strings {

  /** Python's `str.isspace()`: tab, line feed, vertical tab, form feed, carriage return, the
      four information separators, the space, next line, no-break space, the Unicode space
      separators and the line and paragraph separators. `\s`, `split()` and `strip()` all use
      this class. */
  predicate IsSpace(c: char) {
    || ('\t' <= c <= '\r') || ('\U{1c}' <= c <= ' ')
    || c == '\U{85}' || c == '\U{a0}' || c == '\U{1680}'
    || ('\U{2000}' <= c <= '\U{200a}') || c == '\U{2028}' || c == '\U{2029}'
    || c == '\U{202f}' || c == '\U{205f}' || c == '\U{3000}'
  }

  /** The regular-expression word class `\w`, restricted to ASCII. */
  predicate IsWordChar(c: char) {
    ('a' <= c <= 'z') || ('A' <= c <= 'Z') || ('0' <= c <= '9') || c == '_'
  }

  /** `str.isalpha()` on one character, restricted to ASCII. */
  predicate IsAlpha(c: char) {
    ('a' <= c <= 'z') || ('A' <= c <= 'Z')
  }

  /** `str.lower()` on one character, restricted to ASCII. */
  function ToLower(c: char): (d: char)
    ensures !('A' <= d <= 'Z')
    ensures IsWordChar(d) <==> IsWordChar(c)
    ensures IsAlpha(d) <==> IsAlpha(c)
    ensures IsSpace(d) <==> IsSpace(c)
  {
    if 'A' <= c <= 'Z' then (c as int + 32) as char else c
  }

  function Lower(s: string): (r: string)
    ensures |r| == |s|
  {
    seq(|s|, i requires 0 <= i < |s| => ToLower(s[i]))
  }

  predicate IsBlank(s: string) {
    forall i :: 0 <= i < |s| ==> IsSpace(s[i])
  }

  /** The number of whitespace characters `s` starts with. */
  function LeadingSpaces(s: string): (n: nat)
    ensures n <= |s|
    ensures n == |s| || !IsSpace(s[n])
  {
    if s != [] && IsSpace(s[0]) then 1 + LeadingSpaces(s[1..]) else 0
  }

  lemma {:induction false} LeadingSpacesAreSpaces(s: string)
    ensures forall i :: 0 <= i < LeadingSpaces(s) ==> IsSpace(s[i])
  {
    if s != [] && IsSpace(s[0]) {
      LeadingSpacesAreSpaces(s[1..]);
      assert forall i :: 1 <= i < LeadingSpaces(s) ==> s[i] == s[1..][i - 1];
    }
  }

  /** The number of non-whitespace characters `s` starts with. */
  function TokenLength(s: string): (n: nat)
    ensures n <= |s|
    ensures n == |s| || IsSpace(s[n])
  {
    if s != [] && !IsSpace(s[0]) then 1 + TokenLength(s[1..]) else 0
  }

  lemma {:induction false} TokenHasNoSpace(s: string)
    ensures forall i :: 0 <= i < TokenLength(s) ==> !IsSpace(s[i])
  {
    if s != [] && !IsSpace(s[0]) {
      TokenHasNoSpace(s[1..]);
      assert forall i :: 1 <= i < TokenLength(s) ==> s[i] == s[1..][i - 1];
    }
  }

  /** The end of `s[lo..j]` once its trailing whitespace is cut off. */
  function TrimEnd(s: string, lo: nat, j: nat): (e: nat)
    requires lo <= j <= |s|
    ensures lo <= e <= j
    ensures e == lo || !IsSpace(s[e - 1])
    decreases j
  {
    if j > lo && IsSpace(s[j - 1]) then TrimEnd(s, lo, j - 1) else j
  }

  lemma {:induction false} TrimEndSpaces(s: string, lo: nat, j: nat)
    requires lo <= j <= |s|
    ensures forall i :: TrimEnd(s, lo, j) <= i < j ==> IsSpace(s[i])
    decreases j
  {
    if j > lo && IsSpace(s[j - 1]) {
      TrimEndSpaces(s, lo, j - 1);
    }
  }

  /** `s.strip()`: the slice between the leading and the trailing whitespace. */
  function Strip(s: string): string {
    var a := LeadingSpaces(s);
    s[a..TrimEnd(s, a, |s|)]
  }

  /** Leading whitespace stops at the first non-whitespace character. */
  lemma LeadingStopsAt(s: string, k: nat)
    requires k < |s| && !IsSpace(s[k])
    ensures LeadingSpaces(s) <= k
  {
    LeadingSpacesAreSpaces(s);
  }

  /** Trailing whitespace stops after the last non-whitespace character. */
  lemma TrimEndStops(s: string, lo: nat, k: nat)
    requires lo <= k < |s| && !IsSpace(s[k])
    ensures k < TrimEnd(s, lo, |s|)
  {
    TrimEndSpaces(s, lo, |s|);
  }

  /** `LeadingSpaces` is the index of the first non-whitespace character. */
  lemma LeadingSpacesFirst(s: string, k: nat)
    requires k <= |s| && (forall i :: 0 <= i < k ==> IsSpace(s[i])) && (k == |s| || !IsSpace(s[k]))
    ensures LeadingSpaces(s) == k
  {
    LeadingSpacesAreSpaces(s);
  }

  /** `TrimEnd` is the end of the last non-whitespace character. */
  lemma TrimEndLast(s: string, lo: nat, k: nat)
    requires lo <= k <= |s| && (forall i :: k <= i < |s| ==> IsSpace(s[i]))
    requires k == lo || !IsSpace(s[k - 1])
    ensures TrimEnd(s, lo, |s|) == k
  {
    TrimEndSpaces(s, lo, |s|);
  }

  /** `strip()` keeps the slice of `s` between its leading and its trailing whitespace, and
      is empty exactly when `s` is blank. */
  lemma StripSlice(s: string)
    ensures LeadingSpaces(s) + |Strip(s)| <= |s|
    ensures Strip(s) == s[LeadingSpaces(s)..LeadingSpaces(s) + |Strip(s)|]
    ensures Strip(s) != [] ==> !IsSpace(Strip(s)[0]) && !IsSpace(Strip(s)[|Strip(s)| - 1])
    ensures Strip(s) == [] <==> IsBlank(s)
  {
    var a := LeadingSpaces(s);
    var e := TrimEnd(s, a, |s|);
    var r := Strip(s);
    assert r == s[a..e];
    if a < |s| {
      TrimEndStops(s, a, a);
      assert r[0] == s[a];
      assert r[|r| - 1] == s[e - 1];
      assert !IsBlank(s);
    } else {
      LeadingSpacesAreSpaces(s);
    }
  }

  /** A string is its leading whitespace, its stripped form and its trailing whitespace. */
  lemma StripDecompose(s: string) returns (p: string, q: string)
    ensures s == p + Strip(s) + q && IsBlank(p) && IsBlank(q)
  {
    var a := LeadingSpaces(s);
    var e := TrimEnd(s, a, |s|);
    p := s[..a];
    q := s[e..];
    assert s == p + s[a..e] + q;
    assert IsBlank(p) by {
      LeadingSpacesAreSpaces(s);
    }
    assert IsBlank(q) by {
      TrimEndSpaces(s, a, |s|);
    }
  }

  /** Stripping never cuts into a stretch that starts and ends with non-whitespace. */
  lemma StripFrame(p: string, c: string, q: string)
    requires c != [] && !IsSpace(c[0]) && !IsSpace(c[|c| - 1])
    ensures exists i :: OccursAt(Strip(p + c + q), c, i)
  {
    var w := p + c + q;
    var m := |p| + |c|;
    var ls := LeadingSpaces(w);
    assert ls <= |p| by {
      assert w[|p|] == c[0];
      LeadingStopsAt(w, |p|);
    }
    var e := TrimEnd(w, ls, |w|);
    assert m <= e by {
      assert w[m - 1] == c[|c| - 1];
      TrimEndStops(w, ls, m - 1);
    }
    assert Strip(w)[|p| - ls..m - ls] == c by {
      assert Strip(w) == w[ls..e];
      SliceOfSlice(w, ls, e, |p|, m);
      assert w[|p|..m] == c;
    }
    assert OccursAt(Strip(w), c, |p| - ls);
  }

  lemma SliceOfSlice(w: string, a: nat, b: nat, lo: nat, hi: nat)
    requires a <= lo <= hi <= b <= |w|
    ensures w[a..b][lo - a..hi - a] == w[lo..hi]
  {
    var x := w[a..b][lo - a..hi - a];
    assert forall i :: 0 <= i < |x| ==> x[i] == w[a..b][lo - a + i] == w[lo + i];
  }

  /** With only whitespace around it, such a stretch is exactly what stripping leaves. */
  lemma StripBlankFrame(p: string, c: string, q: string)
    requires c != [] && !IsSpace(c[0]) && !IsSpace(c[|c| - 1])
    requires IsBlank(p) && IsBlank(q)
    ensures Strip(p + c + q) == c
  {
    var w := p + c + q;
    var m := |p| + |c|;
    assert LeadingSpaces(w) == |p| by {
      forall i | 0 <= i < |p| ensures IsSpace(w[i]) {
        assert w[i] == p[i];
      }
      assert w[|p|] == c[0];
      LeadingSpacesFirst(w, |p|);
    }
    assert TrimEnd(w, |p|, |w|) == m by {
      forall i | m <= i < |w| ensures IsSpace(w[i]) {
        assert w[i] == q[i - m];
      }
      assert w[m - 1] == c[|c| - 1];
      TrimEndLast(w, |p|, m);
    }
    assert w[|p|..m] == c;
  }

  /** Regrouping a string cut into five pieces around its middle piece. */
  lemma Regroup(a: string, b: string, c: string, d: string, e: string)
    ensures a + (b + c + d) + e == (a + b) + c + (d + e)
  {
  }

  /** Stripping keeps every stretch that starts and ends with non-whitespace. */
  lemma StripKeepsCore(s: string, before: string, core: string, after: string)
    requires s == before + core + after
    requires core != [] && !IsSpace(core[0]) && !IsSpace(core[|core| - 1])
    ensures Contains(Strip(s), core)
  {
    StripFrame(before, core, after);
    ContainsIff(Strip(s), core);
  }

  /** A token of `split()`: a non-empty run of non-whitespace characters. */
  predicate IsToken(w: string) {
    w != [] && forall i :: 0 <= i < |w| ==> !IsSpace(w[i])
  }

  /** `s.split()` with no separator: the maximal runs of non-whitespace, in order. */
  function Split(s: string): (ws: seq<string>)
    decreases |s|
  {
    if s == [] then []
    else if IsSpace(s[0]) then Split(s[1..])
    else
      var b := TokenLength(s);
      [s[..b]] + Split(s[b..])
  }

  /** `" ".join(ws)` */
  function Join(ws: seq<string>): (r: string)
  {
    if ws == [] then []
    else if |ws| == 1 then ws[0]
    else ws[0] + " " + Join(ws[1..])
  }

  /** The form `" ".join(s.split())` produces: whitespace only as single ' ' between tokens. */
  predicate SingleSpaced(t: string) {
    && (forall i :: 0 <= i < |t| && IsSpace(t[i]) ==> t[i] == ' ')
    && (t == [] || (!IsSpace(t[0]) && !IsSpace(t[|t| - 1])))
    && (forall i :: 0 <= i < |t| - 1 ==> !(IsSpace(t[i]) && IsSpace(t[i + 1])))
  }

  lemma SingleSpacedSuffix(t: string, k: nat)
    requires SingleSpaced(t) && k < |t| && !IsSpace(t[k])
    ensures SingleSpaced(t[k..])
  {
    var u := t[k..];
    forall i | 0 <= i < |u| - 1 ensures !(IsSpace(u[i]) && IsSpace(u[i + 1])) {
      assert u[i] == t[k + i] && u[i + 1] == t[k + i + 1];
    }
  }

  /** A single-spaced string with a space in it: a token, one space, and a single-spaced
      rest that starts with a token. */
  lemma SingleSpacedCut(t: string)
    requires SingleSpaced(t) && t != [] && TokenLength(t) < |t|
    ensures var b := TokenLength(t);
      && 0 < b && b + 1 < |t| && t[b] == ' ' && !IsSpace(t[b + 1])
  {
    var b := TokenLength(t);
    assert IsSpace(t[b]);
    assert t[b] == ' ';
    assert b != |t| - 1;
    assert !(IsSpace(t[b]) && IsSpace(t[b + 1]));
    assert !IsSpace(t[0]);
  }

  /** A string split around one of its characters. */
  lemma Around(t: string, b: nat)
    requires b < |t|
    ensures t == t[..b] + [t[b]] + t[b + 1..]
  {
  }

  /** `split()` on a string that starts with a token. */
  lemma SplitToken(t: string)
    requires t != [] && !IsSpace(t[0])
    ensures Split(t) == [t[..TokenLength(t)]] + Split(t[TokenLength(t)..])
  {
  }

  /** `split()` skips leading whitespace. */
  lemma SplitSpace(t: string)
    requires t != [] && IsSpace(t[0])
    ensures Split(t) == Split(t[1..])
  {
  }

  /** `split()` of a non-blank string has a token. */
  lemma SplitNonEmpty(t: string)
    requires t != [] && !IsSpace(t[0])
    ensures Split(t) != []
  {
  }

  /** Splitting a single-spaced string and joining its tokens with ' ' gives the string back. */
  lemma {:induction false} JoinSplit(t: string)
    requires SingleSpaced(t)
    ensures Join(Split(t)) == t
    decreases |t|
  {
    if t != [] {
      var b := TokenLength(t);
      var w := t[..b];
      SplitToken(t);
      if b < |t| {
        SingleSpacedCut(t);
        var u := t[b + 1..];
        SingleSpacedSuffix(t, b + 1);
        Around(t, b);
        JoinSplit(u);
        assert t[b..][1..] == u;
        SplitSpace(t[b..]);
        SplitNonEmpty(u);
        JoinCons(w, Split(u));
      } else {
        assert t[b..] == [] && w == t;
      }
    }
  }

  lemma JoinCons(w: string, ws: seq<string>)
    requires ws != []
    ensures Join([w] + ws) == w + " " + Join(ws)
  {
    assert ([w] + ws)[1..] == ws;
  }

  /** A token followed by whitespace: `split()` reads exactly that token first. */
  lemma {:induction false} TokenLengthOfToken(w: string, rest: string)
    requires IsToken(w) && (rest == [] || IsSpace(rest[0]))
    ensures TokenLength(w + rest) == |w|
    decreases |w|
  {
    var t := w + rest;
    assert t[0] == w[0];
    if |w| > 1 {
      var v := w[1..];
      assert IsToken(v) by {
        assert forall i :: 0 <= i < |v| ==> v[i] == w[i + 1];
      }
      TokenLengthOfToken(v, rest);
      assert t[1..] == v + rest;
    } else {
      assert t[1..] == rest;
    }
  }

  lemma SplitOfToken(w: string)
    requires IsToken(w)
    ensures Split(w) == [w]
  {
    TokenLengthOfToken(w, []);
    assert w + [] == w;
    SplitToken(w);
    assert w[|w|..] == [];
  }

  lemma SplitOfTokenThen(w: string, u: string)
    requires IsToken(w)
    ensures Split(w + " " + u) == [w] + Split(u)
  {
    var t := w + " " + u;
    TokenLengthOfToken(w, " " + u);
    assert t == w + (" " + u);
    SplitToken(t);
    assert t[..|w|] == w;
    assert t[|w|..] == " " + u;
    SplitSpace(" " + u);
    assert (" " + u)[1..] == u;
  }

  /** Joining tokens with ' ' and splitting again gives the tokens back. */
  lemma {:induction false} SplitJoin(ws: seq<string>)
    requires forall i :: 0 <= i < |ws| ==> IsToken(ws[i])
    ensures Split(Join(ws)) == ws
  {
    if |ws| == 1 {
      SplitOfToken(ws[0]);
    } else if |ws| > 1 {
      var rest := ws[1..];
      assert forall i :: 0 <= i < |rest| ==> rest[i] == ws[i + 1];
      SplitJoin(rest);
      SplitOfTokenThen(ws[0], Join(rest));
      assert ws == [ws[0]] + rest;
    }
  }

  /** Python's `needle in hay` for strings. */
  function Contains(hay: string, needle: string): bool
    decreases |hay|
  {
    if needle <= hay then true
    else if hay == [] then false
    else Contains(hay[1..], needle)
  }

  ghost predicate OccursAt(hay: string, needle: string, i: int) {
    0 <= i <= |hay| - |needle| && hay[i..i + |needle|] == needle
  }

  lemma OccursAtStart(hay: string, needle: string)
    ensures OccursAt(hay, needle, 0) <==> needle <= hay
  {
  }

  /** An occurrence in `hay[1..]` is one in `hay`, one position further. */
  lemma OccursShift(hay: string, needle: string, i: int)
    requires hay != [] && 0 <= i
    ensures OccursAt(hay[1..], needle, i) <==> OccursAt(hay, needle, i + 1)
  {
    if 0 <= i <= |hay| - 1 - |needle| {
      assert hay[i + 1..i + 1 + |needle|] == hay[1..][i..i + |needle|];
    }
  }

  /** `Contains` holds exactly when `needle` occurs at some position of `hay`. */
  lemma {:induction false} ContainsIff(hay: string, needle: string)
    ensures Contains(hay, needle) <==> exists i :: OccursAt(hay, needle, i)
    decreases |hay|
  {
    OccursAtStart(hay, needle);
    if needle <= hay {
    } else if hay == [] {
      assert forall i :: !OccursAt(hay, needle, i);
    } else {
      ContainsIff(hay[1..], needle);
      if Contains(hay[1..], needle) {
        var i :| OccursAt(hay[1..], needle, i);
        OccursShift(hay, needle, i);
      } else {
        forall i ensures !OccursAt(hay, needle, i) {
          if 0 < i {
            OccursShift(hay, needle, i - 1);
          }
        }
      }
    }
  }
}
