/**
 * The selection rules the extraction scripts share, with the regular
 * expression engine left abstract: a pattern's matches over a text are given
 * as a sequence of candidates in the order the engine finds them (text
 * order for `re.finditer`), and a chain of patterns as one
 * optional first capture per pattern.
 */
module Matching {
  import opened Wrappers
  import opened Text
  import opened Numerals

  /** One match of the IHPC sentence pattern: group 1 (the phrase), group 2 (the direction word), group 3 (the numeral). */
  datatype Candidate = Candidate(phrase: string, direction: string, numeral: string)

  // ---------------------------------------------------------------------------
  // The exclusion pattern: `\b(word|word|...)\b`, case-insensitive
  // ---------------------------------------------------------------------------

  /** One character of an exclusion word: ' ' stands for any `\s` character, a letter matches either case. */
  predicate CharMatches(p: char, c: char) {
    if p == ' ' then IsSpace(c) else Lower(c) == p
  }

  /** `\bw\b` matches at position i of s. */
  predicate WordAt(s: string, w: string, i: nat) {
    && i + |w| <= |s|
    && (forall k :: 0 <= k < |w| ==> CharMatches(w[k], s[i + k]))
    && (i == 0 || !IsWordChar(s[i - 1]))
    && (i + |w| == |s| || !IsWordChar(s[i + |w|]))
  }

  /** `exclude.search(phrase)` succeeds. */
  predicate Excluded(words: seq<string>, phrase: string) {
    exists i, w :: 0 <= i <= |phrase| && w in words && WordAt(phrase, w, i)
  }

  /**
   * The words of src/12's EXCLUDE, alternatives spelled out: `sous[-\s]?indice`
   * gives three words, `transports?` and `aliments?` two each. The alternative
   * `poste\s+énergie` is left out: wherever it matches, `énergie` alone matches.
   */
  const Exclude12: seq<string> :=
    ["énergie", "energie", "sousindice", "sous-indice", "sous indice", "division",
     "transport", "transports", "aliment", "aliments"]

  /** The words of src/11's weaker exclusion: no transport or food words. */
  const Exclude11: seq<string> :=
    ["énergie", "energie", "sousindice", "sous-indice", "sous indice", "division"]

  /** src/11 excludes less than src/12: whatever src/11 excludes, src/12 excludes too. */
  lemma Exclude11Narrower(phrase: string)
    ensures Excluded(Exclude11, phrase) ==> Excluded(Exclude12, phrase)
  {
    if Excluded(Exclude11, phrase) {
      var i, w :| 0 <= i <= |phrase| && w in Exclude11 && WordAt(phrase, w, i);
      assert w in Exclude12;
    }
  }

  /** A phrase about a sub-index is excluded, whatever the case of its letters. */
  lemma SubIndexExcluded()
    ensures Excluded(Exclude11, "IHPC du Sous-Indice")
  {
    var p := "IHPC du Sous-Indice";
    assert WordAt(p, "sous-indice", 8);
  }

  // ---------------------------------------------------------------------------
  // The first acceptable candidate (`extract_value`, `find_ihpc_global_phrase`)
  // ---------------------------------------------------------------------------

  /** Candidate i is the first one whose phrase has no excluded word. */
  ghost predicate IsFirstAcceptable(words: seq<string>, cands: seq<Candidate>, i: int) {
    && 0 <= i < |cands|
    && !Excluded(words, cands[i].phrase)
    && forall j :: 0 <= j < i ==> Excluded(words, cands[j].phrase)
  }

  /** The loop over `finditer` with `continue` on an excluded phrase: the index it stops at, or -1. */
  function FirstAcceptable(words: seq<string>, cands: seq<Candidate>): (r: int)
    ensures -1 <= r < |cands|
    ensures r == -1 <==> forall i :: 0 <= i < |cands| ==> Excluded(words, cands[i].phrase)
    ensures r >= 0 ==> IsFirstAcceptable(words, cands, r)
  {
    FirstAcceptableFrom(words, cands, 0)
  }

  function FirstAcceptableFrom(words: seq<string>, cands: seq<Candidate>, k: nat): (r: int)
    requires k <= |cands|
    requires forall j :: 0 <= j < k ==> Excluded(words, cands[j].phrase)
    ensures -1 <= r < |cands|
    ensures r == -1 <==> forall i :: 0 <= i < |cands| ==> Excluded(words, cands[i].phrase)
    ensures r >= 0 ==> IsFirstAcceptable(words, cands, r)
    decreases |cands| - k
  {
    if k == |cands| then -1
    else if !Excluded(words, cands[k].phrase) then k
    else FirstAcceptableFrom(words, cands, k + 1)
  }

  /** On the same matches, src/11's rule stops no later than src/12's. */
  lemma NarrowerStopsEarlier(cands: seq<Candidate>)
    requires FirstAcceptable(Exclude12, cands) >= 0
    ensures 0 <= FirstAcceptable(Exclude11, cands) <= FirstAcceptable(Exclude12, cands)
  {
    var j := FirstAcceptable(Exclude12, cands);
    Exclude11Narrower(cands[j].phrase);
  }

  /**
   * What `extract_value` (src/12) and `find_ihpc_global_phrase` (src/11)
   * yield: the phrase and signed value of the first acceptable candidate, no
   * match at all, or a numeral that `float()` refuses (a ValueError).
   */
  datatype Extraction = Found(index: nat, phrase: string, value: real) | NoMatch | Malformed(index: nat)

  /** `float(numeral.replace(" ", "").replace(",", "."))`. */
  function CandidateNumber(c: Candidate): Option<real> {
    ParseFloat(CompactNumeral(c.numeral))
  }

  /** The first acceptable candidate, with its numeral converted and the sign rule applied. */
  function Extract(words: seq<string>, cands: seq<Candidate>): (r: Extraction)
    ensures r.NoMatch? <==> forall i :: 0 <= i < |cands| ==> Excluded(words, cands[i].phrase)
    ensures r.Found? ==> IsFirstAcceptable(words, cands, r.index)
    ensures r.Found? ==> r.phrase == cands[r.index].phrase
    ensures r.Found? ==> CandidateNumber(cands[r.index]).Some?
    ensures r.Found? ==> r.value == ApplyDirection(cands[r.index].direction, CandidateNumber(cands[r.index]).value)
    ensures r.Found? && LowerString(cands[r.index].direction) == "baisse" ==> r.value <= 0.0
    ensures r.Found? && LowerString(cands[r.index].direction) != "baisse" ==>
      Some(r.value) == CandidateNumber(cands[r.index])
    ensures r.Malformed? ==> IsFirstAcceptable(words, cands, r.index) && CandidateNumber(cands[r.index]).None?
  {
    var i := FirstAcceptable(words, cands);
    if i == -1 then NoMatch
    else
      match CandidateNumber(cands[i])
      case None => Malformed(i)
      case Some(v) => Found(i, cands[i].phrase, ApplyDirection(cands[i].direction, v))
  }

  /** The first acceptable index is unique. */
  lemma FirstAcceptableUnique(words: seq<string>, cands: seq<Candidate>, a: int, b: int)
    requires IsFirstAcceptable(words, cands, a) && IsFirstAcceptable(words, cands, b)
    ensures a == b
  {
  }

  /** Prepending an excluded match shifts the rule's choice by one: excluded phrases are skipped, not fatal. */
  lemma ExcludedSkipped(words: seq<string>, c: Candidate, rest: seq<Candidate>)
    requires Excluded(words, c.phrase)
    ensures FirstAcceptable(words, [c] + rest) ==
      if FirstAcceptable(words, rest) == -1 then -1 else FirstAcceptable(words, rest) + 1
  {
    var cs := [c] + rest;
    assert forall k :: 0 < k < |cs| ==> cs[k] == rest[k - 1];
    var i := FirstAcceptable(words, rest);
    if i == -1 {
      assert forall k :: 0 <= k < |cs| ==> Excluded(words, cs[k].phrase);
    } else {
      assert IsFirstAcceptable(words, cs, i + 1);
      FirstAcceptableUnique(words, cs, i + 1, FirstAcceptable(words, cs));
    }
  }

  // ---------------------------------------------------------------------------
  // Ordered pattern chains (src/10, src/04, src/05)
  // ---------------------------------------------------------------------------

  /** The index of the first pattern that matched, or -1. */
  function FirstHit(hits: seq<Option<string>>): (r: int)
    ensures -1 <= r < |hits|
    ensures r == -1 <==> forall i :: 0 <= i < |hits| ==> hits[i].None?
    ensures r >= 0 ==> hits[r].Some? && forall i :: 0 <= i < r ==> hits[i].None?
  {
    if hits == [] then -1
    else if hits[0].Some? then 0
    else
      var t := FirstHit(hits[1..]);
      assert forall i :: 0 < i < |hits| ==> hits[i] == hits[1..][i - 1];
      if t == -1 then -1 else t + 1
  }

  /** What a chain settles on: the pattern and converted value, no pattern at all, or a capture the conversion refuses. */
  datatype ChainResult = Hit(index: nat, value: real) | NoHit | Unconvertible(index: nat)

  function ChainOutcome(hits: seq<Option<string>>, convert: string -> Option<real>): (r: ChainResult)
    ensures r.NoHit? <==> forall i :: 0 <= i < |hits| ==> hits[i].None?
    ensures r.Hit? ==> (&& r.index < |hits| && hits[r.index].Some?
                        && (forall i :: 0 <= i < r.index ==> hits[i].None?)
                        && convert(hits[r.index].value) == Some(r.value))
    ensures r.Unconvertible? ==> (&& r.index < |hits| && hits[r.index].Some?
                                  && (forall i :: 0 <= i < r.index ==> hits[i].None?)
                                  && convert(hits[r.index].value).None?)
  {
    var i := FirstHit(hits);
    if i == -1 then NoHit
    else match convert(hits[i].value)
      case Some(v) => Hit(i, v)
      case None => Unconvertible(i)
  }

  /**
   * The scripts' loop `for p in patterns: m = p.search(text); if m: value =
   * convert(m.group(1)); used = p.pattern; break`.
   */
  method SearchPatterns(hits: seq<Option<string>>, convert: string -> Option<real>) returns (r: ChainResult)
    ensures r == ChainOutcome(hits, convert)
  {
    var i := 0;
    while i < |hits|
      invariant 0 <= i <= |hits|
      invariant forall j :: 0 <= j < i ==> hits[j].None?
    {
      if hits[i].Some? {
        var v := convert(hits[i].value);
        if v.Some? {
          r := Hit(i, v.value);
        } else {
          r := Unconvertible(i);
        }
        return;
      }
      i := i + 1;
    }
    r := NoHit;
  }

  // ---------------------------------------------------------------------------
  // The error message excerpt (src/04, src/05)
  // ---------------------------------------------------------------------------

  /**
   * `text[max(0, idx - before) : idx + after] if idx != -1 else text[:fallback]`
   * with `idx = text.lower().find(keyword)`.
   */
  function ErrorSnippet(text: string, keyword: string, before: nat, after: nat, fallback: nat): (r: string)
    ensures |r| <= |text|
    ensures |r| <= if Find(LowerString(text), keyword) < 0 then fallback else before + after
  {
    Excerpt(text, Find(LowerString(text), keyword), before, after, fallback)
  }

  /** The slicing of the excerpt once the keyword's index `idx` is known (-1 when absent). */
  function Excerpt(text: string, idx: int, before: nat, after: nat, fallback: nat): (r: string)
    ensures |r| <= if idx < 0 then fallback else before + after
  {
    if idx < 0 then Slice(text, 0, fallback)
    else Slice(text, if idx >= before then idx - before else 0, idx + after)
  }

  /** Without the keyword, the excerpt is the head of the page. */
  lemma ErrorSnippetHead(text: string, keyword: string, before: nat, after: nat, fallback: nat)
    requires Find(LowerString(text), keyword) == -1
    ensures ErrorSnippet(text, keyword, before, after, fallback) == Slice(text, 0, fallback)
  {
  }

  /**
   * With the keyword, the excerpt is the window of the page from `before`
   * characters ahead of its first occurrence (or the start) to `after`
   * characters past that occurrence's start (or the end).
   */
  lemma ErrorSnippetSlice(text: string, keyword: string, before: nat, after: nat, fallback: nat)
    requires Find(LowerString(text), keyword) >= 0
    ensures ErrorSnippet(text, keyword, before, after, fallback)
      == Window(text, Find(LowerString(text), keyword), before, after)
  {
    ExcerptSlice(text, Find(LowerString(text), keyword), before, after, fallback);
  }

  /**
   * Python's `text[max(0, idx - before) : idx + after]`, written with the
   * slice's own clamping: both bounds are cut down to the length of the text.
   */
  function Window(text: string, idx: nat, before: nat, after: nat): string {
    var lo := if idx >= before then idx - before else 0;
    var hi := if idx + after <= |text| then idx + after else |text|;
    if lo <= hi then text[lo..hi] else []
  }

  lemma ExcerptSlice(text: string, idx: nat, before: nat, after: nat, fallback: nat)
    ensures Excerpt(text, idx, before, after, fallback) == Window(text, idx, before, after)
  {
  }

  /** The window shows the whole keyword whenever `after` covers its length. */
  lemma ErrorSnippetShowsKeyword(text: string, keyword: string, before: nat, after: nat, fallback: nat)
    requires Find(LowerString(text), keyword) >= 0 && |keyword| <= after
    ensures var idx := Find(LowerString(text), keyword);
      var lo := if idx >= before then idx - before else 0;
      OccursAt(LowerString(ErrorSnippet(text, keyword, before, after, fallback)), keyword, idx - lo)
  {
    var idx := Find(LowerString(text), keyword);
    var lo := if idx >= before then idx - before else 0;
    var r := ErrorSnippet(text, keyword, before, after, fallback);
    assert r == Slice(text, lo, idx + after);
    SnippetWindow(text, keyword, idx, before, after);
  }

  lemma SnippetWindow(text: string, keyword: string, idx: nat, before: nat, after: nat)
    requires OccursAt(LowerString(text), keyword, idx)
    ensures var lo := if idx >= before then idx - before else 0;
      var r := Slice(text, lo, idx + after);
      && |r| <= before + after
      && r == text[lo..lo + |r|]
      && (|keyword| <= after ==> OccursAt(LowerString(r), keyword, idx - lo))
  {
    var lo := if idx >= before then idx - before else 0;
    var hi := if idx + after <= |text| then idx + after else |text|;
    assert |LowerString(text)| == |text|;
    assert lo <= idx <= hi;
    var r := Slice(text, lo, idx + after);
    assert r == text[lo..hi];
    if |keyword| <= after {
      WindowShowsKeyword(text, keyword, idx, lo, hi);
    }
  }

  /** A window that starts at or before a keyword occurrence and reaches past its end shows the whole keyword. */
  lemma WindowShowsKeyword(text: string, keyword: string, idx: nat, lo: nat, hi: nat)
    requires lo <= idx && idx + |keyword| <= hi <= |text|
    requires OccursAt(LowerString(text), keyword, idx)
    ensures OccursAt(LowerString(text[lo..hi]), keyword, idx - lo)
  {
    LowerSlice(text, lo, hi);
    SubSlice(LowerString(text), keyword, idx, lo, hi);
  }

  lemma LowerSlice(s: string, a: nat, b: nat)
    requires a <= b <= |s|
    ensures LowerString(s[a..b]) == LowerString(s)[a..b]
  {
    var t := s[a..b];
    var l, m := LowerString(t), LowerString(s)[a..b];
    forall k | 0 <= k < |t| ensures l[k] == m[k] {
      assert t[k] == s[a + k];
    }
    SamePointwise(l, m);
  }

  /** Two strings of one length that agree at every index are equal. */
  lemma SamePointwise(x: string, y: string)
    requires |x| == |y| && forall k :: 0 <= k < |x| ==> x[k] == y[k]
    ensures x == y
  {
  }

  lemma SubSlice(low: string, kw: string, idx: nat, lo: nat, hi: nat)
    requires lo <= idx && idx + |kw| <= hi <= |low|
    requires low[idx..idx + |kw|] == kw
    ensures low[lo..hi][idx - lo..idx - lo + |kw|] == kw
  {
    var w := low[lo..hi];
    var v := w[idx - lo..idx - lo + |kw|];
    forall j | 0 <= j < |kw| ensures v[j] == kw[j] {
      assert v[j] == w[idx - lo + j] == low[idx + j];
      assert kw[j] == low[idx..idx + |kw|][j];
    }
  }
}
