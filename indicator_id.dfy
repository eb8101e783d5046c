/**
 * `17_fetch_anstat_indicator_csv.py`: finding the statistics office's numeric
 * indicator id in an indicator page, and the download that id leads to.
 *
 * `find_indicator_id` runs four regular expressions in a fixed order and
 * returns group 1 of the first one that matches anywhere in the page. Each
 * expression is modelled by a hand scanner that says whether it matches at a
 * given position and where its captured digits lie; the scanners reproduce
 * the expressions' backtracking outcome (greedy `\s*`, `\d{1,10}` with or
 * without a trailing constraint).
 */
module IndicatorId {
  import opened Wrappers
  import opened Text

  const DownloadPrefix: string := "https://www.anstat.ci/indicateur/download_csv/"
  const MaxIdDigits: nat := 10
  const DataIdWord: string := "data-id"
  const IdWord: string := "id"
  const DownloadPath: string := "/indicateur/download_csv/"

  /** The four expressions, in the order the function tries them. */
  datatype Strategy =
    | DataIdAttr      // data-id\s*=\s*["'](\d{1,10})["']
    | QuotedIdKey     // ["']id["']\s*:\s*(\d{1,10})
    | BareIdKey       // \bid\s*:\s*(\d{1,10})\b
    | DownloadLink    // /indicateur/download_csv/(\d{1,10})

  const Strategies: seq<Strategy> := [DataIdAttr, QuotedIdKey, BareIdKey, DownloadLink]

  /** Where a match starts, and the bounds of its captured digits. */
  datatype Match = Match(start: nat, idStart: nat, idEnd: nat)

  /** What group 1 can hold: one to ten digits. */
  predicate IsId(s: string) {
    1 <= |s| <= MaxIdDigits && AllDigits(s)
  }

  predicate IsQuote(c: char) {
    c == '"' || c == '\''
  }

  /**
   * `re.IGNORECASE` on a lower-case pattern character: the character itself,
   * its capital, and the letters Python's matcher folds onto 'i', 's' and 'k'
   * (dotted capital I, dotless i, long s, Kelvin sign).
   */
  predicate SameLetter(c: char, p: char) {
    || Lower(c) == p
    || (p == 'i' && (c as int == 0x130 || c as int == 0x131))
    || (p == 's' && c as int == 0x17f)
    || (p == 'k' && c as int == 0x212a)
  }

  /** The lower-case literal `lit` occurs at position i, up to case. */
  predicate LiteralAt(h: string, lit: string, i: nat) {
    i + |lit| <= |h| && forall k :: 0 <= k < |lit| ==> SameLetter(h[i + k], lit[k])
  }

  /** The end of the run of whitespace starting at i: where a greedy `\s*` stops. */
  function SkipSpaces(h: string, i: nat): (j: nat)
    requires i <= |h|
    ensures i <= j <= |h|
    ensures forall k :: i <= k < j ==> IsSpace(h[k])
    ensures j == |h| || !IsSpace(h[j])
    decreases |h| - i
  {
    if i < |h| && IsSpace(h[i]) then SkipSpaces(h, i + 1) else i
  }

  /** The end of the run of digits starting at i. */
  function DigitsEnd(h: string, i: nat): (j: nat)
    requires i <= |h|
    ensures i <= j <= |h|
    ensures forall k :: i <= k < j ==> IsDigit(h[k])
    ensures j == |h| || !IsDigit(h[j])
    decreases |h| - i
  {
    if i < |h| && IsDigit(h[i]) then DigitsEnd(h, i + 1) else i
  }

  /** The captured bounds lie in the text and hold one to ten digits. */
  predicate DigitSpan(h: string, m: Match) {
    && m.start <= m.idStart < m.idEnd <= |h| && m.idEnd - m.idStart <= MaxIdDigits
    && forall k :: m.idStart <= k < m.idEnd ==> IsDigit(h[k])
  }

  /** The capture is a whole run of digits: no digit on either side. */
  predicate WholeRun(h: string, m: Match)
    requires m.idStart <= m.idEnd <= |h|
  {
    && (m.idStart == 0 || !IsDigit(h[m.idStart - 1]))
    && (m.idEnd == |h| || !IsDigit(h[m.idEnd]))
  }

  /** `\d{1,10}` with nothing after it: the first ten digits of the run, or all of a shorter one. */
  function CapturedEnd(h: string, d: nat): (e: nat)
    requires d <= |h|
    ensures d <= e <= |h| && e - d <= MaxIdDigits
    ensures DigitsEnd(h, d) - d <= MaxIdDigits ==> e == DigitsEnd(h, d)
    ensures DigitsEnd(h, d) - d > MaxIdDigits ==> e == d + MaxIdDigits
  {
    var e := DigitsEnd(h, d);
    if e - d <= MaxIdDigits then e else d + MaxIdDigits
  }

  // ---------------------------------------------------------------------------
  // The four expressions at one position
  // ---------------------------------------------------------------------------

  /** `\s*=\s*["']` from j: where the digits start, if the sign and the opening quote are there. */
  function AfterEqualsQuote(h: string, j: nat): (d: Option<nat>)
    requires j <= |h|
    ensures d.Some? ==> j < d.value <= |h| && IsQuote(h[d.value - 1])
  {
    var eq := SkipSpaces(h, j);
    if eq == |h| || h[eq] != '=' then None
    else
      var q := SkipSpaces(h, eq + 1);
      if q == |h| || !IsQuote(h[q]) then None else Some(q + 1)
  }

  /** `\s*:\s*` from j: where the digits would start, if the colon is there. */
  function AfterColon(h: string, j: nat): (d: Option<nat>)
    requires j <= |h|
    ensures d.Some? ==> j < d.value <= |h|
    ensures d.Some? ==> d.value == |h| || !IsSpace(h[d.value])
    ensures d.Some? ==> h[d.value - 1] == ':' || IsSpace(h[d.value - 1])
  {
    var colon := SkipSpaces(h, j);
    if colon == |h| || h[colon] != ':' then None else Some(SkipSpaces(h, colon + 1))
  }

  /**
   * `data-id\s*=\s*["'](\d{1,10})["']`: the closing quote must follow the
   * digits, so backtracking to fewer digits never helps and a run of more
   * than ten digits does not match.
   */
  function DataIdAt(h: string, i: nat): (r: Option<Match>)
    requires i <= |h|
    ensures r.Some? ==> r.value.start == i && DigitSpan(h, r.value) && LiteralAt(h, DataIdWord, i)
    ensures r.Some? ==> r.value.idStart >= 1 && IsQuote(h[r.value.idStart - 1])
    ensures r.Some? ==> r.value.idEnd < |h| && IsQuote(h[r.value.idEnd])
  {
    if !LiteralAt(h, DataIdWord, i) then None
    else
      match AfterEqualsQuote(h, i + |DataIdWord|)
      case None => None
      case Some(d) =>
        var e := DigitsEnd(h, d);
        if 1 <= e - d <= MaxIdDigits && e < |h| && IsQuote(h[e]) then Some(Match(i, d, e)) else None
  }

  /** The opening of `["']id["']`. */
  predicate QuotedKeyAt(h: string, i: nat) {
    i + 4 <= |h| && IsQuote(h[i]) && LiteralAt(h, IdWord, i + 1) && IsQuote(h[i + 3])
  }

  /** `["']id["']\s*:\s*(\d{1,10})`: nothing follows the digits, so a longer run gives its first ten. */
  function QuotedIdAt(h: string, i: nat): (r: Option<Match>)
    requires i <= |h|
    ensures r.Some? ==> r.value.start == i && DigitSpan(h, r.value) && QuotedKeyAt(h, i)
    ensures r.Some? ==> r.value.idEnd == CapturedEnd(h, r.value.idStart)
  {
    if !QuotedKeyAt(h, i) then None
    else
      match AfterColon(h, i + 4)
      case None => None
      case Some(d) =>
        var e := CapturedEnd(h, d);
        if e == d then None else Some(Match(i, d, e))
  }

  /** `\b` before "id": the start of the text, or a character that is not a word character. */
  predicate BareKeyAt(h: string, i: nat) {
    (i == 0 || (i <= |h| && !IsWordChar(h[i - 1]))) && LiteralAt(h, IdWord, i)
  }

  /**
   * `\bid\s*:\s*(\d{1,10})\b`: a word boundary before "id", and after the
   * digits a character that is not a word character (or the end); a digit
   * is one, so a run of more than ten digits does not match.
   */
  function BareIdAt(h: string, i: nat): (r: Option<Match>)
    requires i <= |h|
    ensures r.Some? ==> r.value.start == i && DigitSpan(h, r.value) && BareKeyAt(h, i)
    ensures r.Some? ==> r.value.idEnd == |h| || !IsWordChar(h[r.value.idEnd])
  {
    if !BareKeyAt(h, i) then None
    else
      match AfterColon(h, i + |IdWord|)
      case None => None
      case Some(d) =>
        var e := DigitsEnd(h, d);
        if 1 <= e - d <= MaxIdDigits && (e == |h| || !IsWordChar(h[e])) then Some(Match(i, d, e)) else None
  }

  /** `/indicateur/download_csv/(\d{1,10})`: a longer run gives its first ten digits. */
  function DownloadLinkAt(h: string, i: nat): (r: Option<Match>)
    requires i <= |h|
    ensures r.Some? ==> r.value.start == i && DigitSpan(h, r.value) && LiteralAt(h, DownloadPath, i)
    ensures r.Some? ==> r.value.idStart == i + |DownloadPath|
    ensures r.Some? ==> r.value.idEnd == CapturedEnd(h, r.value.idStart)
  {
    if !LiteralAt(h, DownloadPath, i) then None
    else
      var d := i + |DownloadPath|;
      var e := CapturedEnd(h, d);
      if e == d then None else Some(Match(i, d, e))
  }

  /** The expression's match at position i, if it has one there. */
  function MatchAt(s: Strategy, h: string, i: nat): (r: Option<Match>)
    ensures r.Some? ==> r.value.start == i && DigitSpan(h, r.value)
  {
    if i > |h| then None
    else
      match s
      case DataIdAttr => DataIdAt(h, i)
      case QuotedIdKey => QuotedIdAt(h, i)
      case BareIdKey => BareIdAt(h, i)
      case DownloadLink => DownloadLinkAt(h, i)
  }

  // ---------------------------------------------------------------------------
  // re.search and the chain of four searches
  // ---------------------------------------------------------------------------

  /** `re.search`'s scan: the first position from i to n where `at` matches. */
  function FirstMatching(at: nat -> Option<Match>, n: nat, i: nat): (r: Option<nat>)
    requires i <= n
    ensures r.Some? ==> i <= r.value <= n && at(r.value).Some?
    ensures forall k :: i <= k <= n && (r.None? || k < r.value) ==> at(k).None?
    decreases n - i
  {
    if at(i).Some? then Some(i)
    else if i == n then None
    else FirstMatching(at, n, i + 1)
  }

  /** The scan stops at the first position that matches. */
  lemma {:induction false} FirstMatchingAt(at: nat -> Option<Match>, n: nat, i: nat, j: nat)
    requires i <= j <= n && at(j).Some?
    requires forall k :: i <= k < j ==> at(k).None?
    ensures FirstMatching(at, n, i) == Some(j)
    decreases j - i
  {
    if i < j {
      FirstMatchingAt(at, n, i + 1, j);
    }
  }

  /** Scans that see the same matches stop at the same place. */
  lemma {:induction false} FirstMatchingSame(at: nat -> Option<Match>, at': nat -> Option<Match>, n: nat, i: nat)
    requires i <= n
    requires forall k :: i <= k <= n ==> at(k) == at'(k)
    ensures FirstMatching(at, n, i) == FirstMatching(at', n, i)
    decreases n - i
  {
    if i < n {
      FirstMatchingSame(at, at', n, i + 1);
    }
  }

  /** `re.search`: the leftmost match of the expression in the text. */
  function Search(s: Strategy, h: string): (r: Option<Match>)
    ensures r.Some? ==> r.value.start <= |h| && MatchAt(s, h, r.value.start) == r
    ensures forall k: nat :: k <= |h| && (r.None? || k < r.value.start) ==> MatchAt(s, h, k).None?
  {
    var at := (k: nat) => MatchAt(s, h, k);
    match FirstMatching(at, |h|, 0)
    case None =>
      forall k: nat | k <= |h| ensures MatchAt(s, h, k).None? {
        assert at(k).None?;
      }
      None
    case Some(j) =>
      forall k: nat | k < j ensures MatchAt(s, h, k).None? {
        assert at(k).None?;
      }
      assert at(j).Some?;
      MatchAt(s, h, j)
  }

  /** Group 1 of a match. */
  function IdOf(h: string, m: Match): (id: string)
    requires DigitSpan(h, m)
    ensures IsId(id) && |id| == m.idEnd - m.idStart
  {
    h[m.idStart..m.idEnd]
  }

  /** The id the chain returns: group 1 of the first expression, in order, that matches. */
  function FindIndicatorId(h: string): (r: Option<string>)
    ensures r.Some? ==> IsId(r.value)
    ensures r.None? <==> forall s: Strategy :: Search(s, h).None?
  {
    var m1 := Search(DataIdAttr, h);
    if m1.Some? then Some(IdOf(h, m1.value))
    else
      var m2 := Search(QuotedIdKey, h);
      if m2.Some? then Some(IdOf(h, m2.value))
      else
        var m3 := Search(BareIdKey, h);
        if m3.Some? then Some(IdOf(h, m3.value))
        else
          var m4 := Search(DownloadLink, h);
          if m4.Some? then Some(IdOf(h, m4.value))
          else
            assert forall s: Strategy :: Search(s, h).None? by {
              forall s: Strategy ensures Search(s, h).None? {
                assert s.DataIdAttr? || s.QuotedIdKey? || s.BareIdKey? || s.DownloadLink?;
              }
            }
            None
  }

  /**
   * The fixed priority: the id comes from the first strategy in the list
   * that matches anywhere, and from that strategy's leftmost match.
   */
  lemma FirstMatchingStrategyWins(h: string, k: nat)
    requires k < |Strategies| && Search(Strategies[k], h).Some?
    requires forall j :: 0 <= j < k ==> Search(Strategies[j], h).None?
    ensures FindIndicatorId(h) == Some(IdOf(h, Search(Strategies[k], h).value))
    ensures forall i :: 0 <= i < Search(Strategies[k], h).value.start ==> MatchAt(Strategies[k], h, i).None?
  {
    var m := Search(Strategies[k], h);
    assert m.Some? ==> m.value.start <= |h|;
    if k == 0 {
      assert Strategies[0] == DataIdAttr;
    } else {
      assert Search(DataIdAttr, h).None? by { assert Strategies[0] == DataIdAttr; }
      if k == 1 {
        assert Strategies[1] == QuotedIdKey;
      } else {
        assert Search(QuotedIdKey, h).None? by { assert Strategies[1] == QuotedIdKey; }
        if k == 2 {
          assert Strategies[2] == BareIdKey;
        } else {
          assert Search(BareIdKey, h).None? by { assert Strategies[2] == BareIdKey; }
          assert Strategies[3] == DownloadLink;
        }
      }
    }
  }

  // ---------------------------------------------------------------------------
  // Digit runs longer than ten
  // ---------------------------------------------------------------------------

  /**
   * `data-id` only ever captures a whole digit run, so a run of more than
   * ten digits is never its answer.
   */
  lemma DataIdTakesWholeRun(h: string, i: nat)
    requires i <= |h| && DataIdAt(h, i).Some?
    ensures WholeRun(h, DataIdAt(h, i).value)
    ensures DigitsEnd(h, DataIdAt(h, i).value.idStart) == DataIdAt(h, i).value.idEnd
  {
    var m := DataIdAt(h, i).value;
    assert IsQuote(h[m.idStart - 1]) && IsQuote(h[m.idEnd]);
    var d := AfterEqualsQuote(h, i + |DataIdWord|).value;
    assert m.idStart == d && m.idEnd == DigitsEnd(h, d);
  }

  /** The same holds for bare `id:`, whose capture must be followed by a non-word character or the end. */
  lemma BareIdTakesWholeRun(h: string, i: nat)
    requires i <= |h| && BareIdAt(h, i).Some?
    ensures WholeRun(h, BareIdAt(h, i).value)
    ensures DigitsEnd(h, BareIdAt(h, i).value.idStart) == BareIdAt(h, i).value.idEnd
  {
    var m := BareIdAt(h, i).value;
    var d := AfterColon(h, i + |IdWord|).value;
    assert m.idStart == d && m.idEnd == DigitsEnd(h, d);
    assert h[d - 1] == ':' || IsSpace(h[d - 1]);
  }

  /**
   * `"id":` and the download link take the first ten digits of a longer run:
   * the capture is then a proper prefix of the run.
   */
  lemma UnanchoredStrategiesTruncate(h: string, i: nat, s: Strategy)
    requires i <= |h| && s in {QuotedIdKey, DownloadLink} && MatchAt(s, h, i).Some?
    requires DigitsEnd(h, MatchAt(s, h, i).value.idStart) - MatchAt(s, h, i).value.idStart > MaxIdDigits
    ensures |IdOf(h, MatchAt(s, h, i).value)| == MaxIdDigits
    ensures IsDigit(h[MatchAt(s, h, i).value.idEnd])
  {
  }

  // ---------------------------------------------------------------------------
  // Case does not matter
  // ---------------------------------------------------------------------------

  /** Two texts that differ only in the case of their letters. */
  predicate SameUpToCase(h: string, h': string) {
    |h| == |h'| && forall k {:trigger CaseEq(h[k], h'[k])} :: 0 <= k < |h| ==> CaseEq(h[k], h'[k])
  }

  /** Two characters with the same lower case. */
  predicate CaseEq(a: char, b: char) {
    Lower(a) == Lower(b)
  }

  lemma SpaceUpToCase(a: char, b: char)
    requires CaseEq(a, b)
    ensures IsSpace(a) <==> IsSpace(b)
  {
  }

  lemma DigitUpToCase(a: char, b: char)
    requires CaseEq(a, b)
    ensures IsDigit(a) ==> a == b
    ensures IsDigit(a) <==> IsDigit(b)
  {
  }

  lemma PunctuationUpToCase(a: char, b: char)
    requires CaseEq(a, b)
    ensures IsQuote(a) <==> IsQuote(b)
    ensures a == '=' <==> b == '='
    ensures a == ':' <==> b == ':'
  {
  }

  lemma WordUpToCase(a: char, b: char)
    requires CaseEq(a, b)
    ensures IsWordChar(a) <==> IsWordChar(b)
  {
  }

  lemma LetterUpToCase(a: char, b: char, p: char)
    requires CaseEq(a, b)
    ensures SameLetter(a, p) <==> SameLetter(b, p)
  {
  }

  lemma {:induction false} SkipSpacesUpToCase(h: string, h': string, i: nat)
    requires SameUpToCase(h, h') && i <= |h|
    ensures SkipSpaces(h, i) == SkipSpaces(h', i)
    decreases |h| - i
  {
    if i < |h| {
      SpaceUpToCase(h[i], h'[i]);
      SkipSpacesUpToCase(h, h', i + 1);
    }
  }

  lemma {:induction false} DigitsEndUpToCase(h: string, h': string, i: nat)
    requires SameUpToCase(h, h') && i <= |h|
    ensures DigitsEnd(h, i) == DigitsEnd(h', i)
    decreases |h| - i
  {
    if i < |h| {
      DigitUpToCase(h[i], h'[i]);
      DigitsEndUpToCase(h, h', i + 1);
    }
  }

  lemma LiteralUpToCase(h: string, h': string, lit: string, i: nat)
    requires SameUpToCase(h, h')
    ensures LiteralAt(h, lit, i) <==> LiteralAt(h', lit, i)
  {
    forall k | 0 <= k < |lit| && i + k < |h| ensures SameLetter(h[i + k], lit[k]) <==> SameLetter(h'[i + k], lit[k]) {
      LetterUpToCase(h[i + k], h'[i + k], lit[k]);
    }
  }

  lemma AfterEqualsQuoteUpToCase(h: string, h': string, j: nat)
    requires SameUpToCase(h, h') && j <= |h|
    ensures AfterEqualsQuote(h, j) == AfterEqualsQuote(h', j)
  {
    SkipSpacesUpToCase(h, h', j);
    var eq := SkipSpaces(h, j);
    if eq < |h| {
      PunctuationUpToCase(h[eq], h'[eq]);
      SkipSpacesUpToCase(h, h', eq + 1);
      var q := SkipSpaces(h, eq + 1);
      if q < |h| {
        PunctuationUpToCase(h[q], h'[q]);
      }
    }
  }

  lemma AfterColonUpToCase(h: string, h': string, j: nat)
    requires SameUpToCase(h, h') && j <= |h|
    ensures AfterColon(h, j) == AfterColon(h', j)
  {
    SkipSpacesUpToCase(h, h', j);
    var colon := SkipSpaces(h, j);
    if colon < |h| {
      PunctuationUpToCase(h[colon], h'[colon]);
      SkipSpacesUpToCase(h, h', colon + 1);
    }
  }

  lemma DataIdUpToCase(h: string, h': string, i: nat)
    requires SameUpToCase(h, h') && i <= |h|
    ensures DataIdAt(h, i) == DataIdAt(h', i)
  {
    LiteralUpToCase(h, h', DataIdWord, i);
    if LiteralAt(h, DataIdWord, i) {
      AfterEqualsQuoteUpToCase(h, h', i + |DataIdWord|);
      var d := AfterEqualsQuote(h, i + |DataIdWord|);
      if d.Some? {
        DigitsEndUpToCase(h, h', d.value);
        var e := DigitsEnd(h, d.value);
        if e < |h| {
          PunctuationUpToCase(h[e], h'[e]);
        }
      }
    }
  }

  lemma QuotedIdUpToCase(h: string, h': string, i: nat)
    requires SameUpToCase(h, h') && i <= |h|
    ensures QuotedIdAt(h, i) == QuotedIdAt(h', i)
  {
    LiteralUpToCase(h, h', IdWord, i + 1);
    if i + 4 <= |h| {
      PunctuationUpToCase(h[i], h'[i]);
      PunctuationUpToCase(h[i + 3], h'[i + 3]);
      assert QuotedKeyAt(h, i) == QuotedKeyAt(h', i);
      AfterColonUpToCase(h, h', i + 4);
      var d := AfterColon(h, i + 4);
      if d.Some? {
        DigitsEndUpToCase(h, h', d.value);
      }
    }
  }

  lemma BareIdUpToCase(h: string, h': string, i: nat)
    requires SameUpToCase(h, h') && i <= |h|
    ensures BareIdAt(h, i) == BareIdAt(h', i)
  {
    LiteralUpToCase(h, h', IdWord, i);
    if i > 0 {
      WordUpToCase(h[i - 1], h'[i - 1]);
    }
    assert BareKeyAt(h, i) == BareKeyAt(h', i);
    if i + |IdWord| <= |h| {
      AfterColonUpToCase(h, h', i + |IdWord|);
      var d := AfterColon(h, i + |IdWord|);
      if d.Some? {
        DigitsEndUpToCase(h, h', d.value);
        var e := DigitsEnd(h, d.value);
        if e < |h| {
          WordUpToCase(h[e], h'[e]);
        }
      }
    }
  }

  lemma DownloadLinkUpToCase(h: string, h': string, i: nat)
    requires SameUpToCase(h, h') && i <= |h|
    ensures DownloadLinkAt(h, i) == DownloadLinkAt(h', i)
  {
    LiteralUpToCase(h, h', DownloadPath, i);
    if i + |DownloadPath| <= |h| {
      DigitsEndUpToCase(h, h', i + |DownloadPath|);
    }
  }

  /** Each expression matches at the same places, capturing the same digits, whatever the case of the letters. */
  lemma MatchAtUpToCase(s: Strategy, h: string, h': string, i: nat)
    requires SameUpToCase(h, h') && i <= |h|
    ensures MatchAt(s, h, i) == MatchAt(s, h', i)
  {
    match s
    case DataIdAttr => DataIdUpToCase(h, h', i);
    case QuotedIdKey => QuotedIdUpToCase(h, h', i);
    case BareIdKey => BareIdUpToCase(h, h', i);
    case DownloadLink => DownloadLinkUpToCase(h, h', i);
  }

  lemma SearchUpToCase(s: Strategy, h: string, h': string)
    requires SameUpToCase(h, h')
    ensures Search(s, h) == Search(s, h')
  {
    var at := (k: nat) => MatchAt(s, h, k);
    var at' := (k: nat) => MatchAt(s, h', k);
    forall k | 0 <= k <= |h| ensures at(k) == at'(k) {
      MatchAtUpToCase(s, h, h', k);
    }
    FirstMatchingSame(at, at', |h|, 0);
  }

  lemma IdUpToCase(h: string, h': string, m: Match)
    requires SameUpToCase(h, h') && DigitSpan(h, m)
    ensures DigitSpan(h', m) && IdOf(h, m) == IdOf(h', m)
  {
    forall k | m.idStart <= k < m.idEnd ensures h[k] == h'[k] {
      DigitUpToCase(h[k], h'[k]);
    }
  }

  /** Matching ignores case: a page and its case variants give the same id. */
  lemma FindIgnoresCase(h: string, h': string)
    requires SameUpToCase(h, h')
    ensures FindIndicatorId(h) == FindIndicatorId(h')
  {
    forall s: Strategy ensures Search(s, h) == Search(s, h') {
      SearchUpToCase(s, h, h');
    }
    forall m: Match | DigitSpan(h, m) ensures DigitSpan(h', m) && IdOf(h, m) == IdOf(h', m) {
      IdUpToCase(h, h', m);
    }
  }

  // ---------------------------------------------------------------------------
  // The download
  // ---------------------------------------------------------------------------

  /** What `download_csv` requests: the prefix, then the id. */
  function DownloadUrl(id: string): (u: string)
    ensures |u| == |DownloadPrefix| + |id|
    ensures u[..|DownloadPrefix|] == DownloadPrefix && u[|DownloadPrefix|..] == id
  {
    DownloadPrefix + id
  }

  /** The file the downloaded bytes are written to. */
  function OutputName(tag: string, id: string, ts: string): (n: string)
    ensures |n| == |tag| + |id| + |ts| + 13
    ensures n[..7] == "ANSTAT_" && n[7..7 + |tag|] == tag && n[|n| - 4..] == ".csv"
  {
    "ANSTAT_" + tag + "_" + id + "_" + ts + ".csv"
  }

  datatype Download = Download(url: string, fileName: string)

  /**
   * What the loop does for one indicator page: a page that could not be
   * fetched (`fetched` is None) or that holds no id leads to no download;
   * otherwise the id's URL is requested and written under the label's name.
   */
  function DownloadFor(tag: string, fetched: Option<string>, ts: string): (d: Option<Download>)
    ensures d.None? <==> fetched.None? || FindIndicatorId(fetched.value).None?
    ensures d.Some? ==> (
      var id := FindIndicatorId(fetched.value).value;
      && IsId(id) && d.value.url == DownloadUrl(id) && d.value.fileName == OutputName(tag, id, ts))
  {
    if fetched.None? then None
    else
      match FindIndicatorId(fetched.value)
      case None => None
      case Some(id) => Some(Download(DownloadUrl(id), OutputName(tag, id, ts)))
  }

  /** The values of the present entries, in order. */
  function Present<T>(xs: seq<Option<T>>): (r: seq<T>)
    ensures |r| <= |xs|
    ensures forall x :: x in r ==> Some(x) in xs
    ensures forall i :: 0 <= i < |xs| && xs[i].Some? ==> xs[i].value in r
  {
    if xs == [] then []
    else if xs[0].None? then Present(xs[1..])
    else [xs[0].value] + Present(xs[1..])
  }

  /** An absent entry adds nothing; the others keep their order. */
  lemma {:induction false} PresentSkipsAbsent<T>(xs: seq<Option<T>>, k: nat)
    requires k < |xs| && xs[k].None?
    ensures Present(xs) == Present(xs[..k] + xs[k + 1..])
    decreases k
  {
    var ys := xs[..k] + xs[k + 1..];
    if k == 0 {
      assert ys == xs[1..];
    } else {
      PresentSkipsAbsent(xs[1..], k - 1);
      assert ys[0] == xs[0];
      assert ys[1..] == xs[1..][..k - 1] + xs[1..][k..];
    }
  }

  /** What the loop decides for each page of the indicator list, in order. */
  function Attempts(pages: seq<(string, Option<string>)>, ts: string): (r: seq<Option<Download>>)
    ensures |r| == |pages|
    ensures forall i :: 0 <= i < |pages| ==> r[i] == DownloadFor(pages[i].0, pages[i].1, ts)
  {
    if pages == [] then [] else [DownloadFor(pages[0].0, pages[0].1, ts)] + Attempts(pages[1..], ts)
  }

  /** Deciding page by page commutes with taking a page out of the list. */
  lemma {:induction false} AttemptsWithout(pages: seq<(string, Option<string>)>, k: nat, ts: string)
    requires k < |pages|
    ensures Attempts(pages[..k] + pages[k + 1..], ts) == Attempts(pages, ts)[..k] + Attempts(pages, ts)[k + 1..]
    decreases k
  {
    var rest := pages[..k] + pages[k + 1..];
    if k == 0 {
      assert rest == pages[1..];
    } else {
      AttemptsWithout(pages[1..], k - 1, ts);
      assert rest[0] == pages[0];
      assert rest[1..] == pages[1..][..k - 1] + pages[1..][k..];
    }
  }

  /** The downloads of the whole loop, in the order of the indicator list. */
  function Downloads(pages: seq<(string, Option<string>)>, ts: string): (r: seq<Download>)
    ensures |r| <= |pages|
    ensures forall d :: d in r ==>
      |d.url| > |DownloadPrefix| && d.url[..|DownloadPrefix|] == DownloadPrefix && IsId(d.url[|DownloadPrefix|..])
    ensures forall i :: 0 <= i < |pages| && DownloadFor(pages[i].0, pages[i].1, ts).Some? ==>
      DownloadFor(pages[i].0, pages[i].1, ts).value in r
  {
    Present(Attempts(pages, ts))
  }

  /** A page without an id adds nothing to the downloads; the others keep their order. */
  lemma PageWithoutIdSkipped(pages: seq<(string, Option<string>)>, k: nat, ts: string)
    requires k < |pages| && DownloadFor(pages[k].0, pages[k].1, ts).None?
    ensures Downloads(pages, ts) == Downloads(pages[..k] + pages[k + 1..], ts)
  {
    var xs := Attempts(pages, ts);
    PresentSkipsAbsent(xs, k);
    AttemptsWithout(pages, k, ts);
  }

  /** A page where `id:` comes first, yet the `data-id` attribute decides. */
  const ExamplePage: string := "id:1 data-id='2'"

  lemma ExampleBareKey()
    ensures MatchAt(BareIdKey, ExamplePage, 0) == Some(Match(0, 3, 4))
  {
    assert LiteralAt(ExamplePage, IdWord, 0);
    assert SkipSpaces(ExamplePage, 2) == 2;
    assert SkipSpaces(ExamplePage, 3) == 3;
    assert DigitsEnd(ExamplePage, 3) == 4;
    assert BareIdAt(ExamplePage, 0) == Some(Match(0, 3, 4));
  }

  lemma ExampleNoAttributeBefore(i: nat)
    requires i < 5
    ensures MatchAt(DataIdAttr, ExamplePage, i).None?
  {
    assert !SameLetter(ExamplePage[i + 1], DataIdWord[1]);
  }

  lemma ExampleAttribute()
    ensures MatchAt(DataIdAttr, ExamplePage, 5) == Some(Match(5, 14, 15))
  {
    var h := ExamplePage;
    assert LiteralAt(h, DataIdWord, 5);
    assert SkipSpaces(h, 12) == 12;
    assert SkipSpaces(h, 13) == 13;
    assert DigitsEnd(h, 15) == 15;
    assert DigitsEnd(h, 14) == 15;
  }

  /** An example of the priority: the bare key matches at the very start, the attribute decides. */
  lemma AttributeBeatsEarlierKey()
    ensures Search(BareIdKey, ExamplePage) == Some(Match(0, 3, 4))
    ensures Search(DataIdAttr, ExamplePage) == Some(Match(5, 14, 15))
    ensures FindIndicatorId(ExamplePage) == Some("2")
  {
    var h := ExamplePage;
    ExampleBareKey();
    FirstMatchingAt((k: nat) => MatchAt(BareIdKey, h, k), |h|, 0, 0);
    ExampleAttribute();
    forall i | 0 <= i < 5 ensures MatchAt(DataIdAttr, h, i).None? {
      ExampleNoAttributeBefore(i);
    }
    FirstMatchingAt((k: nat) => MatchAt(DataIdAttr, h, k), |h|, 0, 5);
    assert h[14..15] == "2";
  }
}
