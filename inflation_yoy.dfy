/**
 * `08_extract_inflation_yoy_v01.py`: year-on-year inflation read from two
 * saved web pages, the ANSD annual page for Senegal and the ANStat home page
 * for Côte d'Ivoire. Each block upserts one row into the table at once, so a
 * failure in the second block leaves the first block's row in the file.
 *
 * The regular expressions are abstract: each page is given as the sequence of
 * places where the fixed part of its pattern matches, in the order `re.search`
 * tries them, with the tokens that follow; `re.search` returns the first place
 * whose tokens fit the rest of the pattern. For the Senegal pattern that order
 * is text order. The Côte d'Ivoire pattern has a greedy gap,
 * `IHPC[^.]{0,120}hausse\s+de`: its places are ordered by the start of "IHPC",
 * and for one "IHPC" from the farthest "hausse de" within the gap to the
 * nearest, because the engine shortens the gap only after a longer one fails.
 */
module InflationYoy {
  import opened Wrappers
  import opened Text
  import opened Numerals
  import opened Table
  import opened Store
  import IhpcLatest

  const Indicator: string := "Inflation IHPC YoY"

  const SenCountry: string := "Sénégal"
  const SenGlob: string := "Senegal_ANSD_IHPC_annual_*.html"
  const SenSource: string := "ANSD"
  const SenUrl: string := "https://www.ansd.sn/Indicateur/evolution-annuelle-de-lindice-harmonise-des-prix-la-consommation"
  const SenComment: string := "Extraction v0.1 depuis page ANSD (évolution annuelle IHPC)"

  const CivCountry: string := "Côte d’Ivoire"
  const CivGlob: string := "CIV_ANStat_home_*.html"
  const CivSource: string := "ANStat"
  const CivUrl: string := "https://www.anstat.ci/"
  const CivComment: string :=
    "Extraction v0.1 depuis homepage ANStat (résumé bulletin IHPC). Mois gardé en texte dans date_reference."

  // ---------------------------------------------------------------------------
  // parse_number, after the callers' `.replace("+", "")`
  // ---------------------------------------------------------------------------

  /** `parse_number(capture.replace("+", ""))`: '+' deleted, ',' becomes '.', stripped, then `float()`. */
  function SignedFigure(capture: string): (r: Option<real>)
    ensures '-' !in capture && r.Some? ==> r.value >= 0.0
  {
    ToFloat(DeleteChar(capture, '+'))
  }

  /** Deleting '+' and turning ',' into '.' commute. */
  lemma {:induction false} DeleteReplaceCommute(x: string)
    ensures DeleteChar(ReplaceChar(x, ',', '.'), '+') == ReplaceChar(DeleteChar(x, '+'), ',', '.')
  {
    if x != [] {
      DeleteReplaceCommute(x[1..]);
      assert ReplaceChar(x, ',', '.')[1..] == ReplaceChar(x[1..], ',', '.');
      if x[0] != '+' {
        assert [x[0]] + DeleteChar(x[1..], '+') == DeleteChar(x, '+');
        assert ReplaceChar([x[0]] + DeleteChar(x[1..], '+'), ',', '.')
            == [if x[0] == ',' then '.' else x[0]] + ReplaceChar(DeleteChar(x[1..], '+'), ',', '.');
      }
    }
  }

  /** This script and src/10 read a captured numeral alike, though they delete '+' at different moments. */
  lemma SameReadingAsPdfScript(capture: string)
    ensures SignedFigure(capture) == ParseNumberUnsignedPlus(capture)
  {
    DeleteReplaceCommute(capture);
  }

  lemma DeleteLeadingPlus(n: string)
    requires '+' !in n
    ensures DeleteChar("+" + n, '+') == n
  {
    assert ("+" + n)[1..] == n;
  }

  /**
   * A leading '+' is ignored: `"+0,8"` reads like `"0,8"`, and so does any
   * other unsigned numeral written with a decimal comma or point.
   */
  lemma PlusIgnored(n: string)
    requires '+' !in n && IsDecimalNumeral(ReplaceChar(n, ',', '.'))
    ensures SignedFigure("+" + n) == SignedFigure(n) == ParseFloat(ReplaceChar(n, ',', '.'))
    ensures SignedFigure(n).Some? && SignedFigure(n).value >= 0.0
  {
    DeleteLeadingPlus(n);
    ToFloatDecimal(n);
  }

  lemma ExampleNumeral()
    ensures ReplaceChar("0,8", ',', '.') == "0.8"
  {
    var t := ReplaceChar("0,8", ',', '.');
    assert t[0] == '0' && t[1] == '.' && t[2] == '8';
  }

  lemma ExampleFind()
    ensures Find("0.8", ".") == 1
  {
    var t := "0.8";
    assert t[1..2] == ".";
    assert t[0..1][0] == '0';
  }

  lemma ExampleIsDecimal()
    ensures IsDecimalNumeral("0.8")
  {
    ExampleFind();
    assert "0.8"[..1] == "0" && "0.8"[2..] == "8";
  }

  lemma ExampleNoPlus()
    ensures '+' !in "0,8"
  {
    var t := "0,8";
    assert forall i :: 0 <= i < |t| ==> t[i] != '+';
  }

  lemma ExampleValue()
    ensures ParseFloat("0.8") == Some(0.8)
  {
    ExampleIsDecimal();
    StripDecimal("0.8");
    ExampleUnsigned();
    assert "0.8"[0] == '0';
  }

  lemma ExampleUnsigned()
    ensures ParseUnsigned("0.8") == Some(0.8)
  {
    var t := "0.8";
    ExampleFind();
    assert t[..1] == "0" && t[2..] == "8";
    assert DigitsValue("0") == 0;
    assert DigitsValue("8") == 8;
  }

  /** The example figure of the Senegal page: `"+0,8"` gives 0.8. */
  lemma PlusExample()
    ensures SignedFigure("+0,8") == Some(0.8)
  {
    ExampleNumeral();
    ExampleIsDecimal();
    ExampleNoPlus();
    PlusIgnored("0,8");
    ExampleValue();
    ExampleConcat();
  }

  lemma ExampleConcat()
    ensures "+0,8" == "+" + "0,8"
  {
    var a, b := "+0,8", "+" + "0,8";
    assert |a| == |b| == 4;
    assert a[0] == b[0] && a[1] == b[1] && a[2] == b[2] && a[3] == b[3];
  }

  // ---------------------------------------------------------------------------
  // re.search over the candidate places
  // ---------------------------------------------------------------------------

  /** The first place whose tokens fit, from position k on, or -1. */
  function FirstFitting<T>(places: seq<T>, fits: T -> bool, k: nat := 0): (r: int)
    requires k <= |places|
    requires forall i :: 0 <= i < k ==> !fits(places[i])
    ensures -1 <= r < |places|
    ensures r == -1 <==> forall i :: 0 <= i < |places| ==> !fits(places[i])
    ensures r >= 0 ==> fits(places[r]) && forall i :: 0 <= i < r ==> !fits(places[i])
    decreases |places| - k
  {
    if k == |places| then -1
    else if fits(places[k]) then k
    else FirstFitting(places, fits, k + 1)
  }

  /** `20[0-9]{2}`, the whole token. */
  predicate IsYear(y: string) {
    |y| == 4 && IhpcLatest.YearAt(y, 0)
  }

  /** A letter of `[A-Za-zéûôîàç]` under IGNORECASE. */
  predicate IsMonthLetter(c: char) {
    ('A' <= c <= 'Z') || ('a' <= c <= 'z') || Lower(c) in "éûôîàç"
  }

  predicate IsMonthWord(w: string) {
    w != [] && forall i :: 0 <= i < |w| ==> IsMonthLetter(w[i])
  }

  /** A place where "taux d'inflation s'est établi à" matches: the numeral, and the token after "% en". */
  datatype RateSentence = RateSentence(numeral: string, year: string)

  predicate SenFits(c: RateSentence) {
    IsYear(c.year)
  }

  /**
   * A place where "IHPC ... hausse de" matches: the numeral, then the tokens of
   * "% en <month> <year> par rapport à <month again> <year>". Places sharing one
   * "IHPC" come farthest "hausse de" first, as the greedy gap is tried.
   */
  datatype HomeSentence = HomeSentence(numeral: string, month: string, year: string,
                                       repeatedMonth: string, previousYear: string)

  /** The rest of the pattern: two years, a month word, and `\2` repeating it, compared without case. */
  predicate CivFits(c: HomeSentence) {
    && IsMonthWord(c.month) && IsYear(c.year) && IsYear(c.previousYear)
    && LowerString(c.repeatedMonth) == LowerString(c.month)
  }

  // ---------------------------------------------------------------------------
  // The two blocks
  // ---------------------------------------------------------------------------

  /** The Senegal row: dated by the captured year alone. */
  function SenRow(value: real, year: string, now: string): (r: Row)
    ensures r.country == Some(SenCountry) && r.indicator == Some(Indicator) && r.unit == Some("%")
    ensures r.value == Some(value) && r.dateReference == Some(year) && r.collectedAt == Some(now)
  {
    MakeRow(SenCountry, Indicator, value, "%", year, SenSource, SenUrl, now, SenComment)
  }

  /** The Côte d'Ivoire row: dated "<year>-<month word>". */
  function CivRow(value: real, month: string, year: string, now: string): (r: Row)
    ensures r.country == Some(CivCountry) && r.indicator == Some(Indicator) && r.unit == Some("%")
    ensures r.value == Some(value) && r.collectedAt == Some(now)
    ensures r.dateReference.Some? && |r.dateReference.value| == |year| + 1 + |month|
    ensures r.dateReference.value[..|year|] == year && r.dateReference.value[|year|] == '-'
    ensures r.dateReference.value[|year| + 1..] == month
  {
    MakeRow(CivCountry, Indicator, value, "%", year + "-" + month, CivSource, CivUrl, now, CivComment)
  }

  /**
   * The Senegal block: IndexError without a saved page, nothing when the
   * pattern does not match, ValueError when `float()` refuses the numeral,
   * otherwise the row dated by the captured year.
   */
  function SenStep(pages: seq<string>, sentencesOf: string -> seq<RateSentence>, now: string): (s: Step)
    ensures pages == [] <==> s == Abort(IndexError)
    ensures s.Skip? <==> pages != [] && FirstFitting(sentencesOf(Greatest(pages)), SenFits) == -1
    ensures s.Abort? && pages != [] ==> s.error.ValueError?
    ensures s.Write? ==> (
      var cs := sentencesOf(Greatest(pages));
      var i := FirstFitting(cs, SenFits);
      && 0 <= i && s.row.value == SignedFigure(cs[i].numeral)
      && s.row.dateReference == Some(cs[i].year) && IsYear(cs[i].year)
      && s.row.country == Some(SenCountry) && s.row.indicator == Some(Indicator))
  {
    if pages == [] then Abort(IndexError)
    else
      var cs := sentencesOf(Greatest(pages));
      var i := FirstFitting(cs, SenFits);
      if i == -1 then Skip
      else
        match SignedFigure(cs[i].numeral)
        case None => Abort(ValueError("could not convert string to float"))
        case Some(v) => Write(SenRow(v, cs[i].year, now))
  }

  /**
   * The Côte d'Ivoire block, the same way; its row is dated "<year>-<month>"
   * with the month word kept as written, so the character after the dash is
   * a letter and never the first digit of a numeric month.
   */
  function CivStep(pages: seq<string>, sentencesOf: string -> seq<HomeSentence>, now: string): (s: Step)
    ensures pages == [] <==> s == Abort(IndexError)
    ensures s.Skip? <==> pages != [] && FirstFitting(sentencesOf(Greatest(pages)), CivFits) == -1
    ensures s.Abort? && pages != [] ==> s.error.ValueError?
    ensures s.Write? ==> (
      var cs := sentencesOf(Greatest(pages));
      var i := FirstFitting(cs, CivFits);
      && 0 <= i && s.row.value == SignedFigure(cs[i].numeral)
      && s.row.dateReference == Some(cs[i].year + "-" + cs[i].month)
      && LowerString(cs[i].repeatedMonth) == LowerString(cs[i].month)
      && s.row.country == Some(CivCountry) && s.row.indicator == Some(Indicator))
  {
    if pages == [] then Abort(IndexError)
    else
      var cs := sentencesOf(Greatest(pages));
      var i := FirstFitting(cs, CivFits);
      if i == -1 then Skip
      else
        match SignedFigure(cs[i].numeral)
        case None => Abort(ValueError("could not convert string to float"))
        case Some(v) =>
          Write(CivRow(v, cs[i].month, cs[i].year, now))
  }

  /** "<year>-<month word>": a year, a dash, then a letter where a numeric month would have a digit. */
  lemma CivDateShape(month: string, year: string)
    requires IsMonthWord(month) && IsYear(year)
    ensures var d := year + "-" + month; |d| > 5 && IsYear(d[..4]) && d[4] == '-' && !IsDigit(d[5])
  {
    var d := year + "-" + month;
    assert d[..4] == year && d[5] == month[0];
  }

  /**
   * The Côte d'Ivoire row is dated "<year>-<month word>", never in the numeric
   * "YYYY-MM" form the other scripts write, so the same month from another
   * source lands under a different key.
   */
  lemma CivDateKeepsMonthWord(pages: seq<string>, sentencesOf: string -> seq<HomeSentence>, now: string)
    requires CivStep(pages, sentencesOf, now).Write?
    ensures var d := CivStep(pages, sentencesOf, now).row.dateReference.value;
      |d| > 5 && IsYear(d[..4]) && d[4] == '-' && !IsDigit(d[5]) && !IhpcLatest.MonthAt(d, 5)
  {
    var cs := sentencesOf(Greatest(pages));
    var i := FirstFitting(cs, CivFits);
    CivDateShape(cs[i].month, cs[i].year);
  }

  datatype Block = Senegal | IvoryCoast

  const Blocks: seq<Block> := [Senegal, IvoryCoast]

  function StepOf(senPages: seq<string>, senText: string -> seq<RateSentence>,
                  civPages: seq<string>, civText: string -> seq<HomeSentence>, now: string): Block -> Step
  {
    (b: Block) => if b == Senegal then SenStep(senPages, senText, now) else CivStep(civPages, civText, now)
  }

  /** The file and the escaping exception after the whole script. */
  function Script(file: Option<Frame>, senPages: seq<string>, senText: string -> seq<RateSentence>,
                  civPages: seq<string>, civText: string -> seq<HomeSentence>, now: string): (r: (Option<Frame>, Option<Exception>))
    ensures senPages == [] ==> r == (file, Some(IndexError))
    ensures SenStep(senPages, senText, now).Skip? && CivStep(civPages, civText, now).Skip? ==> r == (file, None)
    ensures SenStep(senPages, senText, now).Skip? && civPages == [] ==> r == (file, Some(IndexError))
  {
    var step := StepOf(senPages, senText, civPages, civText, now);
    var s0, s1 := SenStep(senPages, senText, now), CivStep(civPages, civText, now);
    assert step(Blocks[0]) == s0 && step(Blocks[1]) == s1;
    ScriptShape(file, Blocks, step);
    RunSteps(file, Blocks, step)
  }

  /** Rows of the two countries differ in the key's first character. */
  lemma CountriesApart(a: Row, b: Row)
    requires a.country == Some(SenCountry) && b.country == Some(CivCountry)
    ensures Key(a) != Key(b)
  {
    assert Key(a)[0] == SenCountry[0] == 'S';
    assert Key(b)[0] == CivCountry[0] == 'C';
  }

  /** The two countries' rows never share a key. */
  lemma BlocksApart(senPages: seq<string>, senText: string -> seq<RateSentence>,
                    civPages: seq<string>, civText: string -> seq<HomeSentence>, now: string)
    ensures WritesApart(Blocks, StepOf(senPages, senText, civPages, civText, now))
  {
    var step := StepOf(senPages, senText, civPages, civText, now);
    var s0, s1 := SenStep(senPages, senText, now), CivStep(civPages, civText, now);
    assert step(Blocks[0]) == s0 && step(Blocks[1]) == s1;
    if s0.Write? && s1.Write? {
      CountriesApart(s0.row, s1.row);
    }
    WritesApartOfTwo(Blocks, step);
  }

  /**
   * A run that reaches its end leaves each row it wrote in the file exactly
   * once; when the second block fails, the first block's row is still there.
   */
  lemma RowsKept(file: Option<Frame>, senPages: seq<string>, senText: string -> seq<RateSentence>,
                 civPages: seq<string>, civText: string -> seq<HomeSentence>, now: string)
    ensures var (f, e) := Script(file, senPages, senText, civPages, civText, now);
      var s0 := SenStep(senPages, senText, now);
      var s1 := CivStep(civPages, civText, now);
      && (e.None? && s1.Write? ==> f.Some? && Select(f.value.rows, Key(s1.row)) == [s1.row])
      && (s0.Write? && UpsertFile(file, s0.row).Ok? ==> f.Some? && Select(f.value.rows, Key(s0.row)) == [s0.row])
  {
    var step := StepOf(senPages, senText, civPages, civText, now);
    var s0 := SenStep(senPages, senText, now);
    var s1 := CivStep(civPages, civText, now);
    assert step(Blocks[0]) == s0 && step(Blocks[1]) == s1;
    assert Blocks[1..] == [IvoryCoast] && [IvoryCoast][1..] == [];
    BlocksApart(senPages, senText, civPages, civText, now);
    var (f, e) := Script(file, senPages, senText, civPages, civText, now);
    if e.None? {
      RunStepsWritesAll(file, Blocks, step);
      assert s1.Write? ==> step(Blocks[1]).Write?;
    }
    if s0.Write? && UpsertFile(file, s0.row).Ok? {
      var f0 := UpsertFile(file, s0.row).value;
      assert RunSteps(file, Blocks, step) == RunSteps(Some(f0), [IvoryCoast], step);
      if s1.Write? && UpsertFile(Some(f0), s1.row).Ok? {
        assert Key(s0.row) != Key(s1.row);
      }
    }
  }

  /**
   * The script: the Senegal block, then the Côte d'Ivoire block, each
   * upserting its row into the file at once.
   */
  method Run(store: MacroStore, senPages: seq<string>, senText: string -> seq<RateSentence>,
             civPages: seq<string>, civText: string -> seq<HomeSentence>, now: string)
    returns (err: Option<Exception>)
    requires store.Valid()
    modifies store
    ensures store.Valid()
    ensures (store.file, err) == Script(old(store.file), senPages, senText, civPages, civText, now)
  {
    ghost var step := StepOf(senPages, senText, civPages, civText, now);
    assert Blocks[1..] == [IvoryCoast] && [IvoryCoast][1..] == [];
    assert step(Senegal) == SenStep(senPages, senText, now);
    assert step(IvoryCoast) == CivStep(civPages, civText, now);
    ghost var f0 := store.file;
    err := None;
    var s := SenStep(senPages, senText, now);
    if s.Abort? {
      err := Some(s.error);
      return;
    }
    if s.Write? {
      err := store.UpsertMacro(s.row);
      if err.Some? {
        return;
      }
    }
    assert RunSteps(f0, Blocks, step) == RunSteps(store.file, [IvoryCoast], step);
    var c := CivStep(civPages, civText, now);
    if c.Abort? {
      err := Some(c.error);
      return;
    }
    if c.Write? {
      err := store.UpsertMacro(c.row);
    }
  }
}
