/**
 * `04_extract_policy_rate.py` and `05_extract_marginal_lending_rate.py`: two
 * scripts of one shape. Each reads the latest saved BCEAO monetary-policy
 * communiqué, tries its patterns in order until one matches, converts the
 * captured numeral, and upserts one row under a fixed key. Without a match it
 * raises ValueError with an excerpt of the page and writes nothing.
 *
 * The page's text and the patterns' captures on it are parameters:
 * `search(k)` is group 1 of pattern k's leftmost match, or None.
 */
module PolicyRates {
  import opened Wrappers
  import opened Text
  import opened Numerals
  import opened Table
  import opened Matching
  import opened Store

  /** What tells the two scripts apart. */
  datatype RateConfig = RateConfig(
    indicator: string, patterns: seq<string>,
    keyword: string, before: nat, after: nat, fallback: nat, notFound: string)

  const Country: string := "UEMOA"
  const DateReference: string := "2025-12-03"
  const SourceName: string := "BCEAO"
  const SourceUrl: string :=
    "https://www.bceao.int/fr/communique-presse/reunion-ordinaire-du-comite-de-politique-monetaire-de-la-bceao-tenue-le-3"
  const PageGlob: string := "bceao_cpm_20251203_*.html"

  const PolicyIndicator: string := "Taux directeur BCEAO (principal)"
  const PolicyNotFound: string := "Taux directeur non trouvé. Extrait utile:\n"
  const PolicyPattern0: string := @"principal\s+taux\s+directeur[^0-9]{0,80}([0-9]+(?:[.,][0-9]+)?)\s*%"
  const PolicyPattern1: string := @"maintenir\s+à\s*([0-9]+(?:[.,][0-9]+)?)\s*%[^.]{0,120}principal\s+taux\s+directeur"
  const PolicyPattern2: string := @"taux\s+minimum\s+de\s+soumission[^0-9]{0,80}([0-9]+(?:[.,][0-9]+)?)\s*%"

  /** src/04: the main policy rate; the excerpt is taken around "taux". */
  const Policy: RateConfig :=
    RateConfig(PolicyIndicator, [PolicyPattern0, PolicyPattern1, PolicyPattern2], "taux", 250, 400, 600, PolicyNotFound)

  const MarginalIndicator: string := "Taux BCEAO (guichet de prêt marginal)"
  const MarginalNotFound: string := "Taux du guichet de prêt marginal non trouvé. Extrait utile:\n"
  const MarginalPattern0: string := @"guichet\s+de\s+pr[eê]t\s+marginal[^0-9]{0,80}([0-9]+(?:[.,][0-9]+)?)\s*%"
  const MarginalPattern1: string :=
    @"taux\s+du\s+guichet\s+de\s+pr[eê]t\s+marginal[^0-9]{0,120}([0-9]+(?:[.,][0-9]+)?)\s*%"
  const MarginalPattern2: string :=
    @"maintenir\s+à\s*([0-9]+(?:[.,][0-9]+)?)\s*%[^.]{0,140}guichet\s+de\s+pr[eê]t\s+marginal"

  /** src/05: the marginal lending rate; the excerpt is taken around "marginal". */
  const Marginal: RateConfig :=
    RateConfig(MarginalIndicator, [MarginalPattern0, MarginalPattern1, MarginalPattern2], "marginal", 250, 500, 800,
               MarginalNotFound)

  /** The key every row of a script carries: its country, indicator and date never change. */
  function FixedKey(cfg: RateConfig): string {
    Country + "|" + cfg.indicator + "|" + DateReference
  }

  /** The captures of the patterns, in list order. */
  function Hits(cfg: RateConfig, search: nat -> Option<string>): (h: seq<Option<string>>)
    ensures |h| == |cfg.patterns|
    ensures forall k :: 0 <= k < |h| ==> h[k] == search(k)
  {
    seq(|cfg.patterns|, k requires 0 <= k => search(k))
  }

  /** The row for the rate found by pattern k. */
  function RateRow(cfg: RateConfig, k: nat, value: real, now: string): (row: Row)
    requires k < |cfg.patterns|
    ensures Key(row) == FixedKey(cfg)
  {
    MakeRow(Country, cfg.indicator, value, "%", DateReference, SourceName, SourceUrl, now,
            "CPM BCEAO (pattern: " + cfg.patterns[k] + ")")
  }

  /** The ValueError's message: the fixed text, then the excerpt of the page. */
  function NotFoundMessage(cfg: RateConfig, text: string): (m: string)
    ensures |m| <= |cfg.notFound| + (if Find(LowerString(text), cfg.keyword) == -1 then cfg.fallback
                                     else cfg.before + cfg.after)
  {
    cfg.notFound + ErrorSnippet(text, cfg.keyword, cfg.before, cfg.after, cfg.fallback)
  }

  /**
   * What a script decides before touching the table: IndexError when no page
   * was saved, ValueError with the excerpt when no pattern matches (or when
   * `float()` refuses a capture), otherwise the row for the first pattern
   * that matched.
   */
  function RateStep(cfg: RateConfig, pages: seq<string>, text: string, search: nat -> Option<string>, now: string)
    : (s: Step)
    ensures !s.Skip?
    ensures pages == [] <==> s == Abort(IndexError)
    ensures pages != [] && (forall k :: 0 <= k < |cfg.patterns| ==> search(k).None?) ==>
      s == Abort(ValueError(NotFoundMessage(cfg, text)))
    ensures s.Write? ==> (
      var c := ChainOutcome(Hits(cfg, search), ToFloat);
      && c.Hit? && s.row == RateRow(cfg, c.index, c.value, now)
      && search(c.index).Some? && s.row.value == ToFloat(search(c.index).value)
      && (forall k :: 0 <= k < c.index ==> search(k).None?))
    ensures s.Write? ==> Key(s.row) == FixedKey(cfg)
  {
    if pages == [] then Abort(IndexError)
    else
      match ChainOutcome(Hits(cfg, search), ToFloat)
      case NoHit => Abort(ValueError(NotFoundMessage(cfg, text)))
      case Unconvertible(_) => Abort(ValueError("could not convert string to float"))
      case Hit(k, v) => Write(RateRow(cfg, k, v, now))
  }

  /** What the patterns can capture: digits, then optionally ',' or '.' and digits. */
  predicate Captured(n: string) {
    IsDecimalNumeral(ReplaceChar(n, ',', '.'))
  }

  /**
   * A capture of these patterns always converts, and carries no sign: with a
   * saved page the script either writes a rate that is not negative or ends
   * because no pattern matched.
   */
  lemma RateNotNegative(cfg: RateConfig, pages: seq<string>, text: string, search: nat -> Option<string>, now: string)
    requires pages != []
    requires forall k :: 0 <= k < |cfg.patterns| && search(k).Some? ==> Captured(search(k).value)
    ensures var s := RateStep(cfg, pages, text, search, now);
      s.Write? || s == Abort(ValueError(NotFoundMessage(cfg, text)))
    ensures var s := RateStep(cfg, pages, text, search, now);
      s.Write? ==> s.row.value.Some? && s.row.value.value >= 0.0
  {
    var c := ChainOutcome(Hits(cfg, search), ToFloat);
    if !c.NoHit? {
      ToFloatDecimal(search(c.index).value);
    }
  }

  /** The two scripts' keys differ, in the sixth character of the indicator. */
  lemma KeysDiffer()
    ensures FixedKey(Policy) != FixedKey(Marginal)
  {
    var p, m := FixedKey(Policy), FixedKey(Marginal);
    assert p[11] == PolicyIndicator[5] == 'd';
    assert m[11] == MarginalIndicator[5] == 'B';
  }

  /** The policy rate and the marginal lending rate coexist in the table, whichever script ran first. */
  lemma RatesCoexist(file: Option<Frame>, first: Row, second: Row)
    requires || (Key(first) == FixedKey(Policy) && Key(second) == FixedKey(Marginal))
             || (Key(first) == FixedKey(Marginal) && Key(second) == FixedKey(Policy))
    requires UpsertFile(file, first).Ok?
    ensures var f1 := UpsertFile(file, first).value;
      && UpsertFile(Some(f1), second).Ok?
      && Select(UpsertFile(Some(f1), second).value.rows, Key(first)) == [first]
      && Select(UpsertFile(Some(f1), second).value.rows, Key(second)) == [second]
  {
    KeysDiffer();
    SchemaHasKeyColumns(UpsertFile(file, first).value);
  }

  /** Running a script again replaces its row: the rows are those of the second run alone. */
  lemma RerunReplaces(cfg: RateConfig, file: Option<Frame>, first: Step, second: Step)
    requires first.Write? && second.Write?
    requires Key(first.row) == FixedKey(cfg) && Key(second.row) == FixedKey(cfg)
    requires UpsertFile(file, first.row).Ok?
    ensures UpsertFile(Some(UpsertFile(file, first.row).value), second.row).Ok?
    ensures var f2 := UpsertFile(Some(UpsertFile(file, first.row).value), second.row).value;
      && f2.rows == UpsertFile(file, second.row).value.rows
      && Select(f2.rows, FixedKey(cfg)) == [second.row]
  {
    UpsertFileLastWriteWins(file, first.row, second.row);
  }

  /**
   * The script: take the latest page, run the pattern loop, raise with the
   * excerpt when nothing matched, else upsert the row into the file.
   */
  method Run(cfg: RateConfig, store: MacroStore, pages: seq<string>, text: string,
             search: nat -> Option<string>, now: string) returns (err: Option<Exception>)
    requires store.Valid()
    modifies store
    ensures store.Valid()
    ensures (store.file, err) == StepEffect(old(store.file), RateStep(cfg, pages, text, search, now))
  {
    if pages == [] {
      err := Some(IndexError);
      return;
    }
    var outcome := SearchPatterns(Hits(cfg, search), ToFloat);
    match outcome {
      case NoHit =>
        err := Some(ValueError(NotFoundMessage(cfg, text)));
      case Unconvertible(_) =>
        err := Some(ValueError("could not convert string to float"));
      case Hit(k, v) =>
        err := store.UpsertMacro(RateRow(cfg, k, v, now));
    }
  }
}
