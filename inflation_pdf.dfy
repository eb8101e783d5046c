/**
 * `10_extract_inflation_from_pdf.py`: for three fixed bulletins, take the
 * latest PDF of each, try the year-on-year patterns in order and upsert the
 * first figure found straight into the file.
 */
module InflationPdf {
  import opened Wrappers
  import opened Text
  import opened Numerals
  import opened Table
  import opened Matching
  import opened Store

  /** One entry of PDF_MAP: which files to look at and what to write for them. */
  datatype PdfEntry = PdfEntry(glob: string, country: string, dateReference: string,
                               sourceName: string, sourceUrl: string)

  const SenUrl: string := "https://www.ansd.sn/sites/default/files/2025-01/IHPC_12_2024.pdf"
  const Civ2023Url: string := "https://www.anstat.ci/assets/publications/files/ihpc1023.pdf"
  const Civ2025Url: string := "https://www.anstat.ci/assets/publications/files/File_val_indicateur1752229928.pdf"

  const PdfMap: seq<PdfEntry> := [
    PdfEntry("SEN_ANSD_IHPC_2024_12_*.pdf", "Sénégal", "2024-12", "ANSD", SenUrl),
    PdfEntry("CIV_ANSTAT_IHPC_2023_10_*.pdf", "Côte d’Ivoire", "2023-10", "ANStat", Civ2023Url),
    PdfEntry("CIV_ANSTAT_IHPC_UEMOA_2025_06_*.pdf", "Côte d’Ivoire", "2025-06", "ANStat", Civ2025Url)
  ]

  const GlissementPattern: string := @"glissement\s+annuel[^0-9+\-]{0,80}([+\-]?\s*[0-9]+(?:[.,][0-9]+)?)\s*%"
  const VariationPattern: string := @"variation\s+annuelle[^0-9+\-]{0,80}([+\-]?\s*[0-9]+(?:[.,][0-9]+)?)\s*%"
  const MemeMoisPattern: string :=
    @"par\s+rapport\s+au\s+m[êe]me\s+mois[^0-9+\-]{0,120}([+\-]?\s*[0-9]+(?:[.,][0-9]+)?)\s*%"

  /** The text of the three PATTERNS, in the order they are tried; the comment of a row names the one used. */
  const Patterns: seq<string> := [GlissementPattern, VariationPattern, MemeMoisPattern]

  const YoYIndicator: string := "Inflation IHPC YoY"

  /**
   * What each pattern captures in the text of a PDF: `search(name, k)` is
   * group 1 of the leftmost match of pattern k, or None.
   */
  function Hits(search: (string, nat) -> Option<string>, name: string): seq<Option<string>> {
    seq(|Patterns|, (k: nat) => search(name, k))
  }

  /** The row written for an entry, from the pattern used, its value and the file name. */
  function PdfRow(e: PdfEntry, k: nat, value: real, name: string, now: string): (row: Row)
    requires k < |Patterns|
    ensures row.country == Some(e.country) && row.indicator == Some(YoYIndicator) && row.unit == Some("%")
    ensures row.dateReference == Some(e.dateReference) && row.value == Some(value)
    ensures row.sourceName == Some(e.sourceName) && row.sourceUrl == Some(e.sourceUrl)
  {
    MakeRow(e.country, YoYIndicator, value, "%", e.dateReference, e.sourceName, e.sourceUrl, now,
            "Extraction PDF v0.1 (pattern: " + Patterns[k] + ") | file: " + name)
  }

  /**
   * One entry of the loop: skipped when no file matches or no pattern
   * matches; ended by ValueError when `float()` refuses the capture;
   * otherwise the row to upsert.
   */
  function EntryStep(e: PdfEntry, pdfs: seq<string>, search: (string, nat) -> Option<string>, now: string): (s: Step)
    ensures pdfs == [] ==> s == Skip
    ensures s.Write? ==> pdfs != [] && exists k: nat ::
      && k < |Patterns| && search(Greatest(pdfs), k).Some?
      && (forall j :: 0 <= j < k ==> search(Greatest(pdfs), j).None?)
      && s.row.value == ParseNumberUnsignedPlus(search(Greatest(pdfs), k).value)
  {
    var s := EntryStepWith(e, pdfs, search, ParseNumberUnsignedPlus, now);
    if s.Write? then
      EntryStepWrites(e, pdfs, search, ParseNumberUnsignedPlus, now);
      s
    else s
  }

  /** The same step for any conversion of the capture; the script converts with `parse_number`. */
  function EntryStepWith(e: PdfEntry, pdfs: seq<string>, search: (string, nat) -> Option<string>,
                         convert: string -> Option<real>, now: string): (s: Step)
    ensures pdfs == [] ==> s == Skip
    ensures s.Abort? ==> s.error.ValueError?
    ensures s.Write? ==> && s.row.indicator == Some(YoYIndicator) && s.row.unit == Some("%")
                         && s.row.dateReference == Some(e.dateReference) && s.row.country == Some(e.country)
  {
    if pdfs == [] then Skip
    else
      var name := Greatest(pdfs);
      match ChainOutcome(Hits(search, name), convert)
      case NoHit => Skip
      case Unconvertible(_) => Abort(ValueError("could not convert string to float"))
      case Hit(k, v) => Write(PdfRow(e, k, v, name, now))
  }

  /** The step is skipped exactly when no pattern matches the latest file. */
  lemma EntryStepSkips(e: PdfEntry, pdfs: seq<string>, search: (string, nat) -> Option<string>,
                       convert: string -> Option<real>, now: string)
    requires pdfs != []
    ensures EntryStepWith(e, pdfs, search, convert, now) == Skip ==>
      forall k: nat :: k < |Patterns| ==> search(Greatest(pdfs), k).None?
    ensures EntryStepWith(e, pdfs, search, convert, now) != Skip ==>
      exists k: nat :: k < |Patterns| && search(Greatest(pdfs), k).Some?
  {
    var name := Greatest(pdfs);
    var hits := Hits(search, name);
    var c := ChainOutcome(hits, convert);
    if c.NoHit? {
      forall k: nat | k < |Patterns| ensures search(name, k).None? {
        assert hits[k] == search(name, k);
      }
    } else {
      var i := if c.Hit? then c.index else c.index;
      assert hits[i].Some? && hits[i] == search(name, i) && i < |Patterns|;
    }
  }

  /** The script ends exactly when the first matching pattern's capture does not convert. */
  lemma EntryStepAborts(e: PdfEntry, pdfs: seq<string>, search: (string, nat) -> Option<string>,
                        convert: string -> Option<real>, now: string)
    requires pdfs != []
    ensures EntryStepWith(e, pdfs, search, convert, now).Abort? <==>
      ChainOutcome(Hits(search, Greatest(pdfs)), convert).Unconvertible?
  {
  }

  /** Otherwise the row holds the converted capture of the first matching pattern. */
  lemma EntryStepWrites(e: PdfEntry, pdfs: seq<string>, search: (string, nat) -> Option<string>,
                        convert: string -> Option<real>, now: string)
    requires pdfs != [] && EntryStepWith(e, pdfs, search, convert, now).Write?
    ensures var c := ChainOutcome(Hits(search, Greatest(pdfs)), convert);
      && c.Hit?
      && EntryStepWith(e, pdfs, search, convert, now).row.value == Some(c.value)
      && search(Greatest(pdfs), c.index).Some?
      && convert(search(Greatest(pdfs), c.index).value) == Some(c.value)
      && forall k :: 0 <= k < c.index ==> search(Greatest(pdfs), k).None?
  {
    var hits := Hits(search, Greatest(pdfs));
    var c := ChainOutcome(hits, convert);
    assert hits[c.index] == search(Greatest(pdfs), c.index);
    forall k | 0 <= k < c.index ensures search(Greatest(pdfs), k).None? {
      assert hits[k] == search(Greatest(pdfs), k);
    }
  }

  /** The loop body as a function of the entry. */
  function StepOf(listing: string -> seq<string>, search: (string, nat) -> Option<string>, now: string): PdfEntry -> Step {
    (e: PdfEntry) => EntryStep(e, listing(e.glob), search, now)
  }

  /**
   * The patterns let a space sit between the sign and the digits, but
   * `parse_number` keeps it, so `float()` refuses such a capture.
   */
  lemma SpacedMinusRefused()
    ensures ParseNumberUnsignedPlus("- 0,6").None?
  {
    SpacedMinusSteps();
    var u := "- 0.6";
    assert u[0] == '-' && u[1] == ' ';
    SignedSpaceRefused(u);
  }

  /** The rewriting steps of `parse_number` on "- 0,6": only the comma changes. */
  lemma SpacedMinusSteps()
    ensures ReplaceChar("- 0,6", ',', '.') == "- 0.6"
    ensures DeleteChar("- 0.6", '+') == "- 0.6"
    ensures Strip("- 0.6") == "- 0.6"
  {
    SpacedMinusComma();
    SpacedMinusNoPlus();
    SpacedMinusStrip();
  }

  lemma SpacedMinusComma()
    ensures ReplaceChar("- 0,6", ',', '.') == "- 0.6"
  {
    var r := ReplaceChar("- 0,6", ',', '.');
    assert r[0] == '-' && r[1] == ' ' && r[2] == '0' && r[3] == '.' && r[4] == '6';
  }

  lemma SpacedMinusStrip()
    ensures Strip("- 0.6") == "- 0.6"
  {
    var u := "- 0.6";
    assert TrimLeft(u) == u;
    assert TrimRight(u) == u;
  }

  lemma SpacedMinusNoPlus()
    ensures DeleteChar("- 0.6", '+') == "- 0.6"
  {
    var r := "- 0.6";
    assert r[0] != '+' && r[1] != '+' && r[2] != '+' && r[3] != '+' && r[4] != '+';
  }

  /** The three entries' rows differ in country or in the reference month, so their keys differ. */
  lemma PdfMapWritesApart(listing: string -> seq<string>, search: (string, nat) -> Option<string>, now: string)
    ensures WritesApart(PdfMap, StepOf(listing, search, now))
  {
    var step := StepOf(listing, search, now);
    forall i, j | 0 <= i < j < |PdfMap| && step(PdfMap[i]).Write? && step(PdfMap[j]).Write?
      ensures Key(step(PdfMap[i]).row) != Key(step(PdfMap[j]).row)
    {
      var ei, ej := PdfMap[i], PdfMap[j];
      assert step(ei) == EntryStep(ei, listing(ei.glob), search, now);
      assert step(ej) == EntryStep(ej, listing(ej.glob), search, now);
      EntryRowsApart(step(ei).row, step(ej).row, i, j);
    }
  }

  lemma EntryRowsApart(a: Row, b: Row, i: nat, j: nat)
    requires 0 <= i < j < |PdfMap|
    requires a.country == Some(PdfMap[i].country) && a.indicator == Some(YoYIndicator)
    requires a.dateReference == Some(PdfMap[i].dateReference)
    requires b.country == Some(PdfMap[j].country) && b.indicator == Some(YoYIndicator)
    requires b.dateReference == Some(PdfMap[j].dateReference)
    ensures Key(a) != Key(b)
  {
    if i == 0 {
      assert Key(a)[0] == 'S' && Key(b)[0] == 'C';
    } else {
      assert PdfMap[1].country == PdfMap[2].country;
      assert PdfMap[1].dateReference[3] == '3' && PdfMap[2].dateReference[3] == '5';
      KeysPartAtDate(a, b, 3);
    }
  }

  /** When the loop runs to its end, the file holds the row of every bulletin that produced one, exactly once. */
  lemma EveryFoundFigureKept(file: Option<Frame>, listing: string -> seq<string>,
                             search: (string, nat) -> Option<string>, now: string)
    requires RunSteps(file, PdfMap, StepOf(listing, search, now)).1.None?
    ensures var f := RunSteps(file, PdfMap, StepOf(listing, search, now)).0;
      forall i :: 0 <= i < |PdfMap| && StepOf(listing, search, now)(PdfMap[i]).Write? ==>
        && f.Some?
        && Select(f.value.rows, Key(StepOf(listing, search, now)(PdfMap[i]).row)) == [StepOf(listing, search, now)(PdfMap[i]).row]
  {
    PdfMapWritesApart(listing, search, now);
    RunStepsWritesAll(file, PdfMap, StepOf(listing, search, now));
  }

  /** The pattern loop over the latest file: the decision `EntryStep` describes. */
  method EntryOutcome(e: PdfEntry, pdfs: seq<string>, search: (string, nat) -> Option<string>, now: string)
    returns (s: Step)
    ensures s == EntryStep(e, pdfs, search, now)
  {
    if pdfs == [] {
      return Skip;
    }
    var name := Greatest(pdfs);
    var outcome := SearchPatterns(Hits(search, name), ParseNumberUnsignedPlus);
    match outcome {
      case NoHit =>
        s := Skip;
      case Unconvertible(_) =>
        s := Abort(ValueError("could not convert string to float"));
      case Hit(k, v) =>
        s := Write(PdfRow(e, k, v, name, now));
    }
  }

  /**
   * One pass of the loop body: pick the latest file, run the pattern loop
   * and upsert through the file at once.
   */
  method RunEntry(store: MacroStore, e: PdfEntry, pdfs: seq<string>, search: (string, nat) -> Option<string>, now: string)
    returns (err: Option<Exception>)
    requires store.Valid()
    modifies store
    ensures store.Valid()
    ensures (store.file, err) == StepEffect(old(store.file), EntryStep(e, pdfs, search, now))
  {
    var s := EntryOutcome(e, pdfs, search, now);
    match s {
      case Skip =>
        err := None;
      case Abort(x) =>
        err := Some(x);
      case Write(row) =>
        err := store.UpsertMacro(row);
    }
  }

  /**
   * The script: for each entry, run the loop body; an exception ends the
   * script with the rows already written kept.
   */
  method Run(store: MacroStore, listing: string -> seq<string>, search: (string, nat) -> Option<string>, now: string)
    returns (err: Option<Exception>)
    requires store.Valid()
    modifies store
    ensures store.Valid()
    ensures (store.file, err) == RunSteps(old(store.file), PdfMap, StepOf(listing, search, now))
  {
    err := None;
    var i := 0;
    while i < |PdfMap|
      invariant 0 <= i <= |PdfMap|
      invariant store.Valid() && err.None?
      invariant RunSteps(old(store.file), PdfMap, StepOf(listing, search, now))
             == RunSteps(store.file, PdfMap[i..], StepOf(listing, search, now))
    {
      ghost var rest := PdfMap[i..];
      assert rest[1..] == PdfMap[i + 1..];
      var e := PdfMap[i];
      assert StepOf(listing, search, now)(rest[0]) == EntryStep(e, listing(e.glob), search, now);
      RunStepsHead(store.file, rest, StepOf(listing, search, now));
      err := RunEntry(store, e, listing(e.glob), search, now);
      if err.Some? {
        return;
      }
      i := i + 1;
    }
  }
}
