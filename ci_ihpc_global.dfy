/**
 * `11_extract_ci_ihpc_global.py`: the one-off extraction of Côte d'Ivoire's
 * June 2025 headline inflation. It takes the latest matching bulletin, picks
 * the first IHPC sentence that the weaker exclusion list accepts, and upserts
 * one row with a fixed reference month. A missing bulletin or a missing
 * sentence ends the script before the table is touched.
 */
module CiIhpcGlobal {
  import opened Wrappers
  import opened Text
  import opened Table
  import opened Matching
  import opened Store

  const Country: string := "Côte d’Ivoire"
  const DateReference: string := "2025-06"
  const SourceName: string := "ANStat"
  const SourceUrl: string := "https://www.anstat.ci/assets/publications/files/File_val_indicateur1752229928.pdf"
  const Indicator: string := "Inflation IHPC (glissement annuel)"
  const PdfGlob: string := "CIV_ANSTAT_IHPC_UEMOA_2025_06_*.pdf"
  const NotFoundMessage: string := "IHPC global non trouvé avec le pattern strict (sans OCR)."
  const CommentPrefix: string := "Extraction IHPC global (pattern strict). Phrase: "

  /** The row the script builds from the chosen phrase and its signed value. */
  function GlobalRow(phrase: string, value: real, now: string): (r: Row)
    ensures r.country == Some(Country) && r.indicator == Some(Indicator) && r.dateReference == Some(DateReference)
    ensures r.value == Some(value) && r.unit == Some("%") && r.comment == Some(CommentPrefix + phrase)
  {
    MakeRow(Country, Indicator, value, "%", DateReference, SourceName, SourceUrl, now, CommentPrefix + phrase)
  }

  /**
   * What the script decides before touching the table: FileNotFoundError
   * without a bulletin, ValueError without an acceptable sentence or when
   * `float()` refuses its numeral, otherwise the row built from the first
   * acceptable sentence of the latest bulletin (`candidatesOf` stands for
   * the pattern's matches over that bulletin's normalised text).
   */
  function ScriptStep(pdfs: seq<string>, candidatesOf: string -> seq<Candidate>, now: string): (s: Step)
    ensures !s.Skip?
    ensures pdfs == [] <==> s == Abort(FileNotFoundError)
    ensures pdfs != [] ==> (s.Write? <==> Extract(Exclude11, candidatesOf(Greatest(pdfs))).Found?)
    ensures pdfs != [] && Extract(Exclude11, candidatesOf(Greatest(pdfs))).NoMatch? ==>
      s == Abort(ValueError(NotFoundMessage))
    ensures pdfs != [] && Extract(Exclude11, candidatesOf(Greatest(pdfs))).Malformed? ==>
      s.Abort? && s.error.ValueError?
    ensures s.Write? ==> (
      var e := Extract(Exclude11, candidatesOf(Greatest(pdfs)));
      && s.row.country == Some(Country) && s.row.indicator == Some(Indicator)
      && s.row.dateReference == Some(DateReference)
      && s.row.value == Some(e.value)
      && (LowerString(candidatesOf(Greatest(pdfs))[e.index].direction) == "baisse" ==> e.value <= 0.0)
      && s.row.comment == Some(CommentPrefix + candidatesOf(Greatest(pdfs))[e.index].phrase))
  {
    if pdfs == [] then Abort(FileNotFoundError)
    else
      match Extract(Exclude11, candidatesOf(Greatest(pdfs)))
      case NoMatch => Abort(ValueError(NotFoundMessage))
      case Malformed(_) => Abort(ValueError("could not convert string to float"))
      case Found(_, phrase, value) => Write(GlobalRow(phrase, value, now))
  }

  /**
   * The weaker exclusion never loses a sentence: on the same matches of this
   * script's pattern, whenever src/12's stricter exclusion rule would accept
   * one, this script does not end with "not found". (src/12 pairs that rule
   * with a pattern of its own, with more verbs and other gaps; its matches
   * are not these.)
   */
  lemma AcceptedByStricterRule(pdfs: seq<string>, candidatesOf: string -> seq<Candidate>, now: string)
    requires pdfs != [] && FirstAcceptable(Exclude12, candidatesOf(Greatest(pdfs))) >= 0
    ensures ScriptStep(pdfs, candidatesOf, now) != Abort(ValueError(NotFoundMessage))
  {
    NarrowerStopsEarlier(candidatesOf(Greatest(pdfs)));
  }

  /**
   * The script's main block: decide the step, then upsert its row. An
   * exception raised before the upsert leaves the file as it was.
   */
  method Run(store: MacroStore, pdfs: seq<string>, candidatesOf: string -> seq<Candidate>, now: string)
    returns (err: Option<Exception>)
    requires store.Valid()
    modifies store
    ensures store.Valid()
    ensures (store.file, err) == StepEffect(old(store.file), ScriptStep(pdfs, candidatesOf, now))
  {
    var s := ScriptStep(pdfs, candidatesOf, now);
    if s.Abort? {
      err := Some(s.error);
      return;
    }
    err := store.UpsertMacro(s.row);
  }
}
