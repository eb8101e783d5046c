/**
 * `12_extract_ihpc_global_from_latest_pdf.py`: for each configured country,
 * take its latest bulletin, read the reference month from the file name,
 * pick the first acceptable IHPC sentence and upsert one row; save the table
 * only if some country produced a row.
 */
module IhpcLatest {
  import opened Wrappers
  import opened Text
  import opened Numerals
  import opened Table
  import opened Matching
  import opened Store

  datatype Target = Target(
    country: string, pdfGlob: string, indicator: string,
    sourceName: string, sourceUrl: string, dateFromFilename: bool)

  const Targets: seq<Target> := [
    Target("Côte d’Ivoire", "CIV_ANSTAT_IHPC_UEMOA_*.pdf", "Inflation IHPC (glissement annuel)",
           "ANStat", "https://www.anstat.ci/", true),
    Target("Sénégal", "SEN_ANSD_IHPC_*.pdf", "Inflation IHPC (annuelle)",
           "ANSD", "https://www.ansd.sn/", true)
  ]

  // ---------------------------------------------------------------------------
  // parse_date_reference_from_name: `(20\d{2})[_-]?(0[1-9]|1[0-2])`, then `(20\d{2})`
  // ---------------------------------------------------------------------------

  /** `20\d{2}` at position i. */
  predicate YearAt(s: string, i: nat) {
    i + 4 <= |s| && s[i] == '2' && s[i + 1] == '0' && IsDigit(s[i + 2]) && IsDigit(s[i + 3])
  }

  /** `0[1-9]|1[0-2]` at position j. */
  predicate MonthAt(s: string, j: nat) {
    j + 2 <= |s| &&
    ((s[j] == '0' && '1' <= s[j + 1] <= '9') || (s[j] == '1' && '0' <= s[j + 1] <= '2'))
  }

  /**
   * Where the month starts when the year-month pattern matches at i. The
   * optional separator is tried first; without it the month must follow the
   * year directly.
   */
  function MonthStart(s: string, i: nat): (r: Option<nat>)
    ensures r.Some? ==> YearAt(s, i) && MonthAt(s, r.value)
    ensures r.Some? ==> r.value == i + 4 || (r.value == i + 5 && (s[i + 4] == '_' || s[i + 4] == '-'))
    ensures r.None? <==>
              !(YearAt(s, i) && (MonthAt(s, i + 4) || (i + 4 < |s| && (s[i + 4] == '_' || s[i + 4] == '-') && MonthAt(s, i + 5))))
  {
    if !YearAt(s, i) then None
    else if i + 4 < |s| && (s[i + 4] == '_' || s[i + 4] == '-') && MonthAt(s, i + 5) then Some(i + 5)
    else if MonthAt(s, i + 4) then Some(i + 4)
    else None
  }

  /** The leftmost position where the year-month pattern matches, or -1. */
  function FirstYearMonth(s: string, k: nat := 0): (r: int)
    requires k <= |s| + 1
    requires forall i :: 0 <= i < k ==> MonthStart(s, i).None?
    ensures -1 <= r <= |s|
    ensures r == -1 <==> forall i :: 0 <= i <= |s| ==> MonthStart(s, i).None?
    ensures r >= 0 ==> MonthStart(s, r).Some? && forall i :: 0 <= i < r ==> MonthStart(s, i).None?
    decreases |s| + 1 - k
  {
    if k > |s| then -1
    else if MonthStart(s, k).Some? then k
    else FirstYearMonth(s, k + 1)
  }

  /** The leftmost `20\d{2}`, or -1. */
  function FirstYear(s: string, k: nat := 0): (r: int)
    requires k <= |s| + 1
    requires forall i :: 0 <= i < k ==> !YearAt(s, i)
    ensures -1 <= r <= |s|
    ensures r == -1 <==> forall i :: 0 <= i <= |s| ==> !YearAt(s, i)
    ensures r >= 0 ==> YearAt(s, r) && forall i :: 0 <= i < r ==> !YearAt(s, i)
    decreases |s| + 1 - k
  {
    if k > |s| then -1
    else if YearAt(s, k) then k
    else FirstYear(s, k + 1)
  }

  /**
   * `parse_date_reference_from_name(name)`: "YYYY-MM" from the leftmost
   * year-month match, else the leftmost year alone, else None.
   */
  function ParseDateReference(name: string): (r: Option<string>)
    ensures r.None? <==> FirstYear(name) == -1
  {
    var i := FirstYearMonth(name);
    if i >= 0 then
      var m := MonthStart(name, i).value;
      Some(name[i..i + 4] + "-" + name[m..m + 2])
    else
      var j := FirstYear(name);
      if j >= 0 then Some(name[j..j + 4]) else None
  }

  /** A year-month match gives "YYYY-MM": the matched year, a dash and a valid month. */
  lemma ParseDateYearMonth(name: string)
    requires FirstYearMonth(name) >= 0
    ensures var r := ParseDateReference(name);
      var i := FirstYearMonth(name);
      && r.Some? && |r.value| == 7 && r.value[4] == '-'
      && r.value[..4] == name[i..i + 4] && YearAt(r.value, 0) && MonthAt(r.value, 5)
  {
    var i := FirstYearMonth(name);
    var m := MonthStart(name, i).value;
    var r := name[i..i + 4] + "-" + name[m..m + 2];
    assert ParseDateReference(name) == Some(r);
    assert r[..4] == name[i..i + 4];
    assert r[0] == name[i] && r[1] == name[i + 1] && r[2] == name[i + 2] && r[3] == name[i + 3];
    assert r[5] == name[m] && r[6] == name[m + 1];
  }

  /** Without a year-month match, the leftmost year alone. */
  lemma ParseDateYearOnly(name: string)
    requires FirstYearMonth(name) == -1 && FirstYear(name) >= 0
    ensures var r := ParseDateReference(name);
      var j := FirstYear(name);
      && r.Some? && |r.value| == 4 && YearAt(r.value, 0) && r.value == name[j..j + 4]
  {
    var j := FirstYear(name);
    var r := name[j..j + 4];
    assert r[0] == name[j] && r[1] == name[j + 1] && r[2] == name[j + 2] && r[3] == name[j + 3];
  }

  const ExampleName: string := "SEN_ANSD_IHPC_2024_12_20251218_044209.pdf"

  lemma ExampleMonthAt14()
    ensures MonthStart(ExampleName, 14) == Some(19)
  {
    var s := ExampleName;
    assert s[14] == '2' && s[15] == '0' && s[16] == '2' && s[17] == '4' && s[18] == '_';
    assert s[19] == '1' && s[20] == '2';
  }

  lemma ExampleNoMonthBefore14()
    ensures forall i :: 0 <= i < 14 ==> MonthStart(ExampleName, i).None?
  {
    var s := ExampleName;
    forall i | 0 <= i < 14 ensures MonthStart(s, i).None? {
      assert s[i] != '2';
    }
  }

  lemma ExampleFirstYearMonth()
    ensures FirstYearMonth(ExampleName) == 14
  {
    ExampleMonthAt14();
    ExampleNoMonthBefore14();
  }

  lemma ParseDateAt(name: string, i: nat, m: nat)
    requires FirstYearMonth(name) == i && MonthStart(name, i) == Some(m)
    ensures ParseDateReference(name) == Some(name[i..i + 4] + "-" + name[m..m + 2])
  {
  }

  lemma ExampleDateText()
    ensures ExampleName[14..18] + "-" + ExampleName[19..21] == "2024-12"
  {
    var s := ExampleName;
    var r := s[14..18] + "-" + s[19..21];
    assert s[14] == '2' && s[15] == '0' && s[16] == '2' && s[17] == '4' && s[19] == '1' && s[20] == '2';
    assert r[0] == '2' && r[1] == '0' && r[2] == '2' && r[3] == '4' && r[4] == '-' && r[5] == '1' && r[6] == '2';
  }

  /** The bulletin name given as the example: the leftmost year-month wins over the later timestamp. */
  lemma ParseDateExample()
    ensures ParseDateReference(ExampleName) == Some("2024-12")
  {
    ExampleFirstYearMonth();
    ExampleMonthAt14();
    ParseDateAt(ExampleName, 14, 19);
    ExampleDateText();
  }

  const YearOnlyName: string := "IHPC_2024_annuel.pdf"

  lemma YearOnlyHasNoMonth()
    ensures FirstYearMonth(YearOnlyName) == -1
  {
    var s := YearOnlyName;
    assert s[5] == '2' && s[6] == '0' && s[7] == '2' && s[8] == '4' && s[9] == '_' && s[10] == 'a';
    forall i | 0 <= i <= |s| ensures MonthStart(s, i).None? {
      if i != 5 { assert i + 4 > |s| || s[i] != '2' || s[i + 1] != '0'; }
    }
  }

  lemma YearOnlyFirstYear()
    ensures FirstYear(YearOnlyName) == 5
  {
    var s := YearOnlyName;
    assert s[5] == '2' && s[6] == '0' && s[7] == '2' && s[8] == '4';
    forall i | 0 <= i < 5 ensures !YearAt(s, i) {
      assert s[i] != '2';
    }
  }

  lemma YearOnlyText()
    ensures YearOnlyName[5..9] == "2024"
  {
    var r := YearOnlyName[5..9];
    assert r[0] == '2' && r[1] == '0' && r[2] == '2' && r[3] == '4';
  }

  /** A name with a year and no month after it gives the year alone. */
  lemma ParseYearOnlyExample()
    ensures ParseDateReference(YearOnlyName) == Some("2024")
  {
    YearOnlyHasNoMonth();
    YearOnlyFirstYear();
    YearOnlyText();
  }

  // ---------------------------------------------------------------------------
  // One target of `main`
  // ---------------------------------------------------------------------------

  /**
   * The work `main` does for one target: skip when no PDF matches, when the
   * name carries no date or when no acceptable sentence is found; end the
   * script (ValueError) when `float()` refuses the numeral; otherwise the row
   * to upsert.
   */
  function TargetStep(t: Target, pdfs: seq<string>, candidatesOf: string -> seq<Candidate>, now: string): (s: Step)
    ensures s.Write? ==> s.row.country == Some(t.country)
  {
    if pdfs == [] then Skip
    else
      var name := Greatest(pdfs);
      var date := if t.dateFromFilename then ParseDateReference(name) else None;
      if date.None? then Skip
      else
        match Extract(Exclude12, candidatesOf(name))
        case NoMatch => Skip
        case Malformed(_) => Abort(ValueError("could not convert string to float"))
        case Found(_, phrase, value) =>
          Write(MakeRow(t.country, t.indicator, value, "%", date.value, t.sourceName, t.sourceUrl, now,
                        "Extraction IHPC global (pattern strict). Phrase: " + phrase))
  }

  /** A target is skipped without a PDF, without a date in the name, or without an acceptable sentence. */
  lemma TargetStepSkips(t: Target, pdfs: seq<string>, candidatesOf: string -> seq<Candidate>, now: string)
    ensures pdfs == [] ==> TargetStep(t, pdfs, candidatesOf, now) == Skip
    ensures !t.dateFromFilename ==> TargetStep(t, pdfs, candidatesOf, now) == Skip
    ensures pdfs != [] && ParseDateReference(Greatest(pdfs)).None? ==> TargetStep(t, pdfs, candidatesOf, now) == Skip
    ensures (&& pdfs != [] && t.dateFromFilename && ParseDateReference(Greatest(pdfs)).Some?
             && Extract(Exclude12, candidatesOf(Greatest(pdfs))).NoMatch?) ==> TargetStep(t, pdfs, candidatesOf, now) == Skip
  {
  }

  /** A written row carries the name's date, the extracted value and the phrase it came from. */
  lemma TargetStepWrites(t: Target, pdfs: seq<string>, candidatesOf: string -> seq<Candidate>, now: string)
    requires TargetStep(t, pdfs, candidatesOf, now).Write?
    ensures pdfs != [] && t.dateFromFilename
    ensures var name := Greatest(pdfs);
      var e := Extract(Exclude12, candidatesOf(name));
      && ParseDateReference(name).Some? && e.Found?
      && TargetStep(t, pdfs, candidatesOf, now).row
         == MakeRow(t.country, t.indicator, e.value, "%", ParseDateReference(name).value, t.sourceName, t.sourceUrl, now,
                    "Extraction IHPC global (pattern strict). Phrase: " + e.phrase)
  {
  }

  /** The script ends only when `float()` refuses the numeral of the first acceptable sentence. */
  lemma TargetStepAborts(t: Target, pdfs: seq<string>, candidatesOf: string -> seq<Candidate>, now: string)
    requires TargetStep(t, pdfs, candidatesOf, now).Abort?
    ensures pdfs != [] && Extract(Exclude12, candidatesOf(Greatest(pdfs))).Malformed?
    ensures TargetStep(t, pdfs, candidatesOf, now).error.ValueError?
  {
  }

  // ---------------------------------------------------------------------------
  // main
  // ---------------------------------------------------------------------------

  /** The table and the `any_written` flag after the targets `ts`, or the exception that ends the script. */
  function RunFrom(df: Frame, ts: seq<Target>, listing: string -> seq<string>,
                   candidatesOf: string -> seq<Candidate>, now: string, written: bool): Result<(Frame, bool), Exception>
    decreases |ts|
  {
    if ts == [] then Ok((df, written))
    else
      match TargetStep(ts[0], listing(ts[0].pdfGlob), candidatesOf, now)
      case Skip => RunFrom(df, ts[1..], listing, candidatesOf, now, written)
      case Abort(e) => Err(e)
      case Write(row) =>
        match Upsert(df, row)
        case Err(e) => Err(e)
        case Ok(df') => RunFrom(df', ts[1..], listing, candidatesOf, now, true)
  }

  /** Targets that are all skipped leave the table exactly as loaded. */
  lemma {:induction false} SkippedLeaveTable(df: Frame, ts: seq<Target>, listing: string -> seq<string>,
                                             candidatesOf: string -> seq<Candidate>, now: string)
    requires RunFrom(df, ts, listing, candidatesOf, now, false).Ok?
    ensures var (d, w) := RunFrom(df, ts, listing, candidatesOf, now, false).value; !w ==> d == df
    decreases |ts|
  {
    if ts != [] {
      var s := TargetStep(ts[0], listing(ts[0].pdfGlob), candidatesOf, now);
      if s.Skip? {
        SkippedLeaveTable(df, ts[1..], listing, candidatesOf, now);
      } else if s.Write? {
        WrittenStaysWritten(Upsert(df, s.row).value, ts[1..], listing, candidatesOf, now);
      }
    }
  }

  /** Once a row is written the flag stays set. */
  lemma {:induction false} WrittenStaysWritten(df: Frame, ts: seq<Target>, listing: string -> seq<string>,
                                               candidatesOf: string -> seq<Candidate>, now: string)
    requires RunFrom(df, ts, listing, candidatesOf, now, true).Ok?
    ensures RunFrom(df, ts, listing, candidatesOf, now, true).value.1
    decreases |ts|
  {
    if ts != [] {
      var s := TargetStep(ts[0], listing(ts[0].pdfGlob), candidatesOf, now);
      if s.Skip? {
        WrittenStaysWritten(df, ts[1..], listing, candidatesOf, now);
      } else if s.Write? {
        WrittenStaysWritten(Upsert(df, s.row).value, ts[1..], listing, candidatesOf, now);
      }
    }
  }

  /**
   * The two countries' rows never share a key, so when both are written the
   * saved table holds each exactly once, the later upsert leaving the earlier
   * row in place.
   */
  lemma BothCountriesKept(df: Frame, listing: string -> seq<string>,
                          candidatesOf: string -> seq<Candidate>, now: string)
    requires RunFrom(df, Targets, listing, candidatesOf, now, false).Ok?
    ensures var d := RunFrom(df, Targets, listing, candidatesOf, now, false).value.0;
      var s0 := TargetStep(Targets[0], listing(Targets[0].pdfGlob), candidatesOf, now);
      var s1 := TargetStep(Targets[1], listing(Targets[1].pdfGlob), candidatesOf, now);
      && (s0.Write? ==> Select(d.rows, Key(s0.row)) == [s0.row])
      && (s1.Write? ==> Select(d.rows, Key(s1.row)) == [s1.row])
  {
    var s0 := TargetStep(Targets[0], listing(Targets[0].pdfGlob), candidatesOf, now);
    var s1 := TargetStep(Targets[1], listing(Targets[1].pdfGlob), candidatesOf, now);
    assert Targets[1..] == [Targets[1]] && [Targets[1]][1..] == [];
    var df1 := if s0.Write? then Upsert(df, s0.row).value else df;
    assert RunFrom(df, Targets, listing, candidatesOf, now, false)
        == RunFrom(df1, [Targets[1]], listing, candidatesOf, now, s0.Write?);
    var d := RunFrom(df, Targets, listing, candidatesOf, now, false).value.0;
    if s1.Write? {
      assert d == Upsert(df1, s1.row).value;
      if s0.Write? {
        CountriesDiffer(s0.row, s1.row);
        assert !IsEmpty(df1);
      }
    } else {
      assert d == df1;
    }
  }

  /** Rows of the two targets already differ in the first character of their keys. */
  lemma CountriesDiffer(r0: Row, r1: Row)
    requires r0.country == Some(Targets[0].country) && r1.country == Some(Targets[1].country)
    ensures Key(r0) != Key(r1)
  {
    assert Key(r0)[0] == 'C';
    assert Key(r1)[0] == 'S';
  }

  /**
   * `main()`: load the table, work through the targets, and save once at the
   * end if and only if some target wrote a row. An exception ends the script
   * before the save, so the file is left as it was.
   */
  method Run(store: MacroStore, listing: string -> seq<string>,
             candidatesOf: string -> seq<Candidate>, now: string) returns (err: Option<Exception>, anyWritten: bool)
    requires store.Valid()
    modifies store
    ensures store.Valid()
    ensures var r := RunFrom(old(store.Load()), Targets, listing, candidatesOf, now, false);
      && (r.Err? ==> err == Some(r.error) && store.file == old(store.file))
      && (r.Ok? ==> err.None? && anyWritten == r.value.1)
      && (r.Ok? && anyWritten ==> store.file == Some(r.value.0))
      && (r.Ok? && !anyWritten ==> store.file == old(store.file))
  {
    var df := store.Load();
    ghost var df0 := df;
    anyWritten := false;
    err := None;
    var i := 0;
    while i < |Targets|
      invariant 0 <= i <= |Targets|
      invariant Wf(df) && store.file == old(store.file)
      invariant RunFrom(df0, Targets, listing, candidatesOf, now, false)
             == RunFrom(df, Targets[i..], listing, candidatesOf, now, anyWritten)
    {
      var t := Targets[i];
      assert Targets[i..][1..] == Targets[i + 1..];
      var step := TargetStep(t, listing(t.pdfGlob), candidatesOf, now);
      match step {
        case Skip =>
        case Abort(e) =>
          err := Some(e);
          return;
        case Write(row) =>
          var u := Upsert(df, row);
          if u.Err? {
            err := Some(u.error);
            return;
          }
          df := u.value;
          anyWritten := true;
      }
      i := i + 1;
    }
    if anyWritten {
      store.Save(df);
    }
  }
}
