/**
 * `10c_write_official_inflation_and_purge_tests.py`: drop the rows left by
 * the early test extractions (indicator "Inflation IHPC YoY"), then upsert
 * the two audited official figures and save.
 */
module OfficialInflation {
  import opened Wrappers
  import opened Table
  import opened Store

  /** The indicator name the early extraction tests wrote. */
  const TestIndicator: string := "Inflation IHPC YoY"

  const SenUrl: string := "https://www.ansd.sn/sites/default/files/2025-01/IHPC_12_2024.pdf"
  const SenComment: string :=
    "Audit phrase: taux d’inflation annuel en 2024 s’établit à +0,8% (PDF IHPC décembre 2024)."
  const CivUrl: string := "https://www.anstat.ci/assets/publications/files/File_val_indicateur1752229928.pdf"
  const CivComment: string :=
    "Audit manuel: IHPC global enregistre une baisse (-0,6%) en glissement annuel (juin 2025). Note: -7,1% concerne l'énergie (sous-indice)."

  /** Senegal's audited annual inflation for 2024. */
  function RowSen(now: string): (r: Row)
    ensures r.country == Some("Sénégal") && r.dateReference == Some("2024") && r.value == Some(0.8)
    ensures r.collectedAt == Some(now) && Render(r.indicator) != TestIndicator
  {
    MakeRow("Sénégal", "Inflation IHPC (annuelle)", 0.8, "%", "2024", "ANSD", SenUrl, now, SenComment)
  }

  /** Côte d'Ivoire's audited year-on-year inflation for June 2025. */
  function RowCiv(now: string): (r: Row)
    ensures r.country == Some("Côte d’Ivoire") && r.dateReference == Some("2025-06") && r.value == Some(-0.6)
    ensures r.collectedAt == Some(now) && Render(r.indicator) != TestIndicator
  {
    MakeRow("Côte d’Ivoire", "Inflation IHPC (glissement annuel)", -0.6, "%", "2025-06", "ANStat", CivUrl, now, CivComment)
  }

  /**
   * The purge: on a non-empty frame with an "indicator" column, keep the
   * rows whose indicator, rendered as text, is not the test name.
   */
  function Purge(df: Frame): (r: Frame)
    ensures r.columns == df.columns
    ensures forall x :: x in r.rows ==> x in df.rows
    ensures !IsEmpty(df) && "indicator" in df.columns ==>
      forall x :: x in df.rows ==> (x in r.rows <==> Render(x.indicator) != TestIndicator)
    ensures IsEmpty(df) || "indicator" !in df.columns ==> r == df
  {
    if !IsEmpty(df) && "indicator" in df.columns then Frame(df.columns, DropIndicator(df.rows, TestIndicator))
    else df
  }

  /** The purge keeps the frame well formed and, on a well-formed frame, leaves no test row behind. */
  lemma PurgeSpec(df: Frame)
    requires Wf(df)
    ensures Wf(Purge(df))
    ensures forall x :: x in Purge(df).rows ==> Render(x.indicator) != TestIndicator
    ensures SubsequenceOf(Purge(df).rows, df.rows)
    ensures |df.rows| - |Purge(df).rows| == CountIndicator(df.rows, TestIndicator)
  {
    if !IsEmpty(df) && "indicator" in df.columns {
      DropIndicatorInOrder(df.rows, TestIndicator);
      DropIndicatorCount(df.rows, TestIndicator);
      SubsequenceKeepsWf(df, Purge(df).rows);
    } else {
      SubsequenceOfSelf(df.rows);
      forall x | x in df.rows ensures Render(x.indicator) != TestIndicator {
        var i :| 0 <= i < |df.rows| && df.rows[i] == x;
        assert "indicator" !in df.columns;
        assert !HasCell(df.rows[i], "indicator");
        assert Render(x.indicator) == "None";
        assert |TestIndicator| != 4;
      }
      DropIndicatorNone(df.rows, TestIndicator);
      DropIndicatorCount(df.rows, TestIndicator);
    }
  }

  /** Purge, then upsert `first`, then `second`: the body of the script for any two rows. */
  function PurgeThenUpsert(df: Frame, first: Row, second: Row): (r: Result<Frame, Exception>)
    ensures r.Ok? ==> HasColumns(r.value, Schema)
    ensures IsEmpty(Purge(df)) ==> r.Ok?
    ensures !IsEmpty(Purge(df)) ==> (r.Ok? <==> HasColumns(df, KeyColumns))
  {
    match Upsert(Purge(df), first)
    case Err(e) => Err(e)
    case Ok(d1) =>
      SchemaHasKeyColumns(d1);
      assert !IsEmpty(d1) by { assert |d1.rows| > 0 && "country" in d1.columns; }
      Upsert(d1, second)
  }

  /** The frame after the first upsert, which is never empty. */
  lemma FirstUpsert(df: Frame, first: Row, second: Row)
    requires PurgeThenUpsert(df, first, second).Ok?
    ensures Upsert(Purge(df), first).Ok?
    ensures var d1 := Upsert(Purge(df), first).value;
      && !IsEmpty(d1) && PurgeThenUpsert(df, first, second) == Upsert(d1, second)
  {
    var d1 := Upsert(Purge(df), first).value;
    SchemaHasKeyColumns(d1);
    assert !IsEmpty(d1) by { assert |d1.rows| > 0 && "country" in d1.columns; }
  }

  /** Each of two rows with different keys is in the result exactly once. */
  lemma PurgeThenUpsertKeepsBoth(df: Frame, first: Row, second: Row)
    requires PurgeThenUpsert(df, first, second).Ok?
    requires Key(first) != Key(second)
    ensures Select(PurgeThenUpsert(df, first, second).value.rows, Key(first)) == [first]
    ensures Select(PurgeThenUpsert(df, first, second).value.rows, Key(second)) == [second]
  {
    FirstUpsert(df, first, second);
  }

  /** Nothing but the two rows is added to what the purge kept. */
  lemma PurgeThenUpsertMembers(df: Frame, first: Row, second: Row)
    requires PurgeThenUpsert(df, first, second).Ok?
    ensures forall x :: x in PurgeThenUpsert(df, first, second).value.rows ==>
      x == first || x == second || x in Purge(df).rows
  {
    FirstUpsert(df, first, second);
    UpsertMembers(Purge(df), first);
    UpsertMembers(Upsert(Purge(df), first).value, second);
  }

  /** When neither row is a test row, no test row is left, and nothing else is added. */
  lemma PurgeThenUpsertClean(df: Frame, first: Row, second: Row)
    requires Wf(df) && PurgeThenUpsert(df, first, second).Ok?
    requires Render(first.indicator) != TestIndicator && Render(second.indicator) != TestIndicator
    ensures forall x :: x in PurgeThenUpsert(df, first, second).value.rows ==> Render(x.indicator) != TestIndicator
    ensures forall x :: x in PurgeThenUpsert(df, first, second).value.rows ==> x == first || x == second || x in df.rows
  {
    var rows := PurgeThenUpsert(df, first, second).value.rows;
    var kept := Purge(df).rows;
    PurgeSpec(df);
    PurgeThenUpsertMembers(df, first, second);
    forall x | x in rows
      ensures Render(x.indicator) != TestIndicator && (x == first || x == second || x in df.rows)
    {
      if x != first && x != second {
        assert x in kept;
      }
    }
  }

  /** The result is well formed when the input was. */
  lemma PurgeThenUpsertWf(df: Frame, first: Row, second: Row)
    requires Wf(df) && PurgeThenUpsert(df, first, second).Ok?
    ensures Wf(PurgeThenUpsert(df, first, second).value)
  {
    PurgeSpec(df);
    FirstUpsert(df, first, second);
  }

  /** On a frame that still had rows after the purge, every other key is as it was. */
  lemma PurgeThenUpsertKeepsOthers(df: Frame, first: Row, second: Row, k: string)
    requires PurgeThenUpsert(df, first, second).Ok? && !IsEmpty(Purge(df))
    requires k != Key(first) && k != Key(second)
    ensures Select(PurgeThenUpsert(df, first, second).value.rows, k) == Select(Purge(df).rows, k)
  {
    FirstUpsert(df, first, second);
  }

  /** The whole script on the loaded frame: purge, upsert the Senegal row, upsert the Ivorian row. */
  function Script(df: Frame, now: string): (r: Result<Frame, Exception>)
    ensures IsEmpty(Purge(df)) ==> r.Ok?
    ensures !IsEmpty(Purge(df)) ==> (r.Ok? <==> HasColumns(df, KeyColumns))
    ensures r.Ok? ==> Select(r.value.rows, Key(RowSen(now))) == [RowSen(now)]
    ensures r.Ok? ==> Select(r.value.rows, Key(RowCiv(now))) == [RowCiv(now)]
  {
    var r := PurgeThenUpsert(df, RowSen(now), RowCiv(now));
    AuditedRowsApart(now);
    if r.Ok? then
      PurgeThenUpsertKeepsBoth(df, RowSen(now), RowCiv(now));
      r
    else r
  }

  /** The script leaves each audited row exactly once and no test row. */
  lemma ScriptSpec(df: Frame, now: string)
    requires Wf(df) && Script(df, now).Ok?
    ensures Select(Script(df, now).value.rows, Key(RowSen(now))) == [RowSen(now)]
    ensures Select(Script(df, now).value.rows, Key(RowCiv(now))) == [RowCiv(now)]
    ensures forall x :: x in Script(df, now).value.rows ==> Render(x.indicator) != TestIndicator
    ensures Wf(Script(df, now).value)
  {
    AuditedRowsApart(now);
    PurgeThenUpsertKeepsBoth(df, RowSen(now), RowCiv(now));
    PurgeThenUpsertClean(df, RowSen(now), RowCiv(now));
    PurgeThenUpsertWf(df, RowSen(now), RowCiv(now));
  }

  /** The two audited rows have different keys, and neither carries the test indicator. */
  lemma AuditedRowsApart(now: string)
    ensures Key(RowSen(now)) != Key(RowCiv(now))
    ensures Render(RowSen(now).indicator) != TestIndicator && Render(RowCiv(now).indicator) != TestIndicator
  {
    assert Key(RowSen(now))[0] == 'S' && Key(RowCiv(now))[0] == 'C';
    assert |Render(RowSen(now).indicator)| != |TestIndicator|;
    assert |Render(RowCiv(now).indicator)| != |TestIndicator|;
  }

  /** The script run against the file: load (empty frame when absent), purge, two upserts, save. */
  method Run(store: MacroStore, now: string) returns (err: Option<Exception>)
    requires store.Valid()
    modifies store
    ensures store.Valid()
    ensures var r := Script(old(store.Load()), now);
      && (r.Err? ==> err == Some(r.error) && store.file == old(store.file))
      && (r.Ok? ==> err.None? && store.file == Some(r.value))
  {
    var df := store.Load();
    ghost var df0 := df;
    PurgeSpec(df);
    df := Purge(df);
    var sen, civ := RowSen(now), RowCiv(now);
    var u := Upsert(df, sen);
    if u.Err? {
      err := Some(u.error);
      return;
    }
    df := u.value;
    SchemaHasKeyColumns(df);
    assert !IsEmpty(df) by { assert |df.rows| > 0 && "country" in df.columns; }
    df := Upsert(df, civ).value;
    assert Ok(df) == PurgeThenUpsert(df0, sen, civ);
    store.Save(df);
    err := None;
  }
}
