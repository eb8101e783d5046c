/**
 * `18_upsert_latest_anstat_inflation_ci.py`: for each of four ANStat series,
 * download its CSV, keep its latest observation and upsert it into the table
 * with the aligning upsert; save once after the last series.
 */
module AnstatLatest {
  import opened Wrappers
  import opened Text
  import opened Numerals
  import opened Table
  import opened Store

  /** One entry of SERIES: a label (`code`), the ANStat indicator id, the indicator name written to the table and its unit. */
  datatype Series = Series(code: string, id: nat, name: string, unit: string)

  /** The common start of the three inflation names. */
  const InflationPrefix: string := "Inflation IHPC ("

  const Series4: seq<Series> := [
    Series("IHPC_national", 1868, "IHPC (index national)", "index"),
    Series("Infl_moy_ann", 1917, InflationPrefix + "moyenne annuelle, national)", "%"),
    Series("Infl_gliss_moy_ann", 1871, InflationPrefix + "glissement, moyenne annuelle, national)", "%"),
    Series("Infl_moy_mens", 624, InflationPrefix + "moyenne mensuelle, national)", "%")
  ]

  const Country: string := "Côte d’Ivoire"
  const SourceName: string := "ANStat"
  const DownloadPrefix: string := "https://www.anstat.ci/indicateur/download_csv/"

  /** One line of a series CSV: the end of its coverage period (`annee_fin_couv`, `mois_fin_couv`) and `valeur`. */
  datatype Obs = Obs(year: int, month: int, value: real)

  /** Ascending order on (year, month), the order of the sort in last_observation. */
  predicate NotLater(a: Obs, b: Obs) {
    a.year < b.year || (a.year == b.year && a.month <= b.month)
  }

  /**
   * The line `iloc[-1]` picks after the stable ascending sort: a line no
   * other line follows in (year, month) order, and the last of those in
   * file order when several share the latest period.
   */
  function LatestIndex(obs: seq<Obs>): (i: nat)
    requires obs != []
    ensures i < |obs|
    ensures forall j :: 0 <= j < |obs| ==> NotLater(obs[j], obs[i])
    ensures forall j :: i < j < |obs| ==> !NotLater(obs[i], obs[j])
  {
    if |obs| == 1 then 0
    else
      var k := LatestIndex(obs[..|obs| - 1]);
      assert forall j :: 0 <= j < |obs| - 1 ==> obs[..|obs| - 1][j] == obs[j];
      if NotLater(obs[k], obs[|obs| - 1]) then |obs| - 1 else k
  }

  /** `f"{y:04d}-{m:02d}"`. */
  function DateRef(y: int, m: int): (r: string)
    ensures |r| >= 7
  {
    ZeroPadded(y, 4) + "-" + ZeroPadded(m, 2)
  }

  /** For a year 0..9999 and a month 0..99 the reference is "YYYY-MM", and both numbers read back from it. */
  lemma DateRefRoundTrip(y: int, m: int)
    requires 0 <= y < 10000 && 0 <= m < 100
    ensures var r := DateRef(y, m);
      && |r| == 7 && r[4] == '-'
      && AllDigits(r[..4]) && DigitsValue(r[..4]) == y
      && AllDigits(r[5..]) && DigitsValue(r[5..]) == m
  {
    ZeroPaddedFits(y, 4);
    ZeroPaddedFits(m, 2);
    var r := DateRef(y, m);
    assert r[..4] == ZeroPadded(y, 4);
    assert r[5..] == ZeroPadded(m, 2);
  }

  /**
   * `last_observation(df)`: the date reference and value of the latest line.
   * An empty CSV makes `iloc[-1]` raise IndexError.
   */
  function LastObservation(obs: seq<Obs>): (r: Result<(string, real), Exception>)
    ensures obs == [] <==> r.Err?
    ensures r.Err? ==> r.error == IndexError
    ensures r.Ok? ==> exists i :: (&& 0 <= i < |obs|
                                   && r.value == (DateRef(obs[i].year, obs[i].month), obs[i].value)
                                   && (forall j :: 0 <= j < |obs| ==> NotLater(obs[j], obs[i]))
                                   && forall j :: i < j < |obs| ==> !NotLater(obs[i], obs[j]))
  {
    if obs == [] then Err(IndexError)
    else
      var i := LatestIndex(obs);
      Ok((DateRef(obs[i].year, obs[i].month), obs[i].value))
  }

  /** Appending a line no earlier than every other makes it the latest observation. */
  lemma LastObservationAppend(obs: seq<Obs>, o: Obs)
    requires forall j :: 0 <= j < |obs| ==> NotLater(obs[j], o)
    ensures LastObservation(obs + [o]) == Ok((DateRef(o.year, o.month), o.value))
  {
    var s := obs + [o];
    assert forall j :: 0 <= j < |obs| ==> s[j] == obs[j];
    assert s[|s| - 1] == o;
    var i := LatestIndex(s);
    assert i == |s| - 1;
  }

  /** The row main() builds for one series. */
  function SeriesRow(s: Series, dateRef: string, value: real, now: string): (row: Row)
    ensures row.country == Some(Country) && row.indicator == Some(s.name) && row.dateReference == Some(dateRef)
    ensures row.value == Some(value) && row.unit == Some(s.unit) && row.sourceName == Some(SourceName)
    ensures row.sourceUrl == Some(DownloadPrefix + Digits(s.id)) && row.collectedAt == Some(now)
  {
    MakeRow(Country, s.name, value, s.unit, dateRef, SourceName, DownloadPrefix + Digits(s.id), now,
            "Auto from ANStat CSV (indicator_id=" + Digits(s.id) + ", label=" + s.code + ") - last observation.")
  }

  /**
   * One series: `download_csv` (None stands for a failed request, which
   * raises), then `last_observation`, then the row.
   */
  function SeriesStep(s: Series, download: nat -> Option<seq<Obs>>, now: string): (r: Result<Row, Exception>)
    ensures download(s.id).None? ==> r == Err(HttpError)
    ensures download(s.id).Some? && download(s.id).value == [] ==> r == Err(IndexError)
    ensures r.Ok? ==> r.value.indicator == Some(s.name) && r.value.country == Some(Country)
  {
    match download(s.id)
    case None => Err(HttpError)
    case Some(obs) =>
      match LastObservation(obs)
      case Err(e) => Err(e)
      case Ok((d, v)) => Ok(SeriesRow(s, d, v, now))
  }

  /** The work of main() for one series, as a function of the series. */
  function StepOf(download: nat -> Option<seq<Obs>>, now: string): Series -> Result<Row, Exception> {
    s => SeriesStep(s, download, now)
  }

  /** The table after the series `ss`, or the exception that ends the script. */
  function SeriesFrom(df: Frame, ss: seq<Series>, step: Series -> Result<Row, Exception>): Result<Frame, Exception>
    decreases |ss|
  {
    if ss == [] then Ok(df)
    else
      match step(ss[0])
      case Err(e) => Err(e)
      case Ok(row) => SeriesFrom(UpsertAligned(df, row), ss[1..], step)
  }

  /** Rows of this script for two different entries of `ss` never share a key. */
  ghost predicate KeysApart(ss: seq<Series>) {
    forall i, j, a: Row, b: Row ::
      && 0 <= i < j < |ss|
      && a.country == Some(Country) && a.indicator == Some(ss[i].name)
      && b.country == Some(Country) && b.indicator == Some(ss[j].name)
      ==> Key(a) != Key(b)
  }

  /** Where the names of entries i and j of Series4 first differ. */
  function PartAt(i: nat, j: nat): nat {
    if i == 0 then 1 else if i == 1 && j == 3 then 24 else 16
  }

  /** The four names part before either ends: at position 1, 16 or 24. */
  lemma NamesPart(i: nat, j: nat)
    requires i < j < 4
    ensures PartAt(i, j) < |Series4[i].name| && PartAt(i, j) < |Series4[j].name|
    ensures Series4[i].name[PartAt(i, j)] != Series4[j].name[PartAt(i, j)]
  {
    FirstNameChars();
    SecondNameChars();
    ThirdNameChars();
    FourthNameChars();
  }

  lemma FirstNameChars()
    ensures |Series4[0].name| > 1 && Series4[0].name[1] == 'H'
  {
    var n := Series4[0].name;
    assert n == "IHPC (index national)";
    assert n[1] == 'H';
  }

  /** Each inflation name is the prefix followed by its own words. */
  lemma InflationNameChars(k: nat, t: string)
    requires 1 <= k < 4 && Series4[k].name == InflationPrefix + t && t != []
    ensures |Series4[k].name| > 16 && Series4[k].name[1] == 'n' && Series4[k].name[16] == t[0]
    ensures forall p :: 16 <= p < |Series4[k].name| ==> Series4[k].name[p] == t[p - 16]
  {
    assert |InflationPrefix| == 16 && InflationPrefix[1] == 'n';
  }

  lemma SecondNameChars()
    ensures |Series4[1].name| > 24 && Series4[1].name[1] == 'n'
    ensures Series4[1].name[16] == 'm' && Series4[1].name[24] == 'a'
  {
    var t := "moyenne annuelle, national)";
    InflationNameChars(1, t);
    assert t[0] == 'm' && t[8] == 'a';
  }

  lemma ThirdNameChars()
    ensures |Series4[2].name| > 16 && Series4[2].name[1] == 'n' && Series4[2].name[16] == 'g'
  {
    var t := "glissement, moyenne annuelle, national)";
    InflationNameChars(2, t);
    assert t[0] == 'g';
  }

  lemma FourthNameChars()
    ensures |Series4[3].name| > 24 && Series4[3].name[1] == 'n'
    ensures Series4[3].name[16] == 'm' && Series4[3].name[24] == 'm'
  {
    var t := "moyenne mensuelle, national)";
    InflationNameChars(3, t);
    assert t[0] == 'm' && t[8] == 'm';
  }

  /** Rows for two different series never share a key. */
  lemma Series4KeysApart()
    ensures KeysApart(Series4)
  {
    forall i, j, a: Row, b: Row |
      && 0 <= i < j < 4
      && a.country == Some(Country) && a.indicator == Some(Series4[i].name)
      && b.country == Some(Country) && b.indicator == Some(Series4[j].name)
      ensures Key(a) != Key(b)
    {
      NamesPart(i, j);
      KeysPartAtIndicator(a, b, PartAt(i, j));
    }
  }

  /** Rows that two different entries of `ss` produce never share a key. */
  ghost predicate StepKeysApart(ss: seq<Series>, step: Series -> Result<Row, Exception>) {
    forall i, j :: 0 <= i < j < |ss| && step(ss[i]).Ok? && step(ss[j]).Ok? ==>
      Key(step(ss[i]).value) != Key(step(ss[j]).value)
  }

  /** A non-empty table keeps, under later upserts of other keys, what it holds under key k. */
  lemma {:induction false} SeriesFromKeeps(df: Frame, ss: seq<Series>, step: Series -> Result<Row, Exception>, k: string)
    requires !IsEmpty(df)
    requires SeriesFrom(df, ss, step).Ok?
    requires forall i :: 0 <= i < |ss| && step(ss[i]).Ok? ==> Key(step(ss[i]).value) != k
    ensures Select(SeriesFrom(df, ss, step).value.rows, k) == Select(df.rows, k)
    decreases |ss|
  {
    if ss != [] {
      var df1 := UpsertAligned(df, step(ss[0]).value);
      assert !IsEmpty(df1) by { assert |df1.rows| > 0; assert "country" in df1.columns; }
      assert forall i :: 0 <= i < |ss[1..]| ==> ss[1..][i] == ss[i + 1];
      SeriesFromKeeps(df1, ss[1..], step, k);
    }
  }

  /**
   * When the run completes, every series has its row in the table, exactly
   * once, whatever the table held before.
   */
  lemma {:induction false} SeriesFromWritesAll(df: Frame, ss: seq<Series>, step: Series -> Result<Row, Exception>)
    requires StepKeysApart(ss, step)
    requires SeriesFrom(df, ss, step).Ok?
    ensures forall i :: 0 <= i < |ss| ==> step(ss[i]).Ok?
    ensures forall i :: 0 <= i < |ss| ==>
      Select(SeriesFrom(df, ss, step).value.rows, Key(step(ss[i]).value)) == [step(ss[i]).value]
    decreases |ss|
  {
    if ss != [] {
      var row := step(ss[0]).value;
      var df1 := UpsertAligned(df, row);
      var rest := ss[1..];
      assert forall i :: 0 <= i < |rest| ==> rest[i] == ss[i + 1];
      SeriesFromWritesAll(df1, rest, step);
      assert !IsEmpty(df1) by { assert |df1.rows| > 0; assert "country" in df1.columns; }
      SeriesFromKeeps(df1, rest, step, Key(row));
      forall i | 0 <= i < |ss|
        ensures step(ss[i]).Ok?
        ensures Select(SeriesFrom(df, ss, step).value.rows, Key(step(ss[i]).value)) == [step(ss[i]).value]
      {
        if i > 0 { assert ss[i] == rest[i - 1]; }
      }
    }
  }

  /** The four series of this script all land in the table, each exactly once. */
  lemma FourSeriesWritten(df: Frame, download: nat -> Option<seq<Obs>>, now: string)
    requires SeriesFrom(df, Series4, StepOf(download, now)).Ok?
    ensures forall i :: 0 <= i < 4 ==>
      && SeriesStep(Series4[i], download, now).Ok?
      && Select(SeriesFrom(df, Series4, StepOf(download, now)).value.rows, Key(SeriesStep(Series4[i], download, now).value))
           == [SeriesStep(Series4[i], download, now).value]
  {
    var step := StepOf(download, now);
    StepsKeysApart(download, now);
    SeriesFromWritesAll(df, Series4, step);
    forall i | 0 <= i < 4 ensures step(Series4[i]) == SeriesStep(Series4[i], download, now) {
    }
  }

  /** The rows this script builds for two different series never share a key. */
  lemma StepsKeysApart(download: nat -> Option<seq<Obs>>, now: string)
    ensures StepKeysApart(Series4, StepOf(download, now))
  {
    var step := StepOf(download, now);
    Series4KeysApart();
    forall i, j | 0 <= i < j < |Series4| && step(Series4[i]).Ok? && step(Series4[j]).Ok?
      ensures Key(step(Series4[i]).value) != Key(step(Series4[j]).value)
    {
      var a, b := SeriesStep(Series4[i], download, now).value, SeriesStep(Series4[j], download, now).value;
      assert a.country == Some(Country) && a.indicator == Some(Series4[i].name);
      assert b.country == Some(Country) && b.indicator == Some(Series4[j].name);
    }
  }

  /**
   * `main()`: load, work through the four series, save. A failed download
   * or an empty CSV raises before the save, so the file keeps its content.
   */
  method Run(store: MacroStore, download: nat -> Option<seq<Obs>>, now: string) returns (err: Option<Exception>)
    requires store.Valid()
    modifies store
    ensures store.Valid()
    ensures var r := SeriesFrom(old(store.Load()), Series4, StepOf(download, now));
      && (r.Err? ==> err == Some(r.error) && store.file == old(store.file))
      && (r.Ok? ==> err.None? && store.file == Some(r.value))
  {
    var df := store.Load();
    ghost var df0 := df;
    err := None;
    var i := 0;
    while i < |Series4|
      invariant 0 <= i <= |Series4|
      invariant Wf(df) && store.file == old(store.file)
      invariant SeriesFrom(df0, Series4, StepOf(download, now)) == SeriesFrom(df, Series4[i..], StepOf(download, now))
    {
      assert Series4[i..][1..] == Series4[i + 1..];
      var step := SeriesStep(Series4[i], download, now);
      if step.Err? {
        err := Some(step.error);
        return;
      }
      df := UpsertAligned(df, step.value);
      i := i + 1;
    }
    store.Save(df);
  }
}
