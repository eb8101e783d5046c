/**
 * `19_fix_ci_pdf_line_label.py` and `19b_drop_ci_pdf_line.py`: two repairs of
 * the row that `11_extract_ci_ihpc_global.py` wrote for Côte d'Ivoire, June
 * 2025. The first relabels it so it no longer shares its indicator with the
 * statistics office's own series; the second deletes it.
 */
module CiPdfLine {
  import opened Wrappers
  import opened Table
  import opened Store

  const Country: string := "Côte d’Ivoire"
  const OldIndicator: string := "Inflation IHPC (glissement annuel)"
  const DateReference: string := "2025-06"
  const SourceName: string := "ANStat"
  const NewIndicator: string := "IHPC (bulletin, glissement annuel – texte)"
  const Suffix: string := " | Relabelled to avoid mixing with ANStat series."

  /**
   * The three conditions of the delete, each on the cell rendered with
   * `astype(str)`; a missing cell renders as "None" and so never matches.
   */
  predicate IsPdfLine(r: Row): (b: bool)
    ensures b ==> r.country == Some(Country) && r.indicator == Some(OldIndicator) && r.dateReference == Some(DateReference)
  {
    && Render(r.country) == Country
    && Render(r.indicator) == OldIndicator
    && Render(r.dateReference) == DateReference
  }

  /** The relabel's mask: the same three conditions and the source. */
  predicate IsAnstatPdfLine(r: Row) {
    IsPdfLine(r) && Render(r.sourceName) == SourceName
  }

  /** The first column of `names` the frame lacks: the one whose lookup raises KeyError. */
  function MissingColumn(f: Frame, names: seq<string>): (c: string)
    requires !HasColumns(f, names)
    ensures c in names && c !in f.columns
  {
    if names[0] !in f.columns then names[0] else MissingColumn(f, names[1..])
  }

  // ---------------------------------------------------------------------------
  // src/19: relabel
  // ---------------------------------------------------------------------------

  /** A matched row: the new indicator, the comment rendered as text with the suffix, nothing else touched. */
  function RelabelRow(r: Row): (r': Row)
    ensures r'.indicator == Some(NewIndicator)
    ensures r'.comment == Some(Render(r.comment) + Suffix)
    ensures && r'.country == r.country && r'.value == r.value && r'.unit == r.unit
            && r'.dateReference == r.dateReference && r'.sourceName == r.sourceName
            && r'.sourceUrl == r.sourceUrl && r'.collectedAt == r.collectedAt
  {
    r.(indicator := Some(NewIndicator), comment := Some(Render(r.comment) + Suffix))
  }

  /**
   * The relabel: the frame afterwards and whether it is written back. The
   * mask looks up the four columns (KeyError if one is missing); the comment
   * column is looked up only when some row matches.
   */
  function Relabel(df: Frame): (r: Result<(Frame, bool), Exception>)
    ensures r.Err? <==> (!HasColumns(df, ["country", "indicator", "date_reference", "source_name"]) ||
                         ((exists i :: 0 <= i < |df.rows| && IsAnstatPdfLine(df.rows[i])) && "comment" !in df.columns))
    ensures r.Err? ==> r.error.KeyError?
    ensures r.Ok? ==> (r.value.1 <==> exists i :: 0 <= i < |df.rows| && IsAnstatPdfLine(df.rows[i]))
    ensures r.Ok? ==> r.value.0.columns == df.columns && |r.value.0.rows| == |df.rows|
    ensures r.Ok? ==> forall i :: 0 <= i < |df.rows| ==>
      r.value.0.rows[i] == if IsAnstatPdfLine(df.rows[i]) then RelabelRow(df.rows[i]) else df.rows[i]
    ensures r.Ok? && !r.value.1 ==> r.value.0 == df
  {
    var cols := ["country", "indicator", "date_reference", "source_name"];
    if !HasColumns(df, cols) then Err(KeyError(MissingColumn(df, cols)))
    else if !exists i :: 0 <= i < |df.rows| && IsAnstatPdfLine(df.rows[i]) then
      assert forall i :: 0 <= i < |df.rows| ==>
        df.rows[i] == if IsAnstatPdfLine(df.rows[i]) then RelabelRow(df.rows[i]) else df.rows[i];
      Ok((df, false))
    else if "comment" !in df.columns then Err(KeyError("comment"))
    else
      var rows := seq(|df.rows|, i requires 0 <= i < |df.rows| =>
                        if IsAnstatPdfLine(df.rows[i]) then RelabelRow(df.rows[i]) else df.rows[i]);
      Ok((Frame(df.columns, rows), true))
  }

  /** The new label is not the old one, so a relabelled row no longer matches. */
  lemma RelabelledNoLongerMatches(r: Row)
    ensures !IsAnstatPdfLine(RelabelRow(r)) && !IsPdfLine(RelabelRow(r))
  {
    assert NewIndicator[1] == 'H';
    assert OldIndicator[1] == 'n';
  }

  /** A second run finds no row to relabel and writes nothing. */
  lemma RelabelTwiceIsNoop(df: Frame)
    requires Relabel(df).Ok?
    ensures Relabel(Relabel(df).value.0) == Ok((Relabel(df).value.0, false))
  {
    var out := Relabel(df).value.0;
    forall i | 0 <= i < |out.rows| ensures !IsAnstatPdfLine(out.rows[i]) {
      if IsAnstatPdfLine(df.rows[i]) {
        RelabelledNoLongerMatches(df.rows[i]);
      }
    }
  }

  /** The relabel keeps a well-formed table well formed: both cells it writes are in columns the frame has. */
  lemma RelabelWf(df: Frame)
    requires Wf(df) && Relabel(df).Ok?
    ensures Wf(Relabel(df).value.0)
  {
    var out := Relabel(df).value.0;
    forall i, c | 0 <= i < |out.rows| && c !in out.columns ensures !HasCell(out.rows[i], c) {
      assert !HasCell(df.rows[i], c);
    }
  }

  /** The script: read, relabel, and write the table back only when a row matched. */
  method Relabel19(store: MacroStore) returns (err: Option<Exception>, written: bool)
    requires store.Valid()
    modifies store
    ensures store.Valid()
    ensures old(store.file).None? ==> err == Some(FileNotFoundError) && !written && store.file == old(store.file)
    ensures old(store.file).Some? ==>
      var r := Relabel(old(store.file).value);
      && (r.Err? ==> err == Some(r.error) && !written && store.file == old(store.file))
      && (r.Ok? ==> err.None? && written == r.value.1)
      && (r.Ok? && written ==> store.file == Some(r.value.0))
      && (r.Ok? && !written ==> store.file == old(store.file))
  {
    written := false;
    var read := store.Read();
    if read.Err? {
      err := Some(read.error);
      return;
    }
    var r := Relabel(read.value);
    if r.Err? {
      err := Some(r.error);
      return;
    }
    err := None;
    if r.value.1 {
      RelabelWf(read.value);
      store.Save(r.value.0);
      written := true;
    }
  }

  // ---------------------------------------------------------------------------
  // src/19b: delete
  // ---------------------------------------------------------------------------

  /** `df[~mask]`: the rows that do not match, in order. */
  function DropPdfLine(rows: seq<Row>): (r: seq<Row>)
    ensures forall x :: x in r <==> x in rows && !IsPdfLine(x)
    ensures SubsequenceOf(r, rows)
  {
    if rows == [] then []
    else
      var t := DropPdfLine(rows[1..]);
      assert forall x :: x in rows <==> x == rows[0] || x in rows[1..];
      if IsPdfLine(rows[0]) then
        assert t != [] ==> t[0] in t && t[0] != rows[0];
        t
      else
        assert rows == [rows[0]] + rows[1..];
        assert ([rows[0]] + t)[1..] == t;
        [rows[0]] + t
  }

  /** How many rows the mask selects. */
  function CountPdfLines(rows: seq<Row>): nat {
    if rows == [] then 0 else (if IsPdfLine(rows[0]) then 1 else 0) + CountPdfLines(rows[1..])
  }

  /** The reported count `before - after` is the number of matching rows. */
  lemma {:induction false} DeletedCount(rows: seq<Row>)
    ensures |rows| - |DropPdfLine(rows)| == CountPdfLines(rows)
    decreases |rows|
  {
    if rows != [] {
      DeletedCount(rows[1..]);
    }
  }

  /** Deleting twice deletes nothing more, and the second count is zero. */
  lemma {:induction false} DropTwiceIsNoop(rows: seq<Row>)
    ensures DropPdfLine(DropPdfLine(rows)) == DropPdfLine(rows)
    ensures CountPdfLines(DropPdfLine(rows)) == 0
    decreases |rows|
  {
    if rows != [] {
      DropTwiceIsNoop(rows[1..]);
      var t := DropPdfLine(rows[1..]);
      if !IsPdfLine(rows[0]) {
        assert ([rows[0]] + t)[1..] == t;
      }
    }
  }

  /**
   * The delete keys on three cells only: a row of another source is
   * deleted, while the relabel leaves it alone; and a row the relabel has
   * already changed is no longer deleted.
   */
  lemma DeleteAndRelabelDiffer(r: Row)
    ensures IsPdfLine(r) && Render(r.sourceName) != SourceName ==>
      !IsAnstatPdfLine(r) && r !in DropPdfLine([r])
    ensures RelabelRow(r) in DropPdfLine([RelabelRow(r)])
  {
    RelabelledNoLongerMatches(r);
  }

  /** The delete: the rows left, or the KeyError of a missing mask column. */
  function Drop(df: Frame): (r: Result<Frame, Exception>)
    ensures r.Err? <==> !HasColumns(df, KeyColumns)
    ensures r.Ok? ==> r.value.columns == df.columns && r.value.rows == DropPdfLine(df.rows)
  {
    if !HasColumns(df, KeyColumns) then Err(KeyError(MissingColumn(df, KeyColumns)))
    else Ok(Frame(df.columns, DropPdfLine(df.rows)))
  }

  /** The script: read, delete, and write the table back even when nothing was deleted; report the count. */
  method Drop19b(store: MacroStore) returns (err: Option<Exception>, deleted: nat)
    requires store.Valid()
    modifies store
    ensures store.Valid()
    ensures old(store.file).None? ==> err == Some(FileNotFoundError) && store.file == old(store.file)
    ensures old(store.file).Some? ==>
      var r := Drop(old(store.file).value);
      && (r.Err? ==> err == Some(r.error) && store.file == old(store.file))
      && (r.Ok? ==> && err.None? && store.file == Some(r.value)
                    && deleted == CountPdfLines(old(store.file).value.rows))
  {
    deleted := 0;
    var read := store.Read();
    if read.Err? {
      err := Some(read.error);
      return;
    }
    var df := read.value;
    var r := Drop(df);
    if r.Err? {
      err := Some(r.error);
      return;
    }
    var before := |df.rows|;
    var after := |r.value.rows|;
    DeletedCount(df.rows);
    deleted := before - after;
    SubsequenceKeepsWf(df, r.value.rows);
    store.Save(r.value);
    err := None;
  }
}
