/**
 * The shared indicator table `data/processed/macro_uemoa.csv` held in memory
 * as a pandas frame, and the keyed upsert that almost every script copies:
 * drop every row whose key equals the new row's key, then append the new row.
 *
 * The key is the three key cells rendered with `astype(str)` and joined with
 * "|", exactly as the scripts build it, so two different triples can share a
 * key (see KeyCollision).
 */
module Table {
  import opened Wrappers

  /** One record of the table; a `None` cell is a missing value (Python `None`). */
  datatype Row = Row(
    country: Option<string>,
    indicator: Option<string>,
    value: Option<real>,
    unit: Option<string>,
    dateReference: Option<string>,
    sourceName: Option<string>,
    sourceUrl: Option<string>,
    collectedAt: Option<string>,
    comment: Option<string>)

  /** The columns of the table, in the order the scripts build their rows. */
  const Schema: seq<string> :=
    ["country", "indicator", "value", "unit", "date_reference",
     "source_name", "source_url", "collected_at", "comment"]

  const KeyColumns: seq<string> := ["country", "indicator", "date_reference"]

  /** A row every script builds: all nine cells filled. */
  function MakeRow(country: string, indicator: string, value: real, unit: string,
                   dateReference: string, sourceName: string, sourceUrl: string,
                   collectedAt: string, comment: string): Row
  {
    Row(Some(country), Some(indicator), Some(value), Some(unit), Some(dateReference),
        Some(sourceName), Some(sourceUrl), Some(collectedAt), Some(comment))
  }

  /** Whether the row holds a value in column `c`. */
  predicate HasCell(r: Row, c: string) {
    if c == "country" then r.country.Some?
    else if c == "indicator" then r.indicator.Some?
    else if c == "value" then r.value.Some?
    else if c == "unit" then r.unit.Some?
    else if c == "date_reference" then r.dateReference.Some?
    else if c == "source_name" then r.sourceName.Some?
    else if c == "source_url" then r.sourceUrl.Some?
    else if c == "collected_at" then r.collectedAt.Some?
    else if c == "comment" then r.comment.Some?
    else false
  }

  /** A pandas frame: its column labels and its rows. */
  datatype Frame = Frame(columns: seq<string>, rows: seq<Row>)

  /** Columns are schema columns, and a row has no value in a column the frame lacks. */
  ghost predicate Wf(f: Frame) {
    && (forall c :: c in f.columns ==> c in Schema)
    && (forall i, c :: 0 <= i < |f.rows| && c !in f.columns ==> !HasCell(f.rows[i], c))
  }

  /** `DataFrame.empty`: no rows or no columns. */
  predicate IsEmpty(f: Frame) {
    |f.rows| == 0 || |f.columns| == 0
  }

  predicate HasColumns(f: Frame, cols: seq<string>) {
    forall c :: c in cols ==> c in f.columns
  }

  /** `astype(str)` of a text cell. */
  function Render(cell: Option<string>): string {
    match cell
    case Some(s) => s
    case None => "None"
  }

  /** The upsert key: the three key cells rendered and joined with "|". */
  function Key(r: Row): (k: string)
    ensures |k| == |Render(r.country)| + |Render(r.indicator)| + |Render(r.dateReference)| + 2
    ensures k[|Render(r.country)|] == '|' && k[|Render(r.country)| + |Render(r.indicator)| + 1] == '|'
  {
    Render(r.country) + "|" + Render(r.indicator) + "|" + Render(r.dateReference)
  }

  // ---------------------------------------------------------------------------
  // Row filters
  // ---------------------------------------------------------------------------

  /** `df[~old_keys.isin([k])]`: the rows whose key differs from `k`, in order. */
  function Without(rows: seq<Row>, k: string): (r: seq<Row>)
    ensures |r| <= |rows|
    ensures forall i :: 0 <= i < |r| ==> Key(r[i]) != k
  {
    if rows == [] then []
    else if Key(rows[0]) == k then Without(rows[1..], k)
    else [rows[0]] + Without(rows[1..], k)
  }

  /** The rows whose key is `k`, in order. */
  function Select(rows: seq<Row>, k: string): seq<Row> {
    if rows == [] then []
    else if Key(rows[0]) == k then [rows[0]] + Select(rows[1..], k)
    else Select(rows[1..], k)
  }

  /** How many rows carry key `k`. */
  function Count(rows: seq<Row>, k: string): nat {
    |Select(rows, k)|
  }

  /** No two rows share a key. */
  ghost predicate KeysUnique(rows: seq<Row>) {
    forall i, j :: 0 <= i < j < |rows| ==> Key(rows[i]) != Key(rows[j])
  }

  /** `a` is `b` with some elements left out, the rest in their original order. */
  ghost predicate SubsequenceOf<T>(a: seq<T>, b: seq<T>)
    decreases |b|
  {
    if a == [] then true
    else if b == [] then false
    else if a[0] == b[0] then SubsequenceOf(a[1..], b[1..])
    else SubsequenceOf(a, b[1..])
  }

  lemma {:induction false} SubsequenceOfSelf<T>(a: seq<T>)
    ensures SubsequenceOf(a, a)
    decreases |a|
  {
    if a != [] { SubsequenceOfSelf(a[1..]); }
  }

  lemma {:induction false} SubsequenceOfMembers<T>(a: seq<T>, b: seq<T>)
    requires SubsequenceOf(a, b)
    ensures |a| <= |b|
    ensures forall x :: x in a ==> x in b
    decreases |b|
  {
    if a != [] && b != [] {
      if a[0] == b[0] {
        SubsequenceOfMembers(a[1..], b[1..]);
        assert forall x :: x in a ==> x == a[0] || x in a[1..];
      } else {
        SubsequenceOfMembers(a, b[1..]);
      }
      assert forall x :: x in b[1..] ==> x in b;
    }
  }

  /** What `Without` keeps: exactly the rows with another key, in their order, and no more of them. */
  lemma {:induction false} WithoutSpec(rows: seq<Row>, k: string)
    ensures forall x :: x in Without(rows, k) <==> x in rows && Key(x) != k
    ensures SubsequenceOf(Without(rows, k), rows)
    ensures |Without(rows, k)| == |rows| - Count(rows, k)
    decreases |rows|
  {
    if rows != [] {
      WithoutSpec(rows[1..], k);
      var t := Without(rows[1..], k);
      if Key(rows[0]) != k {
        assert ([rows[0]] + t)[1..] == t;
        assert forall x :: x in [rows[0]] + t <==> x == rows[0] || x in t;
      } else {
        SubsequenceOfMembers(t, rows[1..]);
        if t != [] {
          assert t[0] in rows[1..];
          assert t[0] != rows[0];
        }
      }
      assert forall x :: x in rows <==> x == rows[0] || x in rows[1..];
    }
  }

  /** Per key, `Without(rows, k)` keeps the other keys' rows as they were and drops k's. */
  lemma {:induction false} SelectWithout(rows: seq<Row>, k: string, k': string)
    ensures Select(Without(rows, k), k') == if k' == k then [] else Select(rows, k')
    decreases |rows|
  {
    if rows != [] {
      SelectWithout(rows[1..], k, k');
      if Key(rows[0]) != k {
        assert ([rows[0]] + Without(rows[1..], k))[1..] == Without(rows[1..], k);
      }
    }
  }

  lemma {:induction false} SelectAppend(a: seq<Row>, b: seq<Row>, k: string)
    ensures Select(a + b, k) == Select(a, k) + Select(b, k)
    decreases |a|
  {
    if a == [] {
      assert a + b == b;
    } else {
      assert (a + b)[0] == a[0];
      assert (a + b)[1..] == a[1..] + b;
      SelectAppend(a[1..], b, k);
    }
  }

  lemma {:induction false} WithoutAppend(a: seq<Row>, b: seq<Row>, k: string)
    ensures Without(a + b, k) == Without(a, k) + Without(b, k)
    decreases |a|
  {
    if a == [] {
      assert a + b == b;
    } else {
      assert (a + b)[0] == a[0];
      assert (a + b)[1..] == a[1..] + b;
      WithoutAppend(a[1..], b, k);
    }
  }

  lemma {:induction false} WithoutNoKey(rows: seq<Row>, k: string)
    requires forall x :: x in rows ==> Key(x) != k
    ensures Without(rows, k) == rows
    decreases |rows|
  {
    if rows != [] {
      assert forall x :: x in rows[1..] ==> x in rows;
      WithoutNoKey(rows[1..], k);
    }
  }

  /** Select(rows, k) lists exactly the rows with key k. */
  lemma {:induction false} SelectMembers(rows: seq<Row>, k: string)
    ensures forall x :: x in Select(rows, k) <==> x in rows && Key(x) == k
    decreases |rows|
  {
    if rows != [] {
      SelectMembers(rows[1..], k);
      assert forall x :: x in rows <==> x == rows[0] || x in rows[1..];
    }
  }

  // ---------------------------------------------------------------------------
  // The keyed merge at the heart of every upsert
  // ---------------------------------------------------------------------------

  /** `pd.concat([df[~old_keys.isin(new_keys)], new_df])` on the rows: same-key rows out, `row` last. */
  function Merge(rows: seq<Row>, row: Row): (r: seq<Row>)
    ensures |r| > 0 && r[|r| - 1] == row
  {
    Without(rows, Key(row)) + [row]
  }

  /** A row survives the merge exactly when it is the new row or an old row of another key. */
  lemma MergeContents(rows: seq<Row>, row: Row)
    ensures forall x :: x in Merge(rows, row) <==> x == row || (x in rows && Key(x) != Key(row))
    ensures SubsequenceOf(Merge(rows, row)[..|Merge(rows, row)| - 1], rows)
  {
    WithoutSpec(rows, Key(row));
    assert Merge(rows, row)[..|Merge(rows, row)| - 1] == Without(rows, Key(row));
  }

  /** Exactly one row carries the new row's key afterwards, even if the old rows held several. */
  lemma MergeKeyCount(rows: seq<Row>, row: Row)
    ensures Count(Merge(rows, row), Key(row)) == 1
    ensures Select(Merge(rows, row), Key(row)) == [row]
  {
    SelectAppend(Without(rows, Key(row)), [row], Key(row));
    SelectWithout(rows, Key(row), Key(row));
  }

  /** Rows of every other key keep their values, their multiplicity and their order. */
  lemma MergeKeepsOtherKeys(rows: seq<Row>, row: Row, k: string)
    requires k != Key(row)
    ensures Select(Merge(rows, row), k) == Select(rows, k)
  {
    SelectAppend(Without(rows, Key(row)), [row], k);
    SelectWithout(rows, Key(row), k);
  }

  /** The merge drops the old same-key rows and adds one: never more than one row longer. */
  lemma MergeLength(rows: seq<Row>, row: Row)
    ensures |Merge(rows, row)| == |rows| - Count(rows, Key(row)) + 1
    ensures |Merge(rows, row)| <= |rows| + 1
  {
    WithoutSpec(rows, Key(row));
  }

  /** Upserting the same row twice is the same as upserting it once. */
  lemma MergeIdempotent(rows: seq<Row>, row: Row)
    ensures Merge(Merge(rows, row), row) == Merge(rows, row)
  {
    var k := Key(row);
    var w := Without(rows, k);
    WithoutAppend(w, [row], k);
    WithoutSpec(rows, k);
    WithoutNoKey(w, k);
    assert Without([row], k) == [];
  }

  /** Last write wins: a later upsert of the same key replaces the earlier one completely. */
  lemma MergeLastWriteWins(rows: seq<Row>, r1: Row, r2: Row)
    requires Key(r1) == Key(r2)
    ensures Merge(Merge(rows, r1), r2) == Merge(rows, r2)
  {
    var k := Key(r1);
    var w := Without(rows, k);
    WithoutAppend(w, [r1], k);
    WithoutSpec(rows, k);
    WithoutNoKey(w, k);
    assert Without([r1], k) == [];
  }

  /** The merge keeps a table free of duplicate keys. */
  lemma MergeKeepsUnique(rows: seq<Row>, row: Row)
    requires KeysUnique(rows)
    ensures KeysUnique(Merge(rows, row))
  {
    var m := Merge(rows, row);
    WithoutSpec(rows, Key(row));
    forall i, j | 0 <= i < j < |m| ensures Key(m[i]) != Key(m[j]) {
      if j == |m| - 1 {
        assert m[i] in Without(rows, Key(row));
      } else {
        SubsequenceKeepsUnique(Without(rows, Key(row)), rows);
        assert m[i] == Without(rows, Key(row))[i] && m[j] == Without(rows, Key(row))[j];
      }
    }
  }

  lemma {:induction false} SubsequenceKeepsUnique(a: seq<Row>, b: seq<Row>)
    requires SubsequenceOf(a, b) && KeysUnique(b)
    ensures KeysUnique(a)
    decreases |b|
  {
    if a != [] && b != [] {
      assert KeysUnique(b[1..]) by {
        forall i, j | 0 <= i < j < |b| - 1 ensures Key(b[1..][i]) != Key(b[1..][j]) {
          assert b[1..][i] == b[i + 1] && b[1..][j] == b[j + 1];
        }
      }
      if a[0] == b[0] {
        SubsequenceKeepsUnique(a[1..], b[1..]);
        SubsequenceOfMembers(a[1..], b[1..]);
        forall j | 0 < j < |a| ensures Key(a[0]) != Key(a[j]) {
          assert a[j] == a[1..][j - 1];
          assert a[j] in b[1..];
          var m :| 0 <= m < |b| - 1 && b[1..][m] == a[j];
          assert b[m + 1] == a[j];
        }
      } else {
        SubsequenceKeepsUnique(a, b[1..]);
      }
    }
  }

  // ---------------------------------------------------------------------------
  // Several upserts in a row
  // ---------------------------------------------------------------------------

  /** Upserting `news` one after the other, as the scripts' loops do. */
  function MergeAll(rows: seq<Row>, news: seq<Row>): seq<Row>
    decreases |news|
  {
    if news == [] then rows else MergeAll(Merge(rows, news[0]), news[1..])
  }

  ghost predicate DistinctKeys(news: seq<Row>) {
    forall i, j :: 0 <= i < j < |news| ==> Key(news[i]) != Key(news[j])
  }

  /** Upserts of rows with pairwise different keys do not disturb each other: each new row is there exactly once. */
  lemma {:induction false} MergeAllDistinct(rows: seq<Row>, news: seq<Row>)
    requires DistinctKeys(news)
    ensures forall i :: 0 <= i < |news| ==> Select(MergeAll(rows, news), Key(news[i])) == [news[i]]
    decreases |news|
  {
    if news != [] {
      var m := Merge(rows, news[0]);
      var t := news[1..];
      assert DistinctKeys(t) by {
        forall i, j | 0 <= i < j < |t| ensures Key(t[i]) != Key(t[j]) {
          assert t[i] == news[i + 1] && t[j] == news[j + 1];
        }
      }
      MergeAllDistinct(m, t);
      forall i | 0 <= i < |news| ensures Select(MergeAll(rows, news), Key(news[i])) == [news[i]] {
        if i == 0 {
          MergeKeyCount(rows, news[0]);
          MergeAllOtherKeys(m, t, Key(news[0]));
        } else {
          assert news[i] == t[i - 1];
        }
      }
    }
  }

  /** Rows whose key none of `news` carries come through a sequence of upserts untouched. */
  lemma {:induction false} MergeAllOtherKeys(rows: seq<Row>, news: seq<Row>, k: string)
    requires forall i :: 0 <= i < |news| ==> Key(news[i]) != k
    ensures Select(MergeAll(rows, news), k) == Select(rows, k)
    decreases |news|
  {
    if news != [] {
      MergeKeepsOtherKeys(rows, news[0], k);
      MergeAllOtherKeys(Merge(rows, news[0]), news[1..], k);
    }
  }

  // ---------------------------------------------------------------------------
  // The key as a joined string
  // ---------------------------------------------------------------------------

  /** Position of the first '|' in `s`, or |s| when there is none. */
  function BarIndex(s: string): nat {
    if s == [] || s[0] == '|' then 0 else 1 + BarIndex(s[1..])
  }

  lemma {:induction false} BarIndexJoin(a: string, b: string)
    requires '|' !in a
    ensures BarIndex(a + "|" + b) == |a|
    decreases |a|
  {
    if a != [] {
      assert (a + "|" + b)[1..] == a[1..] + "|" + b;
      BarIndexJoin(a[1..], b);
    }
  }

  lemma SplitAtBar(a: string, b: string, c: string, d: string)
    requires '|' !in a && '|' !in c
    requires a + "|" + b == c + "|" + d
    ensures a == c && b == d
  {
    var s := a + "|" + b;
    BarIndexJoin(a, b);
    BarIndexJoin(c, d);
    assert a == s[..|a|] == c;
    assert b == s[|a| + 1..] == d;
  }

  /** When no rendered key cell contains '|', equal keys mean equal key cells. */
  lemma KeyInjective(x: Row, y: Row)
    requires '|' !in Render(x.country) && '|' !in Render(x.indicator)
    requires '|' !in Render(y.country) && '|' !in Render(y.indicator)
    requires Key(x) == Key(y)
    ensures Render(x.country) == Render(y.country)
    ensures Render(x.indicator) == Render(y.indicator)
    ensures Render(x.dateReference) == Render(y.dateReference)
  {
    var a, b, c := Render(x.country), Render(x.indicator), Render(x.dateReference);
    var a', b', c' := Render(y.country), Render(y.indicator), Render(y.dateReference);
    assert Key(x) == a + "|" + (b + "|" + c);
    assert Key(y) == a' + "|" + (b' + "|" + c');
    SplitAtBar(a, b + "|" + c, a', b' + "|" + c');
    SplitAtBar(b, c, b', c');
  }

  /** Rows of the same country whose indicators part at a position both have never share a key. */
  lemma KeysPartAtIndicator(x: Row, y: Row, p: nat)
    requires Render(x.country) == Render(y.country)
    requires p < |Render(x.indicator)| && p < |Render(y.indicator)|
    requires Render(x.indicator)[p] != Render(y.indicator)[p]
    ensures Key(x) != Key(y)
  {
    var c := |Render(x.country)| + 1 + p;
    assert Key(x)[c] == Render(x.indicator)[p];
    assert Key(y)[c] == Render(y.indicator)[p];
  }

  /** Rows that agree on country and indicator and whose dates part at a position both have never share a key. */
  lemma KeysPartAtDate(x: Row, y: Row, p: nat)
    requires Render(x.country) == Render(y.country) && Render(x.indicator) == Render(y.indicator)
    requires p < |Render(x.dateReference)| && p < |Render(y.dateReference)|
    requires Render(x.dateReference)[p] != Render(y.dateReference)[p]
    ensures Key(x) != Key(y)
  {
    var c := |Render(x.country)| + 1 + |Render(x.indicator)| + 1 + p;
    assert Key(x)[c] == Render(x.dateReference)[p];
    assert Key(y)[c] == Render(y.dateReference)[p];
  }

  /** Two different triples that the joined key cannot tell apart: ("a|b", "c", d) and ("a", "b|c", d). */
  lemma KeyCollision(d: string)
    ensures var x := Row(Some("a|b"), Some("c"), None, None, Some(d), None, None, None, None);
            var y := Row(Some("a"), Some("b|c"), None, None, Some(d), None, None, None, None);
            x.country != y.country && Key(x) == Key(y)
  {
  }

  // ---------------------------------------------------------------------------
  // Columns
  // ---------------------------------------------------------------------------

  /** The columns of `pd.concat([a, b])`: those of `a`, then those of `b` that `a` lacks, in order. */
  function UnionColumns(cols: seq<string>, extra: seq<string>): (r: seq<string>)
    ensures |cols| <= |r| && r[..|cols|] == cols
    ensures forall c :: c in r <==> c in cols || c in extra
    decreases |extra|
  {
    if extra == [] then cols
    else if extra[0] in cols then UnionColumns(cols, extra[1..])
    else
      var r := UnionColumns(cols + [extra[0]], extra[1..]);
      assert r[..|cols|] == (cols + [extra[0]])[..|cols|];
      r
  }

  // ---------------------------------------------------------------------------
  // The in-memory upserts of src/12, src/10c and src/18
  // ---------------------------------------------------------------------------

  /** Only schema columns can hold a value. */
  lemma HasCellInSchema(r: Row, c: string)
    ensures HasCell(r, c) ==> c in Schema
  {
  }

  /** What one merge guarantees per key: the new row alone under its key, every other key untouched. */
  lemma MergeSpec(rows: seq<Row>, row: Row)
    ensures Select(Merge(rows, row), Key(row)) == [row]
    ensures |Merge(rows, row)| <= |rows| + 1
    ensures forall k :: k != Key(row) ==> Select(Merge(rows, row), k) == Select(rows, k)
  {
    MergeKeyCount(rows, row);
    MergeLength(rows, row);
    forall k | k != Key(row) ensures Select(Merge(rows, row), k) == Select(rows, k) {
      MergeKeepsOtherKeys(rows, row, k);
    }
  }

  /** Merging into a well-formed frame whose columns now include the schema keeps it well formed. */
  lemma MergeWf(df: Frame, row: Row)
    ensures Wf(df) ==> Wf(Frame(UnionColumns(df.columns, Schema), Merge(df.rows, row)))
  {
    var cols := UnionColumns(df.columns, Schema);
    forall i, c | 0 <= i < |Merge(df.rows, row)| && c !in cols
      ensures !HasCell(Merge(df.rows, row)[i], c)
    {
      HasCellInSchema(Merge(df.rows, row)[i], c);
    }
  }

  lemma SchemaWf(row: Row)
    ensures Wf(Frame(Schema, [row]))
  {
    forall c | c !in Schema ensures !HasCell(row, c) {
      HasCellInSchema(row, c);
    }
  }

  /**
   * `upsert(df, row)` of src/12 and src/10c: an empty frame becomes the new
   * row alone; otherwise same-key rows are dropped and the row appended. The
   * key columns are looked up on `df`, so a non-empty frame without one of
   * them raises KeyError.
   */
  function Upsert(df: Frame, row: Row): (r: Result<Frame, Exception>)
    ensures IsEmpty(df) ==> r == Ok(Frame(Schema, [row]))
    ensures !IsEmpty(df) ==> (r.Ok? <==> HasColumns(df, KeyColumns))
    ensures r.Ok? ==> HasColumns(r.value, Schema)
    ensures r.Ok? && Wf(df) ==> Wf(r.value)
    ensures r.Ok? ==> Select(r.value.rows, Key(row)) == [row] && r.value.rows[|r.value.rows| - 1] == row
    ensures r.Ok? ==> |r.value.rows| <= |df.rows| + 1
    ensures r.Ok? && !IsEmpty(df) ==>
      forall k :: k != Key(row) ==> Select(r.value.rows, k) == Select(df.rows, k)
  {
    if IsEmpty(df) then
      assert Select([row], Key(row)) == [row];
      SchemaWf(row);
      Ok(Frame(Schema, [row]))
    else if !HasColumns(df, KeyColumns) then
      Err(KeyError(if "country" !in df.columns then "country"
                   else if "indicator" !in df.columns then "indicator" else "date_reference"))
    else
      MergeSpec(df.rows, row);
      MergeWf(df, row);
      Ok(Frame(UnionColumns(df.columns, Schema), Merge(df.rows, row)))
  }

  /** A frame with every schema column has the key columns. */
  lemma SchemaHasKeyColumns(f: Frame)
    requires HasColumns(f, Schema)
    ensures HasColumns(f, KeyColumns)
  {
    assert KeyColumns[0] == Schema[0] && KeyColumns[1] == Schema[1] && KeyColumns[2] == Schema[4];
  }

  /** The upsert invents nothing: every row it returns is the new row or was already in the frame. */
  lemma UpsertMembers(df: Frame, row: Row)
    requires Upsert(df, row).Ok?
    ensures forall x :: x in Upsert(df, row).value.rows ==> x == row || x in df.rows
  {
    if !IsEmpty(df) {
      MergeContents(df.rows, row);
    }
  }

  /**
   * Lines 37-40 of src/18's upsert: every column of the new row that `df`
   * lacks is added to `df` (in place), filled with None. In a well-formed
   * frame the rows already hold None there, so only the column list changes.
   */
  function Align(df: Frame): (r: Frame)
    ensures HasColumns(r, Schema) && r.rows == df.rows
    ensures |df.columns| <= |r.columns| && r.columns[..|df.columns|] == df.columns
    ensures Wf(df) ==> Wf(r)
    ensures Wf(df) ==> forall i, c :: 0 <= i < |r.rows| && c in r.columns && c !in df.columns ==>
      !HasCell(r.rows[i], c)
  {
    Frame(UnionColumns(df.columns, Schema), df.rows)
  }

  /**
   * `upsert(df, row)` of src/18: like Upsert, but the columns are aligned
   * first, so a missing key column is added (as None) instead of raising.
   */
  function UpsertAligned(df: Frame, row: Row): (r: Frame)
    ensures HasColumns(r, Schema)
    ensures Wf(df) ==> Wf(r)
    ensures IsEmpty(df) ==> r == Frame(Schema, [row])
    ensures !IsEmpty(df) ==> r.columns == Align(df).columns
    ensures Select(r.rows, Key(row)) == [row] && r.rows[|r.rows| - 1] == row
    ensures |r.rows| <= |df.rows| + 1
    ensures !IsEmpty(df) ==> forall k :: k != Key(row) ==> Select(r.rows, k) == Select(df.rows, k)
  {
    if IsEmpty(df) then
      assert Select([row], Key(row)) == [row];
      SchemaWf(row);
      Frame(Schema, [row])
    else
      var aligned := Align(df);
      MergeSpec(aligned.rows, row);
      MergeWf(df, row);
      Frame(aligned.columns, Merge(aligned.rows, row))
  }

  /** Where the src/12 upsert succeeds, the aligned src/18 upsert gives the same frame. */
  lemma UpsertAgreesWithAligned(df: Frame, row: Row)
    requires Upsert(df, row).Ok?
    ensures Upsert(df, row).value == UpsertAligned(df, row)
  {
  }

  /**
   * The file-backed upsert (`upsert_macro` of src/10, src/11 and src/08, and
   * the inline blocks of src/04 and src/05): an absent file becomes the new
   * row alone; an existing file is read and merged. There is no emptiness
   * test, so a file without a key column raises KeyError even with no rows.
   */
  function UpsertFile(file: Option<Frame>, row: Row): (r: Result<Frame, Exception>)
    ensures file.None? ==> r == Ok(Frame(Schema, [row]))
    ensures file.Some? ==> (r.Ok? <==> HasColumns(file.value, KeyColumns))
    ensures r.Ok? ==> HasColumns(r.value, Schema)
    ensures r.Ok? && (file.None? || Wf(file.value)) ==> Wf(r.value)
    ensures r.Ok? ==> Select(r.value.rows, Key(row)) == [row] && r.value.rows[|r.value.rows| - 1] == row
    ensures r.Ok? && file.Some? ==> |r.value.rows| <= |file.value.rows| + 1
    ensures r.Ok? && file.Some? ==>
      forall k :: k != Key(row) ==> Select(r.value.rows, k) == Select(file.value.rows, k)
  {
    match file
    case None =>
      assert Select([row], Key(row)) == [row];
      SchemaWf(row);
      Ok(Frame(Schema, [row]))
    case Some(f) =>
      if !HasColumns(f, KeyColumns) then
        Err(KeyError(if "country" !in f.columns then "country"
                     else if "indicator" !in f.columns then "indicator" else "date_reference"))
      else
        MergeSpec(f.rows, row);
        MergeWf(f, row);
        Ok(Frame(UnionColumns(f.columns, Schema), Merge(f.rows, row)))
  }

  /** On a file holding a non-empty table, the file-backed upsert and the in-memory one agree. */
  lemma UpsertFileAgrees(f: Frame, row: Row)
    requires !IsEmpty(f)
    ensures UpsertFile(Some(f), row) == Upsert(f, row)
  {
  }

  /**
   * Re-running a script whose row has a fixed key replaces rather than
   * duplicates: after two file-backed upserts of the same key the rows are
   * those a single upsert of the second row would give.
   */
  lemma UpsertFileLastWriteWins(file: Option<Frame>, r1: Row, r2: Row)
    requires Key(r1) == Key(r2)
    requires UpsertFile(file, r1).Ok?
    ensures UpsertFile(Some(UpsertFile(file, r1).value), r2).Ok?
    ensures UpsertFile(Some(UpsertFile(file, r1).value), r2).value.rows == UpsertFile(file, r2).value.rows
  {
    var f1 := UpsertFile(file, r1).value;
    SchemaHasKeyColumns(f1);
    match file {
      case None =>
        assert Without([r1], Key(r2)) == [];
      case Some(f) =>
        MergeLastWriteWins(f.rows, r1, r2);
    }
  }

  /**
   * The two upserts part ways on a file with a header and no rows: the
   * in-memory upsert returns the new row under the schema's columns, the
   * file-backed one keeps the file's columns as well.
   */
  lemma UpsertFileOnHeaderOnly(cols: seq<string>, row: Row)
    requires forall c :: c in KeyColumns ==> c in cols
    ensures UpsertFile(Some(Frame(cols, [])), row).Ok?
    ensures UpsertFile(Some(Frame(cols, [])), row).value.rows == [row]
    ensures UpsertFile(Some(Frame(cols, [])), row).value.columns[..|cols|] == cols
  {
  }

  // ---------------------------------------------------------------------------
  // Filtering by indicator (the purge of src/10c)
  // ---------------------------------------------------------------------------

  /** `df[df["indicator"].astype(str) != name]`. */
  function DropIndicator(rows: seq<Row>, name: string): (r: seq<Row>)
    ensures forall x :: x in r <==> x in rows && Render(x.indicator) != name
    ensures |r| <= |rows|
  {
    if rows == [] then []
    else
      var t := DropIndicator(rows[1..], name);
      assert forall x :: x in rows <==> x == rows[0] || x in rows[1..];
      if Render(rows[0].indicator) == name then t else [rows[0]] + t
  }

  /** How many rows have an indicator that renders as `name`. */
  function CountIndicator(rows: seq<Row>, name: string): nat {
    if rows == [] then 0
    else (if Render(rows[0].indicator) == name then 1 else 0) + CountIndicator(rows[1..], name)
  }

  /** The filter removes exactly the rows whose indicator renders as `name`, one per such row. */
  lemma {:induction false} DropIndicatorCount(rows: seq<Row>, name: string)
    ensures |rows| - |DropIndicator(rows, name)| == CountIndicator(rows, name)
    decreases |rows|
  {
    if rows != [] {
      DropIndicatorCount(rows[1..], name);
    }
  }

  /** A table without such rows passes through unchanged. */
  lemma {:induction false} DropIndicatorNone(rows: seq<Row>, name: string)
    requires forall x :: x in rows ==> Render(x.indicator) != name
    ensures DropIndicator(rows, name) == rows
    decreases |rows|
  {
    if rows != [] {
      assert rows[0] in rows;
      assert forall x :: x in rows[1..] ==> x in rows;
      DropIndicatorNone(rows[1..], name);
      assert [rows[0]] + rows[1..] == rows;
    }
  }

  lemma {:induction false} DropIndicatorInOrder(rows: seq<Row>, name: string)
    ensures SubsequenceOf(DropIndicator(rows, name), rows)
    decreases |rows|
  {
    if rows != [] {
      DropIndicatorInOrder(rows[1..], name);
      var t := DropIndicator(rows[1..], name);
      if Render(rows[0].indicator) == name && t != [] {
        SubsequenceOfMembers(t, rows[1..]);
        assert t[0] in t;
        assert Render(t[0].indicator) != name;
      } else if Render(rows[0].indicator) != name {
        assert ([rows[0]] + t)[1..] == t;
      }
    }
  }

  /** A subsequence of a well-formed frame's rows is again well formed. */
  lemma SubsequenceKeepsWf(f: Frame, rows: seq<Row>)
    requires Wf(f) && SubsequenceOf(rows, f.rows)
    ensures Wf(Frame(f.columns, rows))
  {
    SubsequenceOfMembers(rows, f.rows);
    forall i, c | 0 <= i < |rows| && c !in f.columns ensures !HasCell(rows[i], c) {
      assert rows[i] in f.rows;
      var j :| 0 <= j < |f.rows| && f.rows[j] == rows[i];
    }
  }
}
