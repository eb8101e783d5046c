/**
 * `06_deduplicate_macro_uemoa.py`: read the table, order it by
 * `collected_at` when that column exists, then keep only the last row of
 * every (country, indicator, date_reference) and write the table back.
 *
 * `drop_duplicates` compares the three cells themselves, with missing cells
 * equal to each other; this is not the joined "|" key the upserts compare.
 */
module Deduplicate {
  import opened Wrappers
  import opened Text
  import opened Table
  import opened Store

  /** What `drop_duplicates(subset=key_cols)` compares. */
  function TupleKey(r: Row): (Option<string>, Option<string>, Option<string>) {
    (r.country, r.indicator, r.dateReference)
  }

  function KeysOf(rows: seq<Row>): set<(Option<string>, Option<string>, Option<string>)> {
    set r | r in rows :: TupleKey(r)
  }

  /** No two rows agree on all three key cells. */
  ghost predicate UniqueTuples(rows: seq<Row>) {
    forall i, j :: 0 <= i < j < |rows| ==> TupleKey(rows[i]) != TupleKey(rows[j])
  }

  /** Row i is the last one of its key. */
  ghost predicate IsLastOfKey(rows: seq<Row>, i: int) {
    0 <= i < |rows| && forall j :: i < j < |rows| ==> TupleKey(rows[j]) != TupleKey(rows[i])
  }

  // ---------------------------------------------------------------------------
  // sort_values("collected_at")
  // ---------------------------------------------------------------------------

  /** The sort's order: time stamps as strings, ascending, with missing values last. */
  predicate CollectedLe(x: Row, y: Row) {
    match y.collectedAt
    case None => true
    case Some(b) => x.collectedAt.Some? && LexLe(x.collectedAt.value, b)
  }

  lemma CollectedLeTotal(x: Row, y: Row)
    ensures CollectedLe(x, y) || CollectedLe(y, x)
  {
    if x.collectedAt.Some? && y.collectedAt.Some? {
      LexLeTotal(x.collectedAt.value, y.collectedAt.value);
    }
  }

  lemma CollectedLeTrans(x: Row, y: Row, z: Row)
    requires CollectedLe(x, y) && CollectedLe(y, z)
    ensures CollectedLe(x, z)
  {
    if z.collectedAt.Some? {
      LexLeTrans(x.collectedAt.value, y.collectedAt.value, z.collectedAt.value);
    }
  }

  lemma CollectedLeReflexive(x: Row)
    ensures CollectedLe(x, x)
  {
    if x.collectedAt.Some? {
      LexLeReflexive(x.collectedAt.value);
    }
  }

  ghost predicate SortedByCollected(rows: seq<Row>) {
    forall i, j :: 0 <= i < j < |rows| ==> CollectedLe(rows[i], rows[j])
  }

  function Insert(x: Row, s: seq<Row>): (r: seq<Row>)
    ensures multiset(r) == multiset(s) + multiset{x}
  {
    if s == [] then [x]
    else if CollectedLe(x, s[0]) then [x] + s
    else
      assert s == [s[0]] + s[1..];
      [s[0]] + Insert(x, s[1..])
  }

  /**
   * The sort, as an insertion sort. pandas sorts with an unstable quicksort;
   * the properties below that matter to the script hold for every sorted
   * order (see `RetainedIsLatest`), not just this one.
   */
  function SortByCollected(rows: seq<Row>): (r: seq<Row>)
    ensures multiset(r) == multiset(rows)
    ensures |r| == |rows| && forall x :: x in r <==> x in rows
  {
    if rows == [] then []
    else
      assert rows == [rows[0]] + rows[1..];
      var r := Insert(rows[0], SortByCollected(rows[1..]));
      assert forall x :: x in r <==> x in multiset(r);
      assert forall x :: x in rows <==> x in multiset(rows);
      r
  }

  lemma {:induction false} InsertSorted(x: Row, s: seq<Row>)
    requires SortedByCollected(s)
    ensures SortedByCollected(Insert(x, s))
    decreases |s|
  {
    if s != [] {
      if CollectedLe(x, s[0]) {
        forall j | 0 < j < |s| ensures CollectedLe(x, s[j]) {
          CollectedLeTrans(x, s[0], s[j]);
        }
      } else {
        CollectedLeTotal(x, s[0]);
        InsertSorted(x, s[1..]);
        var t := Insert(x, s[1..]);
        forall z | z in t ensures CollectedLe(s[0], z) {
          assert z in multiset(t);
          if z != x {
            assert z in multiset(s[1..]);
            var j :| 0 <= j < |s[1..]| && s[1..][j] == z;
            assert s[j + 1] == z;
          }
        }
        var r := [s[0]] + t;
        forall i, j | 0 <= i < j < |r| ensures CollectedLe(r[i], r[j]) {
          if i == 0 {
            assert r[j] == t[j - 1] && t[j - 1] in t;
          } else {
            assert r[i] == t[i - 1] && r[j] == t[j - 1];
          }
        }
      }
    }
  }

  /** The sort returns an ordered permutation of its input. */
  lemma {:induction false} SortSorted(rows: seq<Row>)
    ensures SortedByCollected(SortByCollected(rows))
    decreases |rows|
  {
    if rows != [] {
      SortSorted(rows[1..]);
      InsertSorted(rows[0], SortByCollected(rows[1..]));
    }
  }

  /** Rows already in order are left where they are. */
  lemma {:induction false} SortOfSorted(rows: seq<Row>)
    requires SortedByCollected(rows)
    ensures SortByCollected(rows) == rows
    decreases |rows|
  {
    if rows != [] {
      assert SortedByCollected(rows[1..]) by {
        forall i, j | 0 <= i < j < |rows[1..]| ensures CollectedLe(rows[1..][i], rows[1..][j]) {
          assert rows[1..][i] == rows[i + 1] && rows[1..][j] == rows[j + 1];
        }
      }
      SortOfSorted(rows[1..]);
      if |rows| > 1 {
        assert rows[1..][0] == rows[1];
        assert [rows[0]] + rows[1..] == rows;
      }
    }
  }

  // ---------------------------------------------------------------------------
  // drop_duplicates(subset=key_cols, keep="last")
  // ---------------------------------------------------------------------------

  /** Each row is kept when no later row has the same three key cells. */
  function DropDuplicatesKeepLast(rows: seq<Row>): (r: seq<Row>)
    ensures |r| <= |rows|
    ensures forall x :: x in r ==> x in rows
    ensures KeysOf(r) == KeysOf(rows)
  {
    if rows == [] then []
    else
      var t := DropDuplicatesKeepLast(rows[1..]);
      assert forall x :: x in rows <==> x == rows[0] || x in rows[1..];
      assert KeysOf(rows) == {TupleKey(rows[0])} + KeysOf(rows[1..]);
      if TupleKey(rows[0]) in KeysOf(rows[1..]) then t
      else
        var r := [rows[0]] + t;
        assert forall x :: x in r <==> x == rows[0] || x in t;
        r
  }

  /** The first row's key is kept apart from the rest's when it is kept at all. */
  lemma DropStep(rows: seq<Row>)
    requires rows != []
    ensures TupleKey(rows[0]) in KeysOf(rows[1..]) ==>
      DropDuplicatesKeepLast(rows) == DropDuplicatesKeepLast(rows[1..])
    ensures TupleKey(rows[0]) !in KeysOf(rows[1..]) ==>
      DropDuplicatesKeepLast(rows) == [rows[0]] + DropDuplicatesKeepLast(rows[1..])
  {
  }

  lemma ConsUnique(x: Row, t: seq<Row>)
    requires UniqueTuples(t) && TupleKey(x) !in KeysOf(t)
    ensures UniqueTuples([x] + t)
  {
    var r := [x] + t;
    forall i, j | 0 <= i < j < |r| ensures TupleKey(r[i]) != TupleKey(r[j]) {
      if i == 0 {
        assert r[j] == t[j - 1] && r[j] in t;
      } else {
        assert r[i] == t[i - 1] && r[j] == t[j - 1];
      }
    }
  }

  /** No two kept rows share all three key cells. */
  lemma {:induction false} DropLeavesUnique(rows: seq<Row>)
    ensures UniqueTuples(DropDuplicatesKeepLast(rows))
    decreases |rows|
  {
    if rows != [] {
      DropLeavesUnique(rows[1..]);
      DropStep(rows);
      if TupleKey(rows[0]) !in KeysOf(rows[1..]) {
        ConsUnique(rows[0], DropDuplicatesKeepLast(rows[1..]));
      }
    }
  }

  lemma SortedTail(rows: seq<Row>)
    requires rows != [] && SortedByCollected(rows)
    ensures SortedByCollected(rows[1..])
    ensures forall z :: z in rows[1..] ==> CollectedLe(rows[0], z)
  {
    forall i, j | 0 <= i < j < |rows[1..]| ensures CollectedLe(rows[1..][i], rows[1..][j]) {
      assert rows[1..][i] == rows[i + 1] && rows[1..][j] == rows[j + 1];
    }
    forall z | z in rows[1..] ensures CollectedLe(rows[0], z) {
      var k :| 0 <= k < |rows[1..]| && rows[1..][k] == z;
      assert rows[k + 1] == z;
    }
  }

  lemma ConsSorted(x: Row, t: seq<Row>)
    requires SortedByCollected(t) && forall z :: z in t ==> CollectedLe(x, z)
    ensures SortedByCollected([x] + t)
  {
    var r := [x] + t;
    forall i, j | 0 <= i < j < |r| ensures CollectedLe(r[i], r[j]) {
      if i == 0 {
        assert r[j] == t[j - 1] && r[j] in t;
      } else {
        assert r[i] == t[i - 1] && r[j] == t[j - 1];
      }
    }
  }

  /** Dropping rows from an ordered table leaves it ordered. */
  lemma {:induction false} DropKeepsOrder(rows: seq<Row>)
    requires SortedByCollected(rows)
    ensures SortedByCollected(DropDuplicatesKeepLast(rows))
    decreases |rows|
  {
    if rows != [] {
      SortedTail(rows);
      DropKeepsOrder(rows[1..]);
      DropStep(rows);
      if TupleKey(rows[0]) !in KeysOf(rows[1..]) {
        ConsSorted(rows[0], DropDuplicatesKeepLast(rows[1..]));
      }
    }
  }

  /** Being last of its key is unchanged by dropping an earlier row. */
  lemma LastOfKeyInTail(rows: seq<Row>, i: int)
    requires 0 < i < |rows|
    ensures IsLastOfKey(rows, i) <==> IsLastOfKey(rows[1..], i - 1)
  {
    var t := rows[1..];
    assert forall j :: i < j < |rows| ==> rows[j] == t[j - 1];
    assert forall j :: i - 1 < j < |t| ==> t[j] == rows[j + 1];
  }

  /** The first row is the last of its key exactly when no later row shares it. */
  lemma FirstIsLast(rows: seq<Row>)
    requires rows != []
    ensures IsLastOfKey(rows, 0) <==> TupleKey(rows[0]) !in KeysOf(rows[1..])
  {
    var t := rows[1..];
    if TupleKey(rows[0]) in KeysOf(t) {
      var z :| z in t && TupleKey(z) == TupleKey(rows[0]);
      var j :| 0 <= j < |t| && t[j] == z;
      assert rows[j + 1] == z;
    } else {
      forall j | 0 < j < |rows| ensures TupleKey(rows[j]) != TupleKey(rows[0]) {
        assert rows[j] == t[j - 1] && rows[j] in t;
      }
    }
  }

  /** Every row that is last of its key is kept. */
  lemma {:induction false} LastOccurrencesKept(rows: seq<Row>)
    ensures forall i :: IsLastOfKey(rows, i) ==> rows[i] in DropDuplicatesKeepLast(rows)
    decreases |rows|
  {
    if rows != [] {
      var t := rows[1..];
      LastOccurrencesKept(t);
      DropStep(rows);
      FirstIsLast(rows);
      var d := DropDuplicatesKeepLast(rows);
      forall i | IsLastOfKey(rows, i) ensures rows[i] in d {
        if i > 0 {
          LastOfKeyInTail(rows, i);
          assert rows[i] == t[i - 1];
        }
      }
    }
  }

  /** Every kept row is the last of its key. */
  lemma {:induction false} KeptAreLastOccurrences(rows: seq<Row>)
    ensures forall x :: x in DropDuplicatesKeepLast(rows) ==> exists i :: IsLastOfKey(rows, i) && rows[i] == x
    decreases |rows|
  {
    if rows != [] {
      var t := rows[1..];
      KeptAreLastOccurrences(t);
      DropStep(rows);
      FirstIsLast(rows);
      var d := DropDuplicatesKeepLast(rows);
      forall x | x in d ensures exists i :: IsLastOfKey(rows, i) && rows[i] == x {
        if x in DropDuplicatesKeepLast(t) {
          var i :| IsLastOfKey(t, i) && t[i] == x;
          LastOfKeyInTail(rows, i + 1);
          assert IsLastOfKey(rows, i + 1) && rows[i + 1] == x;
        } else {
          assert x == rows[0];
          assert IsLastOfKey(rows, 0);
        }
      }
    }
  }

  /** `keep="last"`: exactly the last row of each key survives. */
  lemma KeepsLastOccurrences(rows: seq<Row>)
    ensures forall i :: IsLastOfKey(rows, i) ==> rows[i] in DropDuplicatesKeepLast(rows)
    ensures forall x :: x in DropDuplicatesKeepLast(rows) ==> exists i :: IsLastOfKey(rows, i) && rows[i] == x
  {
    LastOccurrencesKept(rows);
    KeptAreLastOccurrences(rows);
  }

  /**
   * In any order sorted by `collected_at`, the row kept for a key has the
   * greatest `collected_at` of its key (missing stamps counting as the
   * greatest). Which of several rows with the same stamp survives depends
   * on the sort, and pandas' sort is not stable.
   */
  lemma RetainedIsLatest(rows: seq<Row>)
    requires SortedByCollected(rows)
    ensures forall x, y :: x in DropDuplicatesKeepLast(rows) && y in rows && TupleKey(y) == TupleKey(x) ==>
      CollectedLe(y, x)
  {
    KeepsLastOccurrences(rows);
    forall x, y | x in DropDuplicatesKeepLast(rows) && y in rows && TupleKey(y) == TupleKey(x)
      ensures CollectedLe(y, x)
    {
      var i :| IsLastOfKey(rows, i) && rows[i] == x;
      var j :| 0 <= j < |rows| && rows[j] == y;
      if j == i {
        CollectedLeReflexive(x);
      } else {
        assert j < i;
      }
    }
  }

  /** Rows without duplicate keys pass unchanged. */
  lemma {:induction false} DropDuplicatesOfUnique(rows: seq<Row>)
    requires UniqueTuples(rows)
    ensures DropDuplicatesKeepLast(rows) == rows
    decreases |rows|
  {
    if rows != [] {
      var t := rows[1..];
      assert UniqueTuples(t) by {
        forall i, j | 0 <= i < j < |t| ensures TupleKey(t[i]) != TupleKey(t[j]) {
          assert t[i] == rows[i + 1] && t[j] == rows[j + 1];
        }
      }
      DropDuplicatesOfUnique(t);
      assert TupleKey(rows[0]) !in KeysOf(t) by {
        forall z | z in t ensures TupleKey(z) != TupleKey(rows[0]) {
          var j :| 0 <= j < |t| && t[j] == z;
          assert rows[j + 1] == z;
        }
      }
      assert [rows[0]] + t == rows;
    }
  }

  /**
   * Two rows whose joined "|" keys coincide are not duplicates here: the
   * deduplication keeps both, where an upsert of the second would have
   * dropped the first.
   */
  lemma JoinedKeyCollision(d: string)
    ensures var x := Row(Some("a|b"), Some("c"), None, None, Some(d), None, None, None, None);
            var y := Row(Some("a"), Some("b|c"), None, None, Some(d), None, None, None, None);
            && Key(x) == Key(y)
            && DropDuplicatesKeepLast([x, y]) == [x, y]
            && Merge([x], y) == [y]
  {
    var x := Row(Some("a|b"), Some("c"), None, None, Some(d), None, None, None, None);
    var y := Row(Some("a"), Some("b|c"), None, None, Some(d), None, None, None, None);
    KeyCollision(d);
    assert TupleKey(x) != TupleKey(y);
    assert [x, y][1..] == [y];
    assert KeysOf([y]) == {TupleKey(y)};
    assert Without([x], Key(y)) == [];
  }

  // ---------------------------------------------------------------------------
  // The script
  // ---------------------------------------------------------------------------

  /** The rows the script orders before deduplicating. */
  function Ordered(df: Frame): seq<Row> {
    if "collected_at" in df.columns then SortByCollected(df.rows) else df.rows
  }

  /**
   * The table the script writes back, or the KeyError `drop_duplicates`
   * raises when a key column is missing.
   */
  function Dedup(df: Frame): (r: Result<Frame, Exception>)
    ensures r.Err? <==> !HasColumns(df, KeyColumns)
    ensures r.Err? ==> r.error.KeyError?
    ensures r.Ok? ==> r.value.columns == df.columns
    ensures r.Ok? ==> UniqueTuples(r.value.rows) && KeysOf(r.value.rows) == KeysOf(df.rows)
    ensures r.Ok? ==> |r.value.rows| <= |df.rows| && forall x :: x in r.value.rows ==> x in df.rows
    ensures r.Ok? && "collected_at" !in df.columns ==> r.value.rows == DropDuplicatesKeepLast(df.rows)
  {
    if !HasColumns(df, KeyColumns) then
      Err(KeyError(if "country" !in df.columns then "country"
                   else if "indicator" !in df.columns then "indicator" else "date_reference"))
    else
      var p := Ordered(df);
      assert forall x :: x in p <==> x in multiset(p);
      assert forall x :: x in p <==> x in df.rows;
      assert KeysOf(p) == KeysOf(df.rows);
      DropLeavesUnique(p);
      Ok(Frame(df.columns, DropDuplicatesKeepLast(p)))
  }

  /** With a `collected_at` column, each key keeps a row with its latest time stamp. */
  lemma DedupKeepsLatest(df: Frame)
    requires Dedup(df).Ok? && "collected_at" in df.columns
    ensures forall x, y :: x in Dedup(df).value.rows && y in df.rows && TupleKey(y) == TupleKey(x) ==>
      CollectedLe(y, x)
  {
    var p := SortByCollected(df.rows);
    SortSorted(df.rows);
    RetainedIsLatest(p);
    assert forall y :: y in df.rows ==> y in multiset(p);
  }

  /** A second run finds nothing left to remove and writes the same table. */
  lemma DedupIdempotent(df: Frame)
    requires Dedup(df).Ok?
    ensures Dedup(Dedup(df).value) == Dedup(df)
  {
    var out := Dedup(df).value;
    if "collected_at" in df.columns {
      SortSorted(df.rows);
      DropKeepsOrder(SortByCollected(df.rows));
      SortOfSorted(out.rows);
    }
    DropDuplicatesOfUnique(out.rows);
  }

  lemma MembersKeepWf(f: Frame, rows: seq<Row>)
    requires Wf(f) && forall x :: x in rows ==> x in f.rows
    ensures Wf(Frame(f.columns, rows))
  {
    forall i, c | 0 <= i < |rows| && c !in f.columns ensures !HasCell(rows[i], c) {
      assert rows[i] in f.rows;
      var j :| 0 <= j < |f.rows| && f.rows[j] == rows[i];
    }
  }

  /**
   * The script: FileNotFoundError without a file; otherwise order, count the
   * rows, deduplicate, count again and write the table back.
   */
  method Run(store: MacroStore) returns (err: Option<Exception>, before: nat, after: nat)
    requires store.Valid()
    modifies store
    ensures store.Valid()
    ensures old(store.file).None? ==> err == Some(FileNotFoundError) && store.file == old(store.file)
    ensures old(store.file).Some? ==>
      var r := Dedup(old(store.file).value);
      && (r.Err? ==> err == Some(r.error) && store.file == old(store.file))
      && (r.Ok? ==> && err.None? && store.file == Some(r.value)
                    && before == |old(store.file).value.rows| && after == |r.value.rows| && after <= before)
  {
    before, after := 0, 0;
    var read := store.Read();
    if read.Err? {
      err := Some(read.error);
      return;
    }
    var df := read.value;
    if !HasColumns(df, KeyColumns) {
      err := Some(Dedup(df).error);
      return;
    }
    var rows := df.rows;
    if "collected_at" in df.columns {
      rows := SortByCollected(rows);
    }
    before := |rows|;
    var kept := DropDuplicatesKeepLast(rows);
    after := |kept|;
    MembersKeepWf(df, kept);
    store.Save(Frame(df.columns, kept));
    err := None;
  }
}
