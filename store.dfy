/**
 * The CSV file `data/processed/macro_uemoa.csv` as mutable state shared by
 * the scripts: absent, or holding a table. Reading, writing and the
 * file-backed upsert are the only ways the scripts touch it.
 */
module Store {
  import opened Wrappers
  import opened Table

  /** What one unit of a script's work amounts to: nothing, one row to upsert, or an exception that ends the script. */
  datatype Step = Skip | Write(row: Row) | Abort(error: Exception)

  /**
   * A script that works through `items`, each one skipped, upserted into the
   * file at once, or ending the script: the file afterwards and the exception
   * that ended the script, if any. Rows written before the exception stay.
   */
  function RunSteps<T>(file: Option<Frame>, items: seq<T>, step: T -> Step): (r: (Option<Frame>, Option<Exception>))
    ensures file.Some? ==> r.0.Some?
    ensures (forall i :: 0 <= i < |items| ==> step(items[i]).Skip?) ==> r == (file, None)
    decreases |items|
  {
    if items == [] then (file, None)
    else
      match step(items[0])
      case Skip =>
        assert forall i :: 0 <= i < |items[1..]| ==> items[1..][i] == items[i + 1];
        RunSteps(file, items[1..], step)
      case Abort(e) => (file, Some(e))
      case Write(row) =>
        match UpsertFile(file, row)
        case Err(e) => (file, Some(e))
        case Ok(f) => RunSteps(Some(f), items[1..], step)
  }

  /**
   * The file and the escaping exception after a script that is one step:
   * an exception leaves the file as it was; a row is upserted.
   */
  function StepEffect(file: Option<Frame>, s: Step): (r: (Option<Frame>, Option<Exception>))
    ensures s.Skip? ==> r == (file, None)
    ensures s.Abort? ==> r == (file, Some(s.error))
    ensures s.Write? ==> (r.1.None? <==> UpsertFile(file, s.row).Ok?)
    ensures r.1.Some? ==> r.0 == file
    ensures s.Write? && r.1.None? ==> r.0.Some? && Select(r.0.value.rows, Key(s.row)) == [s.row]
  {
    match s
    case Skip => (file, None)
    case Abort(e) => (file, Some(e))
    case Write(row) =>
      match UpsertFile(file, row)
      case Err(e) => (file, Some(e))
      case Ok(f) => (Some(f), None)
  }

  /** The first item's effect, then the rest unless it raised. */
  lemma RunStepsHead<T>(file: Option<Frame>, items: seq<T>, step: T -> Step)
    requires items != []
    ensures var (f, e) := StepEffect(file, step(items[0]));
      RunSteps(file, items, step) == if e.Some? then (f, e) else RunSteps(f, items[1..], step)
  {
  }

  /** A two-item script: an exception in the first item ends it; a skipped first item leaves the second alone. */
  lemma ScriptShape<T>(file: Option<Frame>, items: seq<T>, step: T -> Step)
    requires |items| == 2
    ensures step(items[0]).Abort? ==> RunSteps(file, items, step) == (file, Some(step(items[0]).error))
    ensures step(items[0]).Skip? ==> RunSteps(file, items, step) == StepEffect(file, step(items[1]))
  {
    assert items[1..][1..] == [];
  }

  /** Every table the steps write is well formed when the file was. */
  lemma {:induction false} RunStepsWf<T>(file: Option<Frame>, items: seq<T>, step: T -> Step)
    requires file.Some? ==> Wf(file.value)
    ensures RunSteps(file, items, step).0.Some? ==> Wf(RunSteps(file, items, step).0.value)
    decreases |items|
  {
    if items != [] {
      var s := step(items[0]);
      if s.Skip? {
        RunStepsWf(file, items[1..], step);
      } else if s.Write? && UpsertFile(file, s.row).Ok? {
        RunStepsWf(Some(UpsertFile(file, s.row).value), items[1..], step);
      }
    }
  }

  /** A key no completed step writes keeps, in an existing file, exactly the rows it had. */
  lemma {:induction false} RunStepsKeeps<T>(file: Option<Frame>, items: seq<T>, step: T -> Step, k: string)
    requires file.Some?
    requires RunSteps(file, items, step).1.None?
    requires forall i :: 0 <= i < |items| && step(items[i]).Write? ==> Key(step(items[i]).row) != k
    ensures Select(RunSteps(file, items, step).0.value.rows, k) == Select(file.value.rows, k)
    decreases |items|
  {
    if items != [] {
      assert forall i :: 0 <= i < |items[1..]| ==> items[1..][i] == items[i + 1];
      var s := step(items[0]);
      if s.Skip? {
        RunStepsKeeps(file, items[1..], step, k);
      } else if s.Write? {
        RunStepsKeeps(Some(UpsertFile(file, s.row).value), items[1..], step, k);
      }
    }
  }

  /** Rows that two different items write never share a key. */
  ghost predicate WritesApart<T>(items: seq<T>, step: T -> Step) {
    forall i, j :: 0 <= i < j < |items| && step(items[i]).Write? && step(items[j]).Write? ==>
      Key(step(items[i]).row) != Key(step(items[j]).row)
  }

  /** With two items, the predicate is about the one pair. */
  lemma WritesApartOfTwo<T>(items: seq<T>, step: T -> Step)
    requires |items| == 2
    requires step(items[0]).Write? && step(items[1]).Write? ==> Key(step(items[0]).row) != Key(step(items[1]).row)
    ensures WritesApart(items, step)
  {
  }

  /**
   * When the script runs to its end and its rows have pairwise different
   * keys, the file holds every written row exactly once.
   */
  lemma {:induction false} RunStepsWritesAll<T>(file: Option<Frame>, items: seq<T>, step: T -> Step)
    requires WritesApart(items, step)
    requires RunSteps(file, items, step).1.None?
    ensures forall i :: 0 <= i < |items| && step(items[i]).Write? ==>
      && RunSteps(file, items, step).0.Some?
      && Select(RunSteps(file, items, step).0.value.rows, Key(step(items[i]).row)) == [step(items[i]).row]
    decreases |items|
  {
    if items != [] {
      var rest := items[1..];
      assert forall i :: 0 <= i < |rest| ==> rest[i] == items[i + 1];
      var s := step(items[0]);
      if s.Skip? {
        RunStepsWritesAll(file, rest, step);
        forall i | 0 <= i < |items| && step(items[i]).Write?
          ensures && RunSteps(file, items, step).0.Some?
                  && Select(RunSteps(file, items, step).0.value.rows, Key(step(items[i]).row)) == [step(items[i]).row]
        {
          assert items[i] == rest[i - 1];
        }
      } else if s.Write? {
        var f := UpsertFile(file, s.row).value;
        RunStepsWritesAll(Some(f), rest, step);
        RunStepsKeeps(Some(f), rest, step, Key(s.row));
        forall i | 0 <= i < |items| && step(items[i]).Write?
          ensures && RunSteps(file, items, step).0.Some?
                  && Select(RunSteps(file, items, step).0.value.rows, Key(step(items[i]).row)) == [step(items[i]).row]
        {
          if i > 0 { assert items[i] == rest[i - 1]; }
        }
      }
    }
  }

  class MacroStore {
    /** The file's content; `None` while the file does not exist. */
    var file: Option<Frame>

    /** Every table the scripts write is well formed. */
    ghost predicate Valid()
      reads this
    {
      file.Some? ==> Wf(file.value)
    }

    constructor (init: Option<Frame>)
      requires init.Some? ==> Wf(init.value)
      ensures file == init && Valid()
    {
      file := init;
    }

    /** `load_df()` of src/12, src/10c and src/18: the table, or an empty frame when the file is absent. */
    function Load(): (df: Frame)
      reads this
      ensures file.None? ==> IsEmpty(df) && df.columns == []
      ensures file.Some? ==> df == file.value
      ensures Valid() ==> Wf(df)
    {
      match file
      case None => Frame([], [])
      case Some(f) => f
    }

    /** `pd.read_csv(path)`: FileNotFoundError when the file is absent. */
    function Read(): (r: Result<Frame, Exception>)
      reads this
      ensures r.Err? <==> file.None?
      ensures r.Err? ==> r.error == FileNotFoundError
      ensures r.Ok? ==> Some(r.value) == file
    {
      match file
      case None => Err(FileNotFoundError)
      case Some(f) => Ok(f)
    }

    /** `df.to_csv(path)`: the file now holds `df`, whatever it held before. */
    method Save(df: Frame)
      requires Wf(df)
      modifies this
      ensures file == Some(df) && Valid()
    {
      file := Some(df);
    }

    /**
     * `upsert_macro(row)`: read, merge and rewrite the file in one step. When
     * the merge raises (a file without a key column) the file is untouched.
     */
    method UpsertMacro(row: Row) returns (err: Option<Exception>)
      requires Valid()
      modifies this
      ensures Valid()
      ensures UpsertFile(old(file), row).Ok? ==> err.None? && file == Some(UpsertFile(old(file), row).value)
      ensures UpsertFile(old(file), row).Err? ==> err == Some(UpsertFile(old(file), row).error) && file == old(file)
    {
      var r := UpsertFile(file, row);
      match r
      case Ok(f) =>
        file := Some(f);
        err := None;
      case Err(e) =>
        err := Some(e);
    }
  }
}
