/** The cleaning of `DataPipeline.read_and_clean_data` as functions on
    tables: one label-filter pass per entry of `class_filter`, then `dropna`,
    and what the result is in terms of the table that was read. */
module Cleaning {
  import opened Common
  import opened Frames

  /** The labels the filter loop iterates over: none when `class_filter`
      is None. */
  function FilterLabels(classFilter: Option<seq<string>>): seq<string> {
    match classFilter
    case None => []
    case Some(ls) => ls
  }

  /** The rows left after one pass `df[df['label'] == l]` per label `l`,
      in the loop's order, the label cell being in column `col`. */
  function SelectEach(rows: seq<Row>, col: nat, labels: seq<string>): (r: seq<Row>)
    ensures |r| <= |rows|
    decreases |labels|
  {
    if labels == [] then rows
    else Filter(SelectEach(rows, col, labels[..|labels| - 1]), LabelEquals(col, labels[|labels| - 1]))
  }

  /** The passes together keep exactly the rows whose label equals every
      label of the filter, in their original order. */
  lemma {:induction false} SelectEachIsFilter(rows: seq<Row>, col: nat, labels: seq<string>)
    ensures SelectEach(rows, col, labels) == Filter(rows, LabelEqualsAll(col, labels))
    decreases |labels|
  {
    if labels == [] {
      FilterKeepsAll(rows, LabelEqualsAll(col, labels));
    } else {
      var init, last := labels[..|labels| - 1], labels[|labels| - 1];
      SelectEachIsFilter(rows, col, init);
      FilterFuse(rows, LabelEqualsAll(col, init), LabelEquals(col, last));
      forall row | row in rows
        ensures Holds(Both(LabelEqualsAll(col, init), LabelEquals(col, last)), row)
            <==> Holds(LabelEqualsAll(col, labels), row)
      {
        LabelEqualsSnoc(row, col, labels);
      }
      FilterAgree(rows, Both(LabelEqualsAll(col, init), LabelEquals(col, last)), LabelEqualsAll(col, labels));
    }
  }

  /** A row equals every label of a non-empty list exactly when it equals
      every label but the last, and the last. */
  lemma LabelEqualsSnoc(row: Row, col: nat, labels: seq<string>)
    requires labels != []
    ensures Holds(LabelEqualsAll(col, labels), row)
        <==> Holds(LabelEqualsAll(col, labels[..|labels| - 1]), row) && Holds(LabelEquals(col, labels[|labels| - 1]), row)
  {
    var init := labels[..|labels| - 1];
    assert forall i :: 0 <= i < |init| ==> init[i] == labels[i];
  }

  /** `read_and_clean_data` after the read: the filter passes, then `dropna`.
      A non-empty filter on a table without a `label` column raises
      KeyError at the first pass. */
  function Clean(raw: Frame, classFilter: Option<seq<string>>): (r: Result<Frame, Error>)
    ensures r.Failure? <==> FilterLabels(classFilter) != [] && "label" !in raw.columns
    ensures r.Failure? ==> r.error == KeyError("label")
    ensures r.Success? ==> r.value.columns == raw.columns && |r.value.rows| <= |raw.rows|
  {
    var labels := FilterLabels(classFilter);
    if labels == [] then Success(Frame(raw.columns, Filter(raw.rows, NotMissing)))
    else
      match ColumnIndex(raw.columns, "label")
      case None => Failure(KeyError("label"))
      case Some(col) => Success(Frame(raw.columns, Filter(SelectEach(raw.rows, col, labels), NotMissing)))
  }

  /** Reference definition: a row of a table with these columns survives
      cleaning when no cell is missing and its `label` cell equals every
      label of the filter. */
  predicate Survives(columns: seq<string>, labels: seq<string>, row: Row) {
    NoneMissing(row) &&
    forall i :: 0 <= i < |labels| ==>
      "label" in columns && CellAt(row, ColumnIndex(columns, "label").value) == Some(labels[i])
  }

  /** A row is in the cleaned table exactly when it was read and survives. */
  lemma CleanMembership(raw: Frame, classFilter: Option<seq<string>>, row: Row)
    requires Clean(raw, classFilter).Success?
    ensures row in Clean(raw, classFilter).value.rows
        <==> row in raw.rows && Survives(raw.columns, FilterLabels(classFilter), row)
  {
    var labels := FilterLabels(classFilter);
    var kept := Clean(raw, classFilter).value.rows;
    if labels == [] {
      assert kept == Filter(raw.rows, NotMissing);
      assert Survives(raw.columns, labels, row) <==> NoneMissing(row);
    } else {
      var col := ColumnIndex(raw.columns, "label").value;
      var selected := SelectEach(raw.rows, col, labels);
      assert kept == Filter(selected, NotMissing);
      SelectEachIsFilter(raw.rows, col, labels);
      assert row in selected <==> row in raw.rows && Holds(LabelEqualsAll(col, labels), row);
      assert Survives(raw.columns, labels, row) <==> NoneMissing(row) && Holds(LabelEqualsAll(col, labels), row);
    }
  }

  /** Duplicates are kept: a surviving row appears in the cleaned table as
      many times as in the table read; any other row does not appear. */
  lemma CleanCount(raw: Frame, classFilter: Option<seq<string>>, row: Row)
    requires Clean(raw, classFilter).Success?
    ensures multiset(Clean(raw, classFilter).value.rows)[row]
         == if Survives(raw.columns, FilterLabels(classFilter), row) then multiset(raw.rows)[row] else 0
  {
    var labels := FilterLabels(classFilter);
    if labels == [] {
      FilterCount(raw.rows, NotMissing);
      assert Survives(raw.columns, labels, row) <==> NoneMissing(row);
    } else {
      var col := ColumnIndex(raw.columns, "label").value;
      var selected := SelectEach(raw.rows, col, labels);
      SelectEachIsFilter(raw.rows, col, labels);
      FilterCount(raw.rows, LabelEqualsAll(col, labels));
      FilterCount(selected, NotMissing);
      assert Survives(raw.columns, labels, row) <==> NoneMissing(row) && Holds(LabelEqualsAll(col, labels), row);
    }
  }

  /** The cleaned rows are a subsequence of the rows read: nothing is
      added, duplicated or reordered. */
  lemma CleanIsSubsequence(raw: Frame, classFilter: Option<seq<string>>)
    requires Clean(raw, classFilter).Success?
    ensures IsSubsequence(Clean(raw, classFilter).value.rows, raw.rows)
  {
    var labels := FilterLabels(classFilter);
    var kept := Clean(raw, classFilter).value.rows;
    if labels == [] {
      FilterIsSubsequence(raw.rows, NotMissing);
    } else {
      var col := ColumnIndex(raw.columns, "label").value;
      var selected := SelectEach(raw.rows, col, labels);
      SelectEachIsFilter(raw.rows, col, labels);
      FilterIsSubsequence(raw.rows, LabelEqualsAll(col, labels));
      FilterIsSubsequence(selected, NotMissing);
      SubsequenceTransitive(kept, selected, raw.rows);
    }
  }

  /** Every cleaned row has a value in every column, not only in the
      content column. */
  lemma CleanHasNoMissingValue(raw: Frame, classFilter: Option<seq<string>>)
    requires WellFormed(raw) && Clean(raw, classFilter).Success?
    ensures WellFormed(Clean(raw, classFilter).value)
    ensures forall row: Row, c :: row in Clean(raw, classFilter).value.rows && 0 <= c < |raw.columns| ==>
      c < |row| && row[c].Some?
  {
    forall row | row in Clean(raw, classFilter).value.rows
      ensures row in raw.rows && NoneMissing(row)
    {
      CleanMembership(raw, classFilter, row);
    }
  }

  /** Without a filter, or with an empty one, no pass runs: the result is
      the rows with no missing value, in order. */
  lemma CleanWithoutFilter(raw: Frame, classFilter: Option<seq<string>>)
    requires FilterLabels(classFilter) == []
    ensures Clean(raw, classFilter) == Success(Frame(raw.columns, Filter(raw.rows, NotMissing)))
  {
  }

  /** `class_filter=None` and `class_filter=[]` clean a table identically:
      neither runs a pass, so neither can raise KeyError. */
  lemma CleanNoneIsEmptyFilter(raw: Frame)
    ensures Clean(raw, None) == Clean(raw, Some([]))
    ensures Clean(raw, None).Success?
  {
  }

  /** With the one-label filter `[l]` the result is the rows labelled `l`
      with no missing value, in order. */
  lemma CleanSingleLabel(raw: Frame, l: string)
    requires "label" in raw.columns
    ensures Clean(raw, Some([l])).Success?
    ensures Clean(raw, Some([l])).value.rows
         == Filter(raw.rows, Both(LabelEquals(ColumnIndex(raw.columns, "label").value, l), NotMissing))
  {
    var col := ColumnIndex(raw.columns, "label").value;
    assert [l][..0] == [];
    assert SelectEach(raw.rows, col, [l]) == Filter(raw.rows, LabelEquals(col, l));
    FilterFuse(raw.rows, LabelEquals(col, l), NotMissing);
  }

  /** Successive passes intersect: two different labels leave no row. */
  lemma CleanConflictingLabels(raw: Frame, labels: seq<string>, i: nat, j: nat)
    requires "label" in raw.columns
    requires i < |labels| && j < |labels| && labels[i] != labels[j]
    ensures Clean(raw, Some(labels)) == Success(Frame(raw.columns, []))
  {
    var kept := Clean(raw, Some(labels)).value.rows;
    if kept != [] {
      CleanMembership(raw, Some(labels), kept[0]);
      assert false;
    }
  }

  /** Dropping incomplete rows commutes with the label passes. */
  lemma {:induction false} DropCommutesWithSelect(rows: seq<Row>, col: nat, labels: seq<string>)
    ensures Filter(SelectEach(rows, col, labels), NotMissing) == SelectEach(Filter(rows, NotMissing), col, labels)
    decreases |labels|
  {
    if labels != [] {
      var init, last := labels[..|labels| - 1], labels[|labels| - 1];
      DropCommutesWithSelect(rows, col, init);
      FilterCommutes(SelectEach(rows, col, init), LabelEquals(col, last), NotMissing);
    }
  }

  /** Cleaning in the reverse order (drop incomplete rows first, then the
      label passes) gives the same table. */
  lemma CleanOrderIrrelevant(raw: Frame, classFilter: Option<seq<string>>)
    requires Clean(raw, classFilter).Success?
    ensures Clean(raw, classFilter).value.rows
         == SelectEach(Filter(raw.rows, NotMissing),
                       if "label" in raw.columns then ColumnIndex(raw.columns, "label").value else 0,
                       FilterLabels(classFilter))
  {
    if FilterLabels(classFilter) != [] {
      DropCommutesWithSelect(raw.rows, ColumnIndex(raw.columns, "label").value, FilterLabels(classFilter));
    }
  }
}
