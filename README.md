# DataPipeline cleaning stage, modelled in Dafny

This project models the cleaning stage of `DataPipeline` in
`src/columbia_skip_doc/datapipeline.py`. That stage prepares a medical
question–answer corpus for a prompt-based language model.

- The constructor stores its configuration. It computes `n_batches` as
  `len(data_fp) // batch_size`. `data_fp` is a path, so this divides the
  length of the path string, not the number of rows.
- `read_and_clean_data` reads the data table and re-raises a read failure.
  It loads the `(label, id)` labels table only when that file exists. For
  each entry of `class_filter` it runs one pass that keeps the rows whose own
  `label` cell equals that entry. Finally it drops every row that has a
  missing value in any column (`dropna`).

A table is a `Frame`: column names plus rows of optional string cells, where
`None` stands for a missing value. `DataPipeline` is a class whose
`dataDf` and `dataClassesDf` fields are reassigned by `ReadAndCleanData`.
Its filter loop is a `for` loop with invariants. The method is proved
against `Cleaning.Clean`, a function of the table read and the filter. The
lemmas about `Clean` give the stage's properties:

- the result is a subsequence of the rows read (same order, no row added),
  and every surviving row keeps all its copies;
- a row survives exactly when it has no missing cell and its label equals
  every filter entry;
- two different filter labels leave an empty table;
- filtering and dropping commute.

Modules: `Common` (Option, Result, the exceptions), `Frames` (tables, mask
selection, subsequences), `Cleaning` (the filter passes, `dropna`, `Clean`),
`Pipeline` (the class, Python's `//`, the labels-file check).

Some behaviour of the code is easy to misread; the model follows the code:

- `dropna()` (datapipeline.py:50) drops a row with a missing value in any
  column, not only in the content column.
- The filter passes intersect. The docstring at datapipeline.py:23 calls
  `class_filter` the "list containing which examples' labels to keep". But
  each pass at lines 47-48 filters the result of the previous one. A row
  survives only when its label equals every entry, so two different entries
  keep nothing.
- The labels table loaded at line 43 is never read again. The filter uses
  the data table's own `label` column.
- `n_batches` (line 31) divides the length of the path string, not a row
  count.
- With the default `data_classes_fp=None` (line 14), the existence check at
  line 42 raises TypeError. `ReadAndCleanDataAsWritten` models that
  behaviour, and `ReadAndCleanData` models the corrected one (see Findings).

## Model

| member | source | states |
|---|---|---|
| Frames.ColumnIndex | src/columbia_skip_doc/datapipeline.py:48 | `df['label']` finds the column: None exactly when the table has no `label` column (KeyError); otherwise the first position holding that name |
| Frames.Filter | src/columbia_skip_doc/datapipeline.py:48 | mask selection `df[mask]`: never more rows than the input; a row is kept iff it is in the input and passes the mask |
| Frames.FilterEmbeds | src/columbia_skip_doc/datapipeline.py:48-50 | the selected rows occur in the input at strictly increasing positions (order kept, nothing added) |
| Frames.FilterCount | src/columbia_skip_doc/datapipeline.py:48-50 | duplicates are kept: a passing row occurs in the selection exactly as often as in the input, any other row not at all |
| Frames.FilterIsSubsequence | src/columbia_skip_doc/datapipeline.py:48-50 | a mask selection is a subsequence of the table's rows |
| Frames.FilterFuse | src/columbia_skip_doc/datapipeline.py:47-50 | selecting by one mask and then another equals selecting once by both |
| Frames.FilterCommutes | src/columbia_skip_doc/datapipeline.py:46-50 | two row-wise selections give the same table in either order |
| Cleaning.SelectEach | src/columbia_skip_doc/datapipeline.py:47-48 | the passes of the loop never add rows |
| Cleaning.SelectEachIsFilter | src/columbia_skip_doc/datapipeline.py:46-48 | the passes together keep exactly the rows whose label equals every filter entry, in order |
| Cleaning.Clean | src/columbia_skip_doc/datapipeline.py:46-50 | raises KeyError('label') iff the filter is non-empty and the table has no `label` column; otherwise the columns are kept and the row count is at most the count read |
| Cleaning.CleanMembership | src/columbia_skip_doc/datapipeline.py:46-50 | a row is in the cleaned table iff it was read, has no missing cell and its label equals every filter entry (both directions) |
| Cleaning.CleanCount | src/columbia_skip_doc/datapipeline.py:46-50 | a surviving row occurs in the cleaned table exactly as often as in the table read (duplicates kept); any other row occurs zero times |
| Cleaning.CleanIsSubsequence | src/columbia_skip_doc/datapipeline.py:46-50 | the cleaned rows are a subsequence of the rows read, in their relative order |
| Cleaning.CleanHasNoMissingValue | src/columbia_skip_doc/datapipeline.py:50 | every cleaned row has a value in every column of the table, and the table stays rectangular |
| Cleaning.CleanWithoutFilter | src/columbia_skip_doc/datapipeline.py:46-50 | with `class_filter` None or empty, no KeyError is possible and the result is the rows with no missing value, in order |
| Cleaning.CleanNoneIsEmptyFilter | src/columbia_skip_doc/datapipeline.py:46-47 | `class_filter=None` and `class_filter=[]` clean every table identically and never raise: neither runs a pass |
| Cleaning.CleanSingleLabel | src/columbia_skip_doc/datapipeline.py:46-50 | with filter `[l]` the result is exactly the rows labelled `l` with no missing value, in order |
| Cleaning.CleanConflictingLabels | src/columbia_skip_doc/datapipeline.py:46-48 | a filter holding two different labels leaves an empty table |
| Cleaning.DropCommutesWithSelect | src/columbia_skip_doc/datapipeline.py:46-50 | dropping incomplete rows after the label passes equals dropping them before |
| Cleaning.CleanOrderIrrelevant | src/columbia_skip_doc/datapipeline.py:46-50 | the cleaned table equals the one obtained by `dropna` first and the label passes second |
| Pipeline.FloorDiv | src/columbia_skip_doc/datapipeline.py:31 | Python's `//`: the quotient rounded toward negative infinity (`b*q <= a < b*(q+1)` for a positive divisor, `b*(q+1) < a <= b*q` for a negative one), and non-negative for a non-negative dividend and positive divisor |
| Pipeline.BatchCount | src/columbia_skip_doc/datapipeline.py:31 | a zero batch size raises ZeroDivisionError; for a positive one, `n * batch_size <= len(data_fp) < (n + 1) * batch_size` and `n >= 0` |
| Pipeline.NoLabelsPathRaisesAsWritten | src/columbia_skip_doc/datapipeline.py:42 | with the default labels path None, the check as written raises for every state of the disk, while the corrected one reports the file absent |
| Pipeline.LabelsFilePresentAgrees | src/columbia_skip_doc/datapipeline.py:42 | wherever the check as written does not raise, the corrected check gives the same answer |
| Pipeline.DataPipeline.constructor | src/columbia_skip_doc/datapipeline.py:14-32 | stores every argument unchanged, with the same defaults; `data_df` and `data_classes_df` start as None; `n_batches` is `len(data_fp) // batch_size` |
| Pipeline.DataPipeline.ReadAndCleanData | src/columbia_skip_doc/datapipeline.py:34-52 | a read failure is re-raised with `data_df` unchanged. A failing labels read is raised after `data_df` holds the raw table. The labels table is stored only when its file is present. A KeyError leaves the raw table. Otherwise nothing is raised and `data_df` is `Clean` of the table read, whatever the labels file. A labels path of None means no labels file |
| Pipeline.DataPipeline.ReadAndCleanDataAsWritten | src/columbia_skip_doc/datapipeline.py:34-52 | the code as written: a read failure is re-raised with `data_df` unchanged. With `data_classes_fp` None, a successful read ends in TypeError, with `data_df` holding the raw table and `data_classes_df` unchanged. With a path, it behaves like ReadAndCleanData |
| Pipeline.DataPipeline.FilterAndDropNa | src/columbia_skip_doc/datapipeline.py:46-50 | the filter loop and `dropna` on the table in `data_df`: afterwards `data_df` is `Clean` of it, or a KeyError leaves it as read |

## Left out

- Reading files: `pd.read_csv` and `os.path.exists` are I/O. A failed read is `OSError` (the file cannot be opened or read) or `ParseError` (pandas' parser, empty-data and decoding errors); both propagate the same way. The method takes what the reads returned or raised (`dataRead`, `labelsRead`) and whether the labels file exists (`labelsOnDisk`) as parameters.
- CSV parsing details are not modelled. `WellFormed` states what the reader guarantees: unique column names and one cell per column in every row.
- Logging (`_logger`) is left out: it has no effect on the tables.
- pandas type coercion is not modelled. A numeric `label` column compared with a string filter entry never matches in pandas. Here labels are strings, and NaN is only "the cell is missing".
- Tables are values. The aliasing of pandas DataFrame objects between `data_df` and earlier results is not modelled.
- `class_filter` is a sequence of strings. Other Python iterables, such as a bare string iterated character by character, are not modelled.
- Pipeline.DataPipeline.constructor: requires `batch_size != 0`, because a Dafny constructor cannot raise. `Pipeline.BatchCount` models the ZeroDivisionError the source raises there.
- Pipeline.DataPipeline.ReadAndCleanData: uses the corrected labels-file check (`LabelsFilePresent`). The TypeError the code as written raises for a labels path of None is modelled by `Pipeline.DataPipeline.ReadAndCleanDataAsWritten` (see Findings).
- `shuffle` and `n_batches` are stored but nothing in this file reads them. There is no dataset splitting, prompt template, tokenization or batch assembly in this code, so there is nothing to model for them.
- `src/columbia_skip_doc/backend.py` is not part of this model. `OpenPromptPipeline.load_model` is a single call into an external model loader, and its `__main__` block only wires a script.
- `src/columbia_skip_doc/streamlit_app.py` is not part of this model. It is argument parsing and a chat UI with no algorithmic content.

## Findings

| source | as written | input that shows it | evidently intended | confidence | as-written member | corrected member |
|---|---|---|---|---|---|---|
| src/columbia_skip_doc/datapipeline.py:42 | `os.path.exists(self.data_classes_fp)` with no guard for None, though the constructor's default for `data_classes_fp` is None. `os.path.exists` catches only OSError and ValueError, so None raises TypeError | `DataPipeline("data.csv", 32)` followed by `read_and_clean_data()` on a readable file raises TypeError after `data_df` is set (second ensures of `ReadAndCleanDataAsWritten`; `NoLabelsPathRaisesAsWritten` for the check alone) | an absent labels path means "no labels file": skip loading and go on cleaning | high on POSIX Python 3; not executed | Pipeline.DataPipeline.ReadAndCleanDataAsWritten | Pipeline.DataPipeline.ReadAndCleanData |
