/** `DataPipeline`: its configuration, the batch count computed at
    construction, and the read-and-clean step that replaces `data_df`. */
module Pipeline {
  import opened Common
  import opened Frames
  import opened Cleaning

  /** Python's `//` on integers: the quotient rounded toward negative
      infinity (Dafny's `/` rounds differently for a negative divisor). */
  function FloorDiv(a: int, b: int): (q: int)
    requires b != 0
    ensures b > 0 ==> b * q <= a < b * (q + 1)
    ensures b < 0 ==> b * (q + 1) < a <= b * q
    ensures b > 0 && a >= 0 ==> q >= 0
  {
    if b > 0 then a / b
    else
      var q := (-a) / (-b);
      assert (-b) * q <= -a < (-b) * (q + 1);
      q
  }

  /** `n_batches = len(data_fp) // batch_size`: the length of the path
      string, not the number of rows, split into batches; a zero batch size
      raises ZeroDivisionError. */
  function BatchCount(dataFp: string, batchSize: int): (r: Result<int, Error>)
    ensures r.Failure? <==> batchSize == 0
    ensures r.Failure? ==> r.error == ZeroDivisionError
    ensures batchSize > 0 ==>
      r.Success? && 0 <= r.value && batchSize * r.value <= |dataFp| < batchSize * (r.value + 1)
  {
    if batchSize == 0 then Failure(ZeroDivisionError)
    else
      Success(FloorDiv(|dataFp|, batchSize))
  }

  /** `os.path.exists(data_classes_fp)` as written: a path that is None is
      not a path, and the call raises TypeError; otherwise it reports whether
      a file is there. */
  function ExistsAsWritten(labelsFp: Option<string>, onDisk: bool): Result<bool, Error> {
    match labelsFp
    case None => Failure(TypeError)
    case Some(_) => Success(onDisk)
  }

  /** Whether the labels table is loaded: only when a path is configured
      and a file is there; no path means no labels file. */
  function LabelsFilePresent(labelsFp: Option<string>, onDisk: bool): bool {
    labelsFp.Some? && onDisk
  }

  /** The default `data_classes_fp` (None) makes the existence check raise
      for every state of the disk, although the labels file is optional;
      the corrected check reports it absent and never raises. */
  lemma NoLabelsPathRaisesAsWritten(onDisk: bool)
    ensures ExistsAsWritten(None, onDisk) == Failure(TypeError)
    ensures !LabelsFilePresent(None, onDisk)
  {
  }

  /** Wherever the check as written does not raise, the corrected check
      gives the same answer. */
  lemma LabelsFilePresentAgrees(labelsFp: Option<string>, onDisk: bool)
    requires ExistsAsWritten(labelsFp, onDisk).Success?
    ensures LabelsFilePresent(labelsFp, onDisk) == ExistsAsWritten(labelsFp, onDisk).value
  {
  }

  class DataPipeline {
    var dataFp: string
    var dataDf: Option<Frame>
    var dataClassesFp: Option<string>
    var dataClassesDf: Option<Frame>
    var batchSize: int
    var shuffle: bool
    var nBatches: int
    var classFilter: Option<seq<string>>

    /** Stores the configuration unchanged; no table is loaded yet. A zero
        batch size raises ZeroDivisionError in the source, which BatchCount
        models; here it is excluded. */
    constructor (dataFp: string, batchSize: int, dataClassesFp: Option<string> := None,
                 shuffle: bool := true, classFilter: Option<seq<string>> := None)
      requires batchSize != 0
      ensures this.dataFp == dataFp && this.dataClassesFp == dataClassesFp
      ensures this.batchSize == batchSize && this.shuffle == shuffle && this.classFilter == classFilter
      ensures dataDf.None? && dataClassesDf.None?
      ensures BatchCount(dataFp, batchSize) == Success(nBatches)
    {
      this.dataFp := dataFp;
      dataDf := None;
      this.dataClassesFp := dataClassesFp;
      dataClassesDf := None;
      this.batchSize := batchSize;
      this.shuffle := shuffle;
      nBatches := FloorDiv(|dataFp|, batchSize);
      this.classFilter := classFilter;
    }

    /** Reads the data table (`dataRead` is what the CSV reader returned or
        raised), loads the labels table (`labelsRead`) when its file is
        present (`labelsOnDisk`), applies one label pass per entry of the
        class filter and drops every row with a missing value. Returns the
        exception raised, if any. The labels table is never consulted by the
        cleaning: on success `data_df` depends only on the data read and the
        filter. A labels path of None counts as "no labels file". */
    method ReadAndCleanData(dataRead: Result<Frame, Error>, labelsOnDisk: bool, labelsRead: Result<Frame, Error>)
      returns (raised: Option<Error>)
      modifies this`dataDf, this`dataClassesDf
      ensures dataRead.Failure? ==>
        raised == Some(dataRead.error) && dataDf == old(dataDf) && dataClassesDf == old(dataClassesDf)
      ensures dataRead.Success? && LabelsFilePresent(dataClassesFp, labelsOnDisk) && labelsRead.Failure? ==>
        raised == Some(labelsRead.error) && dataDf == Some(dataRead.value) && dataClassesDf == old(dataClassesDf)
      ensures dataRead.Success? && !(LabelsFilePresent(dataClassesFp, labelsOnDisk) && labelsRead.Failure?) ==>
        dataClassesDf == (if LabelsFilePresent(dataClassesFp, labelsOnDisk) then Some(labelsRead.value) else old(dataClassesDf)) &&
        match Clean(dataRead.value, classFilter)
        case Success(cleaned) => raised.None? && dataDf == Some(cleaned)
        case Failure(e) => raised == Some(e) && dataDf == Some(dataRead.value)
    {
      if dataRead.Failure? {
        return Some(dataRead.error);
      }
      var raw := dataRead.value;
      dataDf := Some(raw);

      if LabelsFilePresent(dataClassesFp, labelsOnDisk) {
        if labelsRead.Failure? {
          return Some(labelsRead.error);
        }
        dataClassesDf := Some(labelsRead.value);
      }

      raised := FilterAndDropNa(raw);
    }

    /** `read_and_clean_data` with the existence check as written: the same
        steps, but a labels path of None raises TypeError once `data_df`
        already holds the table read. */
    method ReadAndCleanDataAsWritten(dataRead: Result<Frame, Error>, labelsOnDisk: bool, labelsRead: Result<Frame, Error>)
      returns (raised: Option<Error>)
      modifies this`dataDf, this`dataClassesDf
      ensures dataRead.Failure? ==>
        raised == Some(dataRead.error) && dataDf == old(dataDf) && dataClassesDf == old(dataClassesDf)
      ensures dataRead.Success? && dataClassesFp.None? ==>
        raised == Some(TypeError) && dataDf == Some(dataRead.value) && dataClassesDf == old(dataClassesDf)
      ensures dataRead.Success? && dataClassesFp.Some? && labelsOnDisk && labelsRead.Failure? ==>
        raised == Some(labelsRead.error) && dataDf == Some(dataRead.value) && dataClassesDf == old(dataClassesDf)
      ensures dataRead.Success? && dataClassesFp.Some? && !(labelsOnDisk && labelsRead.Failure?) ==>
        dataClassesDf == (if labelsOnDisk then Some(labelsRead.value) else old(dataClassesDf)) &&
        match Clean(dataRead.value, classFilter)
        case Success(cleaned) => raised.None? && dataDf == Some(cleaned)
        case Failure(e) => raised == Some(e) && dataDf == Some(dataRead.value)
    {
      if dataRead.Failure? {
        return Some(dataRead.error);
      }
      var raw := dataRead.value;
      dataDf := Some(raw);

      var check := ExistsAsWritten(dataClassesFp, labelsOnDisk);
      if check.Failure? {
        return Some(check.error);
      }
      if check.value {
        if labelsRead.Failure? {
          return Some(labelsRead.error);
        }
        dataClassesDf := Some(labelsRead.value);
      }

      raised := FilterAndDropNa(raw);
    }

    /** The class-filter loop and `dropna` on the table in `data_df`: one
        pass per entry of the filter, then every row with a missing value is
        dropped. A KeyError at the first pass leaves the table as read. */
    method FilterAndDropNa(raw: Frame) returns (raised: Option<Error>)
      requires dataDf == Some(raw)
      modifies this`dataDf
      ensures match Clean(raw, classFilter)
        case Success(cleaned) => raised.None? && dataDf == Some(cleaned)
        case Failure(e) => raised == Some(e) && dataDf == Some(raw)
    {
      if classFilter.Some? {
        var labels := classFilter.value;
        ghost var col := if "label" in raw.columns then ColumnIndex(raw.columns, "label").value else 0;
        for i := 0 to |labels|
          invariant i > 0 ==> "label" in raw.columns
          invariant dataDf == Some(Frame(raw.columns, SelectEach(raw.rows, col, labels[..i])))
        {
          var frame := dataDf.value;
          var labelCol := ColumnIndex(frame.columns, "label");
          if labelCol.None? {
            assert labels[..i] == [];
            return Some(KeyError("label"));
          }
          assert labels[..i + 1][..i] == labels[..i];
          dataDf := Some(Frame(frame.columns, Filter(frame.rows, LabelEquals(labelCol.value, labels[i]))));
        }
        assert labels[..|labels|] == labels;
      }

      var frame := dataDf.value;
      dataDf := Some(Frame(frame.columns, Filter(frame.rows, NotMissing)));
      raised := None;
    }
  }
}
