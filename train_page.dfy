/** The "Train Model" page: two optional files (an images ZIP and a JSON
    file) whose presence names the model, a simulated chunked upload per file,
    and a simulated training run that writes one shell line per epoch. */
module TrainPage {
  import opened Optional
  import opened JsString

  datatype FileKind = ImagesZip | JsonFile

  datatype File = File(name: string, size: nat)

  /** The loss and accuracy of one epoch, already formatted; they are random
      in the page, so they are inputs here. */
  datatype Metrics = Metrics(loss: string, accuracy: string)

  /** 1 MiB */
  const ChunkSize: nat := 1024 * 1024

  const DefaultEpochs: nat := 10

  // ---------------------------------------------------------------------
  // Which model is trained

  /** The model-selection effect: both files train 'Shakti', the ZIP alone
      'Drishti', the JSON alone 'Chakravyuha', and no file no model. */
  function ModelFor(hasZip: bool, hasJson: bool): (r: Option<string>)
    ensures r.Some? <==> hasZip || hasJson
  {
    if hasZip && hasJson then Some("Shakti")
    else if hasZip then Some("Drishti")
    else if hasJson then Some("Chakravyuha")
    else None
  }

  /** Each model name belongs to exactly one combination of files, and some
      model is chosen exactly when some file is present. */
  lemma ModelChoiceIsExact(hasZip: bool, hasJson: bool)
    ensures ModelFor(hasZip, hasJson) == Some("Shakti") <==> hasZip && hasJson
    ensures ModelFor(hasZip, hasJson) == Some("Drishti") <==> hasZip && !hasJson
    ensures ModelFor(hasZip, hasJson) == Some("Chakravyuha") <==> !hasZip && hasJson
    ensures ModelFor(hasZip, hasJson).None? <==> !hasZip && !hasJson
  {
  }

  // ---------------------------------------------------------------------
  // The simulated upload

  function Min(a: int, b: int): int { if a <= b then a else b }

  /** `Math.round((uploaded / total) * 100)`, computed exactly: rounding half
      up is adding one half and taking the floor. */
  function Percent(uploaded: nat, total: nat): (p: int)
    requires 0 < total && uploaded <= total
    ensures 0 <= p <= 100
    ensures uploaded == total ==> p == 100
  {
    DivMonotone(200 * uploaded + total, 201 * total, 2 * total);
    DivExact(201 * total, 2 * total, 100);
    (200 * uploaded + total) / (2 * total)
  }

  /** The number of upload steps: the size divided by the chunk, rounded up. */
  function Steps(size: nat): nat {
    (size + ChunkSize - 1) / ChunkSize
  }

  /** The uploaded size after `k` steps: one chunk per step, capped at the
      file size. */
  function UploadedAfter(k: nat, size: nat): (u: nat)
    ensures u <= size
  {
    Min(k * ChunkSize, size)
  }

  /** The progress values the upload writes, one per step. */
  function UploadSchedule(size: nat): (s: seq<int>)
    ensures |s| == Steps(size)
  {
    seq(Steps(size), k requires 0 <= k < Steps(size) => Percent(UploadedAfter(k + 1, size), size))
  }

  /** The schedule grows one step at a time. */
  lemma ScheduleStep(size: nat, k: nat)
    requires k * ChunkSize < size
    ensures k < Steps(size)
    ensures UploadSchedule(size)[..k + 1] ==
            UploadSchedule(size)[..k] + [Percent(UploadedAfter(k + 1, size), size)]
  {
    StepsCoverFile(size);
  }

  /** `Steps` is the ceiling of size / chunk: that many chunks cover the
      file, one fewer does not. */
  lemma StepsCoverFile(size: nat)
    ensures Steps(size) * ChunkSize >= size
    ensures size > 0 ==> (Steps(size) - 1) * ChunkSize < size
    ensures size == 0 <==> Steps(size) == 0
  {
  }

  lemma MulMonotone(a: int, b: int, d: int)
    requires a <= b && 0 <= d
    ensures a * d <= b * d
  {
    assert b * d - a * d == (b - a) * d;
  }

  lemma DivMonotone(x: int, y: int, d: int)
    requires 0 <= x <= y && 0 < d
    ensures x / d <= y / d
  {
    var qx, rx := x / d, x % d;
    var qy, ry := y / d, y % d;
    assert x == qx * d + rx && 0 <= rx < d;
    assert y == qy * d + ry && 0 <= ry < d;
    if qx > qy {
      MulMonotone(qy + 1, qx, d);
    }
  }

  lemma DivExact(n: int, d: int, q: int)
    requires 0 < d && q * d <= n < q * d + d
    ensures n / d == q
  {
    var qn, rn := n / d, n % d;
    assert n == qn * d + rn && 0 <= rn < d;
    if qn < q {
      MulMonotone(qn + 1, q, d);
    } else if qn > q {
      MulMonotone(q + 1, qn, d);
    }
  }

  /** Progress is never lower than at an earlier step. */
  lemma PercentMonotone(a: nat, b: nat, total: nat)
    requires 0 < total && a <= b <= total
    ensures Percent(a, total) <= Percent(b, total)
  {
    DivMonotone(200 * a + total, 200 * b + total, 2 * total);
  }

  /** The upload writes progress values in 0..100, never decreasing, ending
      at 100; an empty file writes nothing. */
  lemma ScheduleIsMonotoneToFull(size: nat)
    ensures forall k :: 0 <= k < |UploadSchedule(size)| ==> 0 <= UploadSchedule(size)[k] <= 100
    ensures forall i, j :: 0 <= i <= j < |UploadSchedule(size)| ==>
              UploadSchedule(size)[i] <= UploadSchedule(size)[j]
    ensures size == 0 <==> UploadSchedule(size) == []
    ensures size > 0 ==> UploadSchedule(size)[|UploadSchedule(size)| - 1] == 100
  {
    var s := UploadSchedule(size);
    StepsCoverFile(size);
    forall i, j | 0 <= i <= j < |s|
      ensures s[i] <= s[j]
    {
      assert UploadedAfter(i + 1, size) <= UploadedAfter(j + 1, size);
      PercentMonotone(UploadedAfter(i + 1, size), UploadedAfter(j + 1, size), size);
    }
    if size > 0 {
      assert UploadedAfter(Steps(size), size) == size;
    }
  }

  /** Every step but the last adds exactly one chunk; the last reaches the
      file size. */
  lemma UploadGrowsByChunks(size: nat, k: nat)
    requires k < Steps(size)
    ensures k + 1 < Steps(size) ==> UploadedAfter(k + 1, size) == UploadedAfter(k, size) + ChunkSize
    ensures k + 1 == Steps(size) ==> UploadedAfter(k + 1, size) == size
  {
    StepsCoverFile(size);
  }

  // ---------------------------------------------------------------------
  // The shell output of a training run

  function StartLine(model: string): string {
    "Starting " + model + " training..."
  }

  const StopLine: string := "Training stopped by user."

  /** `Epoch ${i}/${epochs} - Loss: ... - Accuracy: ...` */
  function EpochLine(i: nat, total: nat, m: Metrics): string {
    "Epoch " + (NatToString(i) + "/" + (NatToString(total) + " - Loss: " + m.loss + " - Accuracy: " + m.accuracy))
  }

  /** An epoch line names its epoch: lines with different epoch numbers
      differ, whatever their metrics. */
  lemma EpochLineNamesEpoch(a: nat, b: nat, total: nat, ma: Metrics, mb: Metrics)
    requires EpochLine(a, total, ma) == EpochLine(b, total, mb)
    ensures a == b
  {
    var ta := NatToString(total) + " - Loss: " + ma.loss + " - Accuracy: " + ma.accuracy;
    var tb := NatToString(total) + " - Loss: " + mb.loss + " - Accuracy: " + mb.accuracy;
    assert NatToString(a) + ['/'] + ta == EpochLine(a, total, ma)[6..];
    assert NatToString(b) + ['/'] + tb == EpochLine(b, total, mb)[6..];
    DigitsBeforeSeparator(NatToString(a), ta, NatToString(b), tb, '/');
    NatToStringInjective(a, b);
  }

  /** The lines of epochs `lo + 1` to `hi`. */
  function EpochLines(lo: nat, hi: nat, total: nat, ms: seq<Metrics>): (r: seq<string>)
    requires lo <= hi <= |ms|
    ensures |r| == hi - lo
  {
    seq(hi - lo, j requires 0 <= j < hi - lo => EpochLine(lo + j + 1, total, ms[lo + j]))
  }

  /** The whole output of a run of `total` epochs; when Stop is pressed after
      `k` epoch lines, its line falls between line `k` and line `k + 1`. */
  function TrainingLog(model: string, total: nat, ms: seq<Metrics>, stopAfter: Option<nat>): seq<string>
    requires |ms| == total && (stopAfter.Some? ==> stopAfter.value <= total)
  {
    [StartLine(model)] +
    match stopAfter
    case None => EpochLines(0, total, total, ms)
    case Some(k) => EpochLines(0, k, total, ms) + [StopLine] + EpochLines(k, total, total, ms)
  }

  /** One more epoch appends its line. */
  lemma EpochLinesSnoc(lo: nat, hi: nat, total: nat, ms: seq<Metrics>)
    requires lo <= hi < |ms|
    ensures EpochLines(lo, hi + 1, total, ms) == EpochLines(lo, hi, total, ms) + [EpochLine(hi + 1, total, ms[hi])]
  {
  }

  /** Epoch lines split at any point concatenate back to the whole. */
  lemma EpochLinesSplit(lo: nat, mid: nat, hi: nat, total: nat, ms: seq<Metrics>)
    requires lo <= mid <= hi <= |ms|
    ensures EpochLines(lo, mid, total, ms) + EpochLines(mid, hi, total, ms) == EpochLines(lo, hi, total, ms)
  {
  }

  /** The output after `done` epochs of a run that is stopped after
      `stopAfter` epoch lines, if the stop has come yet. */
  function RunSoFar(model: string, total: nat, ms: seq<Metrics>, stopAfter: Option<nat>, done: nat): seq<string>
    requires done <= total == |ms|
  {
    if stopAfter.Some? && stopAfter.value < done then
      [StartLine(model)] + EpochLines(0, stopAfter.value, total, ms) + [StopLine] +
      EpochLines(stopAfter.value, done, total, ms)
    else
      [StartLine(model)] + EpochLines(0, done, total, ms)
  }

  /** One more epoch: the stop line, if Stop is pressed now, then the epoch's
      line. */
  lemma RunSoFarStep(model: string, total: nat, ms: seq<Metrics>, stopAfter: Option<nat>, done: nat)
    requires done < total == |ms|
    ensures RunSoFar(model, total, ms, stopAfter, done + 1) ==
            RunSoFar(model, total, ms, stopAfter, done) + (if stopAfter == Some(done) then [StopLine] else []) +
            [EpochLine(done + 1, total, ms[done])]
  {
    EpochLinesSnoc(0, done, total, ms);
    if stopAfter.Some? && stopAfter.value <= done {
      EpochLinesSnoc(stopAfter.value, done, total, ms);
    }
  }

  /** After the last epoch, a stop pressed at the very end follows; the
      result is the whole log. */
  lemma RunSoFarComplete(model: string, total: nat, ms: seq<Metrics>, stopAfter: Option<nat>)
    requires total == |ms| && (stopAfter.Some? ==> stopAfter.value <= total)
    ensures RunSoFar(model, total, ms, stopAfter, total) + (if stopAfter == Some(total) then [StopLine] else []) ==
            TrainingLog(model, total, ms, stopAfter)
  {
    if stopAfter == Some(total) {
      assert EpochLines(total, total, total, ms) == [];
    }
  }

  /** Stopping does not shorten the run: the stopped log is two lines longer
      than the epochs, and removing the stop line leaves exactly the output
      of a run without Stop. */
  lemma StopDoesNotHaltTraining(model: string, total: nat, ms: seq<Metrics>, k: nat)
    requires |ms| == total && k <= total
    ensures var log := TrainingLog(model, total, ms, Some(k));
            |log| == total + 2 &&
            log[..k + 1] + log[k + 2..] == TrainingLog(model, total, ms, None)
  {
    var log := TrainingLog(model, total, ms, Some(k));
    assert log[..k + 1] == [StartLine(model)] + EpochLines(0, k, total, ms);
    assert log[k + 2..] == EpochLines(k, total, total, ms);
    EpochLinesSplit(0, k, total, total, ms);
  }

  /** A run without Stop writes the start line and then the lines of epochs
      1 to `total`, in order; by `EpochLineNamesEpoch` no two of them are
      equal. */
  lemma EpochsInOrder(model: string, total: nat, ms: seq<Metrics>)
    requires |ms| == total
    ensures |TrainingLog(model, total, ms, None)| == total + 1
    ensures TrainingLog(model, total, ms, None)[0] == StartLine(model)
    ensures forall j :: 0 <= j < total ==>
              TrainingLog(model, total, ms, None)[j + 1] == EpochLine(j + 1, total, ms[j])
  {
    var lines := EpochLines(0, total, total, ms);
    var full := TrainingLog(model, total, ms, None);
    assert full == [StartLine(model)] + lines;
    forall j | 0 <= j < total
      ensures full[j + 1] == EpochLine(j + 1, total, ms[j])
    {
      assert full[j + 1] == lines[j];
    }
  }

  class Page {
    var imagesZip: Option<File>
    var jsonFile: Option<File>
    var epochs: nat
    var isTraining: bool
    var shellOutput: seq<string>
    var trainingModel: Option<string>
    var uploadProgress: map<FileKind, int>

    constructor ()
      ensures imagesZip.None? && jsonFile.None? && trainingModel.None?
      ensures epochs == DefaultEpochs && !isTraining && shellOutput == []
      ensures uploadProgress == map[ImagesZip := 0, JsonFile := 0]
    {
      imagesZip := None;
      jsonFile := None;
      epochs := DefaultEpochs;
      isTraining := false;
      shellOutput := [];
      trainingModel := None;
      uploadProgress := map[ImagesZip := 0, JsonFile := 0];
    }

    /** The epochs slider, which ranges over 1..100. */
    method SetEpochs(n: nat)
      requires 1 <= n <= 100
      modifies this
      ensures epochs == n
      ensures imagesZip == old(imagesZip) && jsonFile == old(jsonFile) && isTraining == old(isTraining)
      ensures shellOutput == old(shellOutput) && trainingModel == old(trainingModel)
      ensures uploadProgress == old(uploadProgress)
    {
      epochs := n;
    }

    /** `simulateFileUpload`: one chunk per step, capped at the file size,
      each step writing the rounded percentage into this file's entry. */
    method SimulateFileUpload(kind: FileKind, size: nat) returns (updates: seq<int>)
      modifies this
      ensures updates == UploadSchedule(size)
      ensures updates == [] ==> uploadProgress == old(uploadProgress)
      ensures updates != [] ==> uploadProgress == old(uploadProgress)[kind := updates[|updates| - 1]]
      ensures imagesZip == old(imagesZip) && jsonFile == old(jsonFile) && epochs == old(epochs)
      ensures isTraining == old(isTraining) && shellOutput == old(shellOutput)
      ensures trainingModel == old(trainingModel)
    {
      StepsCoverFile(size);
      var uploadedSize: nat := 0;
      updates := [];
      ghost var k: nat := 0;
      while uploadedSize < size
        invariant k <= Steps(size)
        invariant uploadedSize == UploadedAfter(k, size)
        invariant updates == UploadSchedule(size)[..k]
        invariant k == 0 ==> uploadProgress == old(uploadProgress)
        invariant k > 0 ==> uploadProgress == old(uploadProgress)[kind := updates[k - 1]]
        invariant imagesZip == old(imagesZip) && jsonFile == old(jsonFile) && epochs == old(epochs)
        invariant isTraining == old(isTraining) && shellOutput == old(shellOutput)
        invariant trainingModel == old(trainingModel)
        decreases size - uploadedSize
      {
        uploadedSize := uploadedSize + ChunkSize;
        if uploadedSize > size {
          uploadedSize := size;
        }
        var progress := (200 * uploadedSize + size) / (2 * size);
        ScheduleStep(size, k);
        uploadProgress := uploadProgress[kind := progress];
        updates := updates + [progress];
        k := k + 1;
      }
      assert updates == UploadSchedule(size);
    }

    /** `handleFileChange`: a chosen file is stored, names the model, and is
      uploaded; no file chosen changes nothing. */
    method ChangeFile(kind: FileKind, file: Option<File>) returns (updates: seq<int>)
      modifies this
      ensures file.None? ==> updates == [] && imagesZip == old(imagesZip) && jsonFile == old(jsonFile) &&
                             trainingModel == old(trainingModel) && uploadProgress == old(uploadProgress)
      ensures file.Some? && kind == ImagesZip ==> imagesZip == file && jsonFile == old(jsonFile)
      ensures file.Some? && kind == JsonFile ==> jsonFile == file && imagesZip == old(imagesZip)
      ensures file.Some? ==> trainingModel == ModelFor(imagesZip.Some?, jsonFile.Some?)
      ensures file.Some? ==> updates == UploadSchedule(file.value.size)
      ensures file.Some? && updates != [] ==>
                uploadProgress == old(uploadProgress)[kind := updates[|updates| - 1]]
      ensures file.Some? && updates == [] ==> uploadProgress == old(uploadProgress)
      ensures epochs == old(epochs) && isTraining == old(isTraining) && shellOutput == old(shellOutput)
    {
      if file.None? {
        return [];
      }
      if kind == ImagesZip {
        imagesZip := file;
      } else {
        jsonFile := file;
      }
      trainingModel := ModelFor(imagesZip.Some?, jsonFile.Some?);
      updates := SimulateFileUpload(kind, file.value.size);
    }

    /** The Stop button is shown while training; Start is shown otherwise and
      is disabled without a model. */
    predicate StopShown()
      reads this
    {
      isTraining
    }

    predicate StartEnabled()
      reads this
    {
      !isTraining && trainingModel.Some?
    }

    /** `handleStopTraining` */
    method StopTraining()
      modifies this
      ensures !isTraining
      ensures shellOutput == old(shellOutput) + [StopLine]
      ensures imagesZip == old(imagesZip) && jsonFile == old(jsonFile) && epochs == old(epochs)
      ensures trainingModel == old(trainingModel) && uploadProgress == old(uploadProgress)
    {
      isTraining := false;
      shellOutput := shellOutput + [StopLine];
    }

    /** `handleStartTraining`, with Stop pressed after `stopAfter` epoch
      lines (or never). The loop never looks at the flag Stop clears, and
      nothing clears it at the end. */
    method StartTraining(ms: seq<Metrics>, stopAfter: Option<nat>) returns (started: bool)
      requires |ms| == epochs
      requires stopAfter.Some? ==> stopAfter.value <= epochs
      modifies this
      ensures imagesZip == old(imagesZip) && jsonFile == old(jsonFile) && epochs == old(epochs)
      ensures trainingModel == old(trainingModel) && uploadProgress == old(uploadProgress)
      ensures started <==> old(trainingModel).Some?
      ensures !started ==> isTraining == old(isTraining) && shellOutput == old(shellOutput)
      ensures started ==> shellOutput == TrainingLog(old(trainingModel).value, epochs, ms, stopAfter)
      ensures started ==> (isTraining <==> stopAfter.None?)
      ensures old(StartEnabled()) ==> started
      ensures started ==> (StopShown() <==> stopAfter.None?)
      ensures started && stopAfter.Some? ==> StartEnabled()
    {
      if trainingModel.None? {
        return false;
      }
      var model := trainingModel.value;
      isTraining := true;
      shellOutput := [StartLine(model)];
      RunEpochs(model, ms, stopAfter);
      if stopAfter == Some(epochs) {
        StopTraining();
      }
      RunSoFarComplete(model, epochs, ms, stopAfter);
      started := true;
    }

    /** The epoch loop of `handleStartTraining`: one line per epoch, with
      the stop line where Stop is pressed before an epoch's line. */
    method RunEpochs(model: string, ms: seq<Metrics>, stopAfter: Option<nat>)
      requires |ms| == epochs
      requires stopAfter.Some? ==> stopAfter.value <= epochs
      requires isTraining && shellOutput == [StartLine(model)]
      modifies this
      ensures imagesZip == old(imagesZip) && jsonFile == old(jsonFile) && epochs == old(epochs)
      ensures trainingModel == old(trainingModel) && uploadProgress == old(uploadProgress)
      ensures shellOutput == RunSoFar(model, epochs, ms, stopAfter, epochs)
      ensures isTraining <==> !(stopAfter.Some? && stopAfter.value < epochs)
    {
      var i := 1;
      while i <= epochs
        invariant imagesZip == old(imagesZip) && jsonFile == old(jsonFile) && epochs == old(epochs)
        invariant trainingModel == old(trainingModel) && uploadProgress == old(uploadProgress)
        invariant 1 <= i <= epochs + 1
        invariant shellOutput == RunSoFar(model, epochs, ms, stopAfter, i - 1)
        invariant isTraining <==> !(stopAfter.Some? && stopAfter.value < i - 1)
      {
        if stopAfter == Some(i - 1) {
          StopTraining();
        }
        RunSoFarStep(model, epochs, ms, stopAfter, i - 1);
        shellOutput := shellOutput + [EpochLine(i, epochs, ms[i - 1])];
        i := i + 1;
      }
    }
  }
}
