/** The older training dashboard: both files are required, and a run always
    writes ten epoch lines followed by a completion line. */
module TrainingDashboard {
  import opened Optional
  import opened JsString

  datatype File = File(name: string, size: nat)

  /** The run length is fixed. */
  const RunEpochs: nat := 10

  const DoneLine: string := "Training completed!"

  /** `Epoch ${epoch}/10 completed. Loss: ...`, the loss already formatted. */
  function CompletedLine(epoch: nat, loss: string): string {
    "Epoch " + (NatToString(epoch) + "/" + ("10 completed. Loss: " + loss))
  }

  /** The output of one whole run. */
  function RunLog(losses: seq<string>): (log: seq<string>)
    requires |losses| == RunEpochs
  {
    seq(RunEpochs, j requires 0 <= j < RunEpochs => CompletedLine(j + 1, losses[j])) + [DoneLine]
  }

  /** An epoch line names its epoch: two epoch lines with different numbers
      differ, whatever their losses. */
  lemma CompletedLineNamesEpoch(a: nat, la: string, b: nat, lb: string)
    requires CompletedLine(a, la) == CompletedLine(b, lb)
    ensures a == b
  {
    var tail := "10 completed. Loss: ";
    assert NatToString(a) + ['/'] + (tail + la) == CompletedLine(a, la)[6..];
    assert NatToString(b) + ['/'] + (tail + lb) == CompletedLine(b, lb)[6..];
    DigitsBeforeSeparator(NatToString(a), tail + la, NatToString(b), tail + lb, '/');
    NatToStringInjective(a, b);
  }

  /** A run writes eleven lines: the epochs 1 to 10, each once and in order,
      and then the completion line, which appears nowhere else. */
  lemma RunLogShape(losses: seq<string>)
    requires |losses| == RunEpochs
    ensures |RunLog(losses)| == RunEpochs + 1
    ensures RunLog(losses)[RunEpochs] == DoneLine
    ensures forall j :: 0 <= j < RunEpochs ==> RunLog(losses)[j] != DoneLine
    ensures forall i, j :: 0 <= i < j < RunEpochs ==> RunLog(losses)[i] != RunLog(losses)[j]
  {
    var log := RunLog(losses);
    forall j | 0 <= j < RunEpochs
      ensures log[j] != DoneLine
    {
      assert log[j][0] == 'E';
    }
    forall i, j | 0 <= i < j < RunEpochs
      ensures log[i] != log[j]
    {
      if log[i] == log[j] {
        CompletedLineNamesEpoch(i + 1, losses[i], j + 1, losses[j]);
      }
    }
  }

  class Dashboard {
    var imagesZip: Option<File>
    var jsonFile: Option<File>
    var trainingOutput: seq<string>
    var isTraining: bool

    constructor ()
      ensures imagesZip.None? && jsonFile.None? && trainingOutput == [] && !isTraining
    {
      imagesZip := None;
      jsonFile := None;
      trainingOutput := [];
      isTraining := false;
    }

    /** The two upload fields pass on the chosen file, or none when the
      choice is cleared. */
    method SetImagesZip(file: Option<File>)
      modifies this
      ensures imagesZip == file
      ensures jsonFile == old(jsonFile) && trainingOutput == old(trainingOutput) && isTraining == old(isTraining)
    {
      imagesZip := file;
    }

    method SetJsonFile(file: Option<File>)
      modifies this
      ensures jsonFile == file
      ensures imagesZip == old(imagesZip) && trainingOutput == old(trainingOutput) && isTraining == old(isTraining)
    {
      jsonFile := file;
    }

    /** The button is enabled only with both files and no run going on. */
    predicate StartEnabled()
      reads this
    {
      !isTraining && imagesZip.Some? && jsonFile.Some?
    }

    /** `handleStartTraining`, with the ten random losses as input. */
    method StartTraining(losses: seq<string>) returns (started: bool)
      requires |losses| == RunEpochs
      modifies this
      ensures imagesZip == old(imagesZip) && jsonFile == old(jsonFile)
      ensures started <==> imagesZip.Some? && jsonFile.Some?
      ensures old(StartEnabled()) ==> started
      ensures !started ==> trainingOutput == old(trainingOutput) && isTraining == old(isTraining)
      ensures started ==> trainingOutput == RunLog(losses) && !isTraining
    {
      if imagesZip.None? || jsonFile.None? {
        return false;
      }
      isTraining := true;
      trainingOutput := [];
      var epoch := 1;
      while epoch <= RunEpochs
        invariant 1 <= epoch <= RunEpochs + 1
        invariant isTraining
        invariant imagesZip == old(imagesZip) && jsonFile == old(jsonFile)
        invariant trainingOutput == seq(epoch - 1, j requires 0 <= j < epoch - 1 => CompletedLine(j + 1, losses[j]))
      {
        trainingOutput := trainingOutput + [CompletedLine(epoch, losses[epoch - 1])];
        epoch := epoch + 1;
      }
      isTraining := false;
      trainingOutput := trainingOutput + [DoneLine];
      started := true;
    }
  }
}
