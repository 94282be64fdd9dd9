/**
 * One compression job (src/services/compression.ts): the quality-tier table,
 * the Ghostscript command line, the simulated progress bar, the accounting of
 * the result with its "already optimized" policy, and the way the job settles
 * on the engine's exit. The engine itself is an input: the event it ends with
 * and the size of the file it wrote.
 */
module Compression {
  import opened Types
  import opened Text
  import opened Utils
  import opened FileSystemModel

  // ---------------------------------------------------------------------------
  // Ghostscript invocation
  // ---------------------------------------------------------------------------

  /** PDF_SETTINGS: the Ghostscript profile of each quality tier. */
  function PdfSettings(quality: QualityLevel): (profile: string)
    ensures profile == "/" + quality.Name()
  {
    match quality
    case Screen => "/screen"
    case Ebook => "/ebook"
    case Printer => "/printer"
    case Prepress => "/prepress"
  }

  /** Each tier has its own profile. */
  lemma PdfSettingsDistinct(a: QualityLevel, b: QualityLevel)
    requires PdfSettings(a) == PdfSettings(b)
    ensures a == b
  {
    assert PdfSettings(a)[1] == PdfSettings(b)[1];
  }

  const ProfileFlag: string := "-dPDFSETTINGS="
  const OutputFlag: string := "-sOutputFile="

  /** The argument vector handed to Ghostscript: five fixed switches, the profile, the output and the input. */
  function GhostscriptArgs(pdfSettings: string, outputPath: string, inputPath: string): (args: seq<string>)
    ensures |args| == 8
    ensures args[..2] == ["-sDEVICE=pdfwrite", "-dCompatibilityLevel=1.4"]
    ensures args[3..6] == ["-dNOPAUSE", "-dQUIET", "-dBATCH"]
    ensures args[2] == ProfileFlag + pdfSettings
    ensures args[6] == OutputFlag + outputPath
    ensures args[7] == inputPath
  {
    [ "-sDEVICE=pdfwrite",
      "-dCompatibilityLevel=1.4",
      ProfileFlag + pdfSettings,
      "-dNOPAUSE",
      "-dQUIET",
      "-dBATCH",
      OutputFlag + outputPath,
      inputPath ]
  }

  lemma StripFlag(flag: string, a: string, b: string)
    requires flag + a == flag + b
    ensures a == b
  {
    assert a == (flag + a)[|flag|..];
    assert b == (flag + b)[|flag|..];
  }

  /** The command line tells which tier, which output and which input a job uses. */
  lemma GhostscriptArgsDetermineJob(q1: QualityLevel, out1: string, in1: string,
                                    q2: QualityLevel, out2: string, in2: string)
    requires GhostscriptArgs(PdfSettings(q1), out1, in1) == GhostscriptArgs(PdfSettings(q2), out2, in2)
    ensures q1 == q2 && out1 == out2 && in1 == in2
  {
    var a1, a2 := GhostscriptArgs(PdfSettings(q1), out1, in1), GhostscriptArgs(PdfSettings(q2), out2, in2);
    assert a1[2] == a2[2] && a1[6] == a2[6];
    StripFlag(ProfileFlag, PdfSettings(q1), PdfSettings(q2));
    PdfSettingsDistinct(q1, q2);
    StripFlag(OutputFlag, out1, out2);
  }

  // ---------------------------------------------------------------------------
  // Result accounting
  // ---------------------------------------------------------------------------

  /**
   * The result calculateResult builds once the engine has written `outputSize`
   * bytes at `outputPath`: an output that did not shrink is reported as
   * "already optimized", pointing back at the input with nothing saved;
   * otherwise the saving and its percentage of the input size.
   */
  function EvaluateResult(fileInfo: FileInfo, outputPath: string, outputSize: nat, duration: real)
    : (result: CompressionResult)
    ensures result.WellFormed()
    ensures result.inputPath == fileInfo.path && result.inputSize == fileInfo.size
    ensures result.duration == duration && !result.inputFileRemoved
    ensures result.alreadyOptimized <==> outputSize >= fileInfo.size
    ensures result.alreadyOptimized ==> result.outputPath == fileInfo.path && result.savedBytes == 0
    ensures !result.alreadyOptimized ==>
              && result.outputPath == outputPath
              && result.outputSize == outputSize
              && result.savedBytes > 0
              && 0.0 < result.savedPercentage <= 100.0
              && (result.savedPercentage == 100.0 <==> outputSize == 0)
  {
    var savedBytes := fileInfo.size - outputSize;
    if outputSize >= fileInfo.size then
      CompressionResult(fileInfo.path, fileInfo.path, fileInfo.size, fileInfo.size, 0, 0.0, duration, false, true)
    else
      var size := fileInfo.size as real;
      var savedPercentage := (savedBytes as real / size) * 100.0;
      assert savedPercentage * size == savedBytes as real * 100.0;
      assert savedPercentage <= 100.0 by {
        assert savedBytes as real <= size;
      }
      CompressionResult(fileInfo.path, outputPath, fileInfo.size, outputSize, savedBytes, savedPercentage,
                        duration, false, false)
  }

  /** A smaller output saves a larger share of the input. */
  lemma SavedPercentageMonotone(fileInfo: FileInfo, outputPath: string, small: nat, large: nat, duration: real)
    requires small <= large < fileInfo.size
    ensures EvaluateResult(fileInfo, outputPath, large, duration).savedPercentage
         <= EvaluateResult(fileInfo, outputPath, small, duration).savedPercentage
  {
    var size := fileInfo.size as real;
    var pSmall := EvaluateResult(fileInfo, outputPath, small, duration).savedPercentage;
    var pLarge := EvaluateResult(fileInfo, outputPath, large, duration).savedPercentage;
    assert pSmall == ((fileInfo.size - small) as real / size) * 100.0;
    assert pLarge == ((fileInfo.size - large) as real / size) * 100.0;
    assert (fileInfo.size - large) as real / size <= (fileInfo.size - small) as real / size by {
      var gap := (large - small) as real;
      assert (fileInfo.size - small) as real / size - (fileInfo.size - large) as real / size == gap / size;
    }
  }

  /**
   * calculateResult: reads the size of the written output and accounts for it;
   * an output that did not shrink is unlinked again.
   */
  method CalculateResult(fs: FileSystem, fileInfo: FileInfo, outputPath: string, duration: real)
    returns (result: CompressionResult)
    requires outputPath in fs.entries
    modifies fs
    ensures result == EvaluateResult(fileInfo, outputPath, old(fs.entries)[outputPath], duration)
    ensures result.alreadyOptimized ==> fs.entries == old(fs.entries) - {outputPath}
    ensures !result.alreadyOptimized ==> fs.entries == old(fs.entries)
  {
    var outputSize := fs.entries[outputPath];
    var savedBytes := fileInfo.size - outputSize;
    if outputSize >= fileInfo.size {
      fs.Unlink(outputPath);
      return CompressionResult(fileInfo.path, fileInfo.path, fileInfo.size, fileInfo.size, 0, 0.0, duration,
                               false, true);
    }
    var savedPercentage := (savedBytes as real / fileInfo.size as real) * 100.0;
    result := CompressionResult(fileInfo.path, outputPath, fileInfo.size, outputSize, savedBytes, savedPercentage,
                                duration, false, false);
  }

  // ---------------------------------------------------------------------------
  // Simulated progress
  // ---------------------------------------------------------------------------

  const ProgressCap: real := 90.0

  /** One timer tick: the progress grows by the increment and is held at 90. */
  function Tick(progress: real, increment: real): (next: real)
    ensures next <= ProgressCap
    ensures progress + increment <= ProgressCap ==> next == progress + increment
    ensures progress <= ProgressCap && increment >= 0.0 ==> progress <= next
  {
    var grown := progress + increment;
    if grown > ProgressCap then ProgressCap else grown
  }

  predicate NonNegative(increments: seq<real>)
  {
    forall i :: 0 <= i < |increments| ==> increments[i] >= 0.0
  }

  /** The progress values reported by the ticks that fire, starting from `start`. */
  function ProgressTrace(start: real, increments: seq<real>): (samples: seq<real>)
    decreases |increments|
    ensures |samples| == |increments|
    ensures forall i :: 0 <= i < |samples| ==> samples[i] <= ProgressCap
    ensures 0.0 <= start && NonNegative(increments) ==> forall i :: 0 <= i < |samples| ==> 0.0 <= samples[i]
  {
    if increments == [] then []
    else
      var next := Tick(start, increments[0]);
      [next] + ProgressTrace(next, increments[1..])
  }

  predicate NonDecreasing(samples: seq<real>)
  {
    forall i, j :: 0 <= i < j < |samples| ==> samples[i] <= samples[j]
  }

  /** With non-negative increments the bar never moves back. */
  lemma {:induction false} ProgressNonDecreasing(start: real, increments: seq<real>)
    requires start <= ProgressCap && NonNegative(increments)
    ensures NonDecreasing(ProgressTrace(start, increments))
    decreases |increments|
  {
    if increments != [] {
      var next := Tick(start, increments[0]);
      var rest := ProgressTrace(next, increments[1..]);
      assert NonNegative(increments[1..]) by {
        forall i | 0 <= i < |increments[1..]| ensures increments[1..][i] >= 0.0 {
          assert increments[1..][i] == increments[i + 1];
        }
      }
      ProgressNonDecreasing(next, increments[1..]);
      if rest != [] {
        assert rest[0] == Tick(next, increments[1]);
      }
    }
  }

  function Sum(increments: seq<real>): (total: real)
    ensures NonNegative(increments) ==> total >= 0.0
  {
    if increments == [] then 0.0
    else
      assert NonNegative(increments) ==> NonNegative(increments[1..]) by {
        if NonNegative(increments) {
          forall i | 0 <= i < |increments[1..]| ensures increments[1..][i] >= 0.0 {
            assert increments[1..][i] == increments[i + 1];
          }
        }
      }
      increments[0] + Sum(increments[1..])
  }

  function Clamp(x: real): real
  {
    if x > ProgressCap then ProgressCap else x
  }

  /** One step of the induction: sample k from the samples of the ticks after the first. */
  lemma CappedTotalStep(start: real, increments: seq<real>, k: nat)
    requires start <= ProgressCap && NonNegative(increments) && k < |increments|
    requires k > 0 ==> ProgressTrace(Tick(start, increments[0]), increments[1..])[k - 1]
                         == Clamp(Tick(start, increments[0]) + Sum(increments[1..][..k]))
    ensures ProgressTrace(start, increments)[k] == Clamp(start + Sum(increments[..k + 1]))
  {
    SumOfPrefix(increments, k);
    var rest := Sum(increments[1..][..k]);
    if k == 0 {
      assert increments[1..][..k] == [];
      assert ProgressTrace(start, increments)[0] == Tick(start, increments[0]);
    } else {
      TraceAfterFirst(start, increments, k);
      ClampAfterTick(start, increments[0], rest);
    }
  }

  /** The first k + 1 increments sum to the first one plus the next k. */
  lemma SumOfPrefix(increments: seq<real>, k: nat)
    requires k < |increments|
    ensures Sum(increments[..k + 1]) == increments[0] + Sum(increments[1..][..k])
    ensures NonNegative(increments) ==> Sum(increments[1..][..k]) >= 0.0
  {
    var prefix := increments[..k + 1];
    var rest := increments[1..][..k];
    assert prefix[1..] == rest;
    if NonNegative(increments) {
      assert NonNegative(rest) by {
        forall i | 0 <= i < k ensures rest[i] >= 0.0 {
          assert rest[i] == increments[i + 1];
        }
      }
    }
  }

  /** Sample k > 0 is sample k - 1 of the ticks after the first. */
  lemma TraceAfterFirst(start: real, increments: seq<real>, k: nat)
    requires 0 < k < |increments|
    ensures ProgressTrace(start, increments)[k] == ProgressTrace(Tick(start, increments[0]), increments[1..])[k - 1]
  {
  }

  /** Capping after the first tick and capping the whole total agree, when the rest adds nothing negative. */
  lemma ClampAfterTick(start: real, increment: real, rest: real)
    requires increment >= 0.0 && rest >= 0.0
    ensures Clamp(Tick(start, increment) + rest) == Clamp(start + (increment + rest))
  {
  }

  /**
   * Reference definition of the bar: with non-negative increments, the value
   * after the k-th tick is the running total of the increments, capped at 90.
   */
  lemma {:induction false} ProgressIsCappedTotal(start: real, increments: seq<real>)
    requires start <= ProgressCap && NonNegative(increments)
    ensures forall k :: 0 <= k < |increments| ==>
              ProgressTrace(start, increments)[k] == Clamp(start + Sum(increments[..k + 1]))
    decreases |increments|
  {
    if increments != [] {
      var next := Tick(start, increments[0]);
      var tail := increments[1..];
      assert NonNegative(tail) by {
        forall i | 0 <= i < |tail| ensures tail[i] >= 0.0 {
          assert tail[i] == increments[i + 1];
        }
      }
      ProgressIsCappedTotal(next, tail);
      forall k | 0 <= k < |increments|
        ensures ProgressTrace(start, increments)[k] == Clamp(start + Sum(increments[..k + 1]))
      {
        CappedTotalStep(start, increments, k);
      }
    }
  }

  /**
   * The timer of compressPDF: `progress` starts at 0 and each tick adds its
   * increment, caps the total at 90 and reports it.
   */
  method SimulateProgress(increments: seq<real>) returns (samples: seq<real>)
    ensures samples == ProgressTrace(0.0, increments)
  {
    var progress := 0.0;
    samples := [];
    var i := 0;
    while i < |increments|
      invariant 0 <= i <= |increments|
      invariant samples + ProgressTrace(progress, increments[i..]) == ProgressTrace(0.0, increments)
    {
      assert increments[i..][1..] == increments[i + 1..];
      progress := progress + increments[i];
      if progress > ProgressCap {
        progress := ProgressCap;
      }
      samples := samples + [progress];
      i := i + 1;
    }
  }

  // ---------------------------------------------------------------------------
  // Settling the job
  // ---------------------------------------------------------------------------

  /**
   * How the engine process ends: it closes with an exit code (null when killed
   * by a signal), or it cannot be spawned. Node.js follows a failed spawn with
   * a 'close' carrying a negative code (-2 for ENOENT) when `thenClosed`: its
   * handler still reports 100, and its rejection is ignored because the
   * promise has already settled.
   */
  datatype EngineEvent = Close(code: Option<int>) | SpawnError(message: string, thenClosed: bool)

  /** How the job's promise settles. */
  datatype JobOutcome = Resolved(result: CompressionResult) | Rejected(message: string)

  const EngineName: string := "Ghostscript "
  const ExitPrefix: string := EngineName + "exited with code "
  const NotInstalledMessage: string := EngineName + "is not installed. " + "Please install Ghostscript first."
  const EngineErrorPrefix: string := EngineName + "error: "

  /** The rejection for a non-zero exit: the code as a template literal writes it. */
  function ExitMessage(code: Option<int>): (message: string)
    ensures code.None? ==> message == ExitPrefix + "null"
    ensures code.Some? ==> message == ExitPrefix + IntToString(code.value)
  {
    ExitPrefix + (if code.Some? then IntToString(code.value) else "null")
  }

  /** The rejection for a failed spawn: a missing executable is reported as "not installed". */
  function SpawnErrorMessage(errorMessage: string): (message: string)
    ensures Contains(errorMessage, "ENOENT") <==> message == NotInstalledMessage
    ensures !Contains(errorMessage, "ENOENT") ==> message == EngineErrorPrefix + errorMessage
  {
    if Contains(errorMessage, "ENOENT") then NotInstalledMessage
    else
      assert (EngineErrorPrefix + errorMessage)[12] == EngineErrorPrefix[12] == 'e';
      assert NotInstalledMessage[12] == "is not installed. "[0] == 'i';
      EngineErrorPrefix + errorMessage
  }

  /** An exit message names the exit code it came from. */
  lemma ExitMessageInjective(a: Option<int>, b: Option<int>)
    requires ExitMessage(a) == ExitMessage(b)
    ensures a == b
  {
    var ta := if a.Some? then IntToString(a.value) else "null";
    var tb := if b.Some? then IntToString(b.value) else "null";
    StripFlag(ExitPrefix, ta, tb);
    if a.Some? && b.Some? {
      IntToStringInjective(a.value, b.value);
    }
  }

  /** The three kinds of failure produce messages no one of which can be taken for another. */
  lemma FailureMessagesDistinct(code: Option<int>, errorMessage: string)
    ensures ExitMessage(code) != SpawnErrorMessage(errorMessage)
    ensures ExitMessage(code) != NotInstalledMessage
  {
    var text := if code.Some? then IntToString(code.value) else "null";
    assert ExitMessage(code)[12] == ExitPrefix[12] == 'e';
    assert ExitMessage(code)[13] == ExitPrefix[13] == 'x';
    assert NotInstalledMessage[12] == "is not installed. "[0] == 'i';
    if !Contains(errorMessage, "ENOENT") {
      assert SpawnErrorMessage(errorMessage)[13] == EngineErrorPrefix[13] == 'r';
    }
  }

  /** An engine failure reports the engine's own message after a fixed prefix. */
  lemma SpawnErrorMessageInjective(a: string, b: string)
    requires !Contains(a, "ENOENT") && !Contains(b, "ENOENT")
    requires SpawnErrorMessage(a) == SpawnErrorMessage(b)
    ensures a == b
  {
    StripFlag(EngineErrorPrefix, a, b);
  }

  /**
   * compressPDF: allocates the output path, starts the engine with the tier's
   * profile, reports progress on each tick, and settles on the engine's event.
   * On a zero exit the engine has written `outputSize` bytes at the output
   * path; the result is accounted for, and the input is deleted when asked
   * for and the output shrank. Any other ending rejects and leaves the files
   * as they were. `increments` are the ticks that fire before the event and
   * `duration` the elapsed time the clock reports.
   */
  method CompressPdf(fs: FileSystem, fileInfo: FileInfo, settings: CompressionSettings,
                     increments: seq<real>, event: EngineEvent, outputSize: nat, duration: real)
    returns (outcome: JobOutcome, samples: seq<real>, args: seq<string>, outputPath: string)
    modifies fs
    ensures IsFirstFree(fileInfo.path, settings.advanced, old(fs.entries).Keys, outputPath)
    ensures outputPath !in old(fs.entries)
    ensures args == GhostscriptArgs(PdfSettings(settings.quality), outputPath, fileInfo.path)
    ensures samples == ProgressTrace(0.0, increments) + (if event.Close? || event.thenClosed then [100.0] else [])
    ensures event == Close(Some(0)) ==>
              var r := EvaluateResult(fileInfo, outputPath, outputSize, duration);
              var removed := settings.removeInputFile && !r.alreadyOptimized;
              var written := old(fs.entries)[outputPath := outputSize];
              && outcome == Resolved(r.(inputFileRemoved := removed))
              && fs.entries == (if r.alreadyOptimized then written - {outputPath}
                                else if removed then written - {fileInfo.path}
                                else written)
    ensures event.Close? && event.code != Some(0) ==>
              outcome == Rejected(ExitMessage(event.code)) && fs.entries == old(fs.entries)
    ensures event.SpawnError? ==>
              outcome == Rejected(SpawnErrorMessage(event.message)) && fs.entries == old(fs.entries)
  {
    outputPath := GenerateOutputPath(fileInfo.path, settings.advanced, fs.Paths());
    var pdfSettings := PdfSettings(settings.quality);
    args := GhostscriptArgs(pdfSettings, outputPath, fileInfo.path);
    samples := SimulateProgress(increments);

    match event
    case Close(code) =>
      samples := samples + [100.0];
      if code == Some(0) {
        fs.WriteFile(outputPath, outputSize);
        var result := CalculateResult(fs, fileInfo, outputPath, duration);
        if settings.removeInputFile && !result.alreadyOptimized {
          var _ := fs.DeleteFile(fileInfo.path);
          result := result.(inputFileRemoved := true);
        }
        outcome := Resolved(result);
      } else {
        outcome := Rejected(ExitMessage(code));
      }
    case SpawnError(message, thenClosed) =>
      if Contains(message, "ENOENT") {
        outcome := Rejected(NotInstalledMessage);
      } else {
        outcome := Rejected(EngineErrorPrefix + message);
      }
      if thenClosed {
        samples := samples + [100.0];
      }
  }

  /** A resolved job never reports an input removal for an output that did not shrink. */
  lemma RemovalOnlyAfterShrinking(fileInfo: FileInfo, settings: CompressionSettings, outputPath: string,
                                  outputSize: nat, duration: real)
    ensures var r := EvaluateResult(fileInfo, outputPath, outputSize, duration);
            var removed := settings.removeInputFile && !r.alreadyOptimized;
            removed <==> settings.removeInputFile && outputSize < fileInfo.size
  {
  }
}
