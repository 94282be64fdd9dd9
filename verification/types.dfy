/**
 * The records the compressor passes around (src/types.ts). Sizes are byte
 * counts, so `nat`; JavaScript numbers that may be fractional (percentages,
 * seconds, progress) are `real`. An optional boolean field of the source
 * (`removeInputFile?`, `inputFileRemoved?`, `alreadyOptimized?`) is a `bool`
 * here whose `false` stands for both `false` and "absent": every reader of
 * those fields only tests their truthiness.
 */
module Types {

  datatype Option<+T> = None | Some(value: T)

  /** The four quality tiers, from smallest output to highest fidelity. */
  datatype QualityLevel = Screen | Ebook | Printer | Prepress
  {
    /** The string value the tier has at run time. */
    function Name(): string
    {
      match this
      case Screen => "screen"
      case Ebook => "ebook"
      case Printer => "printer"
      case Prepress => "prepress"
    }

    /** Position of the tier in the order screen < ebook < printer < prepress. */
    function Rank(): nat
    {
      match this
      case Screen => 0
      case Ebook => 1
      case Printer => 2
      case Prepress => 3
    }
  }

  datatype SizeUnit = KB | MB

  /** `outputFolder` None is the source's `null` ("same folder as the input"). */
  datatype AdvancedSettings = AdvancedSettings(
    outputFolder: Option<string>,
    targetSize: Option<real>,
    targetSizeUnit: SizeUnit)

  datatype CompressionSettings = CompressionSettings(
    quality: QualityLevel,
    removeInputFile: bool,
    advanced: Option<AdvancedSettings>)

  /** The only file kind the program produces. */
  const PdfType: string := "pdf"

  /**
   * An input file. `fileType` is declared with the single literal type 'pdf'
   * in the source, but batch validation compares it at run time, so the model
   * keeps it as the string it is.
   */
  datatype FileInfo = FileInfo(
    path: string,
    name: string,
    size: nat,
    fileType: string,
    extension: string)

  datatype CompressionResult = CompressionResult(
    inputPath: string,
    outputPath: string,
    inputSize: nat,
    outputSize: nat,
    savedBytes: int,
    savedPercentage: real,
    duration: real,
    inputFileRemoved: bool,
    alreadyOptimized: bool)
  {
    /**
     * The accounting invariant of a job result: the saving is the size
     * difference; an "already optimized" result points back at the input with
     * nothing saved; any other result is strictly smaller than its input and
     * its percentage is the saving relative to the input size.
     */
    predicate WellFormed()
    {
      && savedBytes == inputSize - outputSize
      && outputSize <= inputSize
      && (alreadyOptimized ==>
            outputPath == inputPath && outputSize == inputSize && savedPercentage == 0.0)
      && (!alreadyOptimized ==>
            outputSize < inputSize
            && savedPercentage * (inputSize as real) == (savedBytes as real) * 100.0)
    }
  }

  datatype FileStatus = Pending | Compressing | Completed | Error | Skipped

  /** A file of a batch: its FileInfo plus the tracking fields. */
  datatype BatchFileInfo = BatchFileInfo(
    info: FileInfo,
    id: string,
    status: FileStatus,
    progress: real,
    result: Option<CompressionResult>,
    error: Option<string>)
}
