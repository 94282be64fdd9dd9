# pdfp: PDF compression jobs, modelled in Dafny

pdfp is a command-line PDF compressor. The user picks files, a quality tier
(screen, ebook, printer, prepress) and optional advanced settings. Each file is
then run through Ghostscript. The job writes `<name>-pdfp.pdf` next to the input,
or into a chosen output folder. When that name is taken, it uses `-1`, `-2`, ...
instead. The job reports a simulated progress bar and then accounts for the bytes
saved. An output that did not shrink is discarded, and the input is reported as
"already optimized". On request, the input file is removed after a successful
compression.

This project models the job-preparation and result-accounting core of the
program:

- `types.dfy` (`Types`): the records of `src/types.ts`. This includes the
  result record's accounting invariant, `CompressionResult.WellFormed`.
- `text.dfy` (`Text`): the JavaScript string operations the core relies on.
  These are writing an integer in decimal, `includes`, ASCII `toLowerCase` and
  `trim`.
- `paths.dfy` (`Paths`): the POSIX `path.basename`, `dirname`, `extname` and
  `join` of Node.js.
- `filesystem.dfy` (`FileSystemModel`): the file system as a class holding a map
  from path to size. It has the writes, unlinks and `deleteFile` the core
  performs.
- `utils.dfy` (`Utils`): the helpers of `src/utils.ts`. These are:
  - unit and duration conversions;
  - the size estimate;
  - the extension check;
  - the path-cleaning rule;
  - the output-path allocator, a loop proved to return the first free
    candidate;
  - batch validation, conversion and total size.
- `compression.dfy` (`Compression`): `src/services/compression.ts`. This covers:
  - the tier-to-profile table;
  - the Ghostscript argument vector;
  - the progress accumulator, a loop proved against a reference trace;
  - `calculateResult`;
  - `compressPDF`, with the engine's ending (an exit code or a spawn error) and
    the size of the file it wrote given as inputs.

For a shrunk output, the saved percentage is `savedBytes / inputSize * 100`
(src/services/compression.ts:30-31). `EvaluateResult` proves that it lies in
(0, 100], and that it is 100 exactly when the output is empty.

## Model

| member | source | states |
|---|---|---|
| Text.NatToString | src/utils.ts:46 | A whole number is written as a non-empty string of decimal digits with no leading zero; it starts with '0' exactly when the number is 0 |
| Text.IntToString | src/services/compression.ts:109 | An integer's text starts with a minus sign exactly when the integer is negative. What follows any sign is a non-empty run of decimal digits with no leading zero, and it reads back as the integer's absolute value |
| Text.DecimalValueOfNatToString | src/utils.ts:194 | Reading back the digits written for `n` gives `n` |
| Text.NatToStringInjective | src/utils.ts:194 | Different counters are written as different strings |
| Text.IntToStringInjective | src/services/compression.ts:109 | Different exit codes are written as different strings |
| Text.Contains | src/services/compression.ts:115 | `includes` is true exactly when the needle occurs at some index of the string |
| Text.TrimStart | src/utils.ts:96 | The result is a suffix of the input, everything dropped is white space, and the result does not start with white space |
| Text.TrimEnd | src/utils.ts:96 | The result is a prefix of the input, everything dropped is white space, and the result does not end with white space |
| Text.Trim | src/utils.ts:96 | The result occurs inside the input, everything before and after that occurrence is white space, and the result has no white space at either end |
| Text.ToLower | src/utils.ts:128 | The length is kept, no upper-case ASCII letter remains, and each character is unchanged or is an upper-case ASCII letter moved to its lower-case form |
| Text.TrimOfTrimmed | src/utils.ts:96 | A string whose ends are not white space is returned unchanged |
| Paths.LastIndexOf | src/utils.ts:183-185 | The result is -1 or an index holding the character, and no later index holds it |
| Paths.LastIndexOfIs | src/utils.ts:183-185 | Those three properties determine the last index uniquely |
| Paths.Basename | src/utils.ts:185 | The last name is a suffix of the path and holds no separator; it is the whole path or follows a separator |
| Paths.Dirname | src/utils.ts:184 | The directory is never empty. It is "." for a path without a separator; otherwise the path is the directory, a separator and the last name, or the root followed by the last name |
| Paths.Extname | src/utils.ts:183 | The extension is empty or a dot followed by no other dot; it is a suffix of the last name and strictly shorter than it |
| Paths.SameBasenameSameExtname | src/utils.ts:183 | Paths with the same last name have the same extension |
| Paths.Stem | src/utils.ts:185 | The name without extension, followed by the extension, is the last name |
| Paths.Join | src/utils.ts:189-194 | The joined path ends in the name and, for a directory other than "" and ".", starts with the directory |
| Paths.BasenameOfJoin | src/utils.ts:189 | Joining a separator-free name onto a directory gives a path whose last name is that name |
| Paths.JoinInjective | src/utils.ts:194 | Joining different names onto the same directory gives different paths |
| Paths.ExtnameOfName | src/utils.ts:194 | A name ending in a well-formed extension, after a non-empty part, has that extension |
| Paths.DirnameOfJoinTrailing | src/utils.ts:184-189 | Joining a separator-free name onto a directory written with a trailing separator gives a path whose directory is that directory without the separator |
| Paths.DirnameOfJoin | src/utils.ts:184-189 | Joining a separator-free name onto a directory without a trailing separator (or onto the root) gives a path whose directory is that directory |
| FileSystemModel.FileSystem.WriteFile | src/services/compression.ts:90 | After the engine writes the output, the path maps to the size written and nothing else changes |
| FileSystemModel.FileSystem.Unlink | src/services/compression.ts:36-40 | Afterwards the path no longer exists and every other path is unchanged |
| FileSystemModel.FileSystem.DeleteFile | src/utils.ts:217-227 | The result is true exactly when the file existed; afterwards it does not exist and nothing else changes |
| Utils.Round | src/utils.ts:28 | `Math.round` gives the integer within half of the number, rounding halves up |
| Utils.UnitToBytes | src/utils.ts:34-39 | KB values are multiplied by 1024 and MB values by 1024·1024 |
| Utils.GetFileSizeUnit | src/utils.ts:20-23 | The unit is MB exactly when the size is at least one megabyte in bytes, and KB otherwise |
| Utils.BytesToKilobytes | src/utils.ts:26-29 | The kilobyte count, taken back to bytes, is within half a kilobyte of the size |
| Utils.KilobytesRoundTrip | src/utils.ts:26-39 | A whole number of kilobytes, converted to bytes and back, is unchanged |
| Utils.KilobytesApproximateBytes | src/utils.ts:26-39 | Bytes, converted to kilobytes and back, are off by at most 512 |
| Utils.FormatDuration | src/utils.ts:41-49 | Below a minute the text is "<s>s"; from a minute on it is "<m>m <s>s", with the whole seconds split into minutes and a remainder below 60 |
| Utils.Trunc | src/utils.ts:42 | The integer part of a number: at most the number and within 1 of it for a non-negative number; at least the number and within 1 of it for a negative one |
| Utils.SecondsRemainder | src/utils.ts:42 | JavaScript's `seconds % 60`: the duration minus the remainder is a whole multiple of 60, and the remainder lies in [0, 60) for a non-negative duration and in (-60, 0] for a negative one |
| Utils.DurationParts | src/utils.ts:42-45 | For a non-negative duration, the floored minutes and the floored `%`-remainder are the quotient and remainder of the whole seconds by 60; the minutes are positive exactly from 60 seconds on |
| Utils.CompressionRatio | src/utils.ts:235-250 | Every tier's ratio lies strictly between 0 and 1 |
| Utils.EstimateCompressedSize | src/utils.ts:230-256 | The estimate is the size times the tier's ratio, rounded to within a half; for a non-negative size it lies between 0 and the size |
| Utils.EstimateMonotoneInQuality | src/utils.ts:235-255 | A higher tier never gives a smaller estimate |
| Utils.IsSupportedFormat | src/utils.ts:127-130 | The path is supported exactly when its extension is ".pdf" in any letter case |
| Utils.LowerIsPdf | src/utils.ts:128-129 | An extension lowers to ".pdf" exactly when it is ".pdf" in some mix of letter cases |
| Utils.UnescapeSpaces | src/utils.ts:96 | Unescaping never makes a string longer |
| Utils.StripQuotes | src/utils.ts:96 | At most one character is dropped at each end, and every dropped character is a quote. A leading quote is always dropped, and so is a trailing quote of a string of two or more characters |
| Utils.CleanPath | src/utils.ts:96 | The cleaned path is never longer than the input |
| Utils.UnescapeOfEscape | src/utils.ts:96 | Unescaping a path whose spaces were backslash-escaped gives back the path |
| Utils.UnescapeOfPlain | src/utils.ts:96 | A string without a backslash-space pair is left unchanged |
| Utils.StripQuotesOfQuoted | src/utils.ts:96 | A string wrapped in one quote character at each end loses exactly those two characters |
| Utils.CleanPathOfEscaped | src/utils.ts:95-96 | A dropped-in path with shell-escaped spaces is cleaned back to the path itself |
| Utils.CleanPathOfQuoted | src/utils.ts:95-96 | A quoted path with no backslash-space pair is cleaned to the path between the quotes |
| Utils.OutputDir | src/utils.ts:184 | The output directory is never empty: the output folder when that is set and non-empty, and the input's directory otherwise (`CandidateInOutputDir` ties it to the candidates) |
| Utils.CandidateInOutputDir | src/utils.ts:184-194 | Every candidate's directory is the output directory (the output folder when set and non-empty, else the input's directory), when that is written without a trailing separator |
| Utils.CandidateInOutputDirTrailing | src/utils.ts:184-194 | For an output directory written with a trailing separator, such as "out/", every candidate's directory is that directory without the separator |
| Utils.CandidateBesideInput | src/utils.ts:184-194 | Without an output folder, every candidate lies in the input's directory |
| Utils.CounterSuffix | src/utils.ts:194 | The counter part of a candidate name holds no separator |
| Utils.CandidateName | src/utils.ts:188-194 | A candidate name holds no separator and is 5 characters plus the counter part longer than the input's last name |
| Utils.OutputCandidate | src/utils.ts:189-194 | The candidate path ends in the candidate name |
| Utils.CandidateBasename | src/utils.ts:189-194 | The last name of each candidate path is that probe's candidate name |
| Utils.IsFirstFree | src/utils.ts:188-196 | A path that is the first free candidate is not an existing path and is not the input path |
| Utils.NameHasNoSeparator | src/utils.ts:188-194 | A name built as "<stem>-pdfp<suffix><ext>" from separator-free parts holds no separator |
| Utils.ProbePath | src/utils.ts:188-194 | The path the loop joins at probe n, from the directory, the "<stem>-pdfp" base and the extension, is that probe's candidate |
| Utils.NumberedName | src/utils.ts:189-194 | The names the loop builds are "<stem>-pdfp<ext>" for the first probe and "<stem>-pdfp-<n><ext>" for the others |
| Utils.CandidatesDistinct | src/utils.ts:189-196 | Different probes try different paths |
| Utils.ProbedPathsDistinct | src/utils.ts:192-196 | For a probe order in which no two probes coincide, the first n probes try n different paths |
| Utils.ProbedAreCandidates | src/utils.ts:192-196 | For any probe order, every path tried by the first n probes is one of the first n candidates |
| Utils.ProbesAreBounded | src/utils.ts:192-196 | While every probe hits an existing path, there are at least as many existing paths as probes, which bounds the loop |
| Utils.GenerateOutputPath | src/utils.ts:182-199 | The returned path is not an existing path; it is the first free candidate in probe order; the unnumbered name is returned when it is free |
| Utils.AllocationIsDeterministic | src/utils.ts:182-199 | Against the same existing paths, the allocation has only one possible answer |
| Utils.NameKeepsExtension | src/utils.ts:188-194 | A name built as "<stem>-pdfp<suffix><ext>" has the extension ext |
| Utils.CandidateKeepsExtension | src/utils.ts:183-194 | Every candidate has the input's extension, so a supported input gets a supported output path |
| Utils.CandidateIsNotInput | src/utils.ts:182-199 | No candidate is the input path, so compressing never overwrites the original |
| Utils.AllPdf | src/utils.ts:276 | True exactly when every file has type "pdf" |
| Utils.ValidateBatchFiles | src/utils.ts:266-286 | An empty list is invalid with "No valid files found"; one file is valid; a longer list is valid exactly when all files are PDF, and otherwise fails with "All files must be PDF files"; an error is present exactly when the list is invalid |
| Utils.ToBatchFiles | src/utils.ts:289-296 | The length is kept, and entry i holds file i with its id, status pending, progress 0, and no result or error |
| Utils.ToBatchFilesKeepsFiles | src/utils.ts:289-296 | The files of the batch are the input files, in order |
| Utils.ToBatchFilesOfConcat | src/utils.ts:289-296 | Converting a concatenation gives the concatenation of the conversions |
| Utils.CalculateTotalSize | src/utils.ts:299-301 | No file's size exceeds the total |
| Utils.TotalSizeOfConcat | src/utils.ts:299-301 | The total of a concatenation is the sum of the totals |
| Utils.TotalSizeOfOne | src/utils.ts:299-301 | The total of one file is its size |
| Compression.PdfSettings | src/services/compression.ts:16-21 | Each tier's profile is "/" followed by the tier's name |
| Compression.PdfSettingsDistinct | src/services/compression.ts:16-21 | Different tiers have different profiles |
| Compression.GhostscriptArgs | src/services/compression.ts:83-92 | There are exactly 8 arguments in a fixed order: the profile at index 2, "-sOutputFile=<output>" at index 6, the input last, and the five fixed switches around them |
| Compression.GhostscriptArgsDetermineJob | src/services/compression.ts:83-92 | The argument vector determines the tier, the output path and the input path |
| Compression.EvaluateResult | src/services/compression.ts:24-62 | The result is well formed. A shrunk output is reported at its path, with savedBytes > 0 and a percentage in (0, 100] that is 100 only for an empty output. An output that did not shrink is "already optimized": it points at the input, with the input's size and nothing saved |
| Compression.SavedPercentageMonotone | src/services/compression.ts:30-31 | A smaller output never saves a smaller percentage |
| Compression.CalculateResult | src/services/compression.ts:24-62 | The result is the accounting of the written output's size. An output that did not shrink is unlinked; otherwise the files are untouched |
| Compression.Tick | src/services/compression.ts:78-79 | A tick never reports above 90. Below the cap it adds the increment; with a non-negative increment it never moves back |
| Compression.ProgressTrace | src/services/compression.ts:76-81 | One sample per tick, each at most 90, and non-negative when the start and all increments are |
| Compression.ProgressNonDecreasing | src/services/compression.ts:76-81 | With non-negative increments the samples never decrease |
| Compression.ProgressIsCappedTotal | src/services/compression.ts:76-81 | With non-negative increments, sample k is the start plus the first k+1 increments, capped at 90 |
| Compression.SimulateProgress | src/services/compression.ts:76-81 | The accumulator loop reports exactly the reference trace from 0 |
| Compression.ExitMessage | src/services/compression.ts:108-110 | "Ghostscript exited with code " followed by the code, or by "null" when there is none |
| Compression.SpawnErrorMessage | src/services/compression.ts:113-120 | The "not installed" message is given exactly when the error mentions ENOENT; otherwise "Ghostscript error: " followed by the error |
| Compression.ExitMessageInjective | src/services/compression.ts:109 | The exit message determines the exit code |
| Compression.FailureMessagesDistinct | src/services/compression.ts:108-119 | An exit message is never the "not installed" message nor an engine-error message |
| Compression.SpawnErrorMessageInjective | src/services/compression.ts:118 | An engine-error message determines the engine's own message |
| Compression.CompressPdf | src/services/compression.ts:64-122 | The output path is the first free candidate, and the arguments are built from the tier profile, that path and the input. The samples are the progress trace, then 100 exactly when the engine closes, also when that close follows a spawn error. Exit 0 resolves with the evaluated result, and the input is deleted and flagged removed exactly when removal was asked for and the output shrank. Other exits and spawn errors reject with their messages and leave the files unchanged |
| Compression.RemovalOnlyAfterShrinking | src/services/compression.ts:103-106 | The input is marked removed exactly when removal was asked for and the output is smaller than the input |

## Left out

- Real I/O is not modelled. `existsSync`, `statSync`, `unlinkSync` and the engine's write become operations on the `FileSystem` map. `statSync` on a missing file, an unlink that fails and any other I/O error are not modelled. `CalculateResult` requires the output to exist, as `statSync` does.
- Compression.CompressPdf: the Ghostscript process is an input. The input is the event it ends with (close with an exit code, or a spawn error) and the size of the file it writes on exit 0. A partial output left by a failed run is not modelled.
- Compression.CompressPdf: when a spawn error is followed by a close, the close is taken to carry a non-zero code (Node.js passes -2 for ENOENT). Its handler then only reports 100, and its rejection is ignored because the promise has already settled on the spawn error. A close that comes first and is followed by an error is not modelled.
- Only the ticks that fire before the ending event are modelled: `setInterval`, `clearInterval` and timing are not. `Math.random()` increments are a given sequence of reals, and `Date.now()` durations are a given real.
- Compression.EvaluateResult: numbers are exact reals. IEEE-754 rounding of the percentage and of the size ratios is not modelled.
- Paths.Join: a simplified join. It is the bare name for an empty or "." directory, the directory and name when the directory ends in '/', and otherwise both with a '/' between. The normalisation of "." and ".." segments, and of doubled separators, is not modelled.
- Paths.Basename, Paths.Dirname and Paths.Extname do not skip trailing separators as Node.js does. For "a/b.pdf/" Node.js gives "b.pdf", "a" and ".pdf", and the model gives "", "a/b.pdf" and "". This cannot reach the allocator, because its input is a regular file: `getFileInfo` checks `isFile` (src/utils.ts:104). Node.js also gives "//" for the directory of "//x", where the model gives "/".
- Windows paths (`path.win32`, with '\\' separators and drive letters) are not modelled; the `Paths` functions are the POSIX ones.
- Utils.GenerateOutputPath: `existsSync` is also true for directories, so a directory at a candidate path is skipped as well. The model's existing paths are the keys of the `FileSystem` map, so they stand for every existing entry, files and directories alike.
- Text.ToLower: lowers only the ASCII letters. Unicode case mapping is not modelled. This does not change the extension check, because no non-ASCII character lowers to 'p', 'd' or 'f'.
- The `default` branch of `estimateCompressedSize` is not modelled. The tier is a closed datatype, so that branch cannot be reached.
- The MB branch of `bytesToUnit` (src/utils.ts:30) and `formatBytes` are not modelled. They depend on floating-point formatting.
- The following are not part of this model: `getFilesFromFolder` (which needs directory listing and locale sorting), `getFileInfo` apart from its path-cleaning expression, `isValidDirectory`, the Ghostscript probing and install instructions, `getSupportedFormats` and `validateRenderCondition`.
- `generateBatchId` uses randomness, so the ids are a parameter of `ToBatchFiles`.
- `CompressionService.compress` is a one-line delegate to `compressPDF`.
- The React/Ink interface, the command-line entry point and the install script are not part of this model. Batch sequencing and cancellation have no driver in the modelled code.
- Optional booleans (`removeInputFile`, `inputFileRemoved`, `alreadyOptimized`) are plain booleans. `false` stands for both false and absent, which every reader of these fields treats alike.
