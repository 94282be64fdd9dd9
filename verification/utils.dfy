/**
 * The helpers of src/utils.ts that prepare a compression job and keep the
 * books of a batch: unit and duration conversions, the size estimate, the
 * extension check, the cleaning of a user-typed path, the allocation of a
 * collision-free output path, and the batch validation, conversion and total.
 */
module Utils {
  import opened Types
  import opened Text
  import opened Paths

  // ---------------------------------------------------------------------------
  // Units and durations
  // ---------------------------------------------------------------------------

  /** Math.round for a finite number: the nearest integer, halves rounded up. */
  function Round(x: real): (n: int)
    ensures x - 0.5 < n as real <= x + 0.5
  {
    (x + 0.5).Floor
  }

  const BytesPerMB: nat := 1024 * 1024

  /** unitToBytes: a value in KB or MB as bytes. */
  function UnitToBytes(value: real, unit: SizeUnit): (bytes: real)
    ensures unit == KB ==> bytes == value * 1024.0
    ensures unit == MB ==> bytes == value * 1024.0 * 1024.0
  {
    if unit == KB then value * 1024.0 else value * 1024.0 * 1024.0
  }

  /** getFileSizeUnit: sizes from one megabyte on are shown in MB, smaller ones in KB. */
  function GetFileSizeUnit(bytes: int): (unit: SizeUnit)
    ensures unit == MB <==> bytes as real >= UnitToBytes(1.0, MB)
  {
    if bytes < BytesPerMB then KB else MB
  }

  /** bytesToUnit(bytes, 'KB'): the number of kilobytes, rounded to the nearest whole one. */
  function BytesToKilobytes(bytes: int): (kb: int)
    ensures kb * 1024 - 512 <= bytes < kb * 1024 + 512
  {
    Round(bytes as real / 1024.0)
  }

  /** A whole number of kilobytes survives the trip to bytes and back. */
  lemma KilobytesRoundTrip(kb: int)
    ensures UnitToBytes(kb as real, KB) == (kb * 1024) as real
    ensures BytesToKilobytes(kb * 1024) == kb
  {
    var k := BytesToKilobytes(kb * 1024);
    assert k * 1024 - 512 <= kb * 1024 < k * 1024 + 512;
    assert (k - kb) * 1024 < 512 && (kb - k) * 1024 <= 512;
  }

  /** Any byte count is within half a kilobyte of its display value taken back to bytes. */
  lemma KilobytesApproximateBytes(bytes: int)
    ensures -512.0 < UnitToBytes(BytesToKilobytes(bytes) as real, KB) - bytes as real <= 512.0
  {
  }

  /** Truncation toward zero, as JavaScript's `%` uses it. */
  function Trunc(x: real): (n: int)
    ensures x >= 0.0 ==> n as real <= x < n as real + 1.0
    ensures x < 0.0 ==> n as real - 1.0 < x <= n as real
  {
    if x >= 0.0 then x.Floor else -((-x).Floor)
  }

  /** `seconds % 60` in JavaScript: the remainder of truncated division, with the sign of the dividend. */
  function SecondsRemainder(seconds: real): (r: real)
    ensures seconds >= 0.0 ==> 0.0 <= r < 60.0
    ensures seconds < 0.0 ==> -60.0 < r <= 0.0
    ensures ((seconds - r) / 60.0).Floor as real == (seconds - r) / 60.0
  {
    seconds - 60.0 * Trunc(seconds / 60.0) as real
  }

  /**
   * formatDuration: "<m>m <s>s" once there is a whole minute, "<s>s" below.
   * For a non-negative duration the minutes and seconds are the whole seconds
   * divided by 60 and their remainder.
   */
  function FormatDuration(seconds: real): (text: string)
    ensures 0.0 <= seconds < 60.0 ==> text == NatToString(seconds.Floor) + "s"
    ensures seconds >= 60.0 ==>
      text == NatToString(seconds.Floor / 60) + "m " + NatToString(seconds.Floor % 60) + "s"
  {
    var mins := (seconds / 60.0).Floor;
    var secs := SecondsRemainder(seconds).Floor;
    DurationParts(seconds);
    if mins > 0 then IntToString(mins) + "m " + IntToString(secs) + "s"
    else IntToString(secs) + "s"
  }

  /** For a non-negative duration, flooring the minutes and the remainder works on the whole seconds. */
  lemma DurationParts(seconds: real)
    ensures seconds >= 0.0 ==>
      && (seconds / 60.0).Floor == seconds.Floor / 60
      && SecondsRemainder(seconds).Floor == seconds.Floor % 60
      && ((seconds / 60.0).Floor > 0 <==> seconds >= 60.0)
  {
    if seconds < 0.0 { return; }
    var f := seconds.Floor;
    var m := (seconds / 60.0).Floor;
    assert m as real <= seconds / 60.0 < m as real + 1.0;
    assert 60 * m <= f < 60 * m + 60;
    assert Trunc(seconds / 60.0) == m;
    var r := SecondsRemainder(seconds);
    assert r == seconds - (60 * m) as real;
    assert (f - 60 * m) as real <= r < (f - 60 * m) as real + 1.0;
  }

  // ---------------------------------------------------------------------------
  // Size estimate
  // ---------------------------------------------------------------------------

  /** The expected output-to-input size ratio of each tier. */
  function CompressionRatio(quality: QualityLevel): (ratio: real)
    ensures 0.0 < ratio < 1.0
  {
    match quality
    case Screen => 0.3
    case Ebook => 0.5
    case Printer => 0.7
    case Prepress => 0.85
  }

  /** estimateCompressedSize: the input size times the tier's ratio, rounded. */
  function EstimateCompressedSize(originalSize: int, quality: QualityLevel): (estimate: int)
    ensures estimate as real - 0.5 <= originalSize as real * CompressionRatio(quality) < estimate as real + 0.5
    ensures originalSize >= 0 ==> 0 <= estimate <= originalSize
  {
    Round(originalSize as real * CompressionRatio(quality))
  }

  /** Higher tiers keep more: the estimate never decreases from screen to prepress. */
  lemma EstimateMonotoneInQuality(size: nat, lower: QualityLevel, higher: QualityLevel)
    requires lower.Rank() <= higher.Rank()
    ensures EstimateCompressedSize(size, lower) <= EstimateCompressedSize(size, higher)
  {
    var lo, hi := CompressionRatio(lower), CompressionRatio(higher);
    assert lo <= hi by {
      match lower
      case Screen =>
      case Ebook =>
      case Printer =>
      case Prepress =>
    }
    assert size as real * lo <= size as real * hi;
  }

  // ---------------------------------------------------------------------------
  // Extension check and path cleaning
  // ---------------------------------------------------------------------------

  /** isSupportedFormat: the extension, lower-cased, is ".pdf". */
  function IsSupportedFormat(filePath: string): (supported: bool)
    ensures supported <==> HasPdfExtension(Extname(filePath))
  {
    var ext := Extname(filePath);
    LowerIsPdf(ext);
    ToLower(ext) == ".pdf"
  }

  /** Lower-casing gives ".pdf" exactly for ".pdf" written in any letter case. */
  lemma LowerIsPdf(ext: string)
    ensures ToLower(ext) == ".pdf" <==> HasPdfExtension(ext)
  {
    var lower := ToLower(ext);
    assert lower == ".pdf" <==> |ext| == 4 && lower[0] == '.' && lower[1] == 'p' && lower[2] == 'd' && lower[3] == 'f';
  }

  /** `ext` is ".pdf" with the letters in either case. */
  predicate HasPdfExtension(ext: string)
  {
    |ext| == 4 && ext[0] == '.' && ext[1] in {'p', 'P'} && ext[2] in {'d', 'D'} && ext[3] in {'f', 'F'}
  }

  predicate IsQuote(c: char)
  {
    c == '"' || c == '\''
  }

  /** The quote-stripping replacement: at most one quote character is dropped from each end. */
  function StripQuotes(s: string): (r: string)
    ensures |r| <= |s| <= |r| + 2
    ensures exists k: nat :: OccursAt(s, r, k) && AllQuotes(s[..k]) && AllQuotes(s[k + |r|..])
    ensures s != [] && IsQuote(s[0]) ==> |r| < |s| && r == s[1..|r| + 1]
    ensures |s| >= 2 && IsQuote(s[|s| - 1]) ==> |r| < |s| && r == s[|s| - 1 - |r|..|s| - 1]
  {
    var t := if |s| > 0 && IsQuote(s[0]) then s[1..] else s;
    var r := if |t| > 0 && IsQuote(t[|t| - 1]) then t[..|t| - 1] else t;
    StrippedParts(s, t, r);
    r
  }

  /** The two strips together drop a run of quotes at each end, and keep what lies between. */
  lemma StrippedParts(s: string, t: string, r: string)
    requires |s| - 1 <= |t| <= |s| && t == s[|s| - |t|..] && AllQuotes(s[..|s| - |t|])
    requires s != [] && IsQuote(s[0]) ==> |t| < |s|
    requires |t| - 1 <= |r| <= |t| && r == t[..|r|] && AllQuotes(t[|r|..])
    requires t != [] && IsQuote(t[|t| - 1]) ==> |r| < |t|
    ensures OccursAt(s, r, |s| - |t|) && AllQuotes(s[..|s| - |t|]) && AllQuotes(s[|s| - |t| + |r|..])
    ensures |s| >= 2 && IsQuote(s[|s| - 1]) ==> |r| < |s| && r == s[|s| - 1 - |r|..|s| - 1]
  {
    var k := |s| - |t|;
    assert s[k + |r|..] == t[|r|..];
    assert s[k..k + |r|] == r;
    if |s| >= 2 && IsQuote(s[|s| - 1]) {
      assert t[|t| - 1] == s[|s| - 1];
    }
  }

  /** Every character of `s` is a quote character. */
  predicate AllQuotes(s: string)
  {
    forall i :: 0 <= i < |s| ==> IsQuote(s[i])
  }

  /** The unescaping replacement: every backslash-space pair, scanned left to right, becomes a space. */
  function UnescapeSpaces(s: string): (r: string)
    ensures |r| <= |s|
  {
    if |s| >= 2 && s[0] == '\\' && s[1] == ' ' then [' '] + UnescapeSpaces(s[2..])
    else if s == [] then []
    else [s[0]] + UnescapeSpaces(s[1..])
  }

  /** The way a shell writes a path with spaces: each space preceded by a backslash. */
  function EscapeSpaces(s: string): (r: string)
  {
    if s == [] then []
    else if s[0] == ' ' then "\\ " + EscapeSpaces(s[1..])
    else [s[0]] + EscapeSpaces(s[1..])
  }

  /** The path-cleaning expression applied to every path the user types or drops in. */
  function CleanPath(filePath: string): (clean: string)
    ensures |clean| <= |filePath|
  {
    UnescapeSpaces(StripQuotes(Trim(filePath)))
  }

  /** Undoing the shell's escaping gives back the path. */
  lemma {:induction false} UnescapeOfEscape(s: string)
    ensures UnescapeSpaces(EscapeSpaces(s)) == s
  {
    if s != [] {
      UnescapeOfEscape(s[1..]);
      var rest := EscapeSpaces(s[1..]);
      assert rest == [] || rest[0] != ' ' by {
        if s[1..] != [] && s[1..][0] == ' ' {
          assert rest[0] == '\\';
        }
      }
      if s[0] == ' ' {
        assert EscapeSpaces(s) == ['\\', ' '] + rest;
        assert (['\\', ' '] + rest)[2..] == rest;
      } else {
        assert EscapeSpaces(s) == [s[0]] + rest;
        assert ([s[0]] + rest)[1..] == rest;
      }
    }
  }

  /** A backslash followed by a space stands at index `i`. */
  predicate EscapedSpaceAt(s: string, i: nat)
    requires i + 1 < |s|
  {
    s[i] == '\\' && s[i + 1] == ' '
  }

  predicate HasEscapedSpace(s: string)
  {
    exists i: nat :: i + 1 < |s| && EscapedSpaceAt(s, i)
  }

  /** A string with no backslash-space pair is left alone by the unescaping. */
  lemma {:induction false} UnescapeOfPlain(s: string)
    requires !HasEscapedSpace(s)
    ensures UnescapeSpaces(s) == s
  {
    if s != [] {
      assert !HasEscapedSpace(s[1..]) by {
        if HasEscapedSpace(s[1..]) {
          var i: nat :| i + 1 < |s[1..]| && EscapedSpaceAt(s[1..], i);
          assert EscapedSpaceAt(s, i + 1);
        }
      }
      if |s| >= 2 {
        assert !EscapedSpaceAt(s, 0);
      }
      UnescapeOfPlain(s[1..]);
    }
  }

  lemma {:induction false} EscapeSpacesLast(s: string)
    requires s != [] && s[|s| - 1] != ' '
    ensures EscapeSpaces(s) != [] && EscapeSpaces(s)[|EscapeSpaces(s)| - 1] == s[|s| - 1]
  {
    if |s| > 1 {
      EscapeSpacesLast(s[1..]);
    }
  }

  /** A dropped-in path whose spaces the shell escaped is cleaned back to the path itself. */
  lemma CleanPathOfEscaped(path: string)
    requires path != []
    requires !IsWhiteSpace(path[0]) && !IsQuote(path[0])
    requires !IsWhiteSpace(path[|path| - 1]) && !IsQuote(path[|path| - 1])
    ensures CleanPath(EscapeSpaces(path)) == path
  {
    EscapeSpacesLast(path);
    var e := EscapeSpaces(path);
    assert e[0] == path[0];
    TrimOfTrimmed(e);
    assert StripQuotes(e) == e;
    UnescapeOfEscape(path);
  }

  /** A quoted path loses exactly its two quotes. */
  lemma CleanPathOfQuoted(path: string, quote: char)
    requires IsQuote(quote)
    requires !HasEscapedSpace(path)
    ensures CleanPath([quote] + path + [quote]) == path
  {
    var q := [quote] + path + [quote];
    assert !IsWhiteSpace(quote);
    assert q[0] == quote && q[|q| - 1] == quote;
    TrimOfTrimmed(q);
    StripQuotesOfQuoted(path, quote);
    UnescapeOfPlain(path);
  }

  lemma StripQuotesOfQuoted(path: string, quote: char)
    requires IsQuote(quote)
    ensures StripQuotes([quote] + path + [quote]) == path
  {
    var q := [quote] + path + [quote];
    var t := q[1..];
    assert t == path + [quote];
    assert t[..|t| - 1] == path;
  }

  // ---------------------------------------------------------------------------
  // Output path allocation
  // ---------------------------------------------------------------------------

  /** The output directory: the advanced output folder when set and non-empty, else the input's directory. */
  function OutputDir(inputPath: string, advanced: Option<AdvancedSettings>): (dir: string)
    ensures dir != ""
    ensures advanced.Some? && advanced.value.outputFolder.Some? && advanced.value.outputFolder.value != ""
      ==> dir == advanced.value.outputFolder.value
    ensures !(advanced.Some? && advanced.value.outputFolder.Some? && advanced.value.outputFolder.value != "")
      ==> dir == Dirname(inputPath)
  {
    if advanced.Some? && advanced.value.outputFolder.Some? && advanced.value.outputFolder.value != "" then
      advanced.value.outputFolder.value
    else
      Dirname(inputPath)
  }

  /** The counter part of the name tried at probe `n`: nothing at first, then "-1", "-2", ... */
  function CounterSuffix(n: nat): (suffix: string)
    ensures '/' !in suffix
  {
    if n == 0 then "" else
      var digits := NatToString(n);
      assert forall i :: 0 <= i < |digits| ==> digits[i] != '/' by {
        forall i | 0 <= i < |digits| ensures digits[i] != '/' {
          assert IsDigit(digits[i]);
        }
      }
      "-" + digits
  }

  /** The file name the allocator tries at probe `n`: "<stem>-pdfp<ext>", then "<stem>-pdfp-<n><ext>". */
  function CandidateName(inputPath: string, n: nat): (name: string)
    ensures '/' !in name
    ensures |name| == |Basename(inputPath)| + 5 + |CounterSuffix(n)|
  {
    NameHasNoSeparator(Stem(inputPath), CounterSuffix(n), Extname(inputPath));
    Stem(inputPath) + "-pdfp" + CounterSuffix(n) + Extname(inputPath)
  }

  /** The names the loop builds are the candidate names. */
  lemma NumberedName(baseOutputName: string, n: nat, ext: string)
    ensures n == 0 ==> baseOutputName + ext == baseOutputName + CounterSuffix(n) + ext
    ensures n > 0 ==> baseOutputName + "-" + NatToString(n) + ext == baseOutputName + CounterSuffix(n) + ext
  {
    if n == 0 {
      assert baseOutputName + "" == baseOutputName;
    } else {
      assert CounterSuffix(n) == "-" + NatToString(n);
    }
  }

  /** The path the allocator tries at probe `n`. */
  function OutputCandidate(inputPath: string, advanced: Option<AdvancedSettings>, n: nat): (p: string)
    ensures var name := CandidateName(inputPath, n); |name| <= |p| && p[|p| - |name|..] == name
  {
    Join(OutputDir(inputPath, advanced), CandidateName(inputPath, n))
  }

  /**
   * `outputPath` is what the allocator must return: the first candidate, in
   * probe order, that is not an existing path.
   */
  ghost predicate IsFirstFree(inputPath: string, advanced: Option<AdvancedSettings>, existing: set<string>,
                              outputPath: string)
    ensures IsFirstFree(inputPath, advanced, existing, outputPath) ==>
              outputPath !in existing && outputPath != inputPath
  {
    assert forall n: nat :: OutputCandidate(inputPath, advanced, n) != inputPath by {
      forall n: nat ensures OutputCandidate(inputPath, advanced, n) != inputPath {
        CandidateIsNotInput(inputPath, advanced, n);
      }
    }
    exists n: nat ::
      && outputPath == OutputCandidate(inputPath, advanced, n)
      && outputPath !in existing
      && forall k: nat :: k < n ==> OutputCandidate(inputPath, advanced, k) in existing
  }

  /** The last component of every candidate path is that probe's candidate name. */
  lemma CandidateBasename(inputPath: string, advanced: Option<AdvancedSettings>, n: nat)
    ensures Basename(OutputCandidate(inputPath, advanced, n)) == CandidateName(inputPath, n)
  {
    BasenameOfJoin(OutputDir(inputPath, advanced), CandidateName(inputPath, n));
  }

  /**
   * Every candidate lies in the output directory, when that directory is written
   * without a trailing separator (or is the root).
   */
  lemma CandidateInOutputDir(inputPath: string, advanced: Option<AdvancedSettings>, n: nat)
    requires OutputDir(inputPath, advanced) == "/" || OutputDir(inputPath, advanced)[|OutputDir(inputPath, advanced)| - 1] != '/'
    ensures Dirname(OutputCandidate(inputPath, advanced, n)) == OutputDir(inputPath, advanced)
  {
    DirnameOfJoin(OutputDir(inputPath, advanced), CandidateName(inputPath, n));
  }

  /**
   * An output directory written with a trailing separator, as shell completion
   * writes one: every candidate lies in that directory, without the separator.
   */
  lemma CandidateInOutputDirTrailing(inputPath: string, advanced: Option<AdvancedSettings>, n: nat, dir: string)
    requires dir == OutputDir(inputPath, advanced)
    requires |dir| >= 2 && dir[|dir| - 1] == '/'
    ensures Dirname(OutputCandidate(inputPath, advanced, n)) == dir[..|dir| - 1]
  {
    DirnameOfJoinTrailing(dir, CandidateName(inputPath, n));
  }

  /** Without an output folder, every candidate sits beside the input file. */
  lemma CandidateBesideInput(inputPath: string, advanced: Option<AdvancedSettings>, n: nat)
    requires advanced.None? || advanced.value.outputFolder.None? || advanced.value.outputFolder.value == ""
    requires Dirname(inputPath) == "/" || Dirname(inputPath)[|Dirname(inputPath)| - 1] != '/'
    ensures Dirname(OutputCandidate(inputPath, advanced, n)) == Dirname(inputPath)
  {
    CandidateInOutputDir(inputPath, advanced, n);
  }

  lemma SplitName(x: string, m1: string, m2: string, y: string)
    requires x + m1 + y == x + m2 + y
    ensures m1 == m2
  {
    var s := x + m1 + y;
    assert m1 == s[|x|..|x| + |m1|];
    assert m2 == (x + m2 + y)[|x|..|x| + |m2|];
  }

  /** No two probes try the same path: this is what bounds the probing loop. */
  lemma CandidatesDistinct(inputPath: string, advanced: Option<AdvancedSettings>, i: nat, j: nat)
    requires OutputCandidate(inputPath, advanced, i) == OutputCandidate(inputPath, advanced, j)
    ensures i == j
  {
    JoinInjective(OutputDir(inputPath, advanced), CandidateName(inputPath, i), CandidateName(inputPath, j));
    var si, sj := CounterSuffix(i), CounterSuffix(j);
    SplitName(Stem(inputPath) + "-pdfp", si, sj, Extname(inputPath));
    if i != 0 && j != 0 {
      assert NatToString(i) == si[1..] == sj[1..] == NatToString(j);
      NatToStringInjective(i, j);
    }
  }

  /** The paths tried by the first `n` probes, when probe `k` tries `candidate(k)`. */
  ghost function Probed(candidate: nat -> string, n: nat): set<string>
  {
    if n == 0 then {} else Probed(candidate, n - 1) + {candidate(n - 1)}
  }

  /** When no two probes try the same path, the first `n` probes try `n` paths, none of which a later probe tries again. */
  lemma {:induction false} ProbedPathsDistinct(candidate: nat -> string, n: nat)
    requires forall i: nat, j: nat :: candidate(i) == candidate(j) ==> i == j
    ensures forall m: nat :: m >= n ==> candidate(m) !in Probed(candidate, n)
    ensures |Probed(candidate, n)| == n
  {
    if n > 0 {
      ProbedPathsDistinct(candidate, n - 1);
    }
  }

  /** Every path the first `n` probes tried is one of the first `n` candidates. */
  lemma {:induction false} ProbedAreCandidates(candidate: nat -> string, n: nat)
    ensures forall p :: p in Probed(candidate, n) ==> exists k: nat :: k < n && p == candidate(k)
  {
    if n > 0 {
      ProbedAreCandidates(candidate, n - 1);
    }
  }

  lemma SubsetSize<T>(a: set<T>, b: set<T>)
    requires a <= b
    ensures |a| <= |b|
  {
    assert b == a + (b - a);
  }

  /** While every probe so far hit an existing path, there were at least as many existing paths as probes. */
  lemma ProbesAreBounded(inputPath: string, advanced: Option<AdvancedSettings>, existing: set<string>, n: nat)
    requires forall k: nat :: k < n ==> OutputCandidate(inputPath, advanced, k) in existing
    ensures n <= |existing|
  {
    var candidate := (k: nat) => OutputCandidate(inputPath, advanced, k);
    forall i: nat, j: nat | candidate(i) == candidate(j)
      ensures i == j
    {
      CandidatesDistinct(inputPath, advanced, i, j);
    }
    ProbedPathsDistinct(candidate, n);
    ProbedAreCandidates(candidate, n);
    SubsetSize(Probed(candidate, n), existing);
  }

  /**
   * generateOutputPath: probes "<dir>/<stem>-pdfp<ext>", then "-1", "-2", ...
   * against the existing paths and returns the first that is free.
   */
  method GenerateOutputPath(inputPath: string, advanced: Option<AdvancedSettings>, existing: set<string>)
    returns (outputPath: string)
    ensures outputPath !in existing
    ensures IsFirstFree(inputPath, advanced, existing, outputPath)
    ensures OutputCandidate(inputPath, advanced, 0) !in existing ==>
              outputPath == OutputCandidate(inputPath, advanced, 0)
  {
    var ext := Extname(inputPath);
    var dir := OutputDir(inputPath, advanced);
    var basename := Stem(inputPath);
    var baseOutputName := basename + "-pdfp";
    outputPath := Join(dir, baseOutputName + ext);
    ProbePath(inputPath, advanced, dir, baseOutputName, ext, 0);

    var counter := 1;
    while outputPath in existing
      invariant 1 <= counter <= |existing| + 1
      invariant outputPath == OutputCandidate(inputPath, advanced, counter - 1)
      invariant forall k: nat :: k < counter - 1 ==> OutputCandidate(inputPath, advanced, k) in existing
      decreases |existing| + 1 - counter
    {
      ProbesAreBounded(inputPath, advanced, existing, counter);
      outputPath := Join(dir, baseOutputName + "-" + NatToString(counter) + ext);
      ProbePath(inputPath, advanced, dir, baseOutputName, ext, counter);
      counter := counter + 1;
    }
  }

  /** The path the loop builds at probe `n` is that probe's candidate. */
  lemma ProbePath(inputPath: string, advanced: Option<AdvancedSettings>, dir: string, baseOutputName: string,
                  ext: string, n: nat)
    requires dir == OutputDir(inputPath, advanced)
    requires baseOutputName == Stem(inputPath) + "-pdfp" && ext == Extname(inputPath)
    ensures n == 0 ==> Join(dir, baseOutputName + ext) == OutputCandidate(inputPath, advanced, n)
    ensures n > 0 ==> Join(dir, baseOutputName + "-" + NatToString(n) + ext) == OutputCandidate(inputPath, advanced, n)
  {
    NumberedName(baseOutputName, n, ext);
  }

  /** Two calls against the same existing paths return the same path. */
  lemma AllocationIsDeterministic(inputPath: string, advanced: Option<AdvancedSettings>, existing: set<string>,
                                  p: string, q: string)
    requires IsFirstFree(inputPath, advanced, existing, p)
    requires IsFirstFree(inputPath, advanced, existing, q)
    ensures p == q
  {
    var n: nat :| p == OutputCandidate(inputPath, advanced, n) && p !in existing
                  && forall k: nat :: k < n ==> OutputCandidate(inputPath, advanced, k) in existing;
    var m: nat :| q == OutputCandidate(inputPath, advanced, m) && q !in existing
                  && forall k: nat :: k < m ==> OutputCandidate(inputPath, advanced, k) in existing;
  }

  lemma PartsHaveNoSeparator(stem: string, ext: string)
    requires '/' !in stem + ext
    ensures '/' !in stem && '/' !in ext
  {
    assert '/' !in stem by {
      forall i | 0 <= i < |stem| ensures stem[i] != '/' {
        assert stem[i] == (stem + ext)[i];
      }
    }
    assert '/' !in ext by {
      forall i | 0 <= i < |ext| ensures ext[i] != '/' {
        assert ext[i] == (stem + ext)[|stem| + i];
      }
    }
  }

  /** A name built from separator-free parts holds no separator. */
  lemma NameHasNoSeparator(stem: string, suffix: string, ext: string)
    requires '/' !in stem + ext && '/' !in suffix
    ensures '/' !in stem + "-pdfp" + suffix + ext
  {
    PartsHaveNoSeparator(stem, ext);
    var name := stem + "-pdfp" + suffix + ext;
    forall i | 0 <= i < |name| ensures name[i] != '/' {
      if i < |stem| {
        assert name[i] == stem[i];
      } else if i < |stem| + 5 {
        assert name[i] == "-pdfp"[i - |stem|];
      } else if i < |stem| + 5 + |suffix| {
        assert name[i] == suffix[i - |stem| - 5];
      } else {
        assert name[i] == ext[i - |stem| - 5 - |suffix|];
      }
    }
  }

  /** A name "<stem>-pdfp<suffix><ext>" has extension `ext`. */
  lemma NameKeepsExtension(stem: string, suffix: string, ext: string)
    requires '/' !in stem + "-pdfp" + suffix + ext
    requires ext != [] && ext[0] == '.' && '.' !in ext[1..]
    ensures Extname(stem + "-pdfp" + suffix + ext) == ext
  {
    var prefix := stem + "-pdfp" + suffix;
    var name := prefix + ext;
    assert '/' !in prefix && '/' !in ext by {
      forall i | 0 <= i < |prefix| ensures prefix[i] != '/' {
        assert prefix[i] == name[i];
      }
      forall i | 0 <= i < |ext| ensures ext[i] != '/' {
        assert ext[i] == name[|prefix| + i];
      }
    }
    ExtnameOfName(prefix, ext);
  }

  /** Every candidate keeps the input's extension, so a PDF is compressed to a PDF. */
  lemma CandidateKeepsExtension(inputPath: string, advanced: Option<AdvancedSettings>, n: nat)
    requires Extname(inputPath) != ""
    ensures Extname(OutputCandidate(inputPath, advanced, n)) == Extname(inputPath)
    ensures IsSupportedFormat(inputPath) ==> IsSupportedFormat(OutputCandidate(inputPath, advanced, n))
  {
    var name := CandidateName(inputPath, n);
    BasenameOfJoin(OutputDir(inputPath, advanced), name);
    BasenameOfJoin("", name);
    SameBasenameSameExtname(OutputCandidate(inputPath, advanced, n), name);
    NameKeepsExtension(Stem(inputPath), CounterSuffix(n), Extname(inputPath));
  }

  /** No candidate is the input path itself: compressing never overwrites the original. */
  lemma CandidateIsNotInput(inputPath: string, advanced: Option<AdvancedSettings>, n: nat)
    ensures OutputCandidate(inputPath, advanced, n) != inputPath
  {
    var name := CandidateName(inputPath, n);
    BasenameOfJoin(OutputDir(inputPath, advanced), name);
    assert |name| >= |Stem(inputPath)| + 5 + |Extname(inputPath)| == |Basename(inputPath)| + 5;
  }

  // ---------------------------------------------------------------------------
  // Batch bookkeeping
  // ---------------------------------------------------------------------------

  datatype ValidationResult = ValidationResult(valid: bool, error: Option<string>)

  const NoFilesError: string := "No valid files found"
  const NotAllPdfError: string := "All files must be PDF files"

  /** Whether every file in the selection has type "pdf". */
  function AllPdf(files: seq<FileInfo>): (all: bool)
    ensures all <==> forall i :: 0 <= i < |files| ==> files[i].fileType == PdfType
  {
    if files == [] then true else files[0].fileType == PdfType && AllPdf(files[1..])
  }

  /**
   * validateBatchFiles: an empty selection is rejected, a single file is
   * accepted as it is, and a longer selection must be all PDF files.
   */
  function ValidateBatchFiles(files: seq<FileInfo>): (v: ValidationResult)
    ensures v.valid <==> |files| == 1 || (|files| > 1 && forall i :: 0 <= i < |files| ==> files[i].fileType == PdfType)
    ensures v.valid <==> v.error == None
    ensures |files| == 0 ==> v.error == Some(NoFilesError)
    ensures |files| > 0 && !v.valid ==> v.error == Some(NotAllPdfError)
  {
    if |files| == 0 then ValidationResult(false, Some(NoFilesError))
    else if |files| == 1 then ValidationResult(true, None)
    else if !AllPdf(files) then ValidationResult(false, Some(NotAllPdfError))
    else ValidationResult(true, None)
  }

  /** The FileInfo part of each batch entry (a BatchFileInfo is a FileInfo with more fields). */
  function Infos(batch: seq<BatchFileInfo>): (files: seq<FileInfo>)
  {
    seq(|batch|, i requires 0 <= i < |batch| => batch[i].info)
  }

  /**
   * toBatchFiles: each file, in order, becomes a pending entry with progress 0;
   * `ids` are the identifiers generateBatchId draws for them, one per file.
   */
  function ToBatchFiles(files: seq<FileInfo>, ids: seq<string>): (batch: seq<BatchFileInfo>)
    requires |ids| == |files|
    ensures |batch| == |files|
    ensures forall i :: 0 <= i < |files| ==>
              && batch[i].info == files[i]
              && batch[i].id == ids[i]
              && batch[i].status == Pending
              && batch[i].progress == 0.0
              && batch[i].result == None
              && batch[i].error == None
  {
    if files == [] then []
    else [BatchFileInfo(files[0], ids[0], Pending, 0.0, None, None)] + ToBatchFiles(files[1..], ids[1..])
  }

  /** Converting to batch entries loses no file and reorders none. */
  lemma ToBatchFilesKeepsFiles(files: seq<FileInfo>, ids: seq<string>)
    requires |ids| == |files|
    ensures Infos(ToBatchFiles(files, ids)) == files
  {
  }

  /** Conversion works file by file: converting a concatenation concatenates the conversions. */
  lemma ToBatchFilesOfConcat(a: seq<FileInfo>, b: seq<FileInfo>, ia: seq<string>, ib: seq<string>)
    requires |ia| == |a| && |ib| == |b|
    ensures ToBatchFiles(a + b, ia + ib) == ToBatchFiles(a, ia) + ToBatchFiles(b, ib)
  {
    var whole, left, right := ToBatchFiles(a + b, ia + ib), ToBatchFiles(a, ia), ToBatchFiles(b, ib);
    forall i | 0 <= i < |whole|
      ensures whole[i] == (left + right)[i]
    {
      if i >= |a| {
        assert (a + b)[i] == b[i - |a|] && (ia + ib)[i] == ib[i - |a|];
      }
    }
  }

  /** calculateTotalSize: the sizes of the files added up, 0 for none. */
  function CalculateTotalSize(files: seq<FileInfo>): (total: nat)
    ensures forall i :: 0 <= i < |files| ==> files[i].size <= total
  {
    if files == [] then 0
    else CalculateTotalSize(files[..|files| - 1]) + files[|files| - 1].size
  }

  /** The total of a concatenation is the sum of the totals. */
  lemma {:induction false} TotalSizeOfConcat(a: seq<FileInfo>, b: seq<FileInfo>)
    ensures CalculateTotalSize(a + b) == CalculateTotalSize(a) + CalculateTotalSize(b)
    decreases |b|
  {
    if b == [] {
      assert a + b == a;
    } else {
      var last := |b| - 1;
      assert (a + b)[..|a + b| - 1] == a + b[..last];
      TotalSizeOfConcat(a, b[..last]);
    }
  }

  /** The total of a single file is its size. */
  lemma TotalSizeOfOne(f: FileInfo)
    ensures CalculateTotalSize([f]) == f.size
  {
    assert [f][..0] == [];
  }
}
