/** gyuu/compressor.py: format resolution, dispatch to the per-format policy,
    the single-image pipeline (compress_image) and the directory batch
    (process_directory). File-system access and the imaging library are the
    functions of an `Env`; paths are '/'-separated normalised strings. */
module Compressor {
  import opened Common
  import opened Paths
  import opened Formats
  import opened Resize

  /** What compress_image can raise, by the step that raises it. */
  datatype Error =
    | NotFound(path: string)
    | OpenFailed(message: string)
    | BadOutputPath(reason: PathError)
    | EncodeFailed(message: string)
    | WriteFailed(message: string)

  /** One entry of the result list: the success dict or the `{input, error}` dict. */
  datatype CompressionResult =
    | Success(input: string, output: string, originalSize: nat, compressedSize: nat, reduction: real)
    | Failure(input: string, error: Error)

  /** The world compress_image talks to. `decode` is opening the image,
      `exifTranspose` yields None when the library raises, `encode` runs the
      plan's conversions and the save into memory, `write` creates the parent
      directories and writes the file, yielding the message of what it raised. */
  datatype Env = Env(
    pathExists: string -> bool,
    fileSize: string -> nat,
    decode: string -> Result<Image, string>,
    exifTranspose: Image -> Option<Image>,
    encode: (Image, SaveOptions) -> Result<seq<Byte>, string>,
    write: (string, seq<Byte>) -> Option<string>)

  /** The per-call settings; an empty `outputFormat` and a cap of 0 stand for
      "not given", as the source only tests them for truthiness. */
  datatype Options = Options(quality: int, outputFormat: string, maxWidth: nat, maxHeight: nat)

  /** str.lstrip('.') */
  function StripLeadingDots(s: string): (r: string)
    ensures |r| <= |s| && r == s[|s| - |r|..]
    ensures r == [] || r[0] != '.'
  {
    if s != [] && s[0] == '.' then StripLeadingDots(s[1..]) else s
  }

  /** determine_format: an explicit format lower-cased as it is; otherwise the
      path's suffix lower-cased without its dot, "jpeg" read as "jpg". */
  function DetermineFormat(inputPath: string, outputFormat: string): string
  {
    if outputFormat != "" then ToLower(outputFormat) else SuffixTag(ToLower(Suffix(inputPath)))
  }

  /** The tag a lower-cased suffix names: without its dot, "jpeg" read as "jpg". */
  function SuffixTag(low: string): string
  {
    var fmt := StripLeadingDots(low);
    if fmt == "jpeg" then "jpg" else fmt
  }

  /** Lower-casing keeps a suffix's shape: empty, or a dot followed by at
      least one character that is not a dot. */
  lemma {:induction false} LowerSuffixShape(p: string)
    ensures var low := ToLower(Suffix(p));
      low == "" || (|low| >= 2 && low[0] == '.' && low[1] != '.')
    ensures ToLower(Suffix(p)) == "" <==> Suffix(p) == ""
  {
    SuffixShape(p);
  }

  lemma {:induction false} StripOneDot(s: string)
    requires |s| >= 2 && s[0] == '.' && s[1] != '.'
    ensures StripLeadingDots(s) == s[1..]
  {
    assert s[1..][0] == s[1];
  }

  /** The tag of a lower-case suffix is lower-case and never "jpeg": ".jpeg"
      gives "jpg", any other suffix itself without its dot. */
  lemma {:induction false} SuffixTagSpec(low: string)
    requires IsLower(low)
    requires low == "" || (|low| >= 2 && low[0] == '.' && low[1] != '.')
    ensures IsLower(SuffixTag(low)) && SuffixTag(low) != "jpeg"
    ensures low != ".jpeg" ==> (if low == "" then SuffixTag(low) == "" else "." + SuffixTag(low) == low)
    ensures low == ".jpeg" ==> SuffixTag(low) == "jpg"
  {
    if low != "" {
      StripOneDot(low);
      var rest := low[1..];
      assert "." + rest == low;
      assert forall k :: 0 <= k < |rest| ==> rest[k] == low[k + 1];
      if rest == "jpeg" {
        assert SuffixTag(low) == "jpg";
      }
    }
  }

  /** The resolved tag is lower-case; derived from a path it is never "jpeg":
      a ".jpeg" suffix in any case gives "jpg", any other suffix its
      lower-cased self without the dot. */
  lemma {:induction false} DetermineFormatSpec(inputPath: string, outputFormat: string)
    ensures IsLower(DetermineFormat(inputPath, outputFormat))
    ensures outputFormat != "" ==> DetermineFormat(inputPath, outputFormat) == ToLower(outputFormat)
    ensures outputFormat == "" ==> DetermineFormat(inputPath, outputFormat) != "jpeg"
    ensures outputFormat == "" && ToLower(Suffix(inputPath)) != ".jpeg" ==>
      (if Suffix(inputPath) == "" then DetermineFormat(inputPath, outputFormat) == ""
       else "." + DetermineFormat(inputPath, outputFormat) == ToLower(Suffix(inputPath)))
    ensures outputFormat == "" && ToLower(Suffix(inputPath)) == ".jpeg" ==>
      DetermineFormat(inputPath, outputFormat) == "jpg"
  {
    ToLowerIsLower(outputFormat);
    ToLowerIsLower(Suffix(inputPath));
    LowerSuffixShape(inputPath);
    SuffixTagSpec(ToLower(Suffix(inputPath)));
  }

  /** A resolved tag, passed back in as the explicit format, resolves to itself. */
  lemma DetermineFormatIdempotent(inputPath: string, outputFormat: string, otherPath: string)
    requires DetermineFormat(inputPath, outputFormat) != ""
    ensures DetermineFormat(otherPath, DetermineFormat(inputPath, outputFormat))
      == DetermineFormat(inputPath, outputFormat)
  {
    DetermineFormatSpec(inputPath, outputFormat);
    ToLowerIsLower(DetermineFormat(inputPath, outputFormat));
  }

  lemma DetermineFormatExamples()
    ensures DetermineFormat("photo.JPEG", "") == "jpg"
    ensures DetermineFormat("a.png", "webp") == "webp"
  {
    var p := "photo.JPEG";
    assert p[5] == '.';
    assert LastIndexOf(p, '/') == -1;
    assert Name(p) == p;
    assert LastIndexOf(p, '.') == 5;
    assert Suffix(p) == ".JPEG";
    assert ToLower(".JPEG") == ".jpeg";
    StripOneDot(".jpeg");
  }

  datatype Codec = PngCodec | JpegCodec | WebpCodec | DefaultCodec

  /** The branch of compress_by_format a tag selects. */
  function CodecFor(fmt: string): Codec
  {
    if fmt == "png" then PngCodec
    else if fmt == "jpg" || fmt == "jpeg" then JpegCodec
    else if fmt == "webp" then WebpCodec
    else DefaultCodec
  }

  /** compress_by_format: the plan of the selected policy. */
  function CompressByFormat(image: Image, fmt: string, quality: int): Plan
  {
    match CodecFor(fmt)
    case PngCodec => CompressPng(image, quality)
    case JpegCodec => CompressJpeg(image, quality)
    case WebpCodec => CompressWebp(image, quality)
    case DefaultCodec => CompressDefault(image)
  }

  /** Only the default re-save ignores both the quality and the target format:
      it re-encodes in the image's own format. */
  lemma DispatchSpec(image: Image, fmt: string, quality: int)
    ensures CodecFor(fmt) == DefaultCodec <==> fmt !in {"png", "jpg", "jpeg", "webp"}
    ensures CodecFor(fmt) == DefaultCodec ==> CompressByFormat(image, fmt, quality).save.format == image.format
    ensures CodecFor(fmt) != DefaultCodec ==> CompressByFormat(image, fmt, quality).save.format.Some?
    ensures CompressByFormat(image, fmt, quality).save.quality.Some? <==> fmt in {"jpg", "jpeg", "webp"}
  {
  }

  /** Files picked up by extension reach the codec of that extension: png,
      jpg/jpeg and webp their own, gif and bmp the default re-save. */
  lemma SupportedExtensionCodec(path: string)
    requires ToLower(Suffix(path)) in SupportedExtensions
    ensures var codec := CodecFor(DetermineFormat(path, ""));
      var ext := ToLower(Suffix(path));
      && (ext == ".png" ==> codec == PngCodec)
      && (ext in {".jpg", ".jpeg"} ==> codec == JpegCodec)
      && (ext == ".webp" ==> codec == WebpCodec)
      && (ext in {".gif", ".bmp"} ==> codec == DefaultCodec)
  {
    ExtensionCodec(ToLower(Suffix(path)));
  }

  lemma {:induction false} ExtensionCodec(ext: string)
    requires ext in SupportedExtensions
    ensures var codec := CodecFor(SuffixTag(ext));
      && (ext == ".png" ==> codec == PngCodec)
      && (ext in {".jpg", ".jpeg"} ==> codec == JpegCodec)
      && (ext == ".webp" ==> codec == WebpCodec)
      && (ext in {".gif", ".bmp"} ==> codec == DefaultCodec)
  {
    StripOneDot(ext);
    var tag := ext[1..];
    if ext == ".png" {
      assert tag == "png";
    } else if ext == ".jpg" {
      assert tag == "jpg";
    } else if ext == ".jpeg" {
      assert tag == "jpeg";
    } else if ext == ".webp" {
      assert tag == "webp";
    } else if ext == ".gif" {
      assert tag == "gif";
    } else {
      assert tag == "bmp";
    }
  }

  /** The extension compress_image forces when a format is given. */
  function OutputExtension(fmt: string): (ext: string)
    ensures ext == "." + fmt
  {
    if fmt == "jpg" then ".jpg" else "." + fmt
  }

  /** compress_image's output path: the input path when none is given; with an
      explicit format, the suffix replaced by "." + the resolved tag. */
  function OutputPath(inputPath: string, outputPath: Option<string>, outputFormat: string, fmt: string)
    : Result<string, PathError>
  {
    var base := if outputPath.None? then inputPath else outputPath.value;
    if outputFormat != "" then WithSuffix(base, OutputExtension(fmt)) else Ok(base)
  }

  /** Without a format the path is kept as given (or the input path); with one,
      only the suffix changes, and it becomes the format's. */
  lemma OutputPathSpec(inputPath: string, outputPath: Option<string>, outputFormat: string)
    ensures var base := if outputPath.None? then inputPath else outputPath.value;
      outputFormat == "" ==> OutputPath(inputPath, outputPath, outputFormat, DetermineFormat(inputPath, outputFormat)) == Ok(base)
    ensures var base := if outputPath.None? then inputPath else outputPath.value;
      var fmt := DetermineFormat(inputPath, outputFormat);
      var r := OutputPath(inputPath, outputPath, outputFormat, fmt);
      outputFormat != "" && PlainTag(fmt) && Name(base) != "" ==>
        r.Ok? && Parent(r.value) == Parent(base) && Stem(r.value) == Stem(base)
        && Suffix(r.value) == "." + ToLower(outputFormat)
    ensures var base := if outputPath.None? then inputPath else outputPath.value;
      var fmt := DetermineFormat(inputPath, outputFormat);
      var r := OutputPath(inputPath, outputPath, outputFormat, fmt);
      && (outputFormat != "" && '/' in fmt ==> r == Err(InvalidSuffix("." + fmt)))
      && (outputFormat != "" && PlainTag(fmt) && Name(base) == "" ==> r == Err(EmptyName(base)))
  {
    var base := if outputPath.None? then inputPath else outputPath.value;
    var fmt := DetermineFormat(inputPath, outputFormat);
    if outputFormat != "" {
      var ext := OutputExtension(fmt);
      assert OutputPath(inputPath, outputPath, outputFormat, fmt) == WithSuffix(base, ext);
      if '/' in fmt {
        assert '/' in ext by {
          var k :| 0 <= k < |fmt| && fmt[k] == '/';
          assert ext[k + 1] == '/';
        }
      } else if PlainTag(fmt) {
        ExtensionShape(fmt);
        if Name(base) != "" {
          WithSuffixSets(base, fmt);
        }
      }
    }
  }

  /** The extension of a plain tag is a well-formed suffix. */
  lemma ExtensionShape(fmt: string)
    requires PlainTag(fmt)
    ensures '/' !in OutputExtension(fmt) && OutputExtension(fmt)[0] == '.' && OutputExtension(fmt) != "."
  {
    var ext := OutputExtension(fmt);
    assert forall k :: 1 <= k < |ext| ==> ext[k] == fmt[k - 1];
  }

  /** The reduction percentage of the result dict. */
  function Reduction(originalSize: nat, compressedSize: nat): real
  {
    if originalSize > 0
    then (originalSize as real - compressedSize as real) / originalSize as real * 100.0
    else 0.0
  }

  /** Reduction is the saved share of the original in percent; it is negative
      exactly when the output grew, never above 100, and 0 for an empty original. */
  lemma ReductionSpec(originalSize: nat, compressedSize: nat)
    ensures originalSize > 0 ==>
      Reduction(originalSize, compressedSize) * originalSize as real
        == (originalSize as real - compressedSize as real) * 100.0
    ensures originalSize > 0 ==> (Reduction(originalSize, compressedSize) < 0.0 <==> compressedSize > originalSize)
    ensures Reduction(originalSize, compressedSize) <= 100.0
    ensures originalSize == 0 ==> Reduction(originalSize, compressedSize) == 0.0
  {
    if originalSize > 0 {
      var o, c := originalSize as real, compressedSize as real;
      var q := (o - c) / o;
      assert q * o == o - c;
      assert q <= 1.0;
      assert q < 0.0 <==> c > o by {
        if q < 0.0 { assert q * o < 0.0; }
        if c > o { assert q * o < 0.0; }
      }
    }
  }

  lemma ReductionExamples()
    ensures Reduction(1000, 1000) == 0.0
    ensures Reduction(1000, 1200) == -20.0
  {
  }

  /** The orientation step swallows the library's failure. */
  function Oriented(env: Env, img: Image): Image
  {
    match env.exifTranspose(img)
    case Some(t) => t
    case None => img
  }

  /** compress_by_format: the encoder's bytes for the image after the
      format's conversion and quantization steps. */
  function Encoding(env: Env, img: Image, fmt: string, quality: int): Result<seq<Byte>, string>
  {
    var plan := CompressByFormat(img, fmt, quality);
    env.encode(Prepared(img, plan.steps), plan.save)
  }

  /** compress_image: raises (Err) at the first failing step, in the order
      existence, decoding, output path, encoding, writing; otherwise the
      encoded bytes are written to the output path and the success dict
      records their length. */
  function CompressImage(env: Env, inputPath: string, outputPath: Option<string>, opts: Options)
    : (r: Result<CompressionResult, Error>)
    ensures !env.pathExists(inputPath) ==> r == Err(NotFound(inputPath))
    ensures env.pathExists(inputPath) && env.decode(inputPath).Err? ==>
      r == Err(OpenFailed(env.decode(inputPath).error))
    ensures env.pathExists(inputPath) && env.decode(inputPath).Ok? ==>
      r == CompressLoaded(env, inputPath, outputPath, opts, env.decode(inputPath).value)
    ensures r.Ok? ==> && r.value.Success?
                      && r.value.input == inputPath
                      && r.value.originalSize == env.fileSize(inputPath)
                      && r.value.reduction == Reduction(r.value.originalSize, r.value.compressedSize)
                      && OutputPath(inputPath, outputPath, opts.outputFormat,
                           DetermineFormat(inputPath, opts.outputFormat)) == Ok(r.value.output)
  {
    if !env.pathExists(inputPath) then Err(NotFound(inputPath))
    else
      match env.decode(inputPath)
      case Err(msg) => Err(OpenFailed(msg))
      case Ok(loaded) => CompressLoaded(env, inputPath, outputPath, opts, loaded)
  }

  /** The steps of compress_image after Image.open: orientation and resize,
      the output path, compress_by_format and the write. The first failure is
      the error; on success the bytes the encoder returned are what was
      written to the output path, and their length is the compressed size. */
  function CompressLoaded(env: Env, inputPath: string, outputPath: Option<string>, opts: Options, loaded: Image)
    : (r: Result<CompressionResult, Error>)
    ensures var fmt := DetermineFormat(inputPath, opts.outputFormat);
      var out := OutputPath(inputPath, outputPath, opts.outputFormat, fmt);
      var data := Encoding(env, PipelineImage(env, loaded, opts), fmt, opts.quality);
      && (out.Err? ==> r == Err(BadOutputPath(out.error)))
      && (out.Ok? && data.Err? ==> r == Err(EncodeFailed(data.error)))
      && (out.Ok? && data.Ok? && env.write(out.value, data.value).Some? ==>
            r == Err(WriteFailed(env.write(out.value, data.value).value)))
      && (out.Ok? && data.Ok? && env.write(out.value, data.value).None? ==>
            r == Ok(Success(inputPath, out.value, env.fileSize(inputPath), |data.value|,
                            Reduction(env.fileSize(inputPath), |data.value|))))
  {
    var originalSize := env.fileSize(inputPath);
    var img := PipelineImage(env, loaded, opts);
    var fmt := DetermineFormat(inputPath, opts.outputFormat);
    match OutputPath(inputPath, outputPath, opts.outputFormat, fmt)
    case Err(e) => Err(BadOutputPath(e))
    case Ok(outPath) =>
      match Encoding(env, img, fmt, opts.quality)
      case Err(msg) => Err(EncodeFailed(msg))
      case Ok(data) =>
        match env.write(outPath, data)
        case Some(msg) => Err(WriteFailed(msg))
        case None => Ok(Success(inputPath, outPath, originalSize, |data|, Reduction(originalSize, |data|)))
  }

  /** The image the pipeline hands to the plan, and the size it has. */
  function PipelineImage(env: Env, loaded: Image, opts: Options): (img: Image)
    ensures SizeOf(img) == TargetSize(SizeOf(Oriented(env, loaded)), opts.maxWidth, opts.maxHeight)
  {
    Resized(Oriented(env, loaded), opts.maxWidth, opts.maxHeight)
  }

  /** A resized image carries no format of its own, so on the default route
      (gif, bmp, any unknown tag) the re-save is asked for no format at all. */
  lemma ResizedDefaultHasNoFormat(env: Env, loaded: Image, opts: Options, fmt: string)
    requires CodecFor(fmt) == DefaultCodec
    requires TargetSize(SizeOf(Oriented(env, loaded)), opts.maxWidth, opts.maxHeight) != SizeOf(Oriented(env, loaded))
    ensures CompressByFormat(PipelineImage(env, loaded, opts), fmt, opts.quality).save.format == None
  {
  }

  /** The extensions the batch picks up, compared case-insensitively. */
  predicate IsSupportedPath(path: string)
  {
    ToLower(Suffix(path)) in SupportedExtensions
  }

  /** The elements of `s` that `keep` accepts, in their order in `s`. */
  function Filter(keep: string -> bool, s: seq<string>): (r: seq<string>)
    ensures |r| <= |s|
  {
    if s == [] then []
    else Filter(keep, s[..|s| - 1]) + (if keep(s[|s| - 1]) then [s[|s| - 1]] else [])
  }

  /** An element survives exactly when it is in `s` and accepted. */
  lemma {:induction false} FilterMembers(keep: string -> bool, s: seq<string>, e: string)
    ensures e in Filter(keep, s) <==> e in s && keep(e)
  {
    if s != [] {
      var init := s[..|s| - 1];
      FilterMembers(keep, init, e);
      assert s == init + [s[|s| - 1]];
    }
  }

  /** Filtering splits over concatenation, so it keeps the order of `s`. */
  lemma {:induction false} FilterAppend(keep: string -> bool, a: seq<string>, b: seq<string>)
    ensures Filter(keep, a + b) == Filter(keep, a) + Filter(keep, b)
    decreases |b|
  {
    if b == [] {
      assert a + b == a;
    } else {
      var init := b[..|b| - 1];
      assert (a + b)[..|a + b| - 1] == a + init;
      FilterAppend(keep, a, init);
    }
  }

  /** `f` applied to the elements of `s` that `keep` accepts, in order. */
  function FilterMap<R>(keep: string -> bool, f: string -> R, s: seq<string>): seq<R>
  {
    if s == [] then []
    else FilterMap(keep, f, s[..|s| - 1]) + (if keep(s[|s| - 1]) then [f(s[|s| - 1])] else [])
  }

  /** Element by element, FilterMap is `f` over Filter. */
  lemma {:induction false} FilterMapSpec<R>(keep: string -> bool, f: string -> R, s: seq<string>)
    ensures |FilterMap(keep, f, s)| == |Filter(keep, s)|
    ensures forall i :: 0 <= i < |Filter(keep, s)| ==> FilterMap(keep, f, s)[i] == f(Filter(keep, s)[i])
  {
    if s != [] {
      FilterMapSpec(keep, f, s[..|s| - 1]);
    }
  }

  /** The batch's test on an entry relative to the input directory. */
  function Supported(inputDir: string): string -> bool
  {
    e => IsSupportedPath(Join(inputDir, e))
  }

  /** The enumerated entries (relative to the input directory) that the batch
      processes, in enumeration order. */
  function Matching(inputDir: string, entries: seq<string>): seq<string>
  {
    Filter(Supported(inputDir), entries)
  }

  /** One more enumerated entry adds itself to the processed ones when it is supported. */
  lemma MatchingStep(inputDir: string, entries: seq<string>, k: nat)
    requires k < |entries|
    ensures IsSupportedPath(Join(inputDir, entries[k])) ==>
      Matching(inputDir, entries[..k + 1]) == Matching(inputDir, entries[..k]) + [entries[k]]
    ensures !IsSupportedPath(Join(inputDir, entries[k])) ==>
      Matching(inputDir, entries[..k + 1]) == Matching(inputDir, entries[..k])
  {
    assert entries[..k + 1][..k] == entries[..k];
  }

  /** An entry is processed exactly when it is enumerated and its extension is supported. */
  lemma MatchingMembers(inputDir: string, entries: seq<string>, e: string)
    ensures e in Matching(inputDir, entries) <==> e in entries && IsSupportedPath(Join(inputDir, e))
  {
    FilterMembers(Supported(inputDir), entries, e);
  }

  /** The try/except around compress_image: what it raises becomes a failure
      record for that file. */
  function Attempt(env: Env, filepath: string, outPath: Option<string>, opts: Options): (r: CompressionResult)
    ensures r.input == filepath
    ensures r.Success? <==> CompressImage(env, filepath, outPath, opts).Ok?
  {
    match CompressImage(env, filepath, outPath, opts)
    case Ok(result) => result
    case Err(e) => Failure(filepath, e)
  }

  /** One iteration of the batch: the file's output path mirrors its path
      below the input directory onto the output directory (when one is given),
      and whatever compress_image raises becomes an `{input, error}` record. */
  function ProcessEntry(env: Env, inputDir: string, entry: string, outputDir: string, opts: Options)
    : (r: CompressionResult)
    ensures r.input == Join(inputDir, entry)
    ensures r.Success? && outputDir != "" && opts.outputFormat == "" ==> r.output == Join(outputDir, entry)
    ensures r.Success? && outputDir == "" && opts.outputFormat == "" ==> r.output == Join(inputDir, entry)
  {
    var filepath := Join(inputDir, entry);
    RelativeToJoin(inputDir, entry);
    var outPath := if outputDir != "" then Some(Join(outputDir, RelativeTo(filepath, inputDir).value)) else None;
    Attempt(env, filepath, outPath, opts)
  }

  /** The try/except body of the batch, for one entry. */
  function Processor(env: Env, inputDir: string, outputDir: string, opts: Options): string -> CompressionResult
  {
    e => ProcessEntry(env, inputDir, e, outputDir, opts)
  }

  /** The records the batch produces for the enumerated entries, in order. */
  function Batch(env: Env, inputDir: string, entries: seq<string>, outputDir: string, opts: Options)
    : seq<CompressionResult>
  {
    FilterMap(Supported(inputDir), Processor(env, inputDir, outputDir, opts), entries)
  }

  /** The batch holds one record per processed entry, that entry's record, in
      the order the entries were enumerated. */
  lemma BatchSpec(env: Env, inputDir: string, entries: seq<string>, outputDir: string, opts: Options)
    ensures |Batch(env, inputDir, entries, outputDir, opts)| == |Matching(inputDir, entries)|
    ensures forall i :: 0 <= i < |Matching(inputDir, entries)| ==>
      Batch(env, inputDir, entries, outputDir, opts)[i] == ProcessEntry(env, inputDir, Matching(inputDir, entries)[i], outputDir, opts)
  {
    FilterMapSpec(Supported(inputDir), Processor(env, inputDir, outputDir, opts), entries);
  }

  /** process_directory over the entries the (recursive or flat) enumeration
      yielded: one record per supported file, in enumeration order, with a
      failure record where compress_image raised and the loop going on. */
  method ProcessDirectory(env: Env, inputDir: string, entries: seq<string>, outputDir: string, opts: Options)
    returns (results: seq<CompressionResult>)
    ensures results == Batch(env, inputDir, entries, outputDir, opts)
  {
    var supported, process := Supported(inputDir), Processor(env, inputDir, outputDir, opts);
    results := [];
    for k := 0 to |entries|
      invariant results == FilterMap(supported, process, entries[..k])
    {
      assert entries[..k + 1][..k] == entries[..k];
      if supported(entries[k]) {
        results := results + [process(entries[k])];
      }
    }
    assert entries[..|entries|] == entries;
  }
}
