# gyuu — a verified model of the compressor's decision logic

gyuu compresses images from the command line (the `gyuu` Python package) and
in a browser front end (`gui/app.js`). This project models, in Dafny, every
decision the two make about an image, with the pixels and the codecs
abstracted away:

- **Resize policy.** `resize_image` applies a width cap, then a height cap on
  the updated height; the height pass overrides the width. The browser repeats
  the policy with `Math.round` where Python truncates.
- **Format resolution and dispatch.** `determine_format`,
  `compress_by_format`, the output-path rewrite of `compress_image`, and the
  browser's mime type, extension and file-name rewrite.
- **Per-format colour-mode plans.** `formats.py` decides the mode conversions
  and quantization that run before the encoder, the options the encoder is
  called with, and the supported-extension set.
- **The single-image pipeline and the batch.** `compress_image` runs its steps
  around an environment of I/O functions. `process_directory` filters the
  entries, mirrors relative paths onto the output directory, and records one
  result per file.
- **Result arithmetic.** Reduction percentages, the CLI summary counters, the
  browser summary and badges, and the size-unit choice of both front ends.
- **Browser state.** The in-place RGB quantization of an RGBA byte buffer, and
  the `state.files` table as a class with insertion, deletion and the summary.

An image is the record `Image(width, height, mode, format)`. Library
operations such as resample, convert and quantize produce images whose format
is `None`, as the imaging library's own images have no file format.

Decoding, EXIF orientation, encoding, file-system access and directory
enumeration are fields of the `Compressor.Env` and `Cli.CliEnv` datatypes.
The browser's image loading and `canvas.toBlob` are fields of
`BrowserSession.BrowserEnv`.

A cap of 0 stands for "no cap". The source only tests caps for truthiness,
so `None` and 0 behave alike. For the same reason, an empty output format or
output directory stands for `None`.

Modules:
- `Common`: Option and Result, the abstract image, ASCII lower-casing.
- `Paths`: the parts of pathlib the compressor uses.
- `Formats`: `gyuu/formats.py`.
- `Resize`: `resize_image`.
- `Compressor`: the rest of `gyuu/compressor.py`.
- `Sizes`: `gyuu/utils.py`.
- `Cli`: `gyuu/cli.py`.
- `JsMath`: `Math.round` of a quotient.
- `BrowserQuantize`, `BrowserPipeline` and `BrowserSession`: `gui/app.js`.

## Model

| member | source | states |
|---|---|---|
| Resize.TargetSize | gyuu/compressor.py:23-37 | definition: the width pass, then the height pass on the updated height, each truncating the proportional side |
| Resize.Resized | gyuu/compressor.py:17-42 | the image returned has the two-pass target size and the original mode, and it is the original image exactly when the target equals the original size |
| Resize.ResizeImage | gyuu/compressor.py:17-42 | the two passes over the local width and height, then the resample, compute exactly `Resized` |
| Resize.PassesShrink | gyuu/compressor.py:29-37 | neither pass enlarges either axis |
| Resize.NoUpscaleWithinCaps | gyuu/compressor.py:29-37 | the result is no larger than the original on both axes, and within each cap that is given |
| Resize.UnchangedIffWithinCaps | gyuu/compressor.py:23-24 | the size is kept exactly when every given cap is already met, including the case where no cap is given |
| Resize.PassesTruncateRatio | gyuu/compressor.py:29-37 | the capped axis equals the cap, and the other axis is the floor of the proportional length |
| Resize.HeightCapOverrides | gyuu/compressor.py:34-37 | when both caps bind, the height is exactly the height cap and the width stays within the width cap |
| Resize.ResizeExamples | gyuu/compressor.py:29-37 | (3000,2000) becomes (1500,1000) with a width cap of 1500, and (900,600) with a height cap of 600 added; (800,600) is unchanged under a width cap of 1600 |
| Resize.FlatImageLosesHeight | gyuu/compressor.py:29-32 | truncation takes a 3000x1 image capped at width 1500 to height 0 |
| Formats.CompressPng | gyuu/formats.py:7-26 | definition: the conversion and quantization steps for each mode, and the PNG call with optimize and without a quality |
| Formats.CompressJpeg | gyuu/formats.py:29-36 | definition: RGBA and P are converted to RGB, then the JPEG call with the quality and optimize |
| Formats.CompressWebp | gyuu/formats.py:39-43 | definition: no steps, then the WebP call with the quality and method 6 |
| Formats.CompressDefault | gyuu/formats.py:46-50 | definition: no steps, then a save in the image's own format with optimize |
| Formats.PreparedKeepsSize | gyuu/formats.py:7-35 | no conversion or quantization step changes the pixel dimensions |
| Formats.PreparedMode | gyuu/formats.py:7-35 | the mode the encoder receives is the target of the last step, or the original mode when there are no steps |
| Formats.PngPlan | gyuu/formats.py:7-26 | PNG ignores the quality and never passes one; the encoder receives RGBA for RGBA, P for P and RGB for every other mode, at the original size |
| Formats.PngKeepsAlphaOnlyForRgba | gyuu/formats.py:10-22 | the mode handed to the PNG encoder is RGBA exactly when the source image is RGBA |
| Formats.PngQuantizesLast | gyuu/formats.py:10-22 | every mode except P ends with a 256-colour median-cut quantization followed by a conversion; P has no such steps |
| Formats.JpegPlan | gyuu/formats.py:29-36 | JPEG never receives RGBA or P, any other mode reaches it unchanged, and the call is JPEG with the quality and optimize |
| Formats.PassThroughPlans | gyuu/formats.py:39-50 | WebP and the default re-save convert nothing; WebP passes the quality and method 6, and the default re-save passes the image's own format with optimize and no quality |
| Compressor.DetermineFormat | gyuu/compressor.py:45-53 | definition: the explicit format lower-cased, or the tag of the lower-cased suffix |
| Compressor.SuffixTag | gyuu/compressor.py:50-53 | definition: the suffix without its dot, with ".jpeg" mapped to "jpg" |
| Compressor.DetermineFormatSpec | gyuu/compressor.py:45-53 | an explicit format is returned lower-cased; otherwise the result is the lower-cased suffix without its dot, except that ".jpeg" in any case gives "jpg"; it is never "jpeg", and empty for a path without a suffix |
| Compressor.SuffixTagSpec | gyuu/compressor.py:50-53 | the tag of a lower-case suffix is lower-case and never "jpeg": ".jpeg" gives "jpg", and any other suffix loses its dot |
| Compressor.DetermineFormatIdempotent | gyuu/compressor.py:45-53 | a resolved non-empty format, passed back in as the explicit format, resolves to itself |
| Compressor.DetermineFormatExamples | gyuu/compressor.py:45-53 | "photo.JPEG" resolves to "jpg", and an explicit "webp" wins over the ".png" suffix |
| Compressor.CodecFor | gyuu/compressor.py:56-65 | definition: png, jpg or jpeg, webp, and everything else to the default re-save |
| Compressor.CompressByFormat | gyuu/compressor.py:56-65 | definition: the plan of the encoder `CodecFor` selects, with the quality where that encoder takes one |
| Compressor.DispatchSpec | gyuu/compressor.py:56-65 | only tags other than png, jpg, jpeg and webp reach the default re-save, which saves in the image's own format; a quality is passed exactly for jpg, jpeg and webp |
| Compressor.SupportedExtensionCodec | gyuu/compressor.py:45-65 | each supported extension reaches its own encoder: .png to PNG, .jpg and .jpeg to JPEG, .webp to WebP, .gif and .bmp to the default re-save |
| Compressor.OutputExtension | gyuu/compressor.py:118-119 | the forced extension is always "." followed by the format, so the special case for "jpg" changes nothing |
| Compressor.OutputPath | gyuu/compressor.py:112-120 | definition: the given output or the input path, with its suffix replaced when a format was given |
| Compressor.OutputPathSpec | gyuu/compressor.py:112-120 | without a format the output path is the given one, or the input path; with a format only the suffix changes, to "." plus the lower-cased format; a format with a separator, or a path with no name, is an error |
| Compressor.Reduction | gyuu/compressor.py:131 | definition: (original − compressed)/original·100, or 0 for an empty original |
| Compressor.ReductionSpec | gyuu/compressor.py:131 | reduction times the original size equals (original − compressed)·100; it is negative exactly when the file grew, never above 100, and 0 for an empty original |
| Compressor.ReductionExamples | gyuu/compressor.py:131 | 1000 to 1000 bytes is 0%, and 1000 to 1200 bytes is −20% |
| Compressor.CompressImage | gyuu/compressor.py:68-139 | a missing input raises FileNotFoundError, and an input that does not decode raises the decoder's error; after decoding, the outcome is that of `CompressLoaded`; a success records the input, the original size, the reduction of the two sizes, and the output path resolved from the arguments |
| Compressor.CompressLoaded | gyuu/compressor.py:99-139 | the first failing step decides the error: output path, then encoding, then the write; otherwise the bytes the encoder returned for the resized image under the format's plan are written to the resolved output path, and the record holds their length as the compressed size and the reduction of the two sizes |
| Compressor.Encoding | gyuu/compressor.py:123 | definition: `compress_by_format`, the encoder applied to the image after its plan's steps, with the plan's save options |
| Compressor.Oriented | gyuu/compressor.py:100-103 | definition: the EXIF-oriented image, or the image itself when the orientation step fails |
| Compressor.PipelineImage | gyuu/compressor.py:98-106 | the image handed to the format plan has the resize target size of the oriented image |
| Compressor.ResizedDefaultHasNoFormat | gyuu/compressor.py:106 | after an actual resize, the default re-save is asked for no format at all |
| Compressor.FilterMembers | gyuu/compressor.py:160-161 | an entry is kept exactly when it is in the list and accepted |
| Compressor.FilterAppend | gyuu/compressor.py:160-161 | filtering splits over concatenation, so enumeration order is kept |
| Compressor.MatchingStep | gyuu/compressor.py:160-161 | one more enumerated entry adds itself to the processed list exactly when its lower-cased suffix is supported |
| Compressor.MatchingMembers | gyuu/compressor.py:160-161 | an entry is processed exactly when it was enumerated and its lower-cased suffix is in the supported set |
| Compressor.Attempt | gyuu/compressor.py:168-182 | the record names the file, and it is a success exactly when compress_image does not raise |
| Compressor.ProcessEntry | gyuu/compressor.py:161-182 | the record's input is the joined path; without a format, a successful record's output is the output directory joined with the relative path, or the input itself when no directory is given |
| Compressor.FilterMapSpec | gyuu/compressor.py:160-182 | filter-then-map keeps one image per accepted entry, in order, and nothing else |
| Compressor.Batch | gyuu/compressor.py:160-182 | definition: one `ProcessEntry` record per supported enumerated entry |
| Compressor.ProcessDirectory | gyuu/compressor.py:142-184 | the loop builds, entry by entry, exactly the batch of the enumerated entries |
| Compressor.BatchSpec | gyuu/compressor.py:160-182 | the batch holds exactly one record per supported entry, in enumeration order, each the try/except outcome for that entry |
| Paths.Suffix | gyuu/compressor.py:118-120 | definition: pathlib's suffix, the name from its last dot when that dot is neither first nor last |
| Paths.WithSuffix | gyuu/compressor.py:118-120 | definition: pathlib's with_suffix, an error for a path without a name or a suffix with a separator |
| Paths.WithSuffixSets | gyuu/compressor.py:118-120 | replacing the suffix by "." plus a plain tag succeeds on any named path, keeps the directory and the stem, and leaves exactly that suffix |
| Paths.RelativeToJoin | gyuu/compressor.py:162-164 | a path joined under the input directory, taken relative to it, gives the relative part back |
| Paths.NameOfJoin | gyuu/compressor.py:161-164 | a joined path keeps the name and the suffix of its relative part |
| Common.ToLowerIsLower | gyuu/compressor.py:48-50 | lower-casing yields a lower-case string and leaves lower-case strings alone |
| Sizes.UnitIndex | gyuu/utils.py:11-17 | definition: the largest of B, KB, MB, GB and TB whose power of 1024 does not exceed the size |
| Sizes.UnitIndexBounds | gyuu/utils.py:13-17 | the k-th unit is chosen exactly when 1024^k ≤ size < 1024^(k+1); B has no lower bound and TB no upper bound |
| Sizes.UnitIndexMonotone | gyuu/utils.py:13-17 | a larger size never selects a smaller unit |
| Sizes.BelowAfterDivision | gyuu/utils.py:14-16 | the size divided k times is below 1024 exactly when the size is below 1024^(k+1) |
| Sizes.FormatSize | gyuu/utils.py:11-17 | the loop returns the unit the bounds select and the size divided by 1024 per step; below TB the magnitude is under 1024 |
| Cli.ReportOf | gyuu/cli.py:11-18 | a record with an error is reported as a failure with its input and message only; any other record with input, output, both sizes and the reduction |
| Cli.Successes | gyuu/cli.py:28-34 | the successful records in their order; every one is a success |
| Cli.CountsPartition | gyuu/cli.py:28-31 | every record is counted once, as a success or as a failure |
| Cli.TotalsOverSuccesses | gyuu/cli.py:32-34 | for any mix of records, the success count is the number of successful records and the two totals are the plain sums over the successful records alone, so failures add nothing; a batch of successes counts no failures |
| Cli.PrintSummary | gyuu/cli.py:21-41 | the loop's counters are the counts and totals over the records; the summary appears only for more than one record, and its reduction line only when the total original is positive |
| Cli.RunCli | gyuu/cli.py:74-113 | a missing input exits with 1; a directory yields the batch's records; a file yields its single record, or exits with 1 when compress_image raises; the summary always matches the records |
| JsMath.RoundDiv | gui/app.js:71-73 | definition: `Math.round(a / b)` for naturals, as ⌊(2a + b) / 2b⌋ |
| JsMath.RoundDivHalfway | gui/app.js:71-73 | Math.round of a quotient lands within half a divisor, with ties rounding up |
| JsMath.RoundDivNearest | gui/app.js:71-73 | no multiple of the divisor is closer than the rounded one |
| JsMath.RoundDivFloor | gui/app.js:98-101 | Math.round of a quotient is the truncated quotient or one more |
| JsMath.RoundDivExact | gui/app.js:71-73 | an exact multiple rounds to itself |
| JsMath.RoundDivMonotone | gui/app.js:71-73 | rounding is monotone in the numerator |
| BrowserQuantize.QuantizeChannel | gui/app.js:71-73 | definition: `Math.round(v / step) * step`, clamped to 255 |
| BrowserQuantize.Quantized | gui/app.js:65-76 | definition: every colour byte of each pixel quantized, every alpha byte kept |
| BrowserQuantize.ChannelIsNearestMultiple | gui/app.js:67-73 | a channel's rounded value, before the clamp, is a multiple of the step within half a step of the byte, and no multiple is closer |
| BrowserQuantize.ChannelIdempotent | gui/app.js:71-73 | quantizing a quantized channel again changes nothing, clamping included |
| BrowserQuantize.QuantizedKeepsAlpha | gui/app.js:69-75 | the buffer length and every alpha byte are kept, and every colour byte ends up a multiple of the step or 255 |
| BrowserQuantize.QuantizedIdempotent | gui/app.js:65-76 | quantizing a buffer twice with the same step is quantizing it once |
| BrowserQuantize.QuantizePixel | gui/app.js:71-74 | the red, green and blue bytes of the pixel at the offset are quantized when they lie inside the buffer, and no other byte changes |
| BrowserQuantize.QuantizeImageData | gui/app.js:65-76 | the stride-4 loop leaves the buffer equal to `Quantized` of the old contents, for any buffer length |
| BrowserPipeline.BrowserTarget | gui/app.js:95-105 | definition: the width pass, then the height pass, each with `Math.round` |
| BrowserPipeline.JsPassesShrink | gui/app.js:98-105 | neither rounding pass enlarges either axis |
| BrowserPipeline.BrowserNoUpscaleWithinCaps | gui/app.js:95-105 | the canvas is no larger than the image on both axes, and within each cap that is given |
| BrowserPipeline.BrowserUnchangedIffWithinCaps | gui/app.js:95-105 | the canvas keeps the image size exactly when every given cap is already met |
| BrowserPipeline.BrowserHeightRoundsUp | gui/app.js:98-101 | with only a width cap, both front ends agree on the width, and the browser's height is the Python height or one more |
| BrowserPipeline.BrowserResizeExamples | gui/app.js:95-105 | (3000,2000) with caps 1500 and 600 becomes (900,600) as in Python; (3,4) with a width cap of 2 becomes (2,3), where Python gives (2,2) |
| BrowserPipeline.BrowserResize | gui/app.js:95-105 | the reassignments of width and height compute exactly `BrowserTarget` |
| BrowserPipeline.LastSegment | gui/app.js:115 | definition: `name.split('.').pop()`, the part of the name after its last dot, or the whole name without one |
| BrowserPipeline.ChooseOutput | gui/app.js:115-121 | definition: the file's type and last dot segment in "auto" mode, image/<format> and the format otherwise, the extension "jpeg" written "jpg" |
| BrowserPipeline.ChooseOutputSpec | gui/app.js:115-121 | an explicit format gives mime image/<format> and the format as the extension, never "jpeg"; "auto" keeps the file's type and its last dot segment |
| BrowserPipeline.PngPathChoice | gui/app.js:115-133 | the quantizing PNG path is taken exactly for image/png: the file's own type in "auto" mode, format "png" otherwise |
| BrowserPipeline.Substitution | gui/app.js:141 | definition: the replacement template expanded as String.prototype.replace does: "$$", "$&", "$`" and "$'" |
| BrowserPipeline.SubstitutionPlain | gui/app.js:141 | a template without '$' is inserted as it is |
| BrowserPipeline.RenamedFile | gui/app.js:141 | definition: the last dot and the non-empty rest of the name replaced by the expanded "." + ext; otherwise the name unchanged |
| BrowserPipeline.RenamedFilePlain | gui/app.js:141 | for an extension without '$' the rename is plain splicing of "." + ext after the name up to its last dot |
| BrowserPipeline.RenameSetsExtension | gui/app.js:141 | only the final ".ext" is replaced: the name up to the last dot is kept and the new extension becomes the last segment; a name without a dot, or ending in one, is unchanged |
| BrowserPipeline.AutoKeepsName | gui/app.js:116-141 | renaming to the name's own last segment, as "auto" mode does, gives the name back unless that segment holds a '$', which the replacement template expands |
| BrowserPipeline.AutoRenameExpandsDollar | gui/app.js:116-141 | in "auto" mode "x.a$$" is saved as "x.a$" |
| BrowserPipeline.AutoRenameExpandsMatch | gui/app.js:116-141 | in "auto" mode "x.$&" is saved as "x..$&" |
| BrowserPipeline.RenameIdempotent | gui/app.js:141 | renaming twice to the same extension is renaming once |
| BrowserPipeline.StoredSize | gui/app.js:135-138 | definition: the smaller of the encoding and the file in "auto" mode, the encoding otherwise |
| BrowserPipeline.StoredSizeSpec | gui/app.js:135-138 | in "auto" mode the stored size is the smaller of the encoding and the file, so never above the original; an explicit format stores the encoding |
| BrowserPipeline.CardReduction | gui/app.js:187 | definition: (original − compressed)/original·100 as a JavaScript number, NaN or Infinity for an empty original |
| BrowserPipeline.CardBadge | gui/app.js:188-191 | definition: "-x%" when the reduction is at least 0, "+\|x\|%" otherwise, NaN included |
| BrowserPipeline.CardBadgeSpec | gui/app.js:187-191 | for a non-empty original the card reads "-x%" exactly when the file did not grow, and the badge denotes the reduction; an empty original gives "+" with NaN or Infinity |
| BrowserPipeline.AutoBadgeNeverPlus | gui/app.js:136-190 | in "auto" mode a card never shows growth |
| BrowserPipeline.SummaryReduction | gui/app.js:317-319 | definition: the total reduction in percent, 0 for an empty total original |
| BrowserPipeline.SummaryBadgeAsWritten | gui/app.js:317-324 | definition: "-" followed by the signed total reduction, 0 for an empty original |
| BrowserPipeline.SummaryBadgeAsWrittenMisreads | gui/app.js:317-324 | as written, a total that grew from 1000 to 1200 bytes is shown as "--20.0%", which does not denote the reduction of −20 |
| BrowserPipeline.SummaryBadge | gui/app.js:317-324 | definition, corrected: the card's rule applied to the total reduction |
| BrowserPipeline.SummaryBadgeDenotes | gui/app.js:317-324 | the corrected summary badge always denotes the total reduction, and matches the card rule whenever the total original is non-empty |
| BrowserPipeline.SummaryBadgeAgreesUnlessGrowth | gui/app.js:317-324 | the corrected and the as-written summary badges coincide exactly when the totals did not grow |
| BrowserPipeline.FormatSizeJs | gui/app.js:330-334 | definition: B below 1024, KB below 1024², MB from there on |
| BrowserPipeline.FormatSizeAgreement | gui/app.js:330-334 | below 1024^3 bytes the browser and the CLI pick the same unit and magnitude; from there the browser stays at MB with a magnitude of at least 1024 |
| BrowserSession.ColorCount | gui/app.js:128 | the colour count is at least 16, and from quality 7 on it is floor(quality·256/100) |
| BrowserSession.EncodeCallFor | gui/app.js:124-133 | the canvas is quantized and encoded without a quality exactly for image/png; every other type is encoded with the quality |
| BrowserSession.ProcessedEntry | gui/app.js:79-149 | definition: load, resize, optional quantization, encode, stored size and rename, or nothing on a failure |
| BrowserSession.ProcessedEntrySpec | gui/app.js:79-149 | a stored entry keeps the file's name and size; "auto" never records growth and keeps the file name unless its extension holds a '$'; an explicit format renames to its extension; a file that fails to load stores nothing |
| BrowserSession.Without | gui/app.js:262 | deleting an id keeps exactly the other ids, distinct when they were, and changes nothing when the id is absent |
| BrowserSession.WithoutAppend | gui/app.js:262 | deletion works piece by piece over a concatenation, so the remaining ids keep their order |
| BrowserSession.WithoutSplice | gui/app.js:262 | deleting an id that sits once between `a` and `b` in the insertion order leaves `a` followed by `b` |
| BrowserSession.TotalWithout | gui/app.js:312-315 | deleting an id takes exactly its entry's sizes off the totals |
| BrowserSession.TotalAppend | gui/app.js:312-315 | adding a new id adds exactly its entry's sizes to the totals |
| BrowserSession.SummaryOf | gui/app.js:303-327 | definition: nothing for an empty table, otherwise the count, both totals and the corrected badge |
| BrowserSession.SummaryOfSpec | gui/app.js:303-327 | the summary is hidden exactly when the table is empty; the corrected badge denotes the total reduction |
| BrowserSession.Session.constructor | gui/app.js:2-4 | the table starts empty |
| BrowserSession.Session.Put | gui/app.js:142-149 | Map.set stores the entry under the id; an existing id keeps its place and a new one goes last |
| BrowserSession.Session.UpdateSummary | gui/app.js:303-327 | the totals loop over the table gives `SummaryOf` the table |
| BrowserSession.Session.RemoveFile | gui/app.js:260-266 | exactly that id is deleted, and nothing happens when it is absent; the summary is then recomputed |
| BrowserSession.Session.ProcessImage | gui/app.js:79-158 | on success the file's `ProcessedEntry` is stored under its id; any failure leaves the table as it was |
| BrowserSession.Session.HandleFiles | gui/app.js:44-52 | only files whose type starts with "image/" are processed, in order, each under its id; the insertion order becomes `HandledOrder` of the old one; the summary is recomputed once at the end |
| BrowserSession.IsImageType | gui/app.js:46 | definition: `type.startsWith('image/')` |
| BrowserSession.Handled | gui/app.js:44-52 | definition: the table after each image file's entry, when there is one, is stored under its id |
| BrowserSession.HandledOrder | gui/app.js:44-52 | definition: each processed image's id goes last unless the table already held it |
| BrowserSession.HandledOrderExtends | gui/app.js:142-149 | handleFiles keeps the old order as a prefix and appends only ids of processed image files that the table did not hold |
| BrowserSession.HandledOnlyImages | gui/app.js:44-52 | handleFiles never drops an entry, and it adds entries only under the ids of image files that were processed successfully |

## Left out

- Pixel data and codecs are left out. Decoding, `ImageOps.exif_transpose`, encoding with `save`, the file system, and in the browser image loading and `toBlob`, are functions of an environment, so byte output and file sizes are whatever those functions return. PIL's resample, convert and quantize are fixed total functions on the abstract image (`Common.Resampled`, `Common.Converted`, `Common.Quantized`): they change only the size and the mode. A failure the library raises in one of them is folded into the encoder's result, so a resize the library rejects (a zero dimension, as in `Resize.FlatImageLosesHeight`) shows up only as an encode error, after the output path has been checked. For the same reason, whether the library accepts median-cut quantization of an RGBA image, or a default re-save with no format, is the encoder's business.
- File-system I/O is left out: existence, `os.path.getsize`, `mkdir`, writes and `glob`/`rglob`. Existence and size are functions. Directory enumeration is a given sequence of entries relative to the input directory, so the `recursive` flag only chooses which enumeration is given.
- Paths are '/'-separated, normalised strings. pathlib's normalisation, drive handling and differences between Python versions are left out.
- Lower-casing covers ASCII letters only; Unicode case mapping is left out.
- Resize.Resized: the float ratio `int(h * (mw / w))` is modelled as the exact floor `h * mw / w`, which can differ by one from the float result at exact boundaries.
- BrowserPipeline.BrowserTarget: `Math.round(h * (mw / w))` is modelled as exact round-half-up, with the same caveat as the Python ratio.
- Negative size caps are left out. argparse and `parseInt` accept them, but they divide by a negative or draw a canvas of negative size.
- Sizes.FormatSize: the two-decimal rendering (`:.2f`) is not modelled, and neither is `toFixed(1)` in the browser. Magnitudes are exact reals.
- The step derived from the colour count with `Math.cbrt` is left out; `BrowserQuantize.QuantizeImageData` takes any step of at least 1.
- argparse (`create_parser`) and its `choices`, its default quality of 80 and its type checks are left out. The model accepts any format string and any integer quality.
- All printed text, the console, alerts and DOM construction are left out. This includes createResultCard, the card's HTML, escapeHtml and the slider's label. print_result and print_summary are modelled as the values they print.
- `downloadFile`, `fallbackDownload` and the download-all handler are left out. They only hand stored entries to the pywebview bridge or to an object URL, and change no state.
- Async ordering, event listeners, `setTimeout` and id generation (`Date.now() + Math.random()`) are left out. Ids are given to `HandleFiles` as a parameter.
- BrowserSession.Session.UpdateSummary: the session shows the corrected summary badge (`SummaryBadge`, see Findings), not the one gui/app.js:324 builds. `BrowserPipeline.SummaryBadgeAgreesUnlessGrowth` proves the two coincide except when the totals grew. `BrowserSession.SummaryOf` and `BrowserSession.SummaryOfSpec` follow the same choice.
- BrowserPipeline.RenameSetsExtension: stated only for extensions without '.' or '$', such as the format selector's values; `RenamedFile` itself expands '$' patterns, as `AutoRenameExpandsDollar` shows. `BrowserPipeline.RenameIdempotent` has the same restriction.
- The string-to-number id conversion in `removeFile` (`parseFloat`) is left out; ids are numbers throughout.
- gui/gui_app.py is not part of this model: it is native dialogs, file writes and data-URL decoding over pywebview. gyuu/__init__.py only re-exports.

## Findings

| source | as written | input that shows it | evidently intended | confidence | as-written member | corrected member |
|---|---|---|---|---|---|---|
| gui/app.js:317-324 | the summary badge is always `-` followed by the signed total reduction (BrowserPipeline.SummaryBadgeAsWritten) | totals of 1000 bytes original and 1200 bytes compressed, with an explicit format, show "--20.0%" | the card's rule from gui/app.js:187-191: "-x%" for a reduction x ≥ 0, "+\|x\|%" for growth | high; not executed | BrowserPipeline.SummaryBadgeAsWrittenMisreads | BrowserPipeline.SummaryBadgeDenotes |
