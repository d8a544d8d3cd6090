/** The per-format encode policy of gyuu/formats.py: for each output format,
    which mode conversions and which quantization run before the library's
    encoder, and which options the encoder is called with. The encoder itself
    is opaque; a `Plan` is everything the source decides about a call to it. */
module Formats {
  import opened Common

  datatype QuantizeMethod = MedianCut

  /** One library operation applied to the image before it is saved. */
  datatype Step = Quantize(colors: nat, algorithm: QuantizeMethod) | Convert(mode: string)

  /** The keyword arguments of the library's save call; `optimize == false`
      stands for "not passed", `None` for an argument that is not passed, and
      `effort` is the encoder's `method` argument. */
  datatype SaveOptions = SaveOptions(
    format: Option<string>, quality: Option<int>, optimize: bool, effort: Option<nat>)

  datatype Plan = Plan(steps: seq<Step>, save: SaveOptions)

  function Apply(img: Image, step: Step): Image
  {
    match step
    case Quantize(_, _) => Quantized(img)
    case Convert(m) => Converted(img, m)
  }

  /** The image the encoder receives once the steps have run. */
  function Prepared(img: Image, steps: seq<Step>): Image
    decreases |steps|
  {
    if steps == [] then img else Prepared(Apply(img, steps[0]), steps[1..])
  }

  /** No step changes the pixel dimensions. */
  lemma {:induction false} PreparedKeepsSize(img: Image, steps: seq<Step>)
    ensures Prepared(img, steps).width == img.width
    ensures Prepared(img, steps).height == img.height
    decreases |steps|
  {
    if steps != [] {
      PreparedKeepsSize(Apply(img, steps[0]), steps[1..]);
    }
  }

  /** The mode after the steps is the target of the last step, if any. */
  lemma {:induction false} PreparedMode(img: Image, steps: seq<Step>)
    ensures steps == [] ==> Prepared(img, steps) == img
    ensures steps != [] ==> Prepared(img, steps).mode == Apply(img, steps[|steps| - 1]).mode
    decreases |steps|
  {
    if |steps| > 1 {
      PreparedMode(Apply(img, steps[0]), steps[1..]);
      assert steps[1..][|steps[1..]| - 1] == steps[|steps| - 1];
    }
  }

  const PaletteColors: nat := 256

  /** compress_png: RGBA is quantized and converted back to RGBA, a palette
      image passes through, anything else becomes RGB (converted first unless it
      already is), is quantized and converted back to RGB; always PNG with
      optimize, never a quality. */
  function CompressPng(image: Image, quality: int): Plan
  {
    var steps :=
      if image.mode == "RGBA" then
        [Quantize(PaletteColors, MedianCut), Convert("RGBA")]
      else if image.mode == "P" then
        []
      else
        (if image.mode != "RGB" then [Convert("RGB")] else [])
        + [Quantize(PaletteColors, MedianCut), Convert("RGB")];
    Plan(steps, SaveOptions(Some("PNG"), None, true, None))
  }

  /** compress_jpeg: RGBA and palette images are converted to RGB, any other
      mode is left alone; JPEG at the given quality with optimize. */
  function CompressJpeg(image: Image, quality: int): Plan
  {
    var steps := if image.mode in {"RGBA", "P"} then [Convert("RGB")] else [];
    Plan(steps, SaveOptions(Some("JPEG"), Some(quality), true, None))
  }

  /** compress_webp: no conversion; WebP at the given quality and method 6. */
  function CompressWebp(image: Image, quality: int): Plan
  {
    Plan([], SaveOptions(Some("WEBP"), Some(quality), false, Some(6)))
  }

  /** compress_default: re-save in the image's own format with optimize. */
  function CompressDefault(image: Image): Plan
  {
    Plan([], SaveOptions(image.format, None, true, None))
  }

  /** The mode a PNG plan hands to the encoder, and that the quality is unused. */
  lemma PngPlan(image: Image, quality: int, other: int)
    ensures CompressPng(image, quality) == CompressPng(image, other)
    ensures CompressPng(image, quality).save.quality == None
    ensures Prepared(image, CompressPng(image, quality).steps).mode ==
      (if image.mode == "RGBA" then "RGBA" else if image.mode == "P" then "P" else "RGB")
    ensures Prepared(image, CompressPng(image, quality).steps).width == image.width
    ensures Prepared(image, CompressPng(image, quality).steps).height == image.height
  {
    var steps := CompressPng(image, quality).steps;
    PreparedMode(image, steps);
    PreparedKeepsSize(image, steps);
  }

  /** Alpha survives PNG compression exactly when the source image is RGBA. */
  lemma PngKeepsAlphaOnlyForRgba(image: Image, quality: int)
    ensures Prepared(image, CompressPng(image, quality).steps).mode == "RGBA" <==> image.mode == "RGBA"
  {
    PngPlan(image, quality, quality);
  }

  /** Every PNG plan except the palette pass-through ends by quantizing to at
      most 256 colours with median cut and converting to the target mode, so
      the encoder never sees more than 256 colours. */
  lemma PngQuantizesLast(image: Image, quality: int)
    ensures var steps := CompressPng(image, quality).steps;
      image.mode != "P" <==>
        (|steps| >= 2 && steps[|steps| - 2] == Quantize(PaletteColors, MedianCut)
          && steps[|steps| - 1].Convert?)
  {
  }

  /** JPEG never receives an image with alpha or a palette from RGBA or P, and
      every other mode reaches the encoder unchanged. */
  lemma JpegPlan(image: Image, quality: int)
    ensures var prepared := Prepared(image, CompressJpeg(image, quality).steps);
      && prepared.mode != "RGBA" && prepared.mode != "P"
      && (image.mode != "RGBA" && image.mode != "P" ==> prepared == image)
      && prepared.width == image.width && prepared.height == image.height
    ensures CompressJpeg(image, quality).save == SaveOptions(Some("JPEG"), Some(quality), true, None)
  {
    var steps := CompressJpeg(image, quality).steps;
    PreparedMode(image, steps);
    PreparedKeepsSize(image, steps);
  }

  /** WebP and the default re-save convert nothing: the encoder receives the
      image as it is; WebP takes the quality and method 6, the default re-save
      the image's own format, optimize and no quality. */
  lemma PassThroughPlans(image: Image, quality: int)
    ensures Prepared(image, CompressWebp(image, quality).steps) == image
    ensures CompressWebp(image, quality).save.quality == Some(quality)
    ensures CompressWebp(image, quality).save.effort == Some(6)
    ensures Prepared(image, CompressDefault(image).steps) == image
    ensures CompressDefault(image).save == SaveOptions(image.format, None, true, None)
  {
  }

  /** The file extensions the batch processor picks up. */
  const SupportedExtensions: set<string> := {".png", ".jpg", ".jpeg", ".webp", ".gif", ".bmp"}
}
