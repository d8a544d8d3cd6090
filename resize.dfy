/** The resize policy of gyuu/compressor.py (resize_image): a width cap applied
    first, then a height cap applied to the possibly updated height, which
    overrides the width. A cap of 0 stands for "not given" (the source tests
    the caps for truthiness, so None and 0 behave alike). The source scales with
    a floating-point ratio and truncates; the model uses the exact floor. */
module Resize {
  import opened Common

  datatype Dims = Dims(width: nat, height: nat)

  function SizeOf(img: Image): Dims
  {
    Dims(img.width, img.height)
  }

  /** First pass: only an image wider than the cap is scaled to it. */
  function WidthPass(d: Dims, maxWidth: nat): Dims
  {
    if maxWidth > 0 && d.width > maxWidth then Dims(maxWidth, d.height * maxWidth / d.width) else d
  }

  /** Second pass: only a (possibly updated) height above the cap is scaled to it. */
  function HeightPass(d: Dims, maxHeight: nat): Dims
  {
    if maxHeight > 0 && d.height > maxHeight then Dims(d.width * maxHeight / d.height, maxHeight) else d
  }

  function TargetSize(d: Dims, maxWidth: nat, maxHeight: nat): Dims
  {
    if maxWidth == 0 && maxHeight == 0 then d else HeightPass(WidthPass(d, maxWidth), maxHeight)
  }

  /** The image resize_image returns: the original object when the target size
      equals the original size, a resample to the target size otherwise. */
  function Resized(img: Image, maxWidth: nat, maxHeight: nat): (r: Image)
    ensures SizeOf(r) == TargetSize(SizeOf(img), maxWidth, maxHeight)
    ensures r == img <==> TargetSize(SizeOf(img), maxWidth, maxHeight) == SizeOf(img)
    ensures r.mode == img.mode
  {
    var t := TargetSize(SizeOf(img), maxWidth, maxHeight);
    if t == SizeOf(img) then img else Resampled(img, t.width, t.height)
  }

  /** Scaling by a ratio below one never grows a length. */
  lemma {:induction false} ScaleDown(a: nat, b: nat, c: nat)
    requires b < c
    ensures a * b / c <= a
  {
    assert a * b <= a * c;
    assert (a * b) / c <= (a * c) / c;
  }

  /** Neither pass enlarges an axis. */
  lemma PassesShrink(d: Dims, maxWidth: nat, maxHeight: nat)
    ensures WidthPass(d, maxWidth).width <= d.width && WidthPass(d, maxWidth).height <= d.height
    ensures HeightPass(d, maxHeight).width <= d.width && HeightPass(d, maxHeight).height <= d.height
  {
    if maxWidth > 0 && d.width > maxWidth { ScaleDown(d.height, maxWidth, d.width); }
    if maxHeight > 0 && d.height > maxHeight { ScaleDown(d.width, maxHeight, d.height); }
  }

  /** No upscaling, and each given cap holds of the result. */
  lemma NoUpscaleWithinCaps(d: Dims, maxWidth: nat, maxHeight: nat)
    ensures TargetSize(d, maxWidth, maxHeight).width <= d.width
    ensures TargetSize(d, maxWidth, maxHeight).height <= d.height
    ensures maxWidth > 0 ==> TargetSize(d, maxWidth, maxHeight).width <= maxWidth
    ensures maxHeight > 0 ==> TargetSize(d, maxWidth, maxHeight).height <= maxHeight
  {
    var w := WidthPass(d, maxWidth);
    PassesShrink(d, maxWidth, maxHeight);
    PassesShrink(w, maxWidth, maxHeight);
  }

  /** The result equals the original exactly when no axis exceeds its cap. */
  lemma UnchangedIffWithinCaps(d: Dims, maxWidth: nat, maxHeight: nat)
    ensures TargetSize(d, maxWidth, maxHeight) == d <==>
      (maxWidth == 0 || d.width <= maxWidth) && (maxHeight == 0 || d.height <= maxHeight)
  {
    var w := WidthPass(d, maxWidth);
    PassesShrink(w, maxWidth, maxHeight);
  }

  /** Each pass keeps the aspect ratio up to truncation: the scaled axis is the
      floor of the exact proportional length. */
  lemma PassesTruncateRatio(d: Dims, maxWidth: nat, maxHeight: nat)
    ensures maxWidth > 0 && d.width > maxWidth ==>
      var w := WidthPass(d, maxWidth);
      w.width == maxWidth
      && w.height * d.width <= d.height * maxWidth < (w.height + 1) * d.width
    ensures maxHeight > 0 && d.height > maxHeight ==>
      var h := HeightPass(d, maxHeight);
      h.height == maxHeight
      && h.width * d.height <= d.width * maxHeight < (h.width + 1) * d.height
  {
  }

  /** When both caps bind, the height pass wins: the result has exactly the
      height cap and a width at most the width cap. */
  lemma HeightCapOverrides(d: Dims, maxWidth: nat, maxHeight: nat)
    requires maxWidth > 0 && d.width > maxWidth
    requires maxHeight > 0 && WidthPass(d, maxWidth).height > maxHeight
    ensures TargetSize(d, maxWidth, maxHeight).height == maxHeight
    ensures TargetSize(d, maxWidth, maxHeight).width <= maxWidth
  {
    NoUpscaleWithinCaps(d, maxWidth, maxHeight);
  }

  /** Worked examples of the two-pass policy. */
  lemma ResizeExamples()
    ensures TargetSize(Dims(3000, 2000), 1500, 0) == Dims(1500, 1000)
    ensures TargetSize(Dims(3000, 2000), 1500, 600) == Dims(900, 600)
    ensures TargetSize(Dims(800, 600), 1600, 0) == Dims(800, 600)
  {
  }

  /** Truncation can take a very flat image's height to zero. */
  lemma FlatImageLosesHeight()
    ensures TargetSize(Dims(3000, 1), 1500, 0) == Dims(1500, 0)
  {
  }

  /** resize_image: the two passes over the locals, then a resample exactly
      when the computed size differs from the original. */
  method ResizeImage(image: Image, maxWidth: nat, maxHeight: nat) returns (r: Image)
    ensures r == Resized(image, maxWidth, maxHeight)
  {
    if maxWidth == 0 && maxHeight == 0 {
      return image;
    }
    var origWidth, origHeight := image.width, image.height;
    var newWidth, newHeight := origWidth, origHeight;
    if maxWidth > 0 && origWidth > maxWidth {
      newWidth := maxWidth;
      newHeight := origHeight * maxWidth / origWidth;
    }
    assert Dims(newWidth, newHeight) == WidthPass(SizeOf(image), maxWidth);
    if maxHeight > 0 && newHeight > maxHeight {
      newWidth := newWidth * maxHeight / newHeight;
      newHeight := maxHeight;
    }
    assert Dims(newWidth, newHeight) == TargetSize(SizeOf(image), maxWidth, maxHeight);
    if (newWidth, newHeight) != (origWidth, origHeight) {
      r := Resampled(image, newWidth, newHeight);
    } else {
      r := image;
    }
  }
}
