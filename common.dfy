/** Shared vocabulary of the model: optional values, results, the abstract image
    the imaging library hands around, and ASCII lower-casing. */
module Common {

  datatype Option<+T> = None | Some(value: T)

  datatype Result<+T, +E> = Ok(value: T) | Err(error: E)

  /** A byte as the browser's Uint8ClampedArray and the encoders see it. */
  type Byte = x: int | 0 <= x < 256

  /** An image as far as the decision logic can see it: its pixel dimensions,
      its colour mode ("RGBA", "P", "RGB", "LA", "L", ...) and the file format
      it was decoded from. Images the library produces itself (by resizing,
      converting or quantizing) carry no format. The pixels are not modelled. */
  datatype Image = Image(width: nat, height: nat, mode: string, format: Option<string>)

  /** Effect of the library's resample on the abstract image. */
  function Resampled(img: Image, width: nat, height: nat): (r: Image)
    ensures r.width == width && r.height == height && r.mode == img.mode && r.format == None
  {
    Image(width, height, img.mode, None)
  }

  /** Effect of the library's mode conversion on the abstract image. */
  function Converted(img: Image, mode: string): (r: Image)
    ensures r.width == img.width && r.height == img.height && r.mode == mode && r.format == None
  {
    Image(img.width, img.height, mode, None)
  }

  /** Effect of the library's palette quantization: the result is palette-indexed. */
  function Quantized(img: Image): (r: Image)
    ensures r.width == img.width && r.height == img.height && r.mode == "P" && r.format == None
  {
    Image(img.width, img.height, "P", None)
  }

  function LowerChar(c: char): char
  {
    if 'A' <= c <= 'Z' then (c as int + 32) as char else c
  }

  /** Lower-casing of the ASCII letters; every other character is kept. */
  function ToLower(s: string): (r: string)
    ensures |r| == |s|
    ensures forall i :: 0 <= i < |s| ==> r[i] == LowerChar(s[i])
  {
    seq(|s|, i requires 0 <= i < |s| => LowerChar(s[i]))
  }

  predicate IsLower(s: string)
  {
    forall i :: 0 <= i < |s| ==> !('A' <= s[i] <= 'Z')
  }

  lemma ToLowerIsLower(s: string)
    ensures IsLower(ToLower(s))
    ensures IsLower(s) ==> ToLower(s) == s
  {
  }
}
