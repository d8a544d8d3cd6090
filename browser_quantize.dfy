/** quantizeImageData of gui/app.js: the RGBA pixel buffer (a clamped byte
    array) is walked four bytes at a time; the red, green and blue bytes of
    each pixel are rounded to the nearest multiple of `step`, the alpha byte is
    left alone. How `step` is derived from the colour count is not modelled;
    the source guarantees `step >= 1`. */
module BrowserQuantize {
  import opened Common
  import opened JsMath

  /** A write into a clamped byte array: values above 255 become 255. */
  function Clamp(v: nat): Byte
  {
    if v > 255 then 255 else v
  }

  /** One colour channel: Math.round(v / step) * step, then clamped. */
  function QuantizeChannel(v: Byte, step: nat): Byte
    requires step >= 1
  {
    Clamp(RoundDiv(v, step) * step)
  }

  /** The buffer the loop leaves behind: every byte but the alpha bytes
      (offsets 3 mod 4) quantized, whatever the buffer's length. */
  function Quantized(s: seq<Byte>, step: nat): seq<Byte>
    requires step >= 1
  {
    seq(|s|, k requires 0 <= k < |s| => if k % 4 == 3 then s[k] else QuantizeChannel(s[k], step))
  }

  /** The rounded value, before the clamp, is a multiple of step, within half
      a step of the byte, and no other multiple of step is closer. */
  lemma ChannelIsNearestMultiple(v: Byte, step: nat, k: int)
    requires step >= 1
    ensures (RoundDiv(v, step) * step) % step == 0
    ensures 2 * Dist(v, RoundDiv(v, step) * step) <= step
    ensures Dist(v, RoundDiv(v, step) * step) <= Dist(v, step * k)
  {
    RoundDivHalfway(v, step);
    RoundDivNearest(v, step, k);
    assert RoundDiv(v, step) * step == step * RoundDiv(v, step);
  }

  /** A quantized channel quantizes to itself. */
  lemma {:induction false} ChannelIdempotent(v: Byte, step: nat)
    requires step >= 1
    ensures QuantizeChannel(QuantizeChannel(v, step), step) == QuantizeChannel(v, step)
  {
    var q := RoundDiv(v, step);
    var m := q * step;
    assert m == step * q;
    if m <= 255 {
      RoundDivExact(q, step);
      assert QuantizeChannel(v, step) == m;
      assert RoundDiv(m, step) == q;
    } else {
      assert QuantizeChannel(v, step) == 255;
      var r := RoundDiv(255, step);
      RoundDivMonotone(v, 255, step);
      if r > q {
        MultiplesApart(step, q, r);
      }
      assert r * step == step * r;
      assert r * step >= m;
    }
  }

  /** Only the colour bytes change: the length and every alpha byte are kept,
      and every other byte ends up a multiple of step or at the clamp, 255. */
  lemma QuantizedKeepsAlpha(s: seq<Byte>, step: nat)
    requires step >= 1
    ensures |Quantized(s, step)| == |s|
    ensures forall k :: 0 <= k < |s| && k % 4 == 3 ==> Quantized(s, step)[k] == s[k]
    ensures forall k :: 0 <= k < |s| && k % 4 != 3 ==> Quantized(s, step)[k] % step == 0 || Quantized(s, step)[k] == 255
  {
    forall k | 0 <= k < |s| && k % 4 != 3
      ensures Quantized(s, step)[k] % step == 0 || Quantized(s, step)[k] == 255
    {
      ChannelIsNearestMultiple(s[k], step, 0);
    }
  }

  /** Quantizing twice with the same step is quantizing once. */
  lemma QuantizedIdempotent(s: seq<Byte>, step: nat)
    requires step >= 1
    ensures Quantized(Quantized(s, step), step) == Quantized(s, step)
  {
    forall k | 0 <= k < |s| && k % 4 != 3 {
      ChannelIdempotent(s[k], step);
    }
  }

  /** The channel bytes of the pixel at offset i, in place. The green and blue
      writes of a trailing partial pixel fall outside the array and are
      dropped, as typed-array writes out of range are. */
  method QuantizePixel(data: array<Byte>, i: nat, step: nat)
    requires step >= 1 && i < data.Length
    modifies data
    ensures forall k :: 0 <= k < data.Length ==>
      data[k] == if i <= k < i + 3 then QuantizeChannel(old(data[k]), step) else old(data[k])
  {
    data[i] := QuantizeChannel(data[i], step);
    if i + 1 < data.Length {
      data[i + 1] := QuantizeChannel(data[i + 1], step);
    }
    if i + 2 < data.Length {
      data[i + 2] := QuantizeChannel(data[i + 2], step);
    }
  }

  /** The offsets of one pixel: only the last is its alpha byte. */
  lemma PixelOffsets(i: nat, k: nat)
    requires i % 4 == 0 && i <= k < i + 4
    ensures k % 4 == 3 <==> k == i + 3
  {
  }

  /** The stride-4 loop over the whole buffer, pixel by pixel. */
  method QuantizeImageData(data: array<Byte>, step: nat)
    requires step >= 1
    modifies data
    ensures data[..] == Quantized(old(data[..]), step)
  {
    var i := 0;
    while i < data.Length
      invariant i % 4 == 0
      invariant forall k :: 0 <= k < data.Length ==>
        data[k] == if k < i && k % 4 != 3 then QuantizeChannel(old(data[k]), step) else old(data[k])
      decreases data.Length - i
    {
      QuantizePixel(data, i, step);
      forall k | 0 <= k < data.Length && i <= k < i + 4
        ensures k % 4 == 3 <==> k == i + 3
      {
        PixelOffsets(i, k);
      }
      i := i + 4;
    }
  }
}
