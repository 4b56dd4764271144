/** The size rule and the failure policy of `resizeImageFile`: a picture whose
    longer side exceeds the limit is scaled down, aspect kept, so that its
    longer side equals the limit; a picture that cannot be decoded is passed
    through as the data URL it was read as. */
module Resize {
  import opened JsMath

  /** The limit on the longer side that both upload handlers pass. */
  const MaxDim: nat := 1200

  /** A width and a height in pixels. */
  datatype Dims = Dims(width: nat, height: nat)

  function Max(a: int, b: int): int { if a >= b then a else b }

  function Min(a: int, b: int): int { if a <= b then a else b }

  /** Multiplying by a non-negative factor keeps the order. */
  lemma MulMonotone(a: int, b: int, c: int)
    requires c >= 0 && a <= b
    ensures a * c <= b * c
  {
    assert b * c - a * c == (b - a) * c;
  }

  /** A rounded quotient of `short * maxDim` by `long >= short` is at most `maxDim`. */
  lemma {:induction false} RoundedAtMost(short: nat, long: nat, maxDim: nat, r: int)
    requires short <= long && long > 0
    requires r * (2 * long) <= 2 * (short * maxDim) + long
    ensures r <= maxDim
  {
    MulMonotone(short, long, maxDim);
    assert 2 * (short * maxDim) + long < (maxDim + 1) * (2 * long) by {
      assert (maxDim + 1) * (2 * long) == 2 * (long * maxDim) + 2 * long;
    }
    if r > maxDim {
      MulMonotone(maxDim + 1, r, 2 * long);
    }
  }

  /** The short side rescaled by `maxDim / long`, rounded as `Math.round` does. */
  function ScaledSide(short: nat, long: nat, maxDim: nat): (r: nat)
    requires short <= long && long > 0
    ensures r * (2 * long) <= 2 * (short * maxDim) + long < (r + 1) * (2 * long)
    ensures r <= maxDim
  {
    var r := Round(short * maxDim, long);
    RoundedAtMost(short, long, maxDim, r);
    r
  }

  /** The canvas size a `w` by `h` picture is redrawn at, for a limit `maxDim`:
      unchanged when it fits; otherwise the longer side (the width only when it
      is strictly longer, the height for squares and tall pictures) becomes
      `maxDim` and the other side is the nearest whole number to its exact
      rescaled length. */
  function TargetSize(w: nat, h: nat, maxDim: nat): (d: Dims)
    ensures Max(w, h) <= maxDim ==> d == Dims(w, h)
    ensures Max(d.width, d.height) == Min(Max(w, h), maxDim)
    ensures w > h ==> d.width >= d.height
    ensures w <= h ==> d.width <= d.height
    ensures Max(w, h) > maxDim && w > h ==>
      d.width == maxDim && d.height * (2 * w) <= 2 * (h * maxDim) + w < (d.height + 1) * (2 * w)
    ensures Max(w, h) > maxDim && w <= h ==>
      d.height == maxDim && d.width * (2 * h) <= 2 * (w * maxDim) + h < (d.width + 1) * (2 * h)
  {
    if Max(w, h) > maxDim then
      if w > h then Dims(maxDim, ScaledSide(h, w, maxDim))
      else Dims(ScaledSide(w, h, maxDim), maxDim)
    else
      Dims(w, h)
  }

  /** A 2000 by 1000 picture becomes 1200 by 600; a 400 by 300 one is kept. */
  lemma TargetSizeExamples()
    ensures TargetSize(2000, 1000, MaxDim) == Dims(1200, 600)
    ensures TargetSize(400, 300, MaxDim) == Dims(400, 300)
  {
  }

  /** What the browser made of a data URL loaded as a picture: a decoding
      failure, or the picture's size together with the data URL that the
      canvas JPEG encoder (white background, quality 0.78) yields for the
      picture drawn at a given size. */
  datatype Decoded = DecodeFailed | Picture(width: nat, height: nat, jpegAt: Dims -> string)

  /** The data URL `resizeImageFile` resolves to for a file read as `dataUrl`:
      the file itself when it does not decode as a picture, and otherwise the
      picture encoded at a size whose longer side is within `maxDim`, keeping
      its orientation, and its own size when it already fits. */
  function ResizeImageFile(dataUrl: string, img: Decoded, maxDim: nat): (r: string)
    ensures img.DecodeFailed? ==> r == dataUrl
    ensures img.Picture? ==> exists d: Dims ::
      && r == img.jpegAt(d)
      && Max(d.width, d.height) == Min(Max(img.width, img.height), maxDim)
      && (img.width > img.height ==> d.width >= d.height)
      && (img.width <= img.height ==> d.width <= d.height)
      && (Max(img.width, img.height) <= maxDim ==> d == Dims(img.width, img.height))
  {
    match img
    case DecodeFailed => dataUrl
    case Picture(w, h, jpegAt) =>
      var d := TargetSize(w, h, maxDim);
      jpegAt(d)
  }
}
