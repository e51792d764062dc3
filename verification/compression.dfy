/** The image down-sampling applied before a history record is stored
    (`compressBase64Image` in App.tsx). Decoding, drawing and JPEG encoding are
    browser graphics; they reach the model as an abstract load outcome and an
    abstract encoder. What remains is the integer dimension rule and the fallback. */
module Compression {

  /** The default maximum stored width, in pixels. */
  const DefaultMaxWidth: nat := 600

  datatype Dims = Dims(width: nat, height: nat)

  /** How decoding the source image ended: `onerror`, or `onload` with the image's
      natural size and whether a 2D drawing context was available. */
  datatype ImageLoad = LoadFailed | Loaded(dims: Dims, hasContext: bool)

  /** `Math.round(num / den)` for non-negative operands: the nearest integer, with
      halves rounded up. */
  function RoundDiv(num: nat, den: nat): (r: nat)
    requires den > 0
    ensures 2 * r * den <= 2 * num + den < 2 * r * den + 2 * den
  {
    var q := (2 * num + den) / (2 * den);
    assert (2 * num + den) == q * (2 * den) + (2 * num + den) % (2 * den);
    q
  }

  /** The stored size: an image wider than `maxWidth` is scaled down to exactly
      `maxWidth` with the height scaled by the same factor and rounded; any other
      image keeps its size. */
  function Resize(d: Dims, maxWidth: nat): (r: Dims)
    ensures r.width <= maxWidth
    ensures d.width > maxWidth ==>
      && r.width == maxWidth
      // the height is the nearest integer to height * maxWidth / width
      && 2 * r.height * d.width <= 2 * d.height * maxWidth + d.width
      && 2 * d.height * maxWidth + d.width < 2 * r.height * d.width + 2 * d.width
    ensures d.width <= maxWidth ==> r == d
  {
    if d.width > maxWidth then Dims(maxWidth, RoundDiv(d.height * maxWidth, d.width))
    else d
  }

  /** Resizing never enlarges an image, and its result is never wider than
      `maxWidth`. */
  lemma ResizeShrinks(d: Dims, maxWidth: nat)
    ensures Resize(d, maxWidth).width <= d.width
    ensures Resize(d, maxWidth).width <= maxWidth
    ensures Resize(d, maxWidth).height <= d.height
  {
    var r := Resize(d, maxWidth);
    if d.width > maxWidth {
      var w, h, h2 := d.width, d.height, r.height;
      // 2 * h2 * w <= 2 * h * maxWidth + w <= (2 * h + 1) * w < (2 * h + 2) * w
      assert 2 * h2 * w <= 2 * (h * maxWidth) + w;
      MulMonotone(h, maxWidth, w);
      assert (2 * h + 2) * w == 2 * (h * w) + 2 * w;
      assert (2 * h2) * w < (2 * h + 2) * w;
      MulCancel(2 * h2, 2 * h + 2, w);
    }
  }

  lemma MulMonotone(a: nat, b: nat, c: nat)
    requires b <= c
    ensures a * b <= a * c
  {
  }

  lemma MulCancel(a: nat, b: nat, c: nat)
    requires c > 0 && a * c < b * c
    ensures a < b
  {
    if a >= b {
      MulMonotone(c, b, a);
    }
  }

  /** Resizing is idempotent: a stored image is not resized again. */
  lemma ResizeIdempotent(d: Dims, maxWidth: nat)
    ensures Resize(Resize(d, maxWidth), maxWidth) == Resize(d, maxWidth)
  {
  }

  /** `compressBase64Image(src)`: the source is returned unchanged when it cannot be
      decoded or no drawing context exists; otherwise it is re-encoded at the
      resized dimensions. */
  function CompressImage(src: string, load: ImageLoad, encode: (string, Dims) -> string): (r: string)
    ensures load.LoadFailed? || !load.hasContext ==> r == src
    ensures load.Loaded? && load.hasContext ==> r == encode(src, Resize(load.dims, DefaultMaxWidth))
    ensures load.Loaded? && load.hasContext ==>
      exists d: Dims :: d.width <= DefaultMaxWidth && d.width <= load.dims.width
        && d.height <= load.dims.height && r == encode(src, d)
  {
    match load
    case LoadFailed => src
    case Loaded(dims, hasContext) =>
      if hasContext then
        var d := Resize(dims, DefaultMaxWidth);
        ResizeShrinks(dims, DefaultMaxWidth);
        encode(src, d)
      else src
  }
}
