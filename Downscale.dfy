/** The size computation of `downscaleImage` in script.js: the blocky image
    is the source image shrunk by the pixel-size slider value in each
    direction, rounding down. */
module Downscale {

  /** Width and height of an image, in pixels. */
  datatype Size = Size(width: nat, height: nat)

  /** `Math.floor(n / p)` on the floating-point quotient. */
  function FloorDiv(n: nat, p: nat): (q: int)
    requires 1 <= p
  {
    ((n as real) / (p as real)).Floor
  }

  /** Rounding the exact quotient down gives the largest `q` with `q * p <= n`,
      which is the integer quotient. */
  lemma FloorDivIsQuotient(n: nat, p: nat)
    requires 1 <= p
    ensures FloorDiv(n, p) == n / p
    ensures 0 <= FloorDiv(n, p)
    ensures FloorDiv(n, p) * p <= n < (FloorDiv(n, p) + 1) * p
  {
    var q := n / p;
    var x := (n as real) / (p as real);
    assert q * p <= n < (q + 1) * p;
    assert x * (p as real) == n as real;
    assert (q as real) * (p as real) <= x * (p as real);
    assert (q as real) <= x by {
      if x < q as real {
        MulStrict(x, q as real, p as real);
      }
    }
    assert x < (q + 1) as real by {
      if (q + 1) as real <= x {
        MulMono((q + 1) as real, x, p as real);
      }
    }
  }

  lemma MulStrict(a: real, b: real, c: real)
    requires a < b && 0.0 < c
    ensures a * c < b * c
  {
  }

  lemma MulMono(a: real, b: real, c: real)
    requires a <= b && 0.0 <= c
    ensures a * c <= b * c
  {
  }

  /** The canvas size the downscaled image is drawn into. */
  function DownscaledSize(image: Size, pixelSize: nat): (r: Size)
    requires 1 <= pixelSize
    ensures r.width == image.width / pixelSize && r.height == image.height / pixelSize
  {
    FloorDivIsQuotient(image.width, pixelSize);
    FloorDivIsQuotient(image.height, pixelSize);
    Size(FloorDiv(image.width, pixelSize), FloorDiv(image.height, pixelSize))
  }

  /** Each side is the number of whole `pixelSize` blocks that fit in the
      source side: the blocks cover at most the source, and one more would not
      fit. */
  lemma DownscaledSizeBlocks(image: Size, pixelSize: nat)
    requires 1 <= pixelSize
    ensures DownscaledSize(image, pixelSize).width * pixelSize <= image.width
    ensures image.width < (DownscaledSize(image, pixelSize).width + 1) * pixelSize
    ensures DownscaledSize(image, pixelSize).height * pixelSize <= image.height
    ensures image.height < (DownscaledSize(image, pixelSize).height + 1) * pixelSize
  {
    FloorDivIsQuotient(image.width, pixelSize);
    FloorDivIsQuotient(image.height, pixelSize);
  }

  /** A side shrinks to zero exactly when it is shorter than one block. */
  lemma DownscaledSizeEmpty(image: Size, pixelSize: nat)
    requires 1 <= pixelSize
    ensures DownscaledSize(image, pixelSize).width == 0 <==> image.width < pixelSize
    ensures DownscaledSize(image, pixelSize).height == 0 <==> image.height < pixelSize
  {
    DownscaledSizeBlocks(image, pixelSize);
  }

  /** A pixel size of 1 keeps the image size. */
  lemma DownscaledSizeOne(image: Size)
    ensures DownscaledSize(image, 1) == image
  {
    FloorDivIsQuotient(image.width, 1);
    FloorDivIsQuotient(image.height, 1);
  }

  /** The downscaled image is never larger than the source. */
  lemma DownscaledSizeShrinks(image: Size, pixelSize: nat)
    requires 1 <= pixelSize
    ensures DownscaledSize(image, pixelSize).width <= image.width
    ensures DownscaledSize(image, pixelSize).height <= image.height
  {
    DownscaledSizeBlocks(image, pixelSize);
    var r := DownscaledSize(image, pixelSize);
    MulNatMono(r.width, pixelSize);
    MulNatMono(r.height, pixelSize);
  }

  lemma MulNatMono(a: nat, p: nat)
    requires 1 <= p
    ensures a <= a * p
  {
    assert a * p == a + a * (p - 1);
  }
}
