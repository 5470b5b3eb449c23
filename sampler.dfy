/** The progress sampler: scan the RGBA bytes of the overlay, count the alpha
    bytes that are 0 and turn the count into a percentage of the canvas area. */
module Sampler {
  import opened Raster

  /** A progress value as the component computes it: a percentage, or NaN when
      the canvas has no pixel at all (0 / 0 in floating point). */
  datatype Reading = Percent(value: real) | NotANumber

  /** `transparent / total * 100`, exactly; the canvas area `total` bounds the
      transparent count for every RGBA array of that canvas. */
  function PercentOf(transparent: nat, total: nat): (p: Reading)
    requires transparent <= total
    ensures p.NotANumber? <==> total == 0
    ensures p.Percent? ==> 0.0 <= p.value <= 100.0
  {
    if total == 0 then NotANumber
    else
      var ratio := transparent as real / total as real;
      assert ratio <= 1.0 by {
        assert transparent as real <= total as real;
      }
      Percent(ratio * 100.0)
  }

  /** No transparent pixel reads as 0 %, a fully transparent canvas as 100 %. */
  lemma PercentEnds(total: nat)
    requires total > 0
    ensures PercentOf(0, total) == Percent(0.0)
    ensures PercentOf(total, total) == Percent(100.0)
  {
    assert total as real / total as real == 1.0;
  }

  /** More transparent pixels on the same canvas never read as less progress. */
  lemma PercentMonotone(t1: nat, t2: nat, total: nat)
    requires t1 <= t2 <= total && total > 0
    ensures PercentOf(t1, total).value <= PercentOf(t2, total).value
  {
    var T, a, b := total as real, t1 as real, t2 as real;
    assert (b - a) / T >= 0.0;
    assert b / T - a / T == (b - a) / T;
  }

  /** The scan of `checkScratchProgress`: look at the bytes at offsets 3, 7,
      11, … of `pixels` (the `getImageData` array of a `width` x `height`
      canvas), count those equal to 0, and divide by `width * height`.
      `getImageData` throws for a canvas without pixels, so the scan only
      ever sees a canvas with some, and the result is a number. */
  method CheckScratchProgress(pixels: seq<byte>, width: nat, height: nat)
      returns (progress: Reading, transparentPixels: nat)
    requires width * height > 0
    requires |pixels| == 4 * (width * height)
    ensures transparentPixels == TransparentCount(pixels)
    ensures transparentPixels <= width * height
    ensures progress == PercentOf(transparentPixels, width * height) && progress.Percent?
  {
    transparentPixels := 0;
    var i := 3;
    ghost var k := 0;
    while i < |pixels|
      invariant i == 4 * k + 3
      invariant 0 <= k <= |pixels| / 4
      invariant transparentPixels == ZeroCount(Alphas(pixels)[..k])
    {
      assert Alphas(pixels)[..k + 1][..k] == Alphas(pixels)[..k];
      if pixels[i] == 0 {
        transparentPixels := transparentPixels + 1;
      }
      i := i + 4;
      k := k + 1;
    }
    assert Alphas(pixels)[..k] == Alphas(pixels);
    var totalPixels := width * height;
    progress := PercentOf(transparentPixels, totalPixels);
  }
}
