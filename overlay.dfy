/** The canvas element under the scratch card, reduced to what the scratch
    engine touches: its pixel size, its alpha mask and the context's
    `fillStyle`. */
module Overlay {
  import opened Raster

  class Surface {
    var width: nat
    var height: nat
    /** Alpha of every pixel, row-major: pixel (x, y) is `alpha[y * width + x]`. */
    var alpha: array<byte>
    /** The context's `fillStyle`: the colour of the last `fillRect`, which
        every covered pixel carries, and the source colour of every
        `destination-out` fill. */
    var fill: Color

    ghost predicate Valid()
      reads this
    {
      alpha.Length == width * height
    }

    /** A canvas that has not been sized yet: the HTML default of 300 x 150
        pixels, all transparent black, with the default `fillStyle`, opaque
        black. */
    constructor ()
      ensures Valid() && fresh(alpha)
      ensures width == 300 && height == 150 && fill == Black
      ensures alpha[..] == Filled(300 * 150, 0)
    {
      width, height := 300, 150;
      alpha := new byte[300 * 150](_ => 0);
      fill := Black;
    }

    /** The reset of `setCanvasSize`: assigning the canvas size reallocates the
        buffer as transparent black, then `fillRect` covers all of it with `c`.
        Whatever was scratched before is gone. */
    method Resize(w: nat, h: nat, c: Color)
      modifies this
      ensures Valid() && fresh(alpha)
      ensures width == w && height == h && fill == c
      ensures alpha[..] == Filled(w * h, c.a)
    {
      var buffer := new byte[w * h](_ => 0);
      var k := 0;
      while k < buffer.Length
        invariant 0 <= k <= buffer.Length
        invariant forall j :: 0 <= j < k ==> buffer[j] == c.a
      {
        buffer[k] := c.a;
        k := k + 1;
      }
      width, height, alpha, fill := w, h, buffer, c;
    }

    /** `globalCompositeOperation = "destination-out"` followed by a filled
        `arc(cx, cy, r)`: every pixel of the disk is knocked out by the alpha
        of `fillStyle`, every other pixel keeps its alpha, and the part of
        the disk that lies off the canvas is clipped. */
    method EraseDisk(cx: int, cy: int, r: nat)
      requires Valid()
      modifies alpha
      ensures alpha[..] == Erased(old(alpha[..]), width, cx, cy, r, fill.a)
    {
      var k := 0;
      while k < alpha.Length
        invariant 0 <= k <= alpha.Length
        invariant forall j :: 0 <= j < k ==> alpha[j] == Erased(old(alpha[..]), width, cx, cy, r, fill.a)[j]
        invariant forall j :: k <= j < alpha.Length ==> alpha[j] == old(alpha[j])
      {
        if InDisk(k % width, k / width, cx, cy, r) {
          alpha[k] := KnockOut(alpha[k], fill.a);
        }
        k := k + 1;
      }
    }
  }
}
