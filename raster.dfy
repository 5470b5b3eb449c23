/** The overlay as the canvas stores it: one alpha byte per pixel, row-major,
    `width * height` pixels.  A pixel is "transparent" (scratched away) when its
    alpha is 0.  A `destination-out` fill of a disk scales the alpha of every
    covered pixel by one minus the fill colour's alpha; `ImageData` is the RGBA
    byte view that `getImageData` hands back. */
module Raster {

  newtype byte = b: int | 0 <= b < 256

  /** An RGBA colour, every channel in 0..255. */
  datatype Color = Color(r: byte, g: byte, b: byte, a: byte)

  /** Opaque black: the `fillStyle` of a new 2D context, and the overlay
      colour the card uses by default, `rgba(0, 0, 0, 1)`. */
  const Black := Color(0, 0, 0, 255)

  /** The integer disk rule standing for `arc(cx, cy, r)` + `fill()`; an arc
      of radius 0 encloses no area and covers nothing. */
  predicate InDisk(px: int, py: int, cx: int, cy: int, r: nat) {
    r > 0 && (px - cx) * (px - cx) + (py - cy) * (py - cy) <= r * r
  }

  /** Whether pixel number `k` of a buffer `w` pixels wide lies in the disk. */
  predicate CoveredByDisk(k: int, w: nat, cx: int, cy: int, r: nat) {
    w > 0 && 0 <= k && InDisk(k % w, k / w, cx, cy, r)
  }

  /** `destination-out` on one pixel whose alpha is `alpha`, with a fill
      colour of alpha `a`: the pixel keeps the fraction (255 - a) / 255 of its
      alpha, rounded to the nearest byte.  An opaque fill clears the pixel, a
      transparent one leaves it, and a cleared pixel stays clear. */
  function KnockOut(alpha: byte, a: byte): (k: byte)
    ensures k <= alpha
    ensures a == 255 ==> k == 0
    ensures a == 0 ==> k == alpha
    ensures alpha == 0 ==> k == 0
  {
    KnockOutBound(alpha as int, a as int);
    ((alpha as int * (255 - a as int) + 127) / 255) as byte
  }

  lemma KnockOutBound(v: int, a: int)
    requires 0 <= v < 256 && 0 <= a < 256
    ensures 0 <= (v * (255 - a) + 127) / 255 <= v
  {
    assert 0 <= v * (255 - a) <= v * 255 by {
      assert v * (255 - a) == v * 255 - v * a;
      assert v * a >= 0 && (255 - a) * v >= 0;
    }
  }

  /** The mask after a `destination-out` fill of the disk with a colour of
      alpha `a`: covered pixels are knocked out, every other pixel keeps its
      alpha; the parts of the disk that fall outside the buffer have no pixel
      and vanish.  No pixel gains alpha, and with an opaque fill every pixel
      either drops to 0 or is unchanged. */
  function Erased(s: seq<byte>, w: nat, cx: int, cy: int, r: nat, a: byte): (e: seq<byte>)
    ensures |e| == |s|
    ensures forall k :: 0 <= k < |s| ==> e[k] <= s[k] && (s[k] == 0 ==> e[k] == 0)
    ensures a == 255 ==> forall k :: 0 <= k < |s| ==> e[k] == 0 || e[k] == s[k]
  {
    seq(|s|, k requires 0 <= k < |s| => if CoveredByDisk(k, w, cx, cy, r) then KnockOut(s[k], a) else s[k])
  }

  /** A mask of `n` pixels all of alpha `a` (what `fillRect` leaves on a cleared canvas). */
  function Filled(n: nat, a: byte): (s: seq<byte>)
    ensures |s| == n
  {
    seq(n, _ => a)
  }

  /** Number of transparent pixels of a mask. */
  function ZeroCount(s: seq<byte>): (n: nat)
    ensures n <= |s|
  {
    if s == [] then 0
    else ZeroCount(s[..|s| - 1]) + (if s[|s| - 1] == 0 then 1 else 0)
  }

  /** Byte `ch` (0 = red … 3 = alpha) of a pixel of alpha `alpha` in an overlay
      filled with `c`.  A fully erased pixel reads as transparent black. */
  function Channel(alpha: byte, c: Color, ch: int): byte {
    if alpha == 0 then 0
    else if ch == 0 then c.r
    else if ch == 1 then c.g
    else if ch == 2 then c.b
    else alpha
  }

  /** The RGBA bytes `getImageData` returns for a mask: four per pixel. */
  function ImageData(alphas: seq<byte>, c: Color): (pixels: seq<byte>)
    ensures |pixels| == 4 * |alphas|
  {
    seq(4 * |alphas|, i requires 0 <= i < 4 * |alphas| => Channel(alphas[i / 4], c, i % 4))
  }

  /** The bytes at offsets 3, 7, 11, … of an RGBA byte array: the alpha channel. */
  function Alphas(pixels: seq<byte>): (s: seq<byte>)
    ensures |s| == |pixels| / 4
    ensures forall k :: 0 <= k < |s| ==> 4 * k + 3 < |pixels| && s[k] == pixels[4 * k + 3]
  {
    seq(|pixels| / 4, k requires 0 <= k < |pixels| / 4 => pixels[4 * k + 3])
  }

  /** Number of alpha bytes equal to 0 in an RGBA byte array. */
  function TransparentCount(pixels: seq<byte>): nat {
    ZeroCount(Alphas(pixels))
  }

  // ----- counting transparent pixels -----

  lemma {:induction false} ZeroCountNone(s: seq<byte>)
    requires forall k :: 0 <= k < |s| ==> s[k] != 0
    ensures ZeroCount(s) == 0
  {
    if s != [] {
      ZeroCountNone(s[..|s| - 1]);
    }
  }

  lemma {:induction false} ZeroCountAll(s: seq<byte>)
    requires forall k :: 0 <= k < |s| ==> s[k] == 0
    ensures ZeroCount(s) == |s|
  {
    if s != [] {
      ZeroCountAll(s[..|s| - 1]);
    }
  }

  /** A mask with the transparent count equal to its size is fully transparent. */
  lemma {:induction false} ZeroCountFull(s: seq<byte>, k: int)
    requires ZeroCount(s) == |s|
    requires 0 <= k < |s|
    ensures s[k] == 0
  {
    var t := s[..|s| - 1];
    assert ZeroCount(t) <= |t|;
    if k < |s| - 1 {
      ZeroCountFull(t, k);
    }
  }

  /** A mask with some transparent pixel has a positive transparent count. */
  lemma {:induction false} ZeroCountPositive(s: seq<byte>, k: int)
    requires 0 <= k < |s| && s[k] == 0
    ensures ZeroCount(s) > 0
  {
    if k < |s| - 1 {
      ZeroCountPositive(s[..|s| - 1], k);
    }
  }

  /** If every transparent pixel of `s` is transparent in `t`, then `t` has at
      least as many transparent pixels. */
  lemma {:induction false} ZeroCountMonotone(s: seq<byte>, t: seq<byte>)
    requires |s| == |t|
    requires forall k :: 0 <= k < |s| && s[k] == 0 ==> t[k] == 0
    ensures ZeroCount(s) <= ZeroCount(t)
  {
    if s != [] {
      ZeroCountMonotone(s[..|s| - 1], t[..|t| - 1]);
    }
  }

  /** The RGBA view has the mask as its alpha channel, so counting alpha bytes
      that are 0 in `getImageData`'s output counts the transparent pixels. */
  lemma TransparentCountOfImageData(alphas: seq<byte>, c: Color)
    ensures Alphas(ImageData(alphas, c)) == alphas
    ensures TransparentCount(ImageData(alphas, c)) == ZeroCount(alphas)
  {
    var pixels := ImageData(alphas, c);
    forall k | 0 <= k < |alphas|
      ensures Alphas(pixels)[k] == alphas[k]
    {
      assert (4 * k + 3) / 4 == k && (4 * k + 3) % 4 == 3;
    }
  }

  // ----- geometry of the erase -----

  lemma MulAtLeast(d: int, w: int)
    requires d >= 1 && w > 0
    ensures d * w >= w
  {
    assert d * w == (d - 1) * w + w;
  }

  lemma MulAtMost(d: int, w: int)
    requires d <= -1 && w > 0
    ensures d * w <= -w
  {
    assert d * w == (d + 1) * w - w;
  }

  /** The only multiple of `w` strictly between `-w` and `w` is 0. */
  lemma SmallMultiple(d: int, w: int)
    requires w > 0 && -w < d * w < w
    ensures d == 0
  {
    if d >= 1 {
      MulAtLeast(d, w);
    } else if d <= -1 {
      MulAtMost(d, w);
    }
  }

  /** Euclidean division by `w` is determined by quotient and remainder. */
  lemma DivModUnique(k: int, w: int, q: int, rem: int)
    requires w > 0 && 0 <= rem < w && k == q * w + rem
    ensures k / w == q && k % w == rem
  {
    var q', rem' := k / w, k % w;
    assert (q' - q) * w == rem - rem';
    SmallMultiple(q' - q, w);
  }

  /** Row-major addressing: pixel (px, py) of a buffer `w` wide is number
      `py * w + px`, and it lies inside a buffer `h` high. */
  lemma PixelIndex(px: int, py: int, w: nat, h: nat)
    requires 0 <= px < w && 0 <= py < h
    ensures 0 <= py * w + px < w * h
    ensures (py * w + px) % w == px && (py * w + px) / w == py
  {
    assert py * w <= (h - 1) * w by {
      assert (h - 1 - py) * w >= 0;
      assert (h - 1) * w == py * w + (h - 1 - py) * w;
    }
    assert (h - 1) * w + w == w * h;
    DivModUnique(py * w + px, w, py, px);
  }

  /** `destination-out` at pixel level: an in-bounds pixel inside the disk
      is knocked out by the fill alpha; any other pixel keeps its alpha. */
  lemma ErasedPixel(s: seq<byte>, w: nat, h: nat, cx: int, cy: int, r: nat, a: byte, px: int, py: int)
    requires |s| == w * h
    requires 0 <= px < w && 0 <= py < h
    ensures 0 <= py * w + px < |s|
    ensures Erased(s, w, cx, cy, r, a)[py * w + px]
            == if InDisk(px, py, cx, cy, r) then KnockOut(s[py * w + px], a) else s[py * w + px]
  {
    PixelIndex(px, py, w, h);
  }

  /** With an opaque fill, erasing the same disk twice leaves the same mask as
      erasing it once. */
  lemma ErasedIdempotent(s: seq<byte>, w: nat, cx: int, cy: int, r: nat, a: byte)
    requires a == 255
    ensures Erased(Erased(s, w, cx, cy, r, a), w, cx, cy, r, a) == Erased(s, w, cx, cy, r, a)
  {
  }

  /** Two erasures with the same fill commute: the order of the strokes does
      not change the mask. */
  lemma ErasedCommute(s: seq<byte>, w: nat, cx1: int, cy1: int, r1: nat, cx2: int, cy2: int, r2: nat, a: byte)
    ensures Erased(Erased(s, w, cx1, cy1, r1, a), w, cx2, cy2, r2, a)
         == Erased(Erased(s, w, cx2, cy2, r2, a), w, cx1, cy1, r1, a)
  {
  }

  /** Erasure never re-covers a pixel, so the transparent count never drops. */
  lemma ErasedCountGrows(s: seq<byte>, w: nat, cx: int, cy: int, r: nat, a: byte)
    ensures ZeroCount(s) <= ZeroCount(Erased(s, w, cx, cy, r, a))
  {
    ZeroCountMonotone(s, Erased(s, w, cx, cy, r, a));
  }

  lemma SquareBound(d: int, m: int)
    requires 0 <= m && -m <= d <= m
    ensures d * d <= m * m
  {
    if d >= 0 {
      assert d * d <= d * m <= m * m;
    } else {
      assert d * d == (-d) * (-d);
      assert (-d) * (-d) <= (-d) * m <= m * m;
    }
  }

  /** An opaque disk centred in the buffer whose radius is at least `w + h`
      (longer than the diagonal) clears every pixel. */
  lemma ErasedClearsAll(s: seq<byte>, w: nat, h: nat, cx: int, cy: int, r: nat, a: byte)
    requires |s| == w * h
    requires 0 <= cx < w && 0 <= cy < h
    requires r >= w + h && a == 255
    ensures forall k :: 0 <= k < |s| ==> Erased(s, w, cx, cy, r, a)[k] == 0
    ensures ZeroCount(Erased(s, w, cx, cy, r, a)) == |s|
  {
    var e := Erased(s, w, cx, cy, r, a);
    forall k | 0 <= k < |s|
      ensures e[k] == 0
    {
      var px, py := k % w, k / w;
      assert py < h;
      SquareBound(px - cx, w);
      SquareBound(py - cy, h);
      assert w * w + h * h <= (w + h) * (w + h);
      SquareBound(w + h, r);
      assert InDisk(px, py, cx, cy, r);
    }
    ZeroCountAll(e);
  }

  /** A freshly filled overlay with a visible colour has no transparent pixel;
      one filled with a fully transparent colour is all transparent. */
  lemma FilledCount(n: nat, a: byte)
    ensures a != 0 ==> ZeroCount(Filled(n, a)) == 0
    ensures a == 0 ==> ZeroCount(Filled(n, a)) == n
  {
    if a != 0 {
      ZeroCountNone(Filled(n, a));
    } else {
      ZeroCountAll(Filled(n, a));
    }
  }
}
