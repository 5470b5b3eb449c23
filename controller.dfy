/** The scratch controller of the scratch card: pointer events in, disk
    erasures and progress reports out. */
module Controller {
  import opened Raster
  import opened Sampler
  import opened Overlay

  /** The props the engine reads.  `scratch` and `isNearEdge` read them at
      every event, so a re-render with new props takes effect at the next one. */
  datatype Config = Config(
    overlayColor: Color,
    brushSize: nat,
    edgeClearDistance: int,
    allowScratch: bool)

  /** The defaults of the component: opaque black overlay, brush 20, edge
      band 30, scratching allowed. */
  const DefaultConfig := Config(Black, 20, 30, true)

  /** The configuration the app mounts the card with: overlay
      `rgba(0, 0, 0, 0.99)` (alpha 252 of 255), brush 40, edge band 20, and
      scratching switched off. */
  const AppConfig := Config(Color(0, 0, 0, 252), 40, 20, false)

  /** What a handler reads from the page when an event arrives: the window's
      inner size and the origin of the canvas's bounding box. */
  datatype Viewport = Viewport(innerWidth: int, innerHeight: int, left: int, top: int)

  datatype Point = Point(x: int, y: int)

  /** A mouse event carries one client position; a touch event carries the
      list of current touch points. */
  datatype InputEvent =
    | MouseEvent(clientX: int, clientY: int)
    | TouchEvent(touches: seq<Point>)

  datatype Option<T> = None | Some(value: T)

  // ----- decisions -----

  /** `isNearEdge`: the point lies in the band of width `d` along one of the
      four window edges; every bound is inclusive. */
  predicate IsNearEdge(x: int, y: int, d: int, vp: Viewport) {
    x <= d || x >= vp.innerWidth - d || y <= d || y >= vp.innerHeight - d
  }

  function Min(a: int, b: int): int {
    if a <= b then a else b
  }

  /** Distance from a point to the nearest window edge. */
  function EdgeDistance(x: int, y: int, vp: Viewport): int {
    Min(Min(x, vp.innerWidth - x), Min(y, vp.innerHeight - y))
  }

  /** The edge band is exactly the set of points at distance at most `d`
      from the nearest window edge. */
  lemma NearEdgeIsWithinDistance(x: int, y: int, d: int, vp: Viewport)
    ensures IsNearEdge(x, y, d, vp) <==> EdgeDistance(x, y, vp) <= d
  {
  }

  /** The radius `scratch` erases with: three brushes wide in the edge band,
      one brush otherwise. */
  function BrushRadius(cfg: Config, vp: Viewport, x: int, y: int): (r: nat)
    ensures r == cfg.brushSize || r == cfg.brushSize * 3
    ensures cfg.brushSize <= r
  {
    if IsNearEdge(x, y, cfg.edgeClearDistance, vp) then cfg.brushSize * 3 else cfg.brushSize
  }

  /** `getMousePos`: a mouse event's client position, or the first touch
      point's, made relative to the canvas origin.  A touch event without any
      touch point has no position (the source would throw reading
      `touches[0]`). */
  function GetMousePos(e: InputEvent, vp: Viewport): (p: Option<Point>)
    ensures p.None? <==> e.TouchEvent? && e.touches == []
  {
    match e
    case MouseEvent(cx, cy) => Some(Point(cx - vp.left, cy - vp.top))
    case TouchEvent(ts) =>
      if ts == [] then None else Some(Point(ts[0].x - vp.left, ts[0].y - vp.top))
  }

  /** Pointer unification: a touch acts as a mouse event at its first touch
      point, whatever the other touch points are, and the position found
      plus the canvas origin is the client position. */
  lemma TouchIsFirstPointMouse(t: Point, rest: seq<Point>, vp: Viewport)
    ensures GetMousePos(TouchEvent([t] + rest), vp) == GetMousePos(MouseEvent(t.x, t.y), vp)
    ensures GetMousePos(MouseEvent(t.x, t.y), vp).value.x + vp.left == t.x
    ensures GetMousePos(MouseEvent(t.x, t.y), vp).value.y + vp.top == t.y
  {
  }

  /** The mask after `scratch(x, y)` on a canvas `w` pixels wide whose
      `fillStyle` has alpha `a`. */
  function ScratchedMask(cfg: Config, vp: Viewport, w: nat, a: byte, s: seq<byte>, x: int, y: int): (e: seq<byte>)
    ensures |e| == |s|
  {
    if !cfg.allowScratch then s else Erased(s, w, x, y, BrushRadius(cfg, vp, x, y), a)
  }

  /** The mask after a pointer event that scratches at its position, if it has one. */
  function ScratchedAtEvent(cfg: Config, vp: Viewport, w: nat, a: byte, s: seq<byte>, e: InputEvent): (m: seq<byte>)
    ensures |m| == |s|
  {
    match GetMousePos(e, vp)
    case None => s
    case Some(p) => ScratchedMask(cfg, vp, w, a, s, p.x, p.y)
  }

  // ----- what a scratch does to the overlay -----

  /** `scratch` at pixel level, with a `fillStyle` of alpha `a`: with
      scratching allowed, an in-bounds pixel is knocked out exactly when it
      lies in the disk centred on the point, of radius `3 * brushSize` in the
      edge band and `brushSize` elsewhere; every other pixel keeps its alpha.
      With scratching disallowed nothing changes. */
  lemma ScratchPixel(cfg: Config, vp: Viewport, a: byte, s: seq<byte>, w: nat, h: nat,
                     x: int, y: int, px: int, py: int)
    requires |s| == w * h
    requires 0 <= px < w && 0 <= py < h
    ensures 0 <= py * w + px < |s|
    ensures ScratchedMask(cfg, vp, w, a, s, x, y)[py * w + px] ==
      if !cfg.allowScratch then s[py * w + px]
      else if IsNearEdge(x, y, cfg.edgeClearDistance, vp) && InDisk(px, py, x, y, cfg.brushSize * 3) then KnockOut(s[py * w + px], a)
      else if !IsNearEdge(x, y, cfg.edgeClearDistance, vp) && InDisk(px, py, x, y, cfg.brushSize) then KnockOut(s[py * w + px], a)
      else s[py * w + px]
  {
    ErasedPixel(s, w, h, x, y, BrushRadius(cfg, vp, x, y), a, px, py);
  }

  /** With `allowScratch` false a scratch leaves the overlay as it was. */
  lemma DisallowedScratchKeepsMask(cfg: Config, vp: Viewport, w: nat, a: byte, s: seq<byte>, e: InputEvent)
    requires !cfg.allowScratch
    ensures ScratchedAtEvent(cfg, vp, w, a, s, e) == s
  {
  }

  /** As the app configures the card, no pointer event changes a freshly
      covered canvas, and that canvas reads 0 %. */
  lemma AppNeverErases(vp: Viewport, w: nat, h: nat, e: InputEvent)
    requires w * h > 0
    ensures ScratchedAtEvent(AppConfig, vp, w, AppConfig.overlayColor.a, Filled(w * h, AppConfig.overlayColor.a), e)
         == Filled(w * h, AppConfig.overlayColor.a)
    ensures PercentOf(ZeroCount(Filled(w * h, AppConfig.overlayColor.a)), w * h) == Percent(0.0)
  {
    FilledCount(w * h, AppConfig.overlayColor.a);
    PercentEnds(w * h);
  }

  /** With the app's overlay colour, alpha 252, but scratching allowed: one
      scratch of a freshly covered canvas leaves alpha 3 under the pointer
      and no transparent pixel anywhere, so the check reads 0 %; a second
      scratch at the same point clears the pixel under the pointer.  A
      translucent overlay therefore takes two passes, and scratching is not
      idempotent for it. */
  lemma TranslucentOverlayNeedsTwoPasses(vp: Viewport, w: nat, h: nat, x: int, y: int)
    requires 0 <= x < w && 0 <= y < h
    ensures 0 <= y * w + x < w * h
    ensures
      var cfg := AppConfig.(allowScratch := true);
      var a := cfg.overlayColor.a;
      var once := ScratchedMask(cfg, vp, w, a, Filled(w * h, a), x, y);
      && once[y * w + x] == 3
      && PercentOf(ZeroCount(once), w * h) == Percent(0.0)
      && ScratchedMask(cfg, vp, w, a, once, x, y)[y * w + x] == 0
      && ScratchedMask(cfg, vp, w, a, once, x, y) != once
  {
    var cfg := AppConfig.(allowScratch := true);
    var a := cfg.overlayColor.a;
    var s := Filled(w * h, a);
    var once := ScratchedMask(cfg, vp, w, a, s, x, y);
    var twice := ScratchedMask(cfg, vp, w, a, once, x, y);
    ScratchPixel(cfg, vp, a, s, w, h, x, y, x, y);
    ScratchPixel(cfg, vp, a, once, w, h, x, y, x, y);
    assert KnockOut(252, 252) == 3 && KnockOut(3, 252) == 0;
    forall k | 0 <= k < |once|
      ensures once[k] != 0
    {
      assert once[k] == 252 || once[k] == KnockOut(252, 252);
    }
    ZeroCountNone(once);
    PercentEnds(w * h);
    assert twice[y * w + x] != once[y * w + x];
  }

  /** With an opaque `fillStyle`, scratching the same point twice leaves the
      overlay as scratching once. */
  lemma ScratchIdempotent(cfg: Config, vp: Viewport, w: nat, a: byte, s: seq<byte>, x: int, y: int)
    requires a == 255
    ensures ScratchedMask(cfg, vp, w, a, ScratchedMask(cfg, vp, w, a, s, x, y), x, y)
         == ScratchedMask(cfg, vp, w, a, s, x, y)
  {
    if cfg.allowScratch {
      ErasedIdempotent(s, w, x, y, BrushRadius(cfg, vp, x, y), a);
    }
  }

  /** A scratch never re-covers a pixel, so the transparent count and the
      percentage read from the canvas never go down. */
  lemma ScratchNeverRecovers(cfg: Config, vp: Viewport, w: nat, a: byte, s: seq<byte>, x: int, y: int)
    ensures forall k :: 0 <= k < |s| && s[k] == 0 ==> ScratchedMask(cfg, vp, w, a, s, x, y)[k] == 0
    ensures ZeroCount(s) <= ZeroCount(ScratchedMask(cfg, vp, w, a, s, x, y))
    ensures |s| > 0 ==>
      PercentOf(ZeroCount(s), |s|).value
        <= PercentOf(ZeroCount(ScratchedMask(cfg, vp, w, a, s, x, y)), |s|).value
  {
    var e := ScratchedMask(cfg, vp, w, a, s, x, y);
    ZeroCountMonotone(s, e);
    if |s| > 0 {
      PercentMonotone(ZeroCount(s), ZeroCount(e), |s|);
    }
  }

  /** A press inside the canvas with scratching allowed, a non-zero brush and
      an opaque overlay clears at least the pixel under the pointer, so the
      sample taken after the release reads more than 0 %. */
  lemma PressThenReleaseShowsProgress(cfg: Config, vp: Viewport, s: seq<byte>, w: nat, h: nat, x: int, y: int)
    requires cfg.allowScratch && cfg.brushSize > 0 && cfg.overlayColor.a == 255
    requires |s| == w * h
    requires 0 <= x < w && 0 <= y < h
    ensures PercentOf(ZeroCount(ScratchedMask(cfg, vp, w, cfg.overlayColor.a, s, x, y)), w * h).value > 0.0
  {
    var e := ScratchedMask(cfg, vp, w, cfg.overlayColor.a, s, x, y);
    ScratchPixel(cfg, vp, cfg.overlayColor.a, s, w, h, x, y, x, y);
    ZeroCountPositive(e, y * w + x);
    var t, n := ZeroCount(e) as real, (w * h) as real;
    assert t / n > 0.0;
  }

  /** Right after a resize with a visible overlay colour the canvas reads 0 %,
      whatever the other props are. */
  lemma ResetReadsZero(cfg: Config, w: nat, h: nat)
    requires w * h > 0 && cfg.overlayColor.a != 0
    ensures PercentOf(ZeroCount(Filled(w * h, cfg.overlayColor.a)), w * h) == Percent(0.0)
  {
    FilledCount(w * h, cfg.overlayColor.a);
    PercentEnds(w * h);
  }

  /** With an opaque overlay, a scratch whose disk covers the whole freshly
      covered canvas makes it read 100 %. */
  lemma FullEraseReadsHundred(cfg: Config, vp: Viewport, w: nat, h: nat, x: int, y: int)
    requires cfg.allowScratch && cfg.overlayColor.a == 255
    requires 0 <= x < w && 0 <= y < h
    requires cfg.brushSize >= w + h
    ensures PercentOf(ZeroCount(ScratchedMask(cfg, vp, w, cfg.overlayColor.a, Filled(w * h, cfg.overlayColor.a), x, y)), w * h)
         == Percent(100.0)
  {
    var s := Filled(w * h, cfg.overlayColor.a);
    ErasedClearsAll(s, w, h, x, y, BrushRadius(cfg, vp, x, y), cfg.overlayColor.a);
    PercentEnds(w * h);
  }

  /** With the component's default props, a freshly covered canvas reads 0 %
      and a single press inside it makes the next check read more than 0 %. */
  lemma DefaultCardShowsProgress(vp: Viewport, w: nat, h: nat, x: int, y: int)
    requires 0 <= x < w && 0 <= y < h
    ensures PercentOf(ZeroCount(Filled(w * h, DefaultConfig.overlayColor.a)), w * h) == Percent(0.0)
    ensures PercentOf(ZeroCount(ScratchedMask(DefaultConfig, vp, w, DefaultConfig.overlayColor.a,
                                              Filled(w * h, DefaultConfig.overlayColor.a), x, y)), w * h).value > 0.0
  {
    ResetReadsZero(DefaultConfig, w, h);
    PressThenReleaseShowsProgress(DefaultConfig, vp, Filled(w * h, DefaultConfig.overlayColor.a), w, h, x, y);
  }

  /** `getImageData` on a covered canvas followed by the scan: the reading
      is the percentage of transparent pixels of the mask. */
  method ReadProgress(mask: seq<byte>, fill: Color, w: nat, h: nat) returns (reading: Reading)
    requires |mask| == w * h && w * h > 0
    ensures reading == PercentOf(ZeroCount(mask), w * h) && reading.Percent?
  {
    TransparentCountOfImageData(mask, fill);
    var transparentPixels;
    reading, transparentPixels := CheckScratchProgress(ImageData(mask, fill), w, h);
  }

  // ----- the component -----

  class ScratchCard {
    /** The current props. */
    var config: Config
    const canvas: Surface
    /** The `isDrawing` state: a drag is in progress. */
    var isDrawing: bool
    /** `progressRef.current`: the last progress value computed. */
    var progress: Reading
    /** Every value passed to `onProgressChange`, in call order. */
    var reported: seq<Reading>
    /** Progress checks scheduled by a release and not yet run. */
    var pendingChecks: nat

    ghost predicate Valid()
      reads this, canvas
    {
      canvas.Valid()
    }

    /** Mounting: the canvas is still the unsized default; the deferred
        `setCanvasSize` has not run yet. */
    constructor (cfg: Config)
      ensures Valid() && fresh(canvas) && fresh(canvas.alpha)
      ensures config == cfg && canvas.width == 300 && canvas.height == 150
      ensures canvas.alpha[..] == Filled(300 * 150, 0)
      ensures !isDrawing && progress == Percent(0.0) && reported == [] && pendingChecks == 0
    {
      config := cfg;
      canvas := new Surface();
      isDrawing := false;
      progress := Percent(0.0);
      reported := [];
      pendingChecks := 0;
    }

    /** `setCanvasSize`, run by the mount timer and on every window resize:
        the canvas takes the new size, is covered again with the overlay
        colour, and progress 0 is stored and reported, whatever came before.
        The drag flag is left alone. */
    method SetCanvasSize(w: nat, h: nat)
      requires Valid()
      modifies this, canvas
      ensures Valid() && fresh(canvas.alpha)
      ensures canvas.width == w && canvas.height == h && canvas.fill == config.overlayColor
      ensures canvas.alpha[..] == Filled(w * h, config.overlayColor.a) && config == old(config)
      ensures progress == Percent(0.0) && reported == old(reported) + [Percent(0.0)]
      ensures isDrawing == old(isDrawing) && pendingChecks == old(pendingChecks)
    {
      canvas.Resize(w, h, config.overlayColor);
      progress := Percent(0.0);
      reported := reported + [Percent(0.0)];
    }

    /** `clearEdgeArea`: erase a disk three brushes wide around the point. */
    method ClearEdgeArea(x: int, y: int)
      requires Valid()
      modifies canvas.alpha
      ensures canvas.alpha[..] == Erased(old(canvas.alpha[..]), canvas.width, x, y, config.brushSize * 3, canvas.fill.a)
    {
      canvas.EraseDisk(x, y, config.brushSize * 3);
    }

    /** `scratch`: nothing when scratching is not allowed; otherwise the wide
        erase in the edge band and the brush-sized erase elsewhere. */
    method Scratch(x: int, y: int, vp: Viewport)
      requires Valid()
      modifies canvas.alpha
      ensures canvas.alpha[..] == ScratchedMask(config, vp, canvas.width, canvas.fill.a, old(canvas.alpha[..]), x, y)
    {
      if !config.allowScratch {
        return;
      }
      if IsNearEdge(x, y, config.edgeClearDistance, vp) {
        ClearEdgeArea(x, y);
      } else {
        canvas.EraseDisk(x, y, config.brushSize);
      }
    }

    /** A re-render with new props.  The next event reads the new
        `allowScratch`, `brushSize` and `edgeClearDistance`.  A new
        `overlayColor` re-runs the effect, whose deferred `setCanvasSize`
        refills the canvas; until that runs, the canvas and its `fillStyle`
        stay as they are.  Nothing else changes. */
    method UpdateProps(cfg: Config)
      requires Valid()
      modifies this`config
      ensures Valid() && config == cfg
    {
      config := cfg;
    }

    /** `handleMouseDown` / `handleTouchStart`: the drag starts (even when
        scratching is not allowed) and the overlay is scratched once at the
        pointer.  Nothing is reported. */
    method PointerDown(e: InputEvent, vp: Viewport)
      requires Valid()
      modifies this, canvas.alpha
      ensures Valid() && isDrawing && config == old(config)
      ensures canvas.alpha[..] == ScratchedAtEvent(config, vp, canvas.width, canvas.fill.a, old(canvas.alpha[..]), e)
      ensures progress == old(progress) && reported == old(reported)
      ensures pendingChecks == old(pendingChecks)
    {
      isDrawing := true;
      var pos := GetMousePos(e, vp);
      if pos.Some? {
        Scratch(pos.value.x, pos.value.y, vp);
      }
    }

    /** `handleMouseMove` / `handleTouchMove`: without a drag in progress
        nothing happens; during a drag the overlay is scratched at the
        pointer. */
    method PointerMove(e: InputEvent, vp: Viewport)
      requires Valid()
      modifies canvas.alpha
      ensures !isDrawing ==> canvas.alpha[..] == old(canvas.alpha[..])
      ensures isDrawing ==>
        canvas.alpha[..] == ScratchedAtEvent(config, vp, canvas.width, canvas.fill.a, old(canvas.alpha[..]), e)
    {
      if !isDrawing {
        return;
      }
      var pos := GetMousePos(e, vp);
      if pos.Some? {
        Scratch(pos.value.x, pos.value.y, vp);
      }
    }

    /** `handleMouseUp` (also wired to mouse-leave) / `handleTouchEnd`: the
        drag ends and one progress check is scheduled. */
    method PointerUp()
      requires Valid()
      modifies this
      ensures Valid() && !isDrawing && pendingChecks == old(pendingChecks) + 1
      ensures progress == old(progress) && reported == old(reported) && config == old(config)
    {
      isDrawing := false;
      pendingChecks := pendingChecks + 1;
    }

    /** A scheduled `checkScratchProgress` runs.  On a canvas without pixels
        `getImageData` throws, so nothing is stored or reported; otherwise
        the canvas is read back and the percentage of transparent pixels is
        stored and reported. */
    method FireProgressCheck()
      requires Valid() && pendingChecks > 0
      modifies this
      ensures Valid() && pendingChecks == old(pendingChecks) - 1 && isDrawing == old(isDrawing)
      ensures config == old(config)
      ensures canvas.width * canvas.height == 0 ==> progress == old(progress) && reported == old(reported)
      ensures canvas.width * canvas.height > 0 ==>
        && progress == PercentOf(ZeroCount(canvas.alpha[..]), canvas.width * canvas.height)
        && progress.Percent?
        && reported == old(reported) + [progress]
    {
      pendingChecks := pendingChecks - 1;
      var w, h := canvas.width, canvas.height;
      if w * h == 0 {
        return;
      }
      var reading := ReadProgress(canvas.alpha[..], canvas.fill, w, h);
      progress := reading;
      reported := reported + [reading];
    }
  }
}
