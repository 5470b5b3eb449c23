# Scratch card and typewriter, modelled in Dafny

This project models the two pieces of logic in the Saltwater Room app.

- **The scratch-reveal engine** (`SimpleScratchCard`). An overlay canvas covers the page. A mouse or touch drag erases disks out of it: a brush-sized disk, or one three brushes wide when the pointer is in a band along the window edges. When a drag ends, a deferred check reads the canvas back, counts the pixels whose alpha byte is 0, and reports that count as a percentage of the canvas area.
- **The typewriter** (`Typewriter` in `HeartTalk`). When its text changes it clears what it shows. After a start delay it types one character per timer tick. At the end of the text it turns typing off and calls `onComplete`.

Modules:

- `Raster` (raster.dfy) holds the overlay as a row-major alpha mask. It defines the disk rule for a `destination-out` fill, which scales each covered pixel's alpha by one minus the fill colour's alpha (`KnockOut`, `Erased`), the RGBA byte view returned by `getImageData` (`ImageData`), and transparent-pixel counting (`ZeroCount`).
- `Sampler` (sampler.dfy) holds the counting loop of `checkScratchProgress` and the percentage it computes.
- `Overlay` (overlay.dfy) holds the canvas as a class `Surface` with an `array` of alpha bytes. Resizing replaces the buffer and refills it; erasing cuts a disk out of it in place.
- `Controller` (controller.dfy) holds the card as a class `ScratchCard`. It has the `isDrawing` flag, `progressRef`, the list of values passed to `onProgressChange`, and the pending progress checks. Around the class are the pure decisions: `isNearEdge`, the brush radius and `getMousePos`.
- `HeartTalk` (typewriter.dfy) holds the typewriter as a pure step function on a `TypingState`, with the invariants and run lemmas. The class `Typewriter` has methods proved against that step function.

The model keeps these behaviours of the code, which a reader might not expect:

- A pointer-down sets `isDrawing` even when scratching is not allowed. Only `scratch` checks `allowScratch`, so nothing is erased.
- A resize does not clear `isDrawing`.
- Before the deferred first `setCanvasSize`, the canvas is the unsized HTML default: 300 x 150 pixels, all transparent, with the default opaque black `fillStyle`.
- `setCanvasSize` leaves `fillStyle` at the overlay colour, so every later `destination-out` disk is filled with that colour. An overlay with alpha below 255 is only partly erased by one stroke: the app's `rgba(0, 0, 0, 0.99)` (alpha 252) drops to alpha 3 under the first stroke and to 0 under the second.
- On a canvas without pixels, `getImageData` throws, so a progress check stores and reports nothing.
- Timers fire in whatever order the caller chooses. A release before the first `setCanvasSize` (a mouse-leave needs no press) schedules a check that reads the unsized, fully transparent canvas as 100 percent. In a browser the mount timer is armed first, so this order is unlikely.
- The props are read at every event (`UpdateProps`). A press refused while `allowScratch` is false still starts a drag, so if a re-render then allows scratching, the next move erases without a new press.

## Model

| member | source | states |
|---|---|---|
| Raster.KnockOut | src/components/SimpleScratchCard.tsx:182-185 | destination-out with a fill of alpha a never raises a pixel's alpha; an opaque fill clears the pixel, a transparent fill leaves it, and a cleared pixel stays clear |
| Raster.Erased | src/components/SimpleScratchCard.tsx:181-185 | the mask after a destination-out disk has the same size, no pixel gains alpha, a transparent pixel stays transparent, and with an opaque fill every pixel is either 0 or keeps its old alpha |
| Raster.ZeroCount | src/components/SimpleScratchCard.tsx:44-49 | the transparent count never exceeds the number of pixels |
| Raster.ZeroCountNone | src/components/SimpleScratchCard.tsx:44-49 | with no alpha byte equal to 0, the count is 0 |
| Raster.ZeroCountAll | src/components/SimpleScratchCard.tsx:44-49 | with every alpha byte 0, the count is the number of pixels |
| Raster.ZeroCountFull | src/components/SimpleScratchCard.tsx:44-49 | a count equal to the number of pixels means every pixel is transparent |
| Raster.ZeroCountPositive | src/components/SimpleScratchCard.tsx:44-49 | one transparent pixel makes the count positive |
| Raster.ZeroCountMonotone | src/components/SimpleScratchCard.tsx:44-49 | if every transparent pixel stays transparent, the count does not drop |
| Raster.TransparentCountOfImageData | src/components/SimpleScratchCard.tsx:40-49 | the bytes at offsets 4k+3 of getImageData's array (Alphas) are exactly the mask, so the stride-4 scan counts its transparent pixels |
| Raster.PixelIndex | src/components/SimpleScratchCard.tsx:40-41 | pixel (x, y) is byte group y*width+x, inside the buffer, and that index maps back to (x, y) |
| Raster.ErasedPixel | src/components/SimpleScratchCard.tsx:182-185 | an in-bounds pixel inside the disk is knocked out by the fill alpha; any other pixel keeps its alpha |
| Raster.ErasedIdempotent | src/components/SimpleScratchCard.tsx:181-185 | with an opaque fill, erasing the same disk twice gives the same mask as erasing it once |
| Raster.ErasedCommute | src/components/SimpleScratchCard.tsx:181-185 | two disk erasures with the same fill give the same mask in either order |
| Raster.ErasedCountGrows | src/components/SimpleScratchCard.tsx:81 | destination-out never re-covers a pixel, so the transparent count never drops |
| Raster.ErasedClearsAll | src/components/SimpleScratchCard.tsx:182-185 | an opaque disk centred on the canvas with radius at least width+height clears every pixel, so the count is the canvas area |
| Raster.FilledCount | src/components/SimpleScratchCard.tsx:113-114 | after the refill there is no transparent pixel, unless the overlay colour's alpha is 0, when every pixel is transparent |
| Sampler.PercentOf | src/components/SimpleScratchCard.tsx:52-53 | progress is NaN exactly when the canvas has no pixel, and otherwise lies in [0, 100] |
| Sampler.PercentEnds | src/components/SimpleScratchCard.tsx:52-53 | no transparent pixel reads 0 percent and all transparent reads 100 percent |
| Sampler.PercentMonotone | src/components/SimpleScratchCard.tsx:52-53 | more transparent pixels on the same canvas never give a smaller percentage |
| Sampler.CheckScratchProgress | src/components/SimpleScratchCard.tsx:40-53 | on a canvas with pixels, the loop from offset 3 with stride 4 counts exactly the zero alpha bytes; the count is at most width*height; progress is that count over width*height, times 100, a number |
| Overlay.Surface.constructor | src/components/SimpleScratchCard.tsx:256-278 | a canvas not yet sized is 300 x 150 and fully transparent, and its fillStyle is opaque black |
| Overlay.Surface.Resize | src/components/SimpleScratchCard.tsx:98-114 | the canvas takes the new size, fillStyle becomes the overlay colour and every pixel gets its alpha, whatever was there before |
| Overlay.Surface.EraseDisk | src/components/SimpleScratchCard.tsx:181-185 | the alpha array in place becomes Erased of its old contents with the fillStyle's alpha; pixels off the canvas are clipped |
| Controller.NearEdgeIsWithinDistance | src/components/SimpleScratchCard.tsx:64-71 | isNearEdge holds iff the distance to the nearest window edge is at most edgeClearDistance (inclusive bounds) |
| Controller.BrushRadius | src/components/SimpleScratchCard.tsx:84 | the erase radius is brushSize or 3*brushSize, never less than brushSize |
| Controller.GetMousePos | src/components/SimpleScratchCard.tsx:145-166 | a position exists for every mouse event and for every touch event with at least one touch point |
| Controller.TouchIsFirstPointMouse | src/components/SimpleScratchCard.tsx:152-165 | a touch event acts like a mouse event at its first touch point, and the position plus the canvas origin is the client position |
| Controller.ScratchPixel | src/components/SimpleScratchCard.tsx:168-187 | with scratching allowed, an in-bounds pixel is knocked out by the fillStyle's alpha iff it is in the 3*brushSize disk (near an edge) or the brushSize disk (elsewhere), and every other pixel is unchanged; with scratching disallowed, no pixel changes |
| Controller.DisallowedScratchKeepsMask | src/components/SimpleScratchCard.tsx:169 | with allowScratch false, no pointer event changes the mask |
| Controller.AppNeverErases | src/App.tsx:27-37 | with the app's configuration, no event changes a freshly covered canvas, and a freshly covered canvas reads 0 percent |
| Controller.TranslucentOverlayNeedsTwoPasses | src/App.tsx:27-37 | with the app's alpha-252 overlay but scratching allowed, one scratch leaves alpha 3 under the pointer and reads 0 percent; a second scratch at the same point clears that pixel, so scratching is not idempotent |
| Controller.ScratchIdempotent | src/components/SimpleScratchCard.tsx:168-187 | with an opaque fillStyle, repeating the same scratch changes nothing more |
| Controller.ScratchNeverRecovers | src/components/SimpleScratchCard.tsx:168-187 | a scratch never re-covers a pixel, and the transparent count and percentage never go down |
| Controller.PressThenReleaseShowsProgress | src/components/SimpleScratchCard.tsx:189-207 | a press inside the canvas with scratching allowed, a non-zero brush and an opaque overlay makes the next progress check read more than 0 percent |
| Controller.ResetReadsZero | src/components/SimpleScratchCard.tsx:113-120 | right after a resize, an overlay whose colour has non-zero alpha reads 0 percent, whatever the other props |
| Controller.FullEraseReadsHundred | src/components/SimpleScratchCard.tsx:168-187 | with an opaque overlay, a scratch whose disk covers the freshly covered canvas makes it read 100 percent |
| Controller.DefaultCardShowsProgress | src/components/SimpleScratchCard.tsx:16-26 | with the default props, a freshly covered canvas reads 0 percent and one press inside it reads more than 0 percent |
| Controller.ScratchCard.constructor | src/components/SimpleScratchCard.tsx:27-29 | on mount the drag flag is off, progress is 0, nothing has been reported, and the canvas is unsized |
| Controller.ScratchCard.SetCanvasSize | src/components/SimpleScratchCard.tsx:98-121 | the canvas is resized and refilled, progressRef becomes 0 and 0 is reported once; the drag flag and pending checks are untouched |
| Controller.ScratchCard.ClearEdgeArea | src/components/SimpleScratchCard.tsx:74-88 | erases the disk of radius 3*brushSize around the point with the fillStyle's alpha |
| Controller.ScratchCard.Scratch | src/components/SimpleScratchCard.tsx:168-187 | the mask becomes ScratchedMask of the old mask: unchanged when not allowed, otherwise the edge or normal disk |
| Controller.ScratchCard.UpdateProps | src/components/SimpleScratchCard.tsx:16-26 | a re-render sets the props read at the next event; the canvas, drag flag, progress and reports are untouched |
| Controller.ScratchCard.PointerDown | src/components/SimpleScratchCard.tsx:189-214 | isDrawing becomes true (also when scratching is not allowed), one scratch happens at the pointer, and nothing is reported |
| Controller.ScratchCard.PointerMove | src/components/SimpleScratchCard.tsx:196-221 | without a drag the mask is unchanged; during a drag one scratch happens at the pointer |
| Controller.ScratchCard.PointerUp | src/components/SimpleScratchCard.tsx:203-227 | mouse-up, mouse-leave and touch-end clear isDrawing and schedule exactly one progress check |
| Controller.ReadProgress | src/components/SimpleScratchCard.tsx:40-53 | reading back a canvas with pixels gives the percentage of transparent pixels of its mask, a number |
| Controller.ScratchCard.FireProgressCheck | src/components/SimpleScratchCard.tsx:32-61 | the pending check is consumed; on a canvas without pixels nothing is stored or reported, otherwise the exact percentage of transparent pixels of the current canvas is stored and reported |
| HeartTalk.ResetEstablishesInvariant | src/components/HeartTalk.tsx:36-43 | after the reset the text is empty, the index 0 and typing off; an empty text arms no timer and never types or completes |
| HeartTalk.FirePreservesInvariant | src/components/HeartTalk.tsx:46-58 | every timer firing keeps displayText == text[..index], index <= length and isTyping iff a tick is pending |
| HeartTalk.FireTypesNextCharacter | src/components/HeartTalk.tsx:50-53 | before the end, a firing appends text[index], increments index and does not complete |
| HeartTalk.FireAtEndCompletes | src/components/HeartTalk.tsx:54-57 | at the end, a firing turns typing off, calls onComplete once and arms no timer |
| HeartTalk.TypingFinishes | src/components/HeartTalk.tsx:49-58 | from any typing state the remaining firings show the whole text and complete exactly once; later firings change nothing |
| HeartTalk.TypingShowsPrefix | src/components/HeartTalk.tsx:46-53 | after n firings (1 <= n <= length) the first n characters show, typing is on, and onComplete has not been called |
| HeartTalk.FiresSplit | src/components/HeartTalk.tsx:49-58 | one more firing is the firing of the state reached so far |
| HeartTalk.TypesWholeText | src/components/HeartTalk.tsx:36-61 | a non-empty text is shown in full after length+1 firings, with typing off and onComplete called exactly once |
| HeartTalk.Typewriter.constructor | src/components/HeartTalk.tsx:22-43 | mounting yields the reset state for the first text |
| HeartTalk.Typewriter.ClearTimers | src/components/HeartTalk.tsx:29-34 | no timer is pending afterwards |
| HeartTalk.Typewriter.Reset | src/components/HeartTalk.tsx:36-43 | the effect for a new text establishes the invariant and the reset state |
| HeartTalk.Typewriter.Unmount | src/components/HeartTalk.tsx:64-66 | the cleanup cancels the pending timer and changes nothing else |
| HeartTalk.Typewriter.TypeCharacter | src/components/HeartTalk.tsx:49-58 | the fields change exactly as the typeCharacter step says |
| HeartTalk.Typewriter.TimerFires | src/components/HeartTalk.tsx:46-60 | a pending timer firing keeps the invariant and moves the state by one firing step |

## Left out

- The canvas 2D API is replaced by the alpha mask and an integer disk rule. This covers `getContext`, `arc`/`fill` rasterisation, anti-aliasing and the half-pixel offset of pixel centres. A pixel (x, y) is covered when r > 0 and (x-cx)^2 + (y-cy)^2 <= r^2. An arc of radius 0 covers nothing.
- Only the alpha channel is tracked. A covered pixel reads back as the fill colour with its alpha, and an erased one as transparent black. Rounding of premultiplied colour is not modelled.
- KnockOut: the alpha left by `destination-out` is rounded to the nearest byte. A browser may round differently by one.
- The device pixel ratio is taken as 1: there is no `ctx.scale`. Sizes and coordinates are integers, so the fractional `rect.width * devicePixelRatio` and pointer coordinates are not modelled.
- Progress is an exact `real`. `Math.round` and floating-point rounding are not modelled. `PercentOf` gives the `NotANumber` reading for 0 / 0, but no check reaches it: on a canvas without pixels `getImageData` throws first, and `FireProgressCheck` then stores and reports nothing. The thrown exception itself is not modelled.
- Config: `brushSize` is a `nat`. A negative brush size makes `arc` throw `IndexSizeError` after `setIsDrawing(true)`; that path is not modelled.
- Timers are explicit calls: the 100 ms `setCanvasSize` delay, the 100 ms progress-check delay, and the typewriter's `delay` and `speed`. A pending check is a counter that `FireProgressCheck` consumes, so a check scheduled before a resize reads the resized canvas, as in the source.
- Listener registration and removal for resize and touch-scroll suppression are not modelled. Neither are `preventDefault` and the CSS size of the canvas.
- React rendering is not modelled. Handlers read `isDrawing` as last set; a stale closure between renders is not modelled. The typewriter applies `setDisplayText`'s updater at the moment of the call; React may run it later, when `indexRef` has already moved on.
- A missing canvas or context makes each source function return early. This is not modelled: the canvas is always present once mounted.
- `onProgressChange` and `onComplete` are observed as the list of reported values and a completion counter; their bodies are outside the model.
- The rendered progress badge, `showProgress` and the dialog props are presentation.
- src/components/Heart.tsx (a float animation), src/components/Dialog.tsx (presentation) and the layout of src/App.tsx are not part of this model. Only App's card configuration is used, in `AppConfig`.
- TypeCharacterStep: the text is a Dafny `string`, a sequence of Unicode characters. JavaScript's `text.length` and `text.charAt` count UTF-16 code units. A character outside the Basic Multilingual Plane takes two ticks in the source, and half of it shows after the first. The model types it in one tick.
