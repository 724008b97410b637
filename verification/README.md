# Photo booth capture and composite, modelled in Dafny

A model of the logic in the photo booth's `Camera` component
(`src/components/Camera.tsx`). The component takes four webcam snapshots, each
after a five-second countdown, and stores them as PNG data URLs. It then
composites them into one framed strip image and downloads it. Once the React
hooks, the DOM and the timers are removed, four pieces of pure logic remain.
Each is modelled and proved here:

- **Capture session** (`session.dfy`, module `CaptureSession`). The record
  `{isCapturing, countdown, capturedCount, photos, rawPhotos, showCameraFeed}`
  lives in state hooks. `startCountdown` and the countdown effect change it.
  The effect reacts to two events, and both are explicit here. A *tick* is the
  one-second interval firing, which is possible while capturing with a
  positive countdown. A *trigger* is the effect calling `capturePhoto`, which
  happens once the countdown reaches zero. A trigger carries an optional photo,
  because `capturePhoto` appends nothing when the video element, the canvas or
  its 2D context is missing. A trace of events is replayed by `Run`.
- **Frame sampler** (`sampler.dfy`, module `FrameSampler`; `canvas2d.dfy`,
  module `Canvas2D`). This is the cover-fit crop of `capturePhoto`, computed
  over exact `real` arithmetic. The mirror is the canvas transformation
  matrix that `scale(-1, 1)` and then `translate(-width, 0)` build. The
  point maps between the video frame and the captured still are composed
  from the crop and the matrix.
- **Strip layout** (`compositor.dfy`, module `StripLayout`). These are the
  fixed slots of `saveImageWithFrame`: 577×408 photos, 57 apart, starting at
  y = 57 and centred on the frame's width.
- **Load join** (`compositor.dfy`, module `Compositor`). The `onload`
  handlers share an `imagesLoaded` counter. `ComposeStrip` runs them over an
  arbitrary completion order and records the drawing actions they issue.
  `Composite` is an independent description of the same action log.
- `booth.dfy` (module `PhotoBooth`) connects the pieces. A session started on
  a freshly loaded page feeds its raw photos to the composite.

In three places the booth is evidently meant to behave one way while the code
does something slightly different. The model follows the code:

- **Final shot.** `capturedCount` is meant to count the shots taken, up to
  four. The code does not increment it on the final (fourth) shot, so it ends
  at 3 while four photos are stored.
- **Starting a session.** Starting is meant to discard the stills of an
  earlier session. The code clears `photos` but not `rawPhotos`, and the
  composite is drawn from `rawPhotos`. The two lists differ only if a capture
  failed in an earlier session on the same page. `Valid` states the relation:
  `photos` is always a suffix of `rawPhotos`.
- **Composition errors.** A failed composite is meant to be reported. The
  code has no error handler. An image that never loads means the counter never
  reaches the photo count, so the strip is never finished. The model shows
  this as a load order that misses an index.

## Model

| member | source | states |
|---|---|---|
| CaptureSession.InitialValid | src/components/Camera.tsx:6-14 | The state the hooks start with satisfies the session invariant. It offers the start button and not the download view. |
| CaptureSession.OneViewAtATime | src/components/Camera.tsx:302-311 | In a valid session the start button (idle, fewer than four photos) and the download view (exactly four photos) are never both shown. While capturing neither is shown, and when idle exactly one is. |
| CaptureSession.AfterTick | src/components/Camera.tsx:63-68 | A tick (capturing, countdown > 0) lowers the countdown by exactly 1, keeps it non-negative, and changes no other field. |
| CaptureSession.AfterTrigger | src/components/Camera.tsx:69-79 | A capture appends the photo, if one was taken, to both `photos` and `rawPhotos`. Below 3 captures it restarts the countdown at 5, adds 1 to `capturedCount` and keeps capturing. At 3 it stops capturing and hides the feed, and `capturedCount` stays 3. |
| CaptureSession.Start | src/components/Camera.tsx:154-160 | `startCountdown` yields a valid capturing session with countdown 5, `capturedCount` 0, no photos and the feed shown, and keeps `rawPhotos` unchanged. |
| CaptureSession.OneEventAtATime | src/components/Camera.tsx:63-80 | In a valid session exactly one of tick and capture can happen while capturing, and neither can happen when idle. |
| CaptureSession.StepPreservesValid | src/components/Camera.tsx:63-80 | Each transition keeps the invariant. The countdown stays in [0, 5] and `capturedCount` in [0, 3]. The feed is shown exactly while capturing. `photos` stays a suffix of `rawPhotos` and never exceeds four. |
| CaptureSession.RunAccounting | src/components/Camera.tsx:63-80 | Over any event trace, the captured photos are appended to both lists in order. Ticks equal the countdown drop plus 5 per non-final capture. Captures equal the rise in `capturedCount` plus one for the final capture. A session only stops at `capturedCount` 3, and an idle session accepts no event. |
| CaptureSession.ShotsCount | src/components/Camera.tsx:82-131 | A trace stores at most one photo per capture, and exactly one per capture precisely when no capture failed. |
| CaptureSession.SessionCompletes | src/components/Camera.tsx:154-160 | Every trace from `startCountdown` that ends capturing has exactly 4 captures and 20 ticks (24 events) and leaves `capturedCount` at 3. It holds all captured photos. The strip has four photos, and the start button is gone, exactly when no capture failed. |
| CaptureSession.SessionOffersDownload | src/components/Camera.tsx:302-311 | A finished session shows the download view exactly when no capture failed, and otherwise shows the start button again. |
| CaptureSession.ScheduleCompletes | src/components/Camera.tsx:63-80 | From any valid capturing state with a fresh countdown, five ticks then a capture per remaining shot run to the end. The successful captures are appended and capturing stops. |
| CaptureSession.FullSession | src/components/Camera.tsx:302-311 | A whole session with four successful captures ends with exactly those four photos in order. The start button is gone and the download view is shown. |
| FrameSampler.CoverCrop | src/components/Camera.tsx:94-101 | For positive sizes the crop lies inside the frame (x, y ≥ 0, width ≤ video width, height ≤ video height) and is centred (2x + width = video width). It has the container's aspect ratio and spans the full video in at least one dimension. Scaled back up, it is exactly the container. |
| FrameSampler.Sample | src/components/Camera.tsx:89-104 | The still is sized to the container, and its crop is a consistent shrink of the canvas that lies within the video frame. |
| FrameSampler.MirrorMatrix | src/components/Camera.tsx:106-108 | The matrix built by `scale(-1, 1)` then `translate(-width, 0)` maps every point (x, y) to (width − x, y). |
| FrameSampler.MirrorInvolution | src/components/Camera.tsx:106-108 | The mirror matrix times itself is the identity, so mirroring twice returns every point. |
| FrameSampler.MirrorOnto | src/components/Camera.tsx:106-108 | The mirror maps [0, width] into itself, and every point of [0, width] is the image of one. |
| Canvas2D.ApplyMultiply | src/components/Camera.tsx:106-108 | A product of transformation matrices applies its right factor first, which is how successive canvas transforms compose. The proof of `MirrorPoints` spells this out for the mirror: the translate acts on a point before the flip. |
| FrameSampler.CanvasToVideo | src/components/Camera.tsx:98-119 | Every pixel of the still shows a point of the crop rectangle. |
| FrameSampler.StillSamplesInsideVideo | src/components/Camera.tsx:94-119 | For any positive sizes, every pixel of the captured still shows a point inside the video frame, so cover-fit never samples outside the camera image. |
| FrameSampler.CanvasVideoRoundTrip | src/components/Camera.tsx:106-119 | Mapping a pixel of the still back to the video and forward again gives the same pixel. |
| FrameSampler.VideoCanvasRoundTrip | src/components/Camera.tsx:106-119 | Mapping a video point onto the still and back gives the same video point. |
| FrameSampler.StillIsMirroredCrop | src/components/Camera.tsx:106-119 | The still is the horizontal flip of the un-mirrored drawing of the crop. |
| FrameSampler.CropCornersMirrored | src/components/Camera.tsx:106-119 | The crop's top-left corner lands at the still's top-right corner, and its bottom-right corner at the still's bottom-left corner. |
| StripLayout.Slot | src/components/Camera.tsx:175-188 | Every slot is 577×408, centred on the frame's width, and starts no higher than y = 57. |
| StripLayout.SlotPitch | src/components/Camera.tsx:186-188 | Consecutive slots share their x and are 465 apart vertically. |
| StripLayout.SlotsDisjoint | src/components/Camera.tsx:175-188 | Any later slot lies below an earlier one with at least the 57-pixel gap between them, so no two slots overlap. |
| StripLayout.SecondSlot | src/components/Camera.tsx:186-188 | The second photo is drawn at y = 522. |
| Compositor.ComposeStrip | src/components/Camera.tsx:180-208 | Running the `onload` handlers with their shared counter over any completion order issues exactly the reference action log. Each photo is drawn into its slot as it loads. Frame, date and download come right after the load that brings the counter to the photo count, if such a load occurs. |
| Compositor.DownloadsOnceAfterLastLoad | src/components/Camera.tsx:191-208 | The log downloads exactly once if at least as many loads arrive as there are photos and the strip is non-empty. Otherwise it never downloads: not before the last load, and not for an empty `rawPhotos`. |
| Compositor.LoadsAtMostOnce | src/components/Camera.tsx:182-186 | When each photo loads at most once, there are at most as many loads as photos. With exactly that many, every photo has loaded. |
| Compositor.FinishesExactlyWhenAllLoaded | src/components/Camera.tsx:180-208 | When each photo loads once, in any order, the file is downloaded exactly when all photos have loaded. The log then has `count` + 3 actions. First every photo is drawn into its own slot, then the frame on top, then the date at (width / 2, height − 50), and the download last. |
| PhotoBooth.FreshSessionDownloadsOnce | src/components/Camera.tsx:180-193 | On a freshly loaded page, four successful captures become the raw photos. Any complete load order then downloads the strip once, in a log of seven actions. The first four are photo draws, one of them the second photo at y = 522, and the frame comes fifth, after all four. |

## Left out

- Camera acquisition and release (`getUserMedia`, track `stop()`, the alerts, lines 20-61) is browser I/O. `showCameraFeed` is modelled but the stream is not.
- Timer scheduling (`setInterval`, `clearInterval`) and the 100 ms flash (lines 65-68, 128-129) are left out. Ticks and captures are explicit events, and the flash is presentation only.
- Pixel drawing, PNG encoding by `toDataURL`, image decoding, font styling and the `<a>` click are left out. A captured photo is an opaque string, and the composite is the ordered log of drawing actions with their positions.
- The date text from `toLocaleDateString` depends on the clock and locale. Only its position (half the width, 50 above the bottom) is modelled.
- The frame image's own load (lines 168-174) is an environment event. The composite begins once it has loaded, with the canvas sized to the frame, and the frame's size is a parameter.
- The CSS transform effect (lines 134-152), the video aspect-ratio state and all JSX rendering are presentational. The start-button and download-view conditions (lines 302, 311) are modelled as the predicates `StartOffered` and `DownloadOffered`.
- "Take Again" reloads the page (line 330), which returns the component to its initial state `CaptureSession.Initial`.
- Overlapping Download clicks are not modelled. Each click on Download (line 336) runs `saveImageWithFrame` again, with its own `imagesLoaded` counter, on the single canvas that `canvasRef` shares. A later click's frame load resets that canvas by assigning `canvas.width` (line 172), which clears a bitmap an earlier composite may still be drawing, and every click downloads once more. `ComposeStrip` models one call with its own action log, so "downloads exactly once" holds per click.
- `src/App.tsx` is a layout wrapper with no logic, and the commented-out overlay variant (lines 13, 220-277) is dead code.
- IEEE floating point is left out. The geometry is over exact reals, so rounding in the crop, the mirror and the half-pixel slot x is not modelled.
- FrameSampler.CoverCrop: requires positive video and container sizes, because the source's divisions by zero give IEEE infinities, which exact reals cannot represent. This leaves out a reachable case. Suppose the video's metadata has not loaded when the countdown first reaches zero, for example because the camera permission prompt is still open after five seconds. Then the video size is 0 × 0 and the container is positive, so `scale` is Infinity while the crop's width, height, x and y all come out as 0. `drawImage` paints nothing, and a blank still is appended and counted as a capture. In the session model that is an ordinary successful capture with an opaque photo. If either side of the container is also 0, `0 / 0` is NaN, `Math.max` returns NaN, and the crop values become NaN.
- FrameSampler.Sample: requires positive sizes, for the same reason as CoverCrop.
