# Block compositor and frame gate of real_time_remove_person

The application removes a person from a live webcam picture. A body
segmentation model labels every pixel of a camera frame. The block compositor
(`processSegmentation`) then rewrites the visible canvas in large blocks. The
canvas is sampled on a grid every `RESOLUTION_MIN` (20) pixels. Around each
sample point a square probe window of half-width `SEARCH_OFFSET` (150) is
clamped to the frame and scanned for a body-part label. A window with no label
gets the live camera frame copied into it, with alpha forced to 255. A window
with a label is left alone, or painted opaque red when `DEBUG` is on. Because
the canvas keeps the last background it saw wherever the person stands, the
person disappears from the picture.

A single-flight gate (`previousSegmentationComplete`) paces the segmenter.
`predictWebcam` runs on every display refresh but sends a frame to the model
only when no request is in flight. The promise callback composites the mask
and reopens the gate.

This project models both parts in Dafny:

- `CompositorSpec` gives the pass as values. It defines the sample points
  (`Samples`), the clamped probe window (`ProbeWindow`), contamination
  (`Contaminated`), the effect of one sample (`Step`) and of the whole pass
  (`Composite`) on a byte sequence.
- `Compositor` is the in-place code. The output buffer is an `array<int>`
  rewritten by the same nested loops as the source. The live frame is an
  `array<int>` that is only read. The mask is a `seq<int>`. Each method is
  proved equal to its specification function.
- `CompositorLemmas` proves what the pass does, pixel by pixel.
- `Scheduler` gives the gate as an event system (`GateState`, `Next`, traces
  of events) with its lemmas. The class `Session` holds the gate fields and
  both buffers. Its methods are proved against `Next`. Only the gate and
  `modelHasLoaded` are compiled fields. The request counts and the streaming
  flag are ghost bookkeeping that the program does not keep.
- `Arith` holds the division facts that map between a pixel's (column, row)
  and its offset `row * width + column`.

`RESOLUTION_MIN`, `SEARCH_OFFSET` and `DEBUG` are the fields of
`CompositorSpec.Config`. `SourceConfig` holds the application's values,
(20, 300 / 2, false).

In three places the code does something one might not expect; the model
follows the code:

- A failed segmentation leaves the gate closed for good. There is no rejection
  handler on the promise chain (`src/index.js:147-150`). `Scheduler.RejectSticks`
  proves that no later event issues a request or reopens the gate.
- Buffers of different sizes are not rejected. The source reads both buffers
  with the same canvas width and height, so equal sizes are a precondition.
- The probe scan's `break` leaves only the inner loop, and the flag is never
  reset. The outcome is still "some pixel of the window is labelled", as
  `Compositor.ScanWindow` proves.

## Model

| member | source | states |
|---|---|---|
| `Compositor.ScanWindow` | src/index.js:67-77 | The scan's flag is true exactly when some pixel of the window has a nonzero label, despite the `break` leaving only the inner loop. |
| `Compositor.CopyWindow` | src/index.js:80-91 | Afterwards every pixel of the window holds the live red, green and blue bytes and alpha 255; every other byte is as before. |
| `Compositor.PaintWindow` | src/index.js:93-104 | Afterwards every pixel of the window is (255, 0, 0, 255); every other byte is as before. |
| `Compositor.ProcessSample` | src/index.js:49-106 | One loop body: clamp, scan, then copy, paint or leave the window. The buffer ends as `Step` of the old buffer. |
| `Compositor.ProcessSegmentation` | src/index.js:35-111 | The in-place pass leaves the output buffer equal to `Composite` of its old contents. Only the output array is modified; live frame and mask are read only, and every index stays in bounds. |
| `CompositorSpec.SourceConfigValid` | src/index.js:8-32 | The application's constants (`RESOLUTION_MIN` 20, `SEARCH_OFFSET` 300 / 2 = 150, `DEBUG` false) form a valid configuration, so every result stated for a valid configuration applies to them. |
| `CompositorSpec.ProbeWindow` | src/index.js:55-65 | The clamped window lies in the frame with `0 <= xMin <= xMax <= width` and `0 <= yMin <= yMax <= height`. It covers exactly the frame pixels within `SEARCH_OFFSET` of the sample, upper side open. |
| `CompositorLemmas.GridMembers` | src/index.js:47-48 | A loop `v = start; v < bound; v += step` visits exactly the values `start <= v < bound` with `v - start` divisible by `step`. |
| `CompositorLemmas.SamplePoints` | src/index.js:47-48 | The sample points are exactly the (x, y) with x, y positive multiples of `RESOLUTION_MIN`, `x < width` and `y < height`. |
| `CompositorLemmas.SamplesOrdered` | src/index.js:47-48 | Samples are visited in strictly increasing x-outer, y-inner order, so each is visited once. |
| `CompositorLemmas.NoSamplePoints` | src/index.js:47-48 | There are no sample points exactly when `width <= RESOLUTION_MIN` or `height <= RESOLUTION_MIN`. |
| `CompositorLemmas.SmallFrameUnchanged` | src/index.js:47-48 | In such a frame the pass leaves the output buffer unchanged. |
| `CompositorLemmas.WindowInBounds` | src/index.js:67-102 | For any pixel of a sample's window, the mask index `j*width + i` is below `width*height`, and each byte index `offset*4 + c` (c < 4) is below `4*width*height`. |
| `CompositorLemmas.WholeFrameWindow` | src/index.js:47-65 | In a 40 x 40 frame with pitch 20, the only sample is (20, 20). Once the offset is at least 20, its window is the whole frame. |
| `CompositorLemmas.WholeFrameReplaced` | src/index.js:47-91 | In that frame, with a mask that has no labels, the whole buffer becomes the live frame with alpha 255. |
| `CompositorLemmas.ApplyLastWriter` | src/index.js:47-104 | A byte that some sample writes ends with what the last such sample wrote. |
| `CompositorLemmas.UncoveredUnchanged` | src/index.js:47-106 | A pixel in no sample's window keeps its original four bytes. |
| `CompositorLemmas.DebugOffPixel` | src/index.js:80-93 | With `DEBUG` off, a byte covered by at least one uncontaminated window holds the live R, G, B or 255 for alpha. Every other byte keeps its value. |
| `CompositorLemmas.DebugOnPixel` | src/index.js:80-104 | With `DEBUG` on, take the last sample (x-outer, y-inner) whose window covers a pixel. The pixel is (255, 0, 0, 255) if that window was contaminated, live RGB with alpha 255 if not. |
| `CompositorLemmas.AllNonzeroUnchanged` | src/index.js:72-92 | With `DEBUG` off, a mask that is nonzero everywhere leaves the output buffer byte for byte unchanged. |
| `CompositorLemmas.AllNonzeroDebugRed` | src/index.js:67-104 | With `DEBUG` on and a mask labelled everywhere, every pixel inside some sample's window ends as (255, 0, 0, 255). |
| `CompositorLemmas.ZeroMaskPixel` | src/index.js:67-91 | With an all-zero mask, whatever `DEBUG` is, a pixel covered by some window becomes live RGB with alpha 255. Every other pixel is unchanged. |
| `CompositorLemmas.ZeroMaskIdempotent` | src/index.js:80-91 | With an all-zero mask, a second pass over the same live frame gives the same buffer as one pass. |
| `CompositorLemmas.WrittenPixelsOpaque` | src/index.js:86-102 | Any pixel the pass changes has alpha 255 afterwards. |
| `Scheduler.NextKeepsInv` | src/index.js:141-162 | Every event keeps the invariant: at most one request in flight, none while the gate is open, streaming only after the model loaded. |
| `Scheduler.RunKeepsInv` | src/index.js:141-162 | Every sequence of events keeps that invariant. |
| `Scheduler.AtMostOneOutstanding` | src/index.js:131-150 | From the initial state, every history has at most one request outstanding, and none while the gate is open. |
| `Scheduler.TickIssues` | src/index.js:142-146 | A tick with the gate open closes it and issues exactly one request. A tick with the gate closed changes nothing. |
| `Scheduler.ClosedTicks` | src/index.js:142-151 | Any number of ticks with the gate closed issue no request and change nothing. |
| `Scheduler.OpenTicks` | src/index.js:142-151 | N + 1 ticks starting with the gate open issue exactly one request and leave it outstanding. |
| `Scheduler.OnlyResolveOpens` | src/index.js:145-149 | Only a successful resolution turns a closed gate open. |
| `Scheduler.RejectLeavesStuck` | src/index.js:147-150 | A failed request leaves the gate closed with nothing in flight. |
| `Scheduler.RejectSticks` | src/index.js:147-150 | From that state no later history issues a request or reopens the gate. |
| `Scheduler.EnableBeforeLoad` | src/index.js:160-162 | `enableCam` does nothing while the model has not loaded. |
| `Scheduler.Session.constructor` | src/index.js:117-131 | A new session starts with the gate open, nothing in flight, the model not loaded, and two distinct buffers of `4*width*height` bytes. |
| `Scheduler.Session.OnModelLoaded` | src/index.js:120-122 | The load callback sets `modelHasLoaded`. |
| `Scheduler.Session.EnableCam` | src/index.js:159-162 | Returns at once before the model has loaded. Otherwise it records that `predictWebcam` may run from then on. This over-approximates the source, which only asks for a camera stream that may be refused. |
| `Scheduler.Session.PredictWebcam` | src/index.js:141-155 | With the gate open: the camera frame goes into the live buffer, the gate closes, and one request is issued. With it closed: nothing changes. The output buffer is untouched either way. |
| `Scheduler.Session.OnSegmentation` | src/index.js:147-150 | The resolution composites the mask into the output buffer (to `Composite` of the old buffer), then reopens the gate. The live buffer is untouched. |
| `Scheduler.Session.OnSegmentationFailed` | src/index.js:147-150 | A rejection only settles the request; the gate stays closed. |

## Left out

- Model inference (`bodyPix.load`, `segmentPerson` and their options, src/index.js:12-24, 120-125, 147) is foreign code with floating-point thresholds. The segmenter is an opaque source of an integer mask of `width * height` labels, passed to `OnSegmentation`.
- Canvas calls (`getContext`, `getImageData`, `putImageData`, `drawImage`) are replaced by plain arrays. The camera image that `drawImage` copies is a parameter of `PredictWebcam`. The `putImageData` at the end of the pass is presentation and is not modelled.
- Browser plumbing is I/O and user interface: `getUserMedia`, event listeners, `requestAnimationFrame` re-arming, CSS class changes, canvas creation and sizing (src/index.js:5-7, 134-137, 154, 164-205).
- Asynchrony is reduced to discrete events, never run concurrently. The browser invokes `predictWebcam` only after `enableCam` succeeded, so `PredictWebcam` requires `streaming`. A promise settles only while it is pending, so `OnSegmentation` and `OnSegmentationFailed` require a request in flight.
- The unused offset `n` (src/index.js:50) has no effect.
- webpack.config.js is build configuration only.
- Byte values are `int`. The canvas's clamped byte array never receives a value outside 0..255 here, since only live bytes, 0 and 255 are written.
- The configuration requires `RESOLUTION_MIN > 0` (otherwise the source's loops would not terminate) and an integer `SEARCH_OFFSET >= 0`. The application's 20 and 150 satisfy both.
- The output and live buffers are required to be distinct arrays. The source reads them with two separate `getImageData` calls.
