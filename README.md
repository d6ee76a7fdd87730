# Pixel pipeline of the "DESTROY" image ditherer

The program turns an uploaded picture into a blocky, black-and-white,
error-diffused image. Its only algorithmic part is the pixel pipeline of
`script.js`, and that is what this project models:

- `Downscale` models the output size of `downscaleImage`: `floor(width / pixelSize)` by
  `floor(height / pixelSize)`.
- `Adjustments` models the pixel loop of `applyAdjustments`. Every R, G and B
  sample is shifted by the brightness offset `brightness * 2.55`. It is then
  rescaled around mid-gray 128 by the contrast factor
  `259 (c + 255) / (255 (259 - c))`, which is exactly 1 for `c = 0`, and is
  clamped to [0, 255]. The alpha sample of every pixel is kept.
- `Dithering` models `ditherMethods.floydSteinberg`. It builds a luminance buffer
  with the BT.601 luma weights. It walks that buffer in raster order and
  thresholds each pixel at 128: below 128 gives 0, and 128 or more gives 255.
  The signed error is pushed to the not-yet-visited east (7/16), south-west
  (3/16), south (5/16) and south-east (1/16) neighbours that lie inside the
  image. Finally the 0/255 value is written into R, G and B.

The loops are methods over `array<real>`. Each is proved against a
specification function on sequences:

| method | specification function |
|---|---|
| `Grayscale` | `Luminance` |
| `VisitPixel` | `Step` (one visit) |
| `Diffuse` | `Dithered` (the whole raster walk, via `Walked`) |
| `ApplyAdjustments` | `Adjusted` |

What the source promises is then proved about those functions:

- the dithered buffer is binary;
- an already-visited pixel never changes again;
- every diffusion write lands inside the buffer and strictly after the current pixel;
- the error that reaches the buffer is exactly the weighted share of the
  receiving neighbours, and the shares at the image border are dropped;
- the adjustment clamps colour samples and is the identity for brightness 0 and contrast 0.

All samples are exact `real`s.

The dithering follows the code rather than the common expectation that a
uniform mid-gray image dithers to all white. A pixel of 128 does become white,
but it pushes an error of -127 on, so the next pixel falls below 128 and turns
black. `Dithering.MidGrayStrip` proves this for a 2 x 1 image of value 128:
the result is white, then black.

## Model

| member | source | states |
|---|---|---|
| Dithering.Luma | script.js:55 | luma of in-range R, G, B is in [0, 255]; a gray pixel (R = G = B) keeps its value |
| Dithering.Grayscale | script.js:53-56 | the fresh buffer holds, for pixel k, the luma of samples 4k, 4k+1, 4k+2 of the RGBA buffer |
| Dithering.Threshold | script.js:62-64 | result is 0 exactly when the value is below 128 and 255 exactly when it is 128 or more; for an in-range value the error `old - new` lies in [-127, 128) |
| Dithering.RowStartIsProduct | script.js:61 | the row offset used for `idx` is `y * width` |
| Dithering.VisitFits | script.js:61 | the visited index is inside the buffer, and when a row below exists, that whole row is too |
| Dithering.Targets | script.js:69-72 | every cell a visit may write, the visited one included, lies in [idx, width*height) |
| Dithering.NeighbourIsTarget | script.js:69-72 | each neighbour that receives a share is strictly after idx and inside the buffer |
| Dithering.KernelSpelledOut | script.js:69-72 | the four shares receive under the guards `x+1<w`, `x>0 && y+1<h`, `y+1<h`, `x+1<w && y+1<h`, at idx+1, idx+w-1, idx+w, idx+w+1, with 7, 3, 5, 1 sixteenths |
| Dithering.PortionIsFraction | script.js:69-72 | the share of n sixteenths is `err * n / 16` |
| Dithering.Spreads | script.js:69-72 | applying the first k guarded `+=` lines keeps the buffer length |
| Dithering.Spread | script.js:69-72 | one guarded `+=` keeps the buffer length |
| Dithering.SpreadsLast | script.js:69-72 | the k-th guarded `+=` adds its share at its neighbour exactly when its guard holds |
| Dithering.SpreadsFirstTwo | script.js:69-70 | after the east and south-west lines the buffer is s plus 7/16 err at idx+1 (if `x+1<w`) and 3/16 err at idx+w-1 (if `x>0 && y+1<h`) |
| Dithering.SpreadsLastTwo | script.js:71-72 | the south and south-east lines add 5/16 err at idx+w (if `y+1<h`) and 1/16 err at idx+w+1 (if `x+1<w && y+1<h`) |
| Dithering.SpreadsSpelledOut | script.js:69-72 | all four lines together are the source's four guarded additions, in source order |
| Dithering.SpreadsFrame | script.js:69-72 | diffusion leaves every cell at or before idx, and every cell outside the targets, unchanged |
| Dithering.Step | script.js:61-72 | one pixel visit keeps the buffer length |
| Dithering.StepEffect | script.js:61-72 | after a visit the pixel holds `Threshold(old value)`, no cell before idx changed, and no cell outside the four neighbours changed |
| Dithering.Walked | script.js:59-74 | the raster walk up to row y, column x keeps the buffer length |
| Dithering.WalkedBinary | script.js:59-74 | after the walk reaches (x, y) every earlier pixel is exactly 0 or 255 |
| Dithering.DitheredBinary | script.js:59-74 | after the whole walk every buffer entry is exactly 0 or 255 |
| Dithering.VisitKeepsEarlier | script.js:59-73 | visiting a pixel leaves all earlier-visited pixels unchanged |
| Dithering.VisitedStable | script.js:59-73 | once visited, a pixel keeps its value through every later visit |
| Dithering.ReceivedWeightAll | script.js:69-72 | the sixteenths delivered by all four lines are their weights summed over the receiving neighbours |
| Dithering.DeliveredWeight | script.js:69-72 | the delivered weight is at most 16; it is 16 exactly for an interior pixel, 13 on the left edge, 0 at the bottom-right |
| Dithering.DeliveredIsWeighted | script.js:69-72 | the error actually added is `err * DeliveredWeight / 16`, so an interior pixel passes on the whole error |
| Dithering.ShareSum | script.js:69-72 | each guarded line raises the buffer total by its share, or by nothing when its guard fails |
| Dithering.SpreadsSum | script.js:69-72 | the buffer total after diffusion is the old total plus the delivered error |
| Dithering.LostIsWeighted | script.js:61-72 | the total lost by one visit is the undelivered share of the error; for an interior pixel it is 0 |
| Dithering.StepSum | script.js:61-72 | one visit lowers the buffer total by exactly the part of the error (old - new) that no neighbour receives |
| Dithering.WalkedSum | script.js:59-74 | the buffer total after the walk is the original total minus the shares dropped at the borders |
| Dithering.MidGrayStrip | script.js:59-74 | a 2 x 1 image of value 128 dithers to white then black, not to all white |
| Dithering.VisitPixel | script.js:61-72 | the in-place visit leaves the buffer equal to `Step` of the old buffer |
| Dithering.DistributeError | script.js:68-72 | the four guarded in-place additions leave the buffer equal to the specified diffusion |
| Dithering.PushError | script.js:69-72 | one guarded in-place addition takes the buffer from k-1 to k applied lines |
| Dithering.Diffuse | script.js:58-74 | the nested y/x loop leaves the buffer equal to `Dithered` of the old buffer |
| Dithering.Expand | script.js:76-80 | each pixel's R, G and B samples equal its buffer value, and alpha is unchanged |
| Dithering.FloydSteinberg | script.js:47-81 | R, G, B hold the dithered luma of the pixel and are exactly 0 or 255; alpha is unchanged |
| Adjustments.BrightnessOffset | script.js:133 | a percentage in [-100, 100] gives an offset in [-255, 255]; the offset is 0 exactly at 0 percent and 255 at 100 percent |
| Adjustments.ContrastFactorRange | script.js:134-136 | the factor is 1 at 0; in (0, 1) for settings in (-255, 0); above 1 for (0, 259); 0 at -255; negative beyond -255 or 259 |
| Adjustments.ContrastZeroAgrees | script.js:135-136 | the special case at 0 equals the formula's value there |
| Adjustments.ContrastFactorMonotone | script.js:135-136 | below 259 a larger setting gives a strictly larger factor |
| Adjustments.Clamp | script.js:151-153 | result in [0, 255]; in-range values unchanged; below 0 gives 0, above 255 gives 255 |
| Adjustments.ClampMonotone | script.js:151-153 | the clamp keeps the order of two values |
| Adjustments.AdjustChannel | script.js:141-153 | an adjusted colour sample is in [0, 255] |
| Adjustments.AdjustChannelIdentity | script.js:133-153 | brightness 0 and contrast 0 leave an in-range sample unchanged |
| Adjustments.AdjustChannelMonotone | script.js:141-153 | with a non-negative contrast factor, a darker input never comes out brighter |
| Adjustments.AdjustedIdentity | script.js:139-154 | brightness 0 and contrast 0 leave a buffer with samples in [0, 255] unchanged |
| Adjustments.AdjustedIdentityIdempotent | script.js:139-154 | adjusting twice with brightness 0 and contrast 0 gives the same as adjusting once |
| Adjustments.PixelLanes | script.js:139-143 | from a pixel boundary, i+1, i+2 and i+3 are the G, B and alpha samples of the same pixel, all inside the buffer |
| Adjustments.ApplyAdjustments | script.js:133-154 | the in-place loop leaves the buffer equal to `Adjusted` of the old buffer; every R, G, B is in [0, 255]; alpha is unchanged |
| Downscale.FloorDivIsQuotient | script.js:108-109 | `Math.floor(n / p)` of the exact quotient is the integer quotient q, with `q * p <= n < (q + 1) * p` |
| Downscale.DownscaledSize | script.js:108-109 | each output side is the source side divided by the pixel size, rounded down |
| Downscale.DownscaledSizeBlocks | script.js:108-109 | each output side is the number of whole blocks that fit: its blocks cover at most the source side, and one more would not fit |
| Downscale.DownscaledSizeEmpty | script.js:108-109 | an output side is 0 exactly when the source side is shorter than the pixel size |
| Downscale.DownscaledSizeOne | script.js:108-109 | pixel size 1 keeps the image size |
| Downscale.DownscaledSizeShrinks | script.js:108-109 | the output is never larger than the source |

## Left out

- Canvas and DOM plumbing are outside the model: element lookups, `getContext`, `getImageData`/`putImageData`, `drawFinalImage` and the canvas sizing around each stage. These are browser library calls.
- The nearest-neighbour sampling that `drawImage` performs with smoothing off (script.js:112-113) is not modelled. Only the output size of `downscaleImage` is.
- `processImage` and `handleDownload` chain downscale, adjust and dither through canvases. The model does not compose the stages, because each hand-over goes through `putImageData`/`drawImage`/`getImageData`, which are not modelled.
- Event handlers, slider label sync, button styling, file upload and PNG download are left out. They are UI and I/O.
- The Promise wrapper and the `isProcessing` guard are left out. They are asynchronous UI coordination.
- Floating-point rounding is not modelled. All samples are exact `real`s, so the `Float32Array` rounding of the luminance buffer and the rounding and clamping of `Uint8ClampedArray` stores are absent. NaN and infinities do not arise.
- The name lookup `ditherMethods[settings.ditherMethod]` (script.js:174-176) is left out. It dispatches to the single method, which is modelled directly as `Dithering.FloydSteinberg`.
- Adjustments.ContrastFactor: requires a setting other than 259. The source divides by zero there and never guards against it.
- Adjustments.ApplyAdjustments: takes the contrast setting as an integer and the brightness as a real. The string-to-number conversion of the slider values is not modelled.
- Adjustments.ApplyAdjustments: requires a buffer length divisible by 4, which every RGBA image buffer has.
- Dithering.FloydSteinberg: requires a buffer of exactly 4 samples per pixel of the width x height image, which the image data object guarantees.
- Downscale.DownscaledSize: requires a pixel size of at least 1, the slider's minimum. A zero pixel size, which the source would turn into an infinite or NaN size, is not modelled.
- Downscale.DownscaledSize: a zero-size output is not rejected, because the source does not reject it either. What the canvas then does is not modelled.
