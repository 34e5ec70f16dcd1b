# Document scanner: a verified model of its image and edit core

This project models the core of `scan/app.js`, the single script behind a
browser document scanner. Its parts:

- The corrections each capture goes through before it is stored:
  - glare reduction;
  - brightness and contrast;
  - a 3-by-3 sharpening convolution;
  - grayscale.
- The list of scanned pages, with capture, removal (`splice(index, 1)`) and
  clear-all, and the three buttons that act on every page.
- The edit view:
  - an undo/redo history of at most twenty snapshots, with its two buttons;
  - cropping to a dragged rectangle;
  - rotation by a quarter turn;
  - the four colour filters (grayscale, black and white, sepia, invert);
  - resetting to the stored scan.

Pixel buffers are the browser's ImageData layout: a flat sequence of bytes,
four per pixel (red, green, blue, alpha), pixels row after row. Every store
into such a buffer is modelled as the Uint8ClampedArray conversion: clamp to
[0, 255], then round to the nearest integer, ties to even. Fractional
arithmetic is modelled as exact real arithmetic.

The in-place filters are methods over an `array<int>`, each proved equal to a
pure function of the old buffer. The seven per-pixel loops
`for (let i = 0; i < data.length; i += 4)`, with six distinct per-pixel
steps (the capture grayscale and the grayscale filter share one), are
modelled by one verified loop, `PixelMaps.MapInPlace`. Each filter passes it
its own per-pixel step.
`applySharpen` is a method with the source's five nested loops, proved to
return `Sharpened`. The undo history is a value type (`EditHistory`) whose
operations are proved correct. The edit view and the page list are classes
whose methods update their fields in place, and each method is proved to
match those value operations.

Modules, one per file:

| file | module | what |
|---|---|---|
| pixels.dfy | Pixels | bytes, `clamp`, the Uint8ClampedArray store, flat-buffer geometry |
| pixelmap.dfy | PixelMaps | pixels, per-pixel maps of a buffer, the shared in-place loop |
| filters.dfy | Filters | grayscale, sepia, invert and black-and-white |
| sharpen.dfy | Sharpen | `applySharpen` |
| capture.dfy | Capture | `reduceGlare`, `adjustBrightnessContrast`, the capture pipeline |
| history.dfy | EditHistory | the undo list as a value |
| editor.dfy | Editor | crop and rotate geometry, the edit view class |
| gallery.dfy | Scans | JavaScript `splice`, the page list class |

## Model

| member | source | states |
|---|---|---|
| Pixels.Clamp | scan/app.js:736-738 | the result lies in [0, 255]; a value inside the range is returned unchanged; below 0 gives 0 and above 255 gives 255 |
| Pixels.ClampMonotone | scan/app.js:736-738 | `clamp` keeps the order of values |
| Pixels.ToUint8Clamp | scan/app.js:244 | a value stored into the byte buffer becomes a byte within 0.5 of its clamped value, and an exact tie goes to the even byte |
| Pixels.ToUint8ClampOfByte | scan/app.js:244 | a byte is stored unchanged |
| Pixels.ToUint8ClampMonotone | scan/app.js:244 | a larger value never stores as a smaller byte |
| Pixels.ToUint8ClampAtMost | scan/app.js:244 | a value at most some byte stores at most that byte |
| Pixels.ToUint8ClampAtLeast | scan/app.js:244 | a value at least some byte stores at least that byte |
| Pixels.ByteKinds | scan/app.js:234-236 | every byte of a w-by-h buffer is an alpha byte, a border byte, or a colour byte that the sharpening loops visit |
| Pixels.IndexDecodes | scan/app.js:244 | the index `(y * w + x) * 4 + c` decodes back to column x, row y and channel c |
| Pixels.IndexInImage | scan/app.js:244 | that index lies inside the buffer of a w-by-h image |
| Pixels.NeighboursInImage | scan/app.js:238-241 | the four edge neighbours of a byte visited by the sharpening loops are inside the buffer |
| PixelMaps.MapInPlace | scan/app.js:191-202 | the shared per-pixel loop leaves the buffer equal to the per-pixel map of its old contents, provided the step keeps alpha |
| PixelMaps.MapPixelsAt | scan/app.js:191-202 | pixel q of the mapped buffer is the step applied to pixel q of the input |
| PixelMaps.MapPixelsKeepsAlpha | scan/app.js:191-202 | a step that keeps alpha leaves every alpha byte of the buffer as it was |
| PixelMaps.MapPixelsKeepsBytes | scan/app.js:191-202 | a step that sends byte pixels to byte pixels sends a byte buffer to a byte buffer |
| Filters.Grayscale | scan/app.js:252-261 | `convertToGrayscale`, and the `grayscale` case of `applyFilter`, leave the buffer equal to `Grayscaled` of the old one |
| Filters.GrayscaledAt | scan/app.js:590-595 | all three colour bytes of a pixel become the same grey, which lies between the smallest and largest of the old channels; alpha is kept |
| Filters.GrayscaledIdempotent | scan/app.js:590-595 | applying grayscale a second time changes nothing |
| Filters.GrayscalePixelIdempotent | scan/app.js:590-595 | for one pixel, grayscale applied twice equals grayscale applied once |
| Filters.GrayBetween | scan/app.js:592 | the weighted grey lies between the smallest and largest channel |
| Filters.SepiaFilter | scan/app.js:603-610 | the `sepia` case leaves the buffer equal to `Sepia` of the old one |
| Filters.SepiaAt | scan/app.js:603-610 | the new colour bytes are bytes with blue ≤ green ≤ red; black stays black; alpha is kept |
| Filters.SepiaWeightsOrdered | scan/app.js:606-608 | for non-negative channels, the blue sum ≤ the green sum ≤ the red sum |
| Filters.Invert | scan/app.js:611-617 | the `invert` case leaves the buffer equal to `Inverted` of the old one |
| Filters.InvertedAt | scan/app.js:611-617 | every colour byte v becomes 255 - v; every alpha byte is kept |
| Filters.InvertedTwice | scan/app.js:611-617 | inverting twice gives back the buffer |
| Filters.BlackWhiteFilter | scan/app.js:596-602 | the `blackwhite` case leaves the buffer equal to `BlackWhite` of the old one |
| Filters.BlackWhiteAt | scan/app.js:596-602 | all three colour bytes of a pixel become the same value, 0 or 255; it is 255 exactly when 299r + 587g + 114b > 128000; alpha is kept |
| Filters.BlackWhiteThreshold | scan/app.js:598-599 | the integer test agrees with the source's `gray > 128` on the fractional grey, in both directions |
| Filters.BlackOrWhiteMonotone | scan/app.js:598-599 | a pixel brighter in every channel is never turned black while the other is turned white |
| Filters.BlackWhiteIdempotent | scan/app.js:596-602 | applying black and white a second time changes nothing |
| Sharpen.ApplySharpen | scan/app.js:221-250 | the input is left alone, and the returned buffer is `Sharpened` of it |
| Sharpen.Convolve | scan/app.js:237-243 | the ky/kx loops compute the full kernel sum at the centre byte |
| Sharpen.TapStep | scan/app.js:240-241 | the byte read for kernel entry (ky + 1) * 3 + (kx + 1) lies in the buffer and is the neighbour that entry weighs |
| Sharpen.KernelSumIsStencil | scan/app.js:228-243 | the kernel sum is (1 + 4s) times the centre less s times its four edge neighbours |
| Sharpen.SharpenedShape | scan/app.js:226-247 | the output is a byte buffer of the input's size; alpha bytes and border pixels are copied from the input; every other byte is the stored five-point stencil |
| Sharpen.FlatRegionUnchanged | scan/app.js:228-244 | a visited byte whose four neighbours equal it is unchanged |
| Sharpen.LocalExtremaSum | scan/app.js:228-243 | with s ≥ 0, the sum at a centre at least as bright as its neighbours is at least the centre, and at most the centre for one at most as bright |
| Sharpen.LocalExtremaKept | scan/app.js:228-244 | with s ≥ 0, a local maximum is never darkened and a local minimum is never brightened |
| Sharpen.StencilSharpens | scan/app.js:228-232 | the same two facts, stated on the stencil over reals |
| Sharpen.ZeroStrengthIsIdentity | scan/app.js:222-247 | at sharpness 0 the output is the input |
| Capture.ReduceGlare | scan/app.js:187-205 | the loop leaves the buffer equal to `GlareReduced` of the old one |
| Capture.GlareReducedAt | scan/app.js:187-205 | a pixel of brightness ≤ 200 is untouched; any other pixel becomes a byte no brighter in any channel, with channel sum between 599 and 601, so its mean brightness is 200 up to rounding; alpha is kept |
| Capture.GlareFactorBounds | scan/app.js:196-197 | for a pixel brighter than 200, 200 / brightness lies strictly between 0 and 1 and scales the channel sum to 600 |
| Capture.DimmedNear | scan/app.js:198-200 | a dimmed channel is a byte no larger than before and within 0.5 of the exact product |
| Capture.DimmedPixelBrightness | scan/app.js:196-200 | the three dimmed channels of a bright pixel add up to between 599 and 601 |
| Capture.DeglarePixelKeeps | scan/app.js:191-202 | glare reduction keeps alpha and sends byte pixels to byte pixels |
| Capture.AdjustBrightnessContrast | scan/app.js:207-219 | the loop leaves the buffer equal to `BrightnessContrast` of the old one |
| Capture.BrightnessContrastAt | scan/app.js:207-219 | each colour byte becomes the clamped, stored level of the old one; alpha is kept |
| Capture.BrightnessContrastNeutral | scan/app.js:207-219 | brightness 0 and contrast 100 leave a byte buffer unchanged |
| Capture.LevelNeutral | scan/app.js:214 | brightness 0 and contrast 1 give the value back |
| Capture.LevelFlat | scan/app.js:214 | contrast 0 sends every value to 128 + brightness |
| Capture.LevelMonotone | scan/app.js:214 | a non-negative contrast keeps the order of values |
| Capture.AdjustedNeutral | scan/app.js:214 | brightness 0 and contrast 1 store every byte unchanged |
| Capture.AdjustedFlat | scan/app.js:214 | contrast 0 stores every channel as the same byte |
| Capture.AdjustedMonotone | scan/app.js:214 | with non-negative contrast, a brighter channel never stores as a darker byte |
| Capture.CorrectedKeepsBytesAndAlpha | scan/app.js:155-159 | glare reduction and brightness/contrast keep a byte buffer a byte buffer, and keep every alpha byte |
| Capture.SharpenStageKeepsBytesAndAlpha | scan/app.js:161-163 | the optional sharpening keeps a w-by-h image of bytes one, with alpha kept |
| Capture.ProcessedKeepsBytesAndAlpha | scan/app.js:153-169 | a capture comes out an image of bytes of the same size, with every alpha byte kept |
| Capture.ProcessedGrey | scan/app.js:165-167 | with grayscale on, every pixel of the capture comes out grey |
| Capture.ProcessedNeutral | scan/app.js:153-167 | with neutral settings, a capture comes out unchanged |
| Capture.ProcessCapture | scan/app.js:153-169 | the correction steps, run in place and through the sharpened copy, produce `Processed` of the capture |
| EditHistory.Saved | scan/app.js:408-422 | after a save, the history is valid; the cursor is on the new snapshot, which is last; the length is min(old cursor + 2, 20); the entries before it are the latest of those up to the old cursor, in order |
| EditHistory.FirstSave | scan/app.js:385-400 | the first save in a freshly opened edit view leaves one entry, with both buttons disabled |
| EditHistory.MovesKeepEntries | scan/app.js:424-444 | undo and redo keep the history valid and never change its entries |
| EditHistory.UndoButtonMatchesUndo | scan/app.js:424-449 | the undo button is disabled exactly when undo does nothing; otherwise undo moves the cursor back by one |
| EditHistory.RedoButtonMatchesRedo | scan/app.js:435-449 | the redo button is disabled exactly when redo does nothing; otherwise redo moves the cursor forward by one |
| EditHistory.RedoUndoesUndo | scan/app.js:424-444 | an undo that moved the cursor is taken back by a redo |
| EditHistory.UndoUndoesRedo | scan/app.js:424-444 | a redo that moved the cursor is taken back by an undo |
| EditHistory.SaveSetsButtons | scan/app.js:408-449 | after a save redo is disabled, and undo is disabled exactly when the history was empty |
| EditHistory.UndoAfterSave | scan/app.js:408-433 | undo right after a save returns to the snapshot current before it, even when the oldest entry was evicted |
| EditHistory.SaveWhenFull | scan/app.js:417-420 | saving into a full history drops exactly the oldest entry |
| EditHistory.SavedAll | scan/app.js:408-422 | any sequence of saves keeps the history valid |
| EditHistory.SavedAllLength | scan/app.js:408-422 | after k ≥ 1 saves the history holds exactly min(old cursor + 1 + k, 20) entries (after none, at least that many, since a redo tail may remain) and never more than 20, and the last snapshot saved is current |
| Editor.CropRect | scan/app.js:548-555 | no rectangle exactly when the drag spans less than 10 in x or in y; otherwise both sides are ≥ 10 and the rectangle's edges are the drag's two x and two y coordinates |
| Editor.CropRectSymmetric | scan/app.js:548-552 | the rectangle does not depend on which way, or along which diagonal, the drag went |
| Editor.PixelSize | scan/app.js:557-558 | a fractional canvas size is truncated to the whole number below it |
| Editor.CropFitsCanvas | scan/app.js:548-558 | a drag inside the canvas crops to a size no larger than the canvas |
| Editor.RotatedSizeKeepsArea | scan/app.js:567-573 | rotation keeps the pixel count; on a non-square canvas the sides swap exactly for ±90 degrees |
| Editor.RotatedSizeTwice | scan/app.js:567-573 | rotating twice by the same angle, or back by its opposite, restores the size |
| Editor.FilteredIsImage | scan/app.js:585-618 | every filter name, including an unrecognised one, keeps the canvas an image of bytes of its size, with alpha kept |
| Editor.SavedKeepsSnapshots | scan/app.js:408-422 | saving an image into a history of images gives a history of images |
| Editor.EditSession.Open | scan/app.js:385-400 | opening the edit view starts an empty history and saves the loaded scan as its only snapshot |
| Editor.EditSession.UpdateUndoRedoButtons | scan/app.js:446-449 | undo is disabled iff the cursor is ≤ 0; redo is disabled iff the cursor is at or after the last entry; nothing else changes |
| Editor.EditSession.SaveToHistory | scan/app.js:408-422 | the history becomes `Saved` of the old history and the canvas; the buttons match the new cursor |
| Editor.EditSession.UndoEdit | scan/app.js:424-433 | the history becomes `Undone` of the old one; when the cursor moved the canvas shows the new current snapshot, otherwise it is left as it was |
| Editor.EditSession.RedoEdit | scan/app.js:435-444 | the history becomes `Redone` of the old one; when the cursor moved the canvas shows the new current snapshot, otherwise it is left as it was |
| Editor.EditSession.DrawCropOverlay | scan/app.js:530-546 | during a crop drag the canvas shows the drawn outline over the current snapshot, at its size; the history is unchanged |
| Editor.EditSession.ApplyCrop | scan/app.js:548-561 | a drag that is too small saves nothing and leaves the canvas showing the current snapshot (the corrected behaviour, see Findings); otherwise the canvas becomes the cropped region at the truncated rectangle size, and it is saved |
| Editor.EditSession.ApplyCropAsWritten | scan/app.js:548-561 | as the script has it: a drag that is too small leaves the canvas, outline included, and the history as they were; otherwise as `ApplyCrop` |
| Editor.EditSession.RotateImage | scan/app.js:563-583 | the canvas takes the rotated size and drawing, and is saved |
| Editor.EditSession.ApplyFilter | scan/app.js:585-622 | the canvas keeps its size, its pixels become `Filtered` of the old ones, and it is saved |
| Editor.EditSession.ResetEdit | scan/app.js:624-635 | the history restarts with the reloaded scan as its only snapshot |
| Editor.RejectedDragThenFilterAsWritten | scan/app.js:548-554 | as written, opening a scan, dragging a rectangle too small to crop and then applying a filter saves the filtered outline drawing |
| Editor.RejectedDragThenFilter | scan/app.js:548-554 | with the corrected crop, the same steps save the filtered scan, whatever the outline drew |
| Editor.OutlineReachesHistory | scan/app.js:541-543 | whenever the outline changed a pixel, the snapshot saved as written after `invert` differs from the inverted scan |
| Scans.SpliceStart | scan/app.js:358 | `splice` starts at index when it is in range, counts a negative index from the end, and stops at the ends otherwise |
| Scans.Spliced | scan/app.js:358 | the list loses the element at the start position, when there is one, and the later elements move up by one |
| Scans.SplicedRemovesOne | scan/app.js:358 | a non-empty list loses exactly one page iff the index is before its end; otherwise the list is unchanged |
| Scans.SplicedKeepsOthers | scan/app.js:358 | the old pages are the new ones plus the page removed |
| Scans.SplicedAtIndex | scan/app.js:358 | the remove button of page i removes exactly page i |
| Scans.SplicedFromEnd | scan/app.js:358 | a negative index counts from the end (-1 is the last page); one before the front removes the first page |
| Scans.RemoveLastCapture | scan/app.js:357-358 | removing the page a capture just appended (scan/app.js:176), by its index or by -1, gives back the list as it was |
| Scans.Gallery.constructor | scan/app.js:4 | the page starts with no scans and the three buttons disabled |
| Scans.Gallery.AddScan | scan/app.js:174-182 | a capture appends its page and enables the three buttons |
| Scans.Gallery.RemoveImage | scan/app.js:357-366 | the list becomes `Spliced` of the old one; an empty list disables the three buttons, otherwise they are left as they were; the buttons keep matching emptiness |
| Scans.Gallery.ClearAllScans | scan/app.js:369-379 | when confirmed, the list empties and the buttons are disabled; otherwise nothing changes |

## Left out

- Camera access, the live edge overlay, continuous capture, haptics, the
  flash, status messages, modals and the rest of the DOM wiring are I/O and
  user-interface glue.
- `findDocumentCorners` is not modelled. Its corners feed only the live
  corner overlay (scan/app.js:96-100), not the capture.
- `applyPerspectiveCorrection`, run on a capture when auto-edge is on
  (scan/app.js:172), is not modelled. It takes no corners: it draws the
  capture's central region, inset 10% on each side, into a canvas of 0.8·w
  by 0.8·h (scan/app.js:263-281), a canvas drawing whose pixels the model
  cannot see.
- The ZIP and PDF exports are left out. They are thin wrappers over
  third-party libraries.
- Fractional arithmetic (the grey weights, the sepia weights, `200 /
  brightness`, the contrast factor and the sharpening kernel) is exact real
  arithmetic, not IEEE doubles. The results are therefore not bit-exact.
  The black-and-white threshold is exact, because it is stated on the integer
  sum 299r + 587g + 114b.
- Browser canvas operations are parameters rather than computed. These are:
  - the pixels `getImageData` returns for the crop rectangle;
  - the drawing of the rotated canvas;
  - the decoded scan that `openEditModal` and `resetEdit` load;
  - the `toDataURL` JPEG that a capture appends.
- Putting pixels back with `putImageData` is modelled as storing them
  unchanged. The loss that premultiplied alpha can cause in a browser is not
  modelled.
- Editor.PixelSize: truncates a canvas size to an integer, but does not
  model the reduction modulo 2^32 that the canvas size setter applies to
  sizes of 2^32 or more.
- Editor.EditSession.Open: collapses opening the edit view and the later
  asynchronous image load into one step. Editor.EditSession.ResetEdit
  likewise collapses the reload.
- Editor.EditSession.RotateImage: `currentRotation` is left unchanged,
  because the script never updates it.
- `saveEdit`, which writes the edited canvas back into the page list, is not
  modelled. It is JPEG encoding plus one list assignment.
- Editor.EditSession.ApplyCrop: the region of an accepted crop is a
  parameter. In the script it is read while the dashed outline is still on
  the canvas (scan/app.js:556), so it contains the inner half of the outline
  stroke; the model does not say what those pixels are.
- Editor.EditSession.DrawCropOverlay: the pixels of the dashed outline are a
  parameter; the stroke itself is canvas drawing.
- Scans.Gallery.constructor: the initial state of the three buttons is set by
  the page's markup, which is not part of this model. They are taken to
  start disabled, matching the empty list.
- Scans.Gallery.RemoveImage: keeps the buttons matching emptiness only when
  they matched before. The script itself never checks this.

## Findings

| source | as written | input that shows it | evidently intended | confidence | as-written member | corrected member |
|---|---|---|---|---|---|---|
| scan/app.js:554 | a crop drag shorter than ten units in either direction returns without repainting, so the dashed outline that drawCropOverlay stroked stays on the canvas, and the next rotate or filter reads the canvas and saves the outline into the history | open a scan, drag with the crop tool from (0, 0) to (5, 50), release, apply `invert`: the newest snapshot is the inverted outline drawing, not the inverted scan | a rejected drag repaints the current snapshot, so the canvas shows it again | not executed | Editor.RejectedDragThenFilterAsWritten | Editor.RejectedDragThenFilter |
