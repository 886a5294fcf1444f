# Sprite splitter: grid, compositor and export

A Dafny model of the grid-and-export logic of the browser sprite-sheet
splitter in `script.js`. The model covers five parts:

- **Grid engine** (`grid.dfy`, `session.dfy`). The column boundaries `gridX`
  and row boundaries `gridY` are laid out uniformly by `initGridData`. One
  interior boundary is moved by `onDrag`, clamped to 2 pixels from each
  neighbour. Cells are the rectangles between adjacent boundaries.
- **Compositor** (`compositor.dfy`). This is the pixel half of
  `renderCanvas`. The margin pass clears each cell's top, bottom, left and
  right strips. The chroma-key pass then sets alpha to 0 on every visible
  pixel whose RGB distance from the key colour is below the threshold.
- **Colours** (`color.dfy`). `hexToRgb` parses a colour, and `pickColor`
  builds its `#rrggbb` text.
- **Export** (`export.dfy`, `session.dfy`). The ZIP loop visits the cells row
  by row and names each one `slice_{r+1}_{c+1}.png`.
- **Wheel zoom** (`session.dfy`). The zoom is clamped to [0.1, 5], and the
  pan moves so that the image point under the cursor stays put.

The splitter's `state` object is the class `Session.SplitterState`. Each
handler that updates it is a method with a `modifies` frame on the fields it
writes.

The loops that change things step by step are methods:

- the push loops of `initGridData` rebuild the `seq<real>` fields `gridX` and
  `gridY`;
- the nested cell loops of the margin pass and the stride-4 chroma-key loop
  rewrite the canvas, an `array<byte>`;
- the ZIP enumeration accumulates a `seq<string>` of names and a count.

Each of these methods is proved equal to a specification function, such as
`UniformBoundaries`, `MarginPass`, `ChromaKeyed` or `SliceNames`. Lemmas about
those functions state what the source promises.

Modelling choices:

- Numbers read from input fields go through `Inputs.ParsedOr`, which models
  `parseInt(v) || fallback`. NaN is `None`. A negative count is kept, as in
  JavaScript, and then the push loop runs zero times.
- Boundaries and zoom are exact `real`s.
- The chroma-key test `Math.sqrt(d2) < thresh` is stated without the square
  root, as `thresh > 0 && d2 < thresh * thresh`. `ThresholdMatchesDistance`
  proves that this decides exactly what the square-root test decides.
- The pixel buffer is a row-major RGBA `byte` sequence, `naturalW` pixels
  wide. `clearRect` clears a pixel when its integer coordinates lie in the
  rectangle. A negative width or height runs backwards from the corner, as
  the canvas normalises it.
- `hasImage` stands for `state.img` being set. `loadImage` sets it before
  decoding (`BeginLoad`), so the image guards pass while a load is pending
  and after a failed one, with the previous size (or 0) still in place.
  `ImageLoaded` is the `onload` handler.
- Several handlers end by calling `renderCanvas` or `renderAll`: `stopDrag`,
  the picker's `input` handler, the mask button, `pickColor` and `onload`.
  `onload` also calls `centerView`. These are modelled without the re-render
  and without `centerView`; `RenderCanvas` is a method of its own.

A drag can put a boundary at or past its neighbour. The clamp
`Math.max(prev + 2, Math.min(next - 2, p))` gives exactly `prev + 2` whenever
`next - prev < 4`, which is within 2 pixels of `next`; when
`next - prev <= 2` it is at or beyond `next`.

- `Grid.DragKeepsIncreasing` proves that boundaries stay strictly increasing
  exactly when `next - prev > 2`.
- `Grid.NarrowUniformGridCollapses` shows that a uniform grid whose cells are
  at most one pixel wide loses this property on its first drag.

## Model

| member | source | states |
|---|---|---|
| Inputs.ParsedOr | script.js:172-173 | a parsed non-zero value is kept, including a negative one; NaN or 0 gives the fallback; a non-zero fallback never yields 0 |
| Grid.UniformBoundaries | script.js:178-183 | count + 1 boundaries from 0 to the extent, each step `extent / count`; none for a negative count |
| Grid.UniformIsIncreasing | script.js:178-183 | with a positive extent and at least one cell, the uniform boundaries strictly increase |
| Grid.Clamp | script.js:337 | `Math.max(lo, Math.min(hi, v))` is at least lo; when lo <= hi it lies in [lo, hi], is v when v lies inside and otherwise the nearer end; when hi < lo it is lo |
| Grid.DragTarget | script.js:335-337 | the dragged boundary is at least prev + 2; at most next - 2 when prev + 4 <= next; exactly prev + 2 when the neighbours are closer; the pointer itself when it is within range |
| Grid.DragKeepsIncreasing | script.js:335-337 | a drag keeps a strictly increasing grid strictly increasing if and only if the neighbours are more than 2 apart |
| Grid.NarrowUniformGridCollapses | script.js:178-180 | a uniform grid with cells at most one pixel wide is strictly increasing, but is no longer so after any drag of boundary 1 |
| Grid.CellRect | script.js:214-217 | cell (r, c) has its left and right edges at gridX[c] and gridX[c+1], and its top and bottom edges at gridY[r] and gridY[r+1] |
| Grid.AdjacentCellsShareEdges | script.js:212-217 | the right edge of a cell is the left edge of the next cell in its row, and its bottom edge is the top edge of the cell below |
| Grid.CellsTileImage | script.js:212-217 | on an ascending grid, a point lies in some cell if and only if it lies in the image rectangle, and it never lies in two cells |
| Grid.ExtentsSum | script.js:212-217 | the cell widths (heights) add up to the last boundary minus the first |
| Grid.CellWidthsAreExtents | script.js:437-441 | the extraction rectangle's width and height are the extents of the boundaries around the cell |
| Color.IsHexColor | script.js:432 | the pattern `^#?([a-f\d]{2})([a-f\d]{2})([a-f\d]{2})$` with the `i` flag: six hex digits of either case, optionally after one `#`, and nothing else |
| Color.HexValue | script.js:433 | `parseInt(x, 16)` of one hex digit of either case: its value, below 16 |
| Color.PairValue | script.js:433 | `parseInt` of a captured pair of hex digits: 16 times the high digit's value plus the low digit's |
| Color.HexToRgb | script.js:431-434 | any string outside the pattern gives black |
| Color.HexToRgbOptionalHash | script.js:432 | six characters match with or without a leading `#`, and parse to the same colour either way |
| Color.HexDigitOfValue | script.js:433 | writing back the value of a hex digit gives that digit in lower case |
| Color.HexPairOfPairValue | script.js:433 | a parsed digit pair, written back as two digits, is the pair in lower case |
| Color.HexToRgbThenPickHex | script.js:431-434 | for every matching string, the parsed colour is shown as `#` followed by the string's six digits in lower case |
| Color.HexDigit | script.js:422 | `toString(16)` writes a lower-case hex digit whose value is n |
| Color.ToHex | script.js:422 | the hex numeral is non-empty and has no leading zero |
| Color.ToHexLeadingOne | script.js:422 | writing 16^k + v in hex gives `1` followed by exactly k digits of v, so `.slice(1)` keeps them all, leading zeros included |
| Color.PickedDigits | script.js:422 | the packed numeral with its leading `1` sliced off is the two-digit pairs of r, g and b |
| Color.PickHex | script.js:422 | the picked text is `#` followed by the two-digit pairs of r, g and b |
| Color.HexToRgbOfPairs | script.js:431-434 | `#` plus three digit pairs matches the pattern and parses back to the three channels |
| Color.PickHexRoundTrip | script.js:422-423 | the picked text has 7 characters, matches the pattern, has no upper-case letter, and `hexToRgb` reads back exactly the sampled colour |
| Color.HexToRgbIgnoresCase | script.js:432 | the `i` flag: lower-casing the argument does not change the parsed colour |
| Export.DigitChar | script.js:584 | the character is a decimal digit with value d |
| Export.Decimal | script.js:584 | a rendered number is a non-empty run of decimal digits |
| Export.DecimalValueOfDecimal | script.js:584 | reading a rendered number back gives the number |
| Export.DecimalInjective | script.js:584 | different numbers render differently |
| Export.SliceName | script.js:584 | the template `slice_${r+1}_${c+1}.png`: the 1-based row and column in decimal between `slice_`, `_` and `.png` |
| Export.SliceNameShape | script.js:584 | every slice name starts with `slice_` and ends with `.png` |
| Export.SliceNameInjective | script.js:584 | two cells with the same file name are the same cell |
| Export.RowNames | script.js:582-586 | the names the inner loop gives the first n cells of row r, in column order; n of them, none for n <= 0 |
| Export.SliceNames | script.js:581-587 | the names the nested loop gives the first `rows` rows, rows outer and columns inner |
| Export.SliceNamesCount | script.js:581-587 | the loop produces rows * cols names when both counts are positive, and none otherwise |
| Export.SliceNamesAt | script.js:581-587 | in row-major order, entry r * cols + c is the name of cell (r, c) |
| Export.SliceNamesMember | script.js:581-587 | every exported name is the name of a cell of the grid |
| Export.SliceNamesDistinct | script.js:581-587 | the exported names are pairwise different, so no archive entry overwrites another |
| Compositor.AnyMargin | script.js:283 | the guard of the margin pass: at least one of the four margins is non-zero |
| Compositor.Covers | script.js:291-294 | `clearRect` covers a pixel when each coordinate lies in the span of signed length from the corner |
| Compositor.Cleared | script.js:291-294 | the buffer after `clearRect` has the same length, with the covered pixels zeroed |
| Compositor.TopStrip | script.js:291 | the rectangle `(cx, cy, cw, t)` |
| Compositor.BottomStrip | script.js:292 | the rectangle `(cx, cy + ch - b, cw, b)` |
| Compositor.LeftStrip | script.js:293 | the rectangle `(cx, cy, l, ch)` |
| Compositor.RightStrip | script.js:294 | the rectangle `(cx + cw - r_pad, cy, r_pad, ch)` |
| Compositor.InCellMargin | script.js:286-294 | pixel (px, py) lies in one of the four strips of an existing cell (r, c) |
| Compositor.ClearCell | script.js:291-294 | one cell iteration: `Cleared` by each strip whose margin is non-zero, top, bottom, left, right in turn; the length is kept |
| Compositor.ClearRowCells | script.js:285-295 | the column loop of row r after its first n iterations, each applying ClearCell; the length is kept |
| Compositor.ClearRows | script.js:284-296 | the row loop after its first n iterations, each running the whole column loop; the length is kept |
| Compositor.MarginPass | script.js:283-297 | the margin pass: ClearRows over every row when AnyMargin holds, the buffer unchanged otherwise; the length is kept |
| Compositor.ClearRect | script.js:291-294 | `clearRect` zeroes exactly the pixels the rectangle covers |
| Compositor.ClearCellMargins | script.js:291-294 | one cell iteration clears the strips whose margins are non-zero, in the order top, bottom, left, right |
| Compositor.ClearRowMargins | script.js:285-295 | the column loop for row r applies the cell clears of every column in order |
| Compositor.ApplyMargins | script.js:283-297 | the margin pass, skipped when all four margins are 0, leaves the buffer `MarginPass` describes |
| Compositor.ClearCellAt | script.js:291-294 | one cell's clears zero a byte exactly when its pixel lies in one of that cell's strips |
| Compositor.RowMarginSplit | script.js:285 | a strip of one of the first n cells of a row is a strip of one of the first n - 1 cells or of cell n - 1, and conversely |
| Compositor.ClearRowCellsAt | script.js:285-295 | after n column iterations, a byte is zero exactly when its pixel lies in a strip of one of the first n cells of the row; other bytes are unchanged |
| Compositor.ClearRowsAt | script.js:284-296 | after n row iterations, a byte is zero exactly when its pixel lies in a strip of a cell in the first n rows; other bytes are unchanged |
| Compositor.MarginPassAt | script.js:283-297 | the margin pass makes exactly the pixels in some cell's strip transparent black, keeps every other byte, and with all margins 0 changes nothing |
| Compositor.Square | script.js:304 | the `**2` of a channel difference, as a sum of odd numbers (SquareIsProduct proves it is n * n) |
| Compositor.SquareIsProduct | script.js:304 | the squared channel difference used in the distance is the product n * n |
| Compositor.Distance2 | script.js:304 | the squared distance is never negative |
| Compositor.WithinThreshold | script.js:305 | `dist < thresh` in squared form: the threshold is positive and the squared distance lies below its square |
| Compositor.ThresholdMatchesDistance | script.js:304-305 | for the non-negative root of d2, `dist < thresh` holds if and only if the squared test holds |
| Compositor.KeyedOut | script.js:303-305 | the test of one pixel: its alpha is not 0 and its distance is below the threshold |
| Compositor.KeyedAlpha | script.js:303-305 | the alpha the loop leaves on one pixel: 0 when KeyedOut holds, the old alpha otherwise |
| Compositor.ChromaKeyed | script.js:302-306 | the buffer after the loop: every fourth byte becomes KeyedAlpha of its pixel, every other byte is kept; the length is kept |
| Compositor.ChromaKeyedAt | script.js:302-306 | R, G and B are never changed; alpha becomes 0 exactly when it was 0 or the pixel is within the threshold; otherwise alpha is kept |
| Compositor.ChromaKey | script.js:302-306 | the stride-4 loop, which skips transparent pixels, leaves the buffer `ChromaKeyed` describes |
| Compositor.ChromaKeyIdempotent | script.js:302-306 | keying an already keyed buffer changes nothing |
| Compositor.WithinLargerThreshold | script.js:305 | a squared distance below thresh is also below any larger threshold |
| Compositor.ChromaKeyMonotone | script.js:302-306 | a pixel masked at threshold T is masked at every T' >= T |
| Compositor.Rendered | script.js:283-308 | the buffer `renderCanvas` leaves: MarginPass of the drawn image, then ChromaKeyed when the key is on; the length is kept |
| Compositor.Render | script.js:283-308 | the pixel work of `renderCanvas` runs the margins first, then the chroma key when it is on, and leaves the buffer `Rendered` describes |
| Compositor.RenderedMarginIsTransparent | script.js:283-306 | every byte of a pixel in a margin strip ends up 0, whether or not the chroma key runs |
| Compositor.RenderedOutsideMargins | script.js:283-306 | outside the margin strips, the rendered byte is the chroma-keyed image byte, or the image byte when keying is off |
| Compositor.WhiteKeyExample | script.js:302-306 | with a white key and threshold 10, (250, 250, 250), at distance about 8.66, is masked, and (249, 249, 249), at about 10.39, is kept |
| Session.WheelZoom | script.js:662-663 | the new zoom lies in [0.1, 5]; inside the range a wheel step moves it by exactly 0.1, down for a positive deltaY and up otherwise |
| Session.PivotPan | script.js:680-688 | the new pan keeps the image point under the cursor: `(mouse - pan') / zoom' == (mouse - pan) / zoom` |
| Session.SplitterState.constructor | script.js:33-52 | the initial state: no image, an empty grid, a black key, eyedropper off, no drag, mask shown, zoom 1, pan 0 |
| Session.SplitterState.InitGridData | script.js:170-184 | without an image, nothing changes; with one, both axes get uniform boundaries for the parsed counts, strictly increasing for a positive size and at least one cell |
| Session.SplitterState.BeginLoad | script.js:87-88 | once a load starts, the image guards pass, whether or not decoding later succeeds |
| Session.SplitterState.ImageLoaded | script.js:89-100 | the image size is recorded and the grid is laid out uniformly |
| Session.SplitterState.StartDrag | script.js:316-319 | a drag starts only on an interior boundary and records its axis and index |
| Session.SplitterState.OnDrag | script.js:326-344 | only the dragged entry changes, to the clamped target; the other axis, the lengths and both image edges stay fixed; nothing changes without a drag |
| Session.SplitterState.StopDrag | script.js:348-349 | the drag ends |
| Session.SplitterState.ToggleEyeDropper | script.js:403 | the eyedropper flag flips |
| Session.SplitterState.ToggleMask | script.js:651-654 | the mask flag flips |
| Session.SplitterState.PickerInput | script.js:375-381 | the key becomes the parsed picker value |
| Session.SplitterState.PickColor | script.js:418-429 | the key becomes the sampled colour and the eyedropper flips; the picker text has 7 characters, matches the pattern, and parses back to the sample |
| Session.SplitterState.Wheel | script.js:658-693 | without an image nothing changes; with one the zoom becomes WheelZoom and stays at least 0.1; an unchanged zoom leaves the pan alone; a changed one keeps the point under the cursor fixed on both axes |
| Session.SplitterState.ExportAll | script.js:569-598 | without an image, no names and a count of 0; with one, `SliceNames`: the row-major `slice_{r+1}_{c+1}.png` names of the grid; the count is always the number of names, and when both counts are positive it equals rows * cols (with no names otherwise) |
| Session.SplitterState.DrawImage | script.js:273-275 | after the clear and the draw, the canvas holds the image bytes |
| Session.SplitterState.RenderCanvas | script.js:270-309 | without an image, the canvas is untouched; with one, it holds the rendered image for the parsed margins, with keying on only when the checkbox and the mask are both on |

## Left out

- DOM, event and canvas plumbing are not modelled: element lookups, overlay creation, cursors and classes, `getImageData`/`putImageData`, `toBlob` and PNG encoding, toasts, the theme toggle, the grid visibility toggle and `updateTransform`. The canvas is an abstract RGBA byte array.
- Pixel extraction in `getSliceBlob` and `downloadCell` is browser drawing and encoding. Only the cell rectangle (`Grid.CellRect`) and the file name are modelled.
- File and image loading (`handleFile`, `FileReader`, the TGA decoder, paste and drag-and-drop) is asynchronous I/O. `ImageLoaded` takes the decoded size as parameters.
- Clipboard copies and the JSZip calls are external services. Only the enumeration and naming of the ZIP loop are kept, and the cell bytes it reads are not modelled.
- The debounce timer only coalesces re-renders in time.
- `centerView` depends on the browser's layout rectangle.
- The zoom buttons have no coherent pivot rule to verify.
- The pan drag and the modal preview viewer are plain UI state.
- `refactor.js` is a separate one-shot file script and is not part of this model.
- Floating point: boundaries, zoom and pan are exact reals. For example, `(w / c) * c` may differ from `w` by rounding in JavaScript, while it is exactly `w` here.
- Canvas anti-aliasing at fractional rectangle edges is not modelled: a pixel is cleared when its integer coordinates lie in the rectangle.
- Session.SplitterState.OnDrag: requires the recorded index to be an interior handle of the current grid. A grid rebuilt in the middle of a drag, making the index stale (and producing NaN in JavaScript), is not modelled.
- Session.SplitterState.Wheel: requires the zoom to be at least 0.1 on entry. The constructor, `centerView` and the zoom buttons all keep it there, but only the constructor is modelled.
- Session.SplitterState.RenderCanvas: the threshold is an integer. A NaN threshold, which never masks anything, is not modelled, because the range slider always yields a number.
- Color.PickHex: models `<<` as multiplication by a power of two. This is exact for channel bytes 0..255, so 32-bit overflow never arises.
