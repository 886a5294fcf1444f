/** The splitter's `state` object and the handlers that update it: loading
    an image and laying out the grid, dragging a boundary, choosing the key
    colour, zooming with the wheel, rendering the canvas and enumerating the
    export. */
module Session {
  import opened Inputs
  import opened Grid
  import opened Color
  import opened Compositor
  import opened Export

  datatype Axis = X | Y

  /** The boundary being dragged: its axis and its index in that axis's
      boundary list. */
  datatype Drag = Drag(axis: Axis, index: int)

  const MinZoom: real := 0.1
  const MaxZoom: real := 5.0

  /** The zoom change of one wheel notch. */
  const ZoomStep: real := 0.1

  /** The zoom after one wheel event: out for a positive `deltaY`, in
      otherwise, clamped to [MinZoom, MaxZoom]. */
  function WheelZoom(zoom: real, deltaY: real): (z: real)
    ensures MinZoom <= z <= MaxZoom
    ensures deltaY > 0.0 && MinZoom + ZoomStep <= zoom <= MaxZoom ==> z == zoom - ZoomStep
    ensures deltaY <= 0.0 && MinZoom <= zoom <= MaxZoom - ZoomStep ==> z == zoom + ZoomStep
    ensures MinZoom <= zoom <= MaxZoom ==> (deltaY > 0.0 ==> z <= zoom) && (deltaY <= 0.0 ==> z >= zoom)
  {
    var delta := if deltaY > 0.0 then -ZoomStep else ZoomStep;
    Clamp(MinZoom, MaxZoom, zoom + delta)
  }

  /** The pan that keeps the image point under the cursor in place when the
      zoom goes from `zoom` to `zoom'`. */
  function PivotPan(mouse: real, pan: real, zoom: real, zoom': real): (pan': real)
    requires zoom > 0.0 && zoom' > 0.0
    ensures (mouse - pan') / zoom' == (mouse - pan) / zoom
  {
    var img := (mouse - pan) / zoom;
    mouse - img * zoom'
  }

  class SplitterState {
    /** `state.img` is set: a load has started, whether or not it has
        finished or succeeded. */
    var hasImage: bool
    var naturalW: nat
    var naturalH: nat
    /** Column boundaries, left to right, in image pixels. */
    var gridX: seq<real>
    /** Row boundaries, top to bottom, in image pixels. */
    var gridY: seq<real>
    /** The chroma-key colour. */
    var bgColor: Rgb
    /** The eyedropper is armed. */
    var picking: bool
    var dragging: Option<Drag>
    var showMask: bool
    var zoom: real
    var panX: real
    var panY: real

    /** The zoom is at or above its lower bound, so the wheel handler's
        division by it is safe. The wheel handler is the only modelled
        handler that writes `zoom`; every other method leaves it out of its
        `modifies` frame and so keeps this. */
    predicate Valid()
      reads this
    {
      zoom >= MinZoom
    }

    /** The initial `state`: no image, empty grid, black key, 100% zoom. */
    constructor ()
      ensures !hasImage && naturalW == 0 && naturalH == 0 && gridX == [] && gridY == []
      ensures bgColor == Rgb(0, 0, 0) && !picking && dragging == None && showMask
      ensures zoom == 1.0 && panX == 0.0 && panY == 0.0
      ensures Valid()
    {
      hasImage := false;
      naturalW, naturalH := 0, 0;
      gridX, gridY := [], [];
      bgColor := Rgb(0, 0, 0);
      picking := false;
      dragging := None;
      showMask := true;
      zoom, panX, panY := 1.0, 0.0, 0.0;
    }

    /** The boundary list of one axis. */
    function AxisGrid(axis: Axis): seq<real>
      reads this
    {
      if axis == X then gridX else gridY
    }

    /** `initGridData`: with an image loaded, lay out `cols` equal columns
        and `rows` equal rows, the counts read as `parseInt(...) || 1`;
        without an image, do nothing. */
    method InitGridData(rowsIn: Option<int>, colsIn: Option<int>)
      modifies this`gridX, this`gridY
      ensures !hasImage ==> gridX == old(gridX) && gridY == old(gridY)
      ensures hasImage ==> gridX == UniformBoundaries(naturalW as real, ParsedOr(colsIn, 1))
      ensures hasImage ==> gridY == UniformBoundaries(naturalH as real, ParsedOr(rowsIn, 1))
      ensures hasImage && naturalW > 0 && ParsedOr(colsIn, 1) >= 1 ==> Increasing(gridX)
      ensures hasImage && naturalH > 0 && ParsedOr(rowsIn, 1) >= 1 ==> Increasing(gridY)
    {
      if !hasImage {
        return;
      }
      var r := ParsedOr(rowsIn, 1);
      var c := ParsedOr(colsIn, 1);
      var w, h := naturalW as real, naturalH as real;
      gridX := [];
      var i := 0;
      while i <= c
        invariant 0 <= i <= |UniformBoundaries(w, c)|
        invariant gridX == UniformBoundaries(w, c)[..i]
      {
        UniformPush(w, c, i);
        gridX := gridX + [(w / c as real) * i as real];
        i := i + 1;
      }
      gridY := [];
      i := 0;
      while i <= r
        invariant 0 <= i <= |UniformBoundaries(h, r)|
        invariant gridY == UniformBoundaries(h, r)[..i]
        invariant gridX == UniformBoundaries(w, c)
      {
        UniformPush(h, r, i);
        gridY := gridY + [(h / r as real) * i as real];
        i := i + 1;
      }
      if w > 0.0 && c >= 1 {
        UniformIsIncreasing(w, c);
      }
      if h > 0.0 && r >= 1 {
        UniformIsIncreasing(h, r);
      }
    }

    /** The start of `loadImage`: `state.img` is set before the picture is
        decoded, so from here on the handlers' image guards pass, even if
        decoding then fails (`onerror` only shows a message) and the size
        of the previous picture, or 0, stays in place. */
    method BeginLoad()
      modifies this`hasImage
      ensures hasImage
    {
      hasImage := true;
    }

    /** The `onload` half of `loadImage`: record the image size and lay out
        the grid. */
    method ImageLoaded(w: nat, h: nat, rowsIn: Option<int>, colsIn: Option<int>)
      modifies this`hasImage, this`naturalW, this`naturalH, this`gridX, this`gridY
      ensures hasImage && naturalW == w && naturalH == h
      ensures gridX == UniformBoundaries(w as real, ParsedOr(colsIn, 1))
      ensures gridY == UniformBoundaries(h as real, ParsedOr(rowsIn, 1))
    {
      hasImage := true;
      naturalW, naturalH := w, h;
      InitGridData(rowsIn, colsIn);
    }

    /** `startDrag`: a handle exists only for an interior boundary. */
    method StartDrag(axis: Axis, index: int)
      requires 1 <= index < |AxisGrid(axis)| - 1
      modifies this`dragging
      ensures dragging == Some(Drag(axis, index))
    {
      dragging := Some(Drag(axis, index));
    }

    /** `onDrag`: move the dragged boundary to the pointer's image
        coordinate, clamped to MinGap from both neighbours; nothing else in
        the grid moves, the image edges included. */
    method OnDrag(pointer: real)
      requires dragging.Some? ==> 1 <= dragging.value.index < |AxisGrid(dragging.value.axis)| - 1
      modifies this`gridX, this`gridY
      ensures dragging.None? ==> gridX == old(gridX) && gridY == old(gridY)
      ensures dragging.Some? && dragging.value.axis == X ==>
                gridX == old(gridX)[dragging.value.index := DragTarget(old(gridX), dragging.value.index, pointer)]
                && gridY == old(gridY)
      ensures dragging.Some? && dragging.value.axis == Y ==>
                gridY == old(gridY)[dragging.value.index := DragTarget(old(gridY), dragging.value.index, pointer)]
                && gridX == old(gridX)
      ensures |gridX| == |old(gridX)| && |gridY| == |old(gridY)|
      ensures |gridX| > 0 ==> gridX[0] == old(gridX)[0] && gridX[|gridX| - 1] == old(gridX)[|gridX| - 1]
      ensures |gridY| > 0 ==> gridY[0] == old(gridY)[0] && gridY[|gridY| - 1] == old(gridY)[|gridY| - 1]
    {
      if dragging.None? {
        return;
      }
      var index := dragging.value.index;
      if dragging.value.axis == X {
        gridX := gridX[index := DragTarget(gridX, index, pointer)];
      } else {
        gridY := gridY[index := DragTarget(gridY, index, pointer)];
      }
    }

    /** `stopDrag`. */
    method StopDrag()
      modifies this`dragging
      ensures dragging == None
    {
      dragging := None;
    }

    /** `toggleEyeDropper`. */
    method ToggleEyeDropper()
      modifies this`picking
      ensures picking == !old(picking)
    {
      picking := !picking;
    }

    /** The mask button: show or hide the chroma key. */
    method ToggleMask()
      modifies this`showMask
      ensures showMask == !old(showMask)
    {
      showMask := !showMask;
    }

    /** The colour picker's `input` handler: the key becomes the parsed
        value of the picker's text. */
    method PickerInput(hex: string)
      modifies this`bgColor
      ensures bgColor == HexToRgb(hex)
    {
      bgColor := HexToRgb(hex);
    }

    /** `pickColor` with the sampled pixel `p`: the key becomes `p`, the
        eyedropper is disarmed, and the text given to the picker is a
        `#rrggbb` string that the picker's own parser reads back as `p`. */
    method PickColor(p: Rgb) returns (hex: string)
      modifies this`bgColor, this`picking
      ensures bgColor == p && picking == !old(picking)
      ensures hex == PickHex(p) && |hex| == 7 && IsHexColor(hex) && HexToRgb(hex) == p
    {
      hex := PickHex(p);
      PickHexRoundTrip(p);
      bgColor := p;
      ToggleEyeDropper();
    }

    /** The wheel handler: step the zoom, clamped to [MinZoom, MaxZoom],
        and when it changes move the pan so that the image point under the
        cursor (`mouseX`, `mouseY`, relative to the workspace) stays under
        it. */
    method Wheel(deltaY: real, mouseX: real, mouseY: real)
      requires Valid()
      modifies this`zoom, this`panX, this`panY
      ensures Valid()
      ensures !hasImage ==> zoom == old(zoom) && panX == old(panX) && panY == old(panY)
      ensures hasImage ==> zoom == WheelZoom(old(zoom), deltaY)
      ensures zoom == old(zoom) ==> panX == old(panX) && panY == old(panY)
      ensures zoom != old(zoom) ==>
                (mouseX - panX) / zoom == (mouseX - old(panX)) / old(zoom)
                && (mouseY - panY) / zoom == (mouseY - old(panY)) / old(zoom)
    {
      if !hasImage {
        return;
      }
      var delta := if deltaY > 0.0 then -ZoomStep else ZoomStep;
      var newZoom := Clamp(MinZoom, MaxZoom, zoom + delta);
      if newZoom != zoom {
        panX := PivotPan(mouseX, panX, zoom, newZoom);
        panY := PivotPan(mouseY, panY, zoom, newZoom);
        zoom := newZoom;
      }
    }

    /** The ZIP handler's enumeration: with an image loaded, one entry per
        cell, rows outer and columns inner, named `slice_{r+1}_{c+1}.png`,
        and a final count of rows * cols; without an image, nothing. */
    method ExportAll() returns (names: seq<string>, count: int)
      ensures !hasImage ==> names == [] && count == 0
      ensures hasImage ==> names == SliceNames(|gridY| - 1, |gridX| - 1)
      ensures count == |names|
      ensures hasImage && |gridY| >= 2 && |gridX| >= 2 ==> count == (|gridY| - 1) * (|gridX| - 1)
      ensures |gridY| < 2 || |gridX| < 2 ==> names == [] && count == 0
    {
      names, count := [], 0;
      if !hasImage {
        return;
      }
      var rows := |gridY| - 1;
      var cols := |gridX| - 1;
      var r := 0;
      while r < rows
        invariant 0 <= r <= if rows < 0 then 0 else rows
        invariant names == SliceNames(r, cols) && count == |names|
      {
        var c := 0;
        while c < cols
          invariant 0 <= c <= if cols < 0 then 0 else cols
          invariant names == SliceNames(r, cols) + RowNames(r, c) && count == |names|
        {
          names := names + [SliceName(r, c)];
          count := count + 1;
          c := c + 1;
        }
        assert RowNames(r, c) == RowNames(r, cols);
        r := r + 1;
      }
      assert SliceNames(r, cols) == SliceNames(rows, cols);
      SliceNamesCount(rows, cols);
    }

    /** `clearRect` over the whole canvas followed by `drawImage` at the
        origin: the canvas then holds the picture's bytes. */
    static method DrawImage(canvas: array<byte>, image: seq<byte>)
      requires |image| == canvas.Length
      modifies canvas
      ensures canvas[..] == image
    {
      forall j | 0 <= j < canvas.Length {
        canvas[j] := image[j];
      }
    }

    /** `renderCanvas` with the freshly drawn `image` (the canvas cleared and
        the picture drawn at the origin), the four margin fields, the
        background checkbox and the threshold slider: with an image loaded
        the canvas ends up as Compositor.Rendered describes, the chroma key
        running only when both the checkbox and `showMask` are on. */
    method RenderCanvas(canvas: array<byte>, image: seq<byte>,
                        top: Option<int>, bottom: Option<int>, left: Option<int>, right: Option<int>,
                        bgChecked: bool, thresh: int)
      requires canvas.Length % 4 == 0 && |image| == canvas.Length
      modifies canvas
      ensures !hasImage ==> canvas[..] == old(canvas[..])
      ensures hasImage ==>
                canvas[..] == Rendered(image, naturalW, gridX, gridY,
                                       Margins(ParsedOr(top, 0), ParsedOr(bottom, 0), ParsedOr(left, 0), ParsedOr(right, 0)),
                                       bgChecked && showMask, bgColor, thresh)
    {
      if !hasImage {
        return;
      }
      DrawImage(canvas, image);
      var m := Margins(ParsedOr(top, 0), ParsedOr(bottom, 0), ParsedOr(left, 0), ParsedOr(right, 0));
      Render(canvas, naturalW, gridX, gridY, m, bgChecked && showMask, bgColor, thresh);
    }
  }
}
