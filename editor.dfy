/** The edit view: a canvas holding one scanned page, the undo history of its
    snapshots, and the edits that replace the canvas and then save it to the
    history (crop, quarter-turn rotation, the filter menu, reset). What the
    browser's canvas API draws (the pixels of a cropped region, a rotated
    drawing, a decoded image) comes in as a parameter; the sizes, the
    rectangle arithmetic, the filters and the history are modelled. */
module Editor {
  import opened Pixels
  import opened PixelMaps
  import Filters
  import opened EditHistory

  /** One entry of `editHistory`: the canvas pixels and the canvas size. */
  datatype Snapshot = Snapshot(data: seq<int>, width: nat, height: nat)

  predicate IsSnapshot(s: Snapshot) {
    IsImage(s.data, s.width, s.height)
  }

  predicate AllSnapshots(ss: seq<Snapshot>) {
    forall k :: 0 <= k < |ss| ==> IsSnapshot(ss[k])
  }

  // ---------------------------------------------------------------------
  // applyCrop: the rectangle
  // ---------------------------------------------------------------------

  /** A point in canvas coordinates, as the pointer handlers compute it. */
  datatype Point = Point(x: real, y: real)

  /** A rectangle by its top-left corner and its size. */
  datatype Rect = Rect(x: real, y: real, w: real, h: real)

  datatype Option<T> = None | Some(value: T)

  /** Drags shorter than this in either direction are ignored. */
  const MinCropSide: real := 10.0

  function MinOf(a: real, b: real): real {
    if a <= b then a else b
  }

  function AbsOf(v: real): real {
    if v < 0.0 then -v else v
  }

  /** applyCrop's rectangle: the one spanned by the two corners of the drag,
      whichever way it went. A drag that moved less than ten units
      horizontally or vertically gives no rectangle. */
  function CropRect(start: Point, end: Point): (r: Option<Rect>)
    ensures r.None? <==> start.x - MinCropSide < end.x < start.x + MinCropSide || start.y - MinCropSide < end.y < start.y + MinCropSide
    ensures r.Some? ==> r.value.w >= MinCropSide && r.value.h >= MinCropSide
    ensures r.Some? ==> {r.value.x, r.value.x + r.value.w} == {start.x, end.x}
    ensures r.Some? ==> {r.value.y, r.value.y + r.value.h} == {start.y, end.y}
  {
    var x := MinOf(start.x, end.x);
    var y := MinOf(start.y, end.y);
    var w := AbsOf(end.x - start.x);
    var h := AbsOf(end.y - start.y);
    if w < MinCropSide || h < MinCropSide then None else Some(Rect(x, y, w, h))
  }

  /** The rectangle does not depend on the direction of the drag: swapping
      the corners, or dragging along the other diagonal, gives the same one. */
  lemma CropRectSymmetric(start: Point, end: Point)
    ensures CropRect(start, end) == CropRect(end, start)
    ensures CropRect(start, end) == CropRect(Point(start.x, end.y), Point(end.x, start.y))
  {
  }

  /** A canvas size set from a non-negative number: the fraction is dropped. */
  function PixelSize(v: real): (n: nat)
    requires v >= 0.0
    ensures n as real <= v < n as real + 1.0
  {
    v.Floor
  }

  /** A crop dragged inside a canvas is never larger than the canvas. */
  lemma CropFitsCanvas(start: Point, end: Point, width: nat, height: nat)
    requires 0.0 <= start.x <= width as real && 0.0 <= end.x <= width as real
    requires 0.0 <= start.y <= height as real && 0.0 <= end.y <= height as real
    requires CropRect(start, end).Some?
    ensures PixelSize(CropRect(start, end).value.w) <= width
    ensures PixelSize(CropRect(start, end).value.h) <= height
  {
  }

  // ---------------------------------------------------------------------
  // rotateImage: the size
  // ---------------------------------------------------------------------

  predicate IsQuarterTurn(degrees: real) {
    degrees == 90.0 || degrees == -90.0
  }

  /** The size of the rotated canvas: width and height trade places for a
      quarter turn either way and stay as they are for any other angle. */
  function RotatedSize(width: nat, height: nat, degrees: real): (nat, nat) {
    if AbsOf(degrees) == 90.0 then (height, width) else (width, height)
  }

  /** Rotation never changes the number of pixels, and on a canvas that is
      not square it swaps the sides exactly for a quarter turn. */
  lemma RotatedSizeKeepsArea(width: nat, height: nat, degrees: real)
    ensures var (w, h) := RotatedSize(width, height, degrees); w * h == width * height
    ensures width != height ==> (RotatedSize(width, height, degrees) == (height, width) <==> IsQuarterTurn(degrees))
  {
  }

  /** Turning twice by the same angle, or by a quarter turn and back, gives
      the original size again. */
  lemma RotatedSizeTwice(width: nat, height: nat, degrees: real)
    ensures var (w, h) := RotatedSize(width, height, degrees); RotatedSize(w, h, degrees) == (width, height)
    ensures var (w, h) := RotatedSize(width, height, degrees); RotatedSize(w, h, -degrees) == (width, height)
  {
  }

  // ---------------------------------------------------------------------
  // applyFilter
  // ---------------------------------------------------------------------

  /** The filter names of applyFilter's switch; any other name matches no
      case and leaves the pixels as they are. */
  datatype FilterName = Grayscale | Blackwhite | Sepia | Invert | Unrecognised

  /** The canvas pixels after the named filter. */
  function Filtered(s: seq<int>, f: FilterName): seq<int>
    requires |s| % 4 == 0
  {
    match f
    case Grayscale => Filters.Grayscaled(s)
    case Blackwhite => Filters.BlackWhite(s)
    case Sepia => Filters.Sepia(s)
    case Invert => Filters.Inverted(s)
    case Unrecognised => s
  }

  /** Every filter turns a w-by-h image into a w-by-h image and leaves every
      alpha byte as it was. */
  lemma FilteredIsImage(s: seq<int>, w: nat, h: nat, f: FilterName)
    requires IsImage(s, w, h)
    ensures IsImage(Filtered(s, f), w, h)
    ensures forall j :: 0 <= j < |s| && IsAlpha(j) ==> Filtered(s, f)[j] == s[j]
  {
    match f
    case Grayscale =>
      forall p | IsBytePixel(p) ensures IsBytePixel(Filters.GrayscalePixel(p)) { }
      MapKeepsImage(s, w, h, Filters.GrayscalePixel);
    case Blackwhite =>
      MapKeepsImage(s, w, h, Filters.BlackWhitePixel);
    case Sepia =>
      forall p | IsBytePixel(p) ensures IsBytePixel(Filters.SepiaPixel(p)) { }
      MapKeepsImage(s, w, h, Filters.SepiaPixel);
    case Invert =>
      MapKeepsImage(s, w, h, Filters.InvertPixel);
    case Unrecognised =>
  }

  /** A per-pixel map that keeps bytes bytes and alpha as it was maps an
      image to an image of the same size with the same alpha bytes. */
  lemma MapKeepsImage(s: seq<int>, w: nat, h: nat, f: Pixel -> Pixel)
    requires IsImage(s, w, h)
    requires forall p {:trigger f(p)} :: IsBytePixel(p) ==> IsBytePixel(f(p))
    requires forall p :: f(p).a == p.a
    ensures IsImage(MapPixels(s, f), w, h)
    ensures forall j :: 0 <= j < |s| && IsAlpha(j) ==> MapPixels(s, f)[j] == s[j]
  {
    ImageIsPixelBuffer(s, w, h);
    MapPixelsKeepsBytes(s, f);
    MapPixelsKeepsAlpha(s, f);
    SameSizeImage(s, MapPixels(s, f), w, h);
  }

  /** Saving an image into a history of images leaves a history of images. */
  lemma SavedKeepsSnapshots(h: History<Snapshot>, s: Snapshot)
    requires EditHistory.Valid(h) && AllSnapshots(h.entries) && IsSnapshot(s)
    ensures AllSnapshots(Saved(h, s).entries)
  {
    var r := Saved(h, s);
    forall k | 0 <= k < |r.entries|
      ensures IsSnapshot(r.entries[k])
    {
      if k < r.index {
        assert r.entries[k] == h.entries[k + (h.index + 2 - |r.entries|)];
      }
    }
  }

  // ---------------------------------------------------------------------
  // The edit view
  // ---------------------------------------------------------------------

  /** The edit view's state: `editHistory`, `historyIndex`, the edit canvas,
      the disabled flags of the undo and redo buttons, `currentEditIndex` and
      `currentRotation`. */
  class EditSession {
    var editHistory: seq<Snapshot>
    var historyIndex: int
    var canvas: Snapshot
    var undoDisabled: bool
    var redoDisabled: bool
    var currentEditIndex: int
    var currentRotation: int

    /** The history as a value. */
    function Log(): History<Snapshot>
      reads this
    {
      History(editHistory, historyIndex)
    }

    /** The history is well formed, and the canvas and every snapshot are
        images of their recorded size. */
    ghost predicate Stored()
      reads this
    {
      EditHistory.Valid(Log()) && AllSnapshots(editHistory) && IsSnapshot(canvas)
    }

    /** There is a current snapshot, the canvas has its size, and the buttons
        agree with the cursor. The canvas may show more than the snapshot: the
        dashed rectangle of a crop drag is drawn over it. */
    ghost predicate Editing()
      reads this
    {
      Stored() && historyIndex >= 0 &&
      canvas.width == editHistory[historyIndex].width && canvas.height == editHistory[historyIndex].height &&
      undoDisabled == UndoDisabled(Log()) && redoDisabled == RedoDisabled(Log())
    }

    /** Between user actions: the canvas shows exactly the current snapshot. */
    ghost predicate Valid()
      reads this
    {
      Editing() && canvas == editHistory[historyIndex]
    }

    /** openEditModal followed by the load of the chosen scan: the history
        starts empty, and the loaded image becomes its only snapshot. */
    constructor Open(index: int, image: Snapshot)
      requires IsSnapshot(image)
      ensures Valid() && canvas == image && Log() == Saved(Empty(), image)
      ensures currentEditIndex == index && currentRotation == 0
    {
      currentEditIndex := index;
      currentRotation := 0;
      editHistory := [];
      historyIndex := -1;
      canvas := image;
      new;
      SaveToHistory();
    }

    /** updateUndoRedoButtons. */
    method UpdateUndoRedoButtons()
      modifies this
      ensures undoDisabled == (historyIndex <= 0)
      ensures redoDisabled == (historyIndex >= |editHistory| - 1)
      ensures editHistory == old(editHistory) && historyIndex == old(historyIndex) && canvas == old(canvas)
      ensures currentEditIndex == old(currentEditIndex) && currentRotation == old(currentRotation)
    {
      undoDisabled := historyIndex <= 0;
      redoDisabled := historyIndex >= |editHistory| - 1;
    }

    /** saveToHistory: record the canvas as the newest snapshot. */
    method SaveToHistory()
      requires Stored()
      modifies this
      ensures Valid() && canvas == old(canvas) && Log() == Saved(old(Log()), canvas)
      ensures currentEditIndex == old(currentEditIndex) && currentRotation == old(currentRotation)
    {
      ghost var before := Log();
      editHistory := editHistory[..historyIndex + 1];
      editHistory := editHistory + [canvas];
      historyIndex := historyIndex + 1;
      if |editHistory| > MaxEntries {
        editHistory := editHistory[1..];
        historyIndex := historyIndex - 1;
      }
      assert editHistory == Saved(before, canvas).entries && historyIndex == Saved(before, canvas).index;
      SavedKeepsSnapshots(before, canvas);
      UpdateUndoRedoButtons();
    }

    /** undoEdit: show the previous snapshot, when there is one; otherwise
        the canvas is left as it is. */
    method UndoEdit()
      requires Editing()
      modifies this
      ensures Editing() && Log() == Undone(old(Log()))
      ensures old(historyIndex) > 0 ==> Valid()
      ensures old(historyIndex) <= 0 ==> canvas == old(canvas)
      ensures old(Valid()) ==> Valid()
      ensures currentEditIndex == old(currentEditIndex) && currentRotation == old(currentRotation)
    {
      if historyIndex > 0 {
        historyIndex := historyIndex - 1;
        canvas := editHistory[historyIndex];
        UpdateUndoRedoButtons();
      }
    }

    /** redoEdit: show the next snapshot, when there is one; otherwise the
        canvas is left as it is. */
    method RedoEdit()
      requires Editing()
      modifies this
      ensures Editing() && Log() == Redone(old(Log()))
      ensures old(historyIndex) < |old(editHistory)| - 1 ==> Valid()
      ensures old(historyIndex) >= |old(editHistory)| - 1 ==> canvas == old(canvas)
      ensures old(Valid()) ==> Valid()
      ensures currentEditIndex == old(currentEditIndex) && currentRotation == old(currentRotation)
    {
      if historyIndex < |editHistory| - 1 {
        historyIndex := historyIndex + 1;
        canvas := editHistory[historyIndex];
        UpdateUndoRedoButtons();
      }
    }

    /** drawCropOverlay, called on every pointer move of a crop drag: repaint
        the current snapshot and stroke the dashed rectangle of the drag over
        it. The pixels that gives come in as `drawn`. */
    method DrawCropOverlay(drawn: seq<int>)
      requires Editing() && IsImage(drawn, canvas.width, canvas.height)
      modifies this
      ensures Editing() && Log() == old(Log())
      ensures canvas == Snapshot(drawn, old(canvas.width), old(canvas.height))
      ensures currentEditIndex == old(currentEditIndex) && currentRotation == old(currentRotation)
    {
      canvas := Snapshot(drawn, canvas.width, canvas.height);
    }

    /** applyCrop, on release of a crop drag: a drag that spans a rectangle of
        at least ten by ten replaces the canvas by that region (the pixels
        getImageData returns for it) and saves; a smaller drag saves nothing
        and repaints the current snapshot over the dashed rectangle, so that
        the canvas shows the snapshot again. */
    method ApplyCrop(start: Point, end: Point, region: seq<int>)
      requires Editing()
      requires CropRect(start, end).Some? ==>
                 IsImage(region, PixelSize(CropRect(start, end).value.w), PixelSize(CropRect(start, end).value.h))
      modifies this
      ensures Valid()
      ensures CropRect(start, end).None? ==> canvas == old(editHistory[historyIndex]) && Log() == old(Log())
      ensures CropRect(start, end).Some? ==>
                canvas == Snapshot(region, PixelSize(CropRect(start, end).value.w), PixelSize(CropRect(start, end).value.h)) &&
                Log() == Saved(old(Log()), canvas)
      ensures currentEditIndex == old(currentEditIndex) && currentRotation == old(currentRotation)
    {
      var rect := CropRect(start, end);
      if rect.None? {
        canvas := editHistory[historyIndex];
        return;
      }
      canvas := Snapshot(region, PixelSize(rect.value.w), PixelSize(rect.value.h));
      SaveToHistory();
    }

    /** applyCrop as the script has it: a drag too small to crop returns at
        once, and the dashed rectangle stays on the canvas. */
    method ApplyCropAsWritten(start: Point, end: Point, region: seq<int>)
      requires Editing()
      requires CropRect(start, end).Some? ==>
                 IsImage(region, PixelSize(CropRect(start, end).value.w), PixelSize(CropRect(start, end).value.h))
      modifies this
      ensures Editing()
      ensures CropRect(start, end).None? ==> canvas == old(canvas) && Log() == old(Log())
      ensures CropRect(start, end).Some? ==>
                Valid() &&
                canvas == Snapshot(region, PixelSize(CropRect(start, end).value.w), PixelSize(CropRect(start, end).value.h)) &&
                Log() == Saved(old(Log()), canvas)
      ensures currentEditIndex == old(currentEditIndex) && currentRotation == old(currentRotation)
    {
      var rect := CropRect(start, end);
      if rect.None? {
        return;
      }
      canvas := Snapshot(region, PixelSize(rect.value.w), PixelSize(rect.value.h));
      SaveToHistory();
    }

    /** rotateImage: the canvas takes the rotated size and the rotated
        drawing of its old content, and is saved. */
    method RotateImage(degrees: real, drawn: seq<int>)
      requires Editing()
      requires IsImage(drawn, RotatedSize(canvas.width, canvas.height, degrees).0, RotatedSize(canvas.width, canvas.height, degrees).1)
      modifies this
      ensures Valid()
      ensures (canvas.width, canvas.height) == RotatedSize(old(canvas.width), old(canvas.height), degrees)
      ensures canvas.data == drawn && Log() == Saved(old(Log()), canvas)
      ensures currentEditIndex == old(currentEditIndex) && currentRotation == old(currentRotation)
    {
      var (w, h) := RotatedSize(canvas.width, canvas.height, degrees);
      canvas := Snapshot(drawn, w, h);
      SaveToHistory();
    }

    /** applyFilter: run the named filter over a copy of the canvas pixels,
        put them back and save. */
    method ApplyFilter(f: FilterName)
      requires Editing()
      modifies this
      ensures Valid()
      ensures canvas.width == old(canvas.width) && canvas.height == old(canvas.height)
      ensures canvas.data == Filtered(old(canvas.data), f) && Log() == Saved(old(Log()), canvas)
      ensures currentEditIndex == old(currentEditIndex) && currentRotation == old(currentRotation)
    {
      var src := canvas.data;
      ImageIsPixelBuffer(src, canvas.width, canvas.height);
      var data := new int[|src|](i requires 0 <= i < |src| => src[i]);
      assert data[..] == src;
      match f {
        case Grayscale => Filters.Grayscale(data);
        case Blackwhite => Filters.BlackWhiteFilter(data);
        case Sepia => Filters.SepiaFilter(data);
        case Invert => Filters.Invert(data);
        case Unrecognised =>
      }
      FilteredIsImage(src, canvas.width, canvas.height, f);
      canvas := Snapshot(data[..], canvas.width, canvas.height);
      SaveToHistory();
    }

    /** resetEdit: reload the scan being edited and start a new history with
        it as the only snapshot. */
    method ResetEdit(image: Snapshot)
      requires Editing() && IsSnapshot(image)
      modifies this
      ensures Valid() && canvas == image && Log() == History([image], 0)
      ensures currentEditIndex == old(currentEditIndex) && currentRotation == old(currentRotation)
    {
      canvas := image;
      editHistory := [];
      historyIndex := -1;
      SaveToHistory();
    }
  }

  // ---------------------------------------------------------------------
  // A crop drag too small to crop, followed by a filter
  // ---------------------------------------------------------------------

  /** The edit view as the script has it: open an image, drag a rectangle too
      small to crop (`drawn` is the image with the dashed outline over it),
      release, then pick a filter. The snapshot saved is the filtered outline
      drawing, not the filtered image. */
  method RejectedDragThenFilterAsWritten(image: Snapshot, drawn: seq<int>, start: Point, end: Point, f: FilterName)
    returns (saved: Snapshot)
    requires IsSnapshot(image) && IsImage(drawn, image.width, image.height) && CropRect(start, end).None?
    ensures saved == Snapshot(Filtered(drawn, f), image.width, image.height)
  {
    var session := new EditSession.Open(0, image);
    session.DrawCropOverlay(drawn);
    session.ApplyCropAsWritten(start, end, []);
    session.ApplyFilter(f);
    saved := session.editHistory[session.historyIndex];
  }

  /** The same steps with applyCrop repainting the snapshot on a rejected
      drag: the snapshot saved is the filtered image, whatever the outline
      drew. */
  method RejectedDragThenFilter(image: Snapshot, drawn: seq<int>, start: Point, end: Point, f: FilterName)
    returns (saved: Snapshot)
    requires IsSnapshot(image) && IsImage(drawn, image.width, image.height) && CropRect(start, end).None?
    ensures saved == Snapshot(Filtered(image.data, f), image.width, image.height)
  {
    var session := new EditSession.Open(0, image);
    session.DrawCropOverlay(drawn);
    session.ApplyCrop(start, end, []);
    session.ApplyFilter(f);
    saved := session.editHistory[session.historyIndex];
  }

  /** Whenever the outline changed a pixel, the two differ: with `invert`,
      the snapshot the script saves is not the inverted image. */
  lemma OutlineReachesHistory(image: Snapshot, drawn: seq<int>)
    requires IsSnapshot(image) && IsImage(drawn, image.width, image.height) && drawn != image.data
    ensures Filtered(drawn, Invert) != Filtered(image.data, Invert)
  {
    Filters.InvertedTwice(drawn);
    Filters.InvertedTwice(image.data);
  }
}
