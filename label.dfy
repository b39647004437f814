/**
 * The label job of printlabel.py `main` without its I/O: the text canvas
 * (lines 248-321), the merge of the images (lines 324-341), the raster
 * encoding (lines 414-432) and the tape-length ceiling (lines 435-457).
 * The result is the bitmap whose rows would be sent to the printer, or
 * the reason the job stops first.
 */
module Label {
  import opened Wrappers
  import opened Geometry
  import opened Raster
  import opened FontFit
  import opened TextCanvas
  import opened AutoCrop
  import opened Merge
  import opened Encoding
  import opened TapeLength

  /**
   * The text canvas: search the font size, size a white canvas to the ink
   * and let the font library `draw` the text on it. With a requested text
   * length, the library's affine `stretch` follows and its black right edge
   * is trimmed; a stretch that fails (a zero target width, a negative one)
   * stops the job. Empty text gives a canvas with no columns.
   */
  method TextImage(text: string, probe: int -> Option<Ink>, ghost reach: int,
                   draw: (Raster<Rgb>, Fit) -> Raster<Rgb>,
                   stretch: Option<Raster<Rgb> -> Option<Raster<Rgb>>>)
    returns (r: Result<Raster<Rgb>, Error>)
    requires text != [] ==> 1 <= reach && Halts(probe, reach)
    requires forall c, f :: draw(c, f).width == c.width && draw(c, f).height == c.height
    requires stretch.Some? ==> forall c :: stretch.value(c).Some? ==> stretch.value(c).value.height == CanvasHeight
    ensures r.Ok? ==> r.value.height == CanvasHeight
    ensures text == [] ==> r.Ok? && r.value.width == 0
    ensures text != [] ==>
      match Chosen(probe, FirstHalt(probe, 1, reach))
      case Err(e) => r == Err(e)
      case Ok(fit) =>
        var drawn := draw(BlankTextCanvas(text, fit.ink.width), fit);
        (stretch.None? ==> r == Ok(drawn) && drawn.width == fit.ink.width + 2 * HPadding + 1) &&
        (stretch.Some? && stretch.value(drawn).None? ==> r == Err(StretchFailed)) &&
        (stretch.Some? && stretch.value(drawn).Some? ==>
          var stretched := stretch.value(drawn).value;
          (r.Err? <==> BlackTopRow(stretched)) &&
          (r.Err? ==> r.error == TrimmedAway) &&
          (r.Ok? ==> TrimmedTail(stretched, r.value)))
  {
    if text == [] {
      return Ok(BlankTextCanvas(text, 0));
    }
    var fit := FitFontSize(probe, reach);
    if fit.Err? {
      return Err(fit.error);
    }
    var image := draw(BlankTextCanvas(text, fit.value.ink.width), fit.value);
    if stretch.Some? {
      var stretched := stretch.value(image);
      if stretched.None? {
        return Err(StretchFailed);
      }
      r := TrimBlackTail(stretched.value);
    } else {
      r := Ok(image);
    }
  }

  /** Reference outcome of merge, encoding, padding and the length check, given the text canvas. */
  function LabelOutcome(canvas: Raster<Rgb>, items: seq<Raster<Byte>>, whiteLevel: int,
                        resize: Raster<Byte> -> Option<Raster<Byte>>, dx: int, dy: int,
                        luma: Rgb -> Byte, threshold: int): (r: Result<Raster<bool>, Error>)
    requires canvas.height == CanvasHeight
    ensures var m := MergeOutcome(Outcomes(items, whiteLevel, resize), canvas, dx, dy);
      (r.Ok? ==> m.Ok? && r.value.width == HeadWidth && r.value.height == m.value.width <= MaxRows) &&
      (r.Err? ==>
        (m.Err? && r.error == m.error && r.error.index < |items|) ||
        (m.Ok? && r.error == TapeTooLong(m.value.width) && m.value.width > MaxRows))
  {
    match MergeOutcome(Outcomes(items, whiteLevel, resize), canvas, dx, dy)
    case Err(e) => Err(e)
    case Ok(merged) =>
      var padded := Padded(Encode(merged, luma, threshold));
      if TooLong(padded.height) then Err(TapeTooLong(padded.height)) else Ok(padded)
  }

  /**
   * From the text canvas to the print bitmap: merge, encode, pad, then
   * give up when the tape would be too long. Row y of the bitmap is the
   * dot line burnt for column y of the composed canvas.
   */
  method PrintBitmap(canvas: Raster<Rgb>, items: seq<Raster<Byte>>, whiteLevel: int,
                     resize: Raster<Byte> -> Option<Raster<Byte>>, dx: int, dy: int,
                     luma: Rgb -> Byte, threshold: int)
    returns (r: Result<array2<bool>, Error>)
    requires canvas.height == CanvasHeight
    ensures var o := LabelOutcome(canvas, items, whiteLevel, resize, dx, dy, luma, threshold);
      (o.Err? ==> r == Err(o.error)) &&
      (o.Ok? ==>
        r.Ok? && fresh(r.value) &&
        r.value.Length0 == o.value.height && r.value.Length1 == o.value.width &&
        (forall y, x :: 0 <= y < r.value.Length0 && 0 <= x < r.value.Length1 ==> r.value[y, x] == o.value.At(x, y)))
  {
    var merged := MergeImages(items, canvas, whiteLevel, resize, dx, dy);
    if merged.Err? {
      return Err(merged.error);
    }
    var bin := Encode(merged.value, luma, threshold);
    var padded := PadToHead(bin);
    if TooLong(padded.Length0) {
      return Err(TapeTooLong(padded.Length0));
    }
    r := Ok(padded);
  }

  /**
   * What a finished job prints: 128 dots per row, one row per column of the
   * merged canvas, at most 3174 rows. The 88 canvas rows land on dots
   * 20 to 107, dot x of row y being set exactly when canvas pixel
   * (y, x - 20) is darker than 255 - threshold; the 20 dots on each side
   * stay clear. A job stops on a rejected merge image, on one the library
   * cannot resize, or on a merged canvas of more than 3174 columns; every
   * other job prints.
   */
  lemma LabelDots(canvas: Raster<Rgb>, items: seq<Raster<Byte>>, whiteLevel: int,
                  resize: Raster<Byte> -> Option<Raster<Byte>>, dx: int, dy: int,
                  luma: Rgb -> Byte, threshold: int)
    requires canvas.height == CanvasHeight
    ensures var m := MergeOutcome(Outcomes(items, whiteLevel, resize), canvas, dx, dy);
      match LabelOutcome(canvas, items, whiteLevel, resize, dx, dy, luma, threshold)
      case Err(e) =>
        (m.Err? && e == m.error && e.index < |items| &&
          (e.InvalidImage? ==> !(InkSpansColumns(items[e.index], whiteLevel) && InkSpansRows(items[e.index], whiteLevel))) &&
          (e.ResizeFailed? ==> ResizeFails(items[e.index], whiteLevel, resize))) ||
        (e.TapeTooLong? && m.Ok? && e.dots == m.value.width && e.dots > MaxRows)
      case Ok(p) =>
        m.Ok? && p.width == HeadWidth && p.height == m.value.width && p.height <= MaxRows &&
        forall x, y :: 0 <= x < p.width && 0 <= y < p.height ==>
          (p.At(x, y) <==> 20 <= x < 20 + CanvasHeight && luma(m.value.At(y, x - 20)) < 255 - threshold)
  {
    MergeErrorNamesItem(items, canvas, whiteLevel, resize, dx, dy);
    var m := MergeOutcome(Outcomes(items, whiteLevel, resize), canvas, dx, dy);
    if m.Ok? {
      var e := Encode(m.value, luma, threshold);
      EncodeIsTranspose(m.value, luma, threshold);
      assert PadOffset(e.width) == 20;
    }
  }

  /**
   * The whole job: the text canvas, then merge, encoding, padding and the
   * length check on it. A failure of the text stage stops the job before
   * any merge image is looked at.
   */
  method BuildLabel(text: string, probe: int -> Option<Ink>, ghost reach: int,
                    draw: (Raster<Rgb>, Fit) -> Raster<Rgb>,
                    stretch: Option<Raster<Rgb> -> Option<Raster<Rgb>>>,
                    items: seq<Raster<Byte>>, whiteLevel: int,
                    resize: Raster<Byte> -> Option<Raster<Byte>>, dx: int, dy: int,
                    luma: Rgb -> Byte, threshold: int)
    returns (canvas: Result<Raster<Rgb>, Error>, r: Result<array2<bool>, Error>)
    requires text != [] ==> 1 <= reach && Halts(probe, reach)
    requires forall c, f :: draw(c, f).width == c.width && draw(c, f).height == c.height
    requires stretch.Some? ==> forall c :: stretch.value(c).Some? ==> stretch.value(c).value.height == CanvasHeight
    ensures text == [] ==> canvas.Ok? && canvas.value.width == 0
    ensures canvas.Err? ==> r == Err(canvas.error)
    ensures canvas.Ok? ==> canvas.value.height == CanvasHeight
    ensures canvas.Ok? ==>
      var o := LabelOutcome(canvas.value, items, whiteLevel, resize, dx, dy, luma, threshold);
      (o.Err? ==> r == Err(o.error)) &&
      (o.Ok? ==>
        r.Ok? && fresh(r.value) &&
        r.value.Length0 == o.value.height && r.value.Length1 == o.value.width &&
        (forall y, x :: 0 <= y < r.value.Length0 && 0 <= x < r.value.Length1 ==> r.value[y, x] == o.value.At(x, y)))
  {
    canvas := TextImage(text, probe, reach, draw, stretch);
    if canvas.Err? {
      return canvas, Err(canvas.error);
    }
    r := PrintBitmap(canvas.value, items, whiteLevel, resize, dx, dy, luma, threshold);
  }
}
