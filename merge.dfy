/**
 * The merge loop of printlabel.py `main` (lines 324-341): every `--merge`
 * image, taken in reverse order, is auto-cropped, resized, and put on a
 * new white canvas in front of the canvas built so far, so the first
 * image ends up leftmost and the text rightmost.
 *
 * The LANCZOS resize to the printable height (times the user's float
 * multiplier) is the library function `resize`. It yields nothing when the
 * target size has a side of zero or less, where the library raises.
 */
module Merge {
  import opened Wrappers
  import opened Geometry
  import opened Raster
  import opened AutoCrop

  /** PIL's conversion of a greyscale pixel when it is pasted into an RGB canvas. */
  function GreyToRgb(g: Byte): (c: Rgb)
    ensures c == White <==> g == 255
    ensures c == Black <==> g == 0
  {
    Rgb(g, g, g)
  }

  /** Pixel (x, y) of a white canvas after `loaded` was pasted at (dx, dy), clipped to the canvas. */
  function Pasted(loaded: Raster<Byte>, dx: int, dy: int, x: int, y: int): (c: Rgb)
    ensures !(dx <= x < dx + loaded.width && dy <= y < dy + loaded.height) ==> c == White
    ensures dx <= x < dx + loaded.width && dy <= y < dy + loaded.height ==>
      (c == White <==> loaded.At(x - dx, y - dy) == 255)
  {
    if dx <= x < dx + loaded.width && dy <= y < dy + loaded.height
    then GreyToRgb(loaded.At(x - dx, y - dy))
    else White
  }

  /**
   * One pass of the merge loop: a white canvas as wide as both images and a
   * canvas high, `loaded` pasted at (dx, dy), then `image` pasted at
   * (loaded.width, 0) over whatever of `loaded` reached that far.
   */
  function Prepend(loaded: Raster<Byte>, image: Raster<Rgb>, dx: int, dy: int): (dst: Raster<Rgb>)
    requires image.height == CanvasHeight
    ensures dst.width == loaded.width + image.width && dst.height == CanvasHeight
  {
    Raster(loaded.width + image.width, CanvasHeight, (x, y) =>
      if loaded.width <= x then image.pixel(x - loaded.width, y) else Pasted(loaded, dx, dy, x, y))
  }

  /** Total width of `loaded[i..]`. */
  function WidthFrom(loaded: seq<Raster<Byte>>, i: nat): nat
    requires i <= |loaded|
    decreases |loaded| - i
  {
    if i == |loaded| then 0 else loaded[i].width + WidthFrom(loaded, i + 1)
  }

  /** The canvas after prepending `loaded[n-1]`, ..., `loaded[i]` in turn to `text`. */
  function ComposeFrom(loaded: seq<Raster<Byte>>, i: nat, text: Raster<Rgb>, dx: int, dy: int): (c: Raster<Rgb>)
    requires i <= |loaded| && text.height == CanvasHeight
    ensures c.height == CanvasHeight && c.width == WidthFrom(loaded, i) + text.width
    decreases |loaded| - i
  {
    if i == |loaded| then text
    else Prepend(loaded[i], ComposeFrom(loaded, i + 1, text, dx, dy), dx, dy)
  }

  /** The text canvas appears unchanged to the right of the merged images `loaded[i..]`. */
  lemma {:induction false} ComposeKeepsText(loaded: seq<Raster<Byte>>, i: nat, text: Raster<Rgb>, dx: int, dy: int,
                                            x: int, y: int)
    requires i <= |loaded| && text.height == CanvasHeight
    requires 0 <= x < text.width && 0 <= y < CanvasHeight
    ensures ComposeFrom(loaded, i, text, dx, dy).At(WidthFrom(loaded, i) + x, y) == text.At(x, y)
    decreases |loaded| - i
  {
    if i < |loaded| {
      ComposeKeepsText(loaded, i + 1, text, dx, dy, x, y);
      PrependedCanvasAt(loaded, i, text, dx, dy, loaded[i].width + WidthFrom(loaded, i + 1) + x, y);
    }
  }

  /** Pixels of the image prepended last, at the left end of the canvas. */
  lemma PrependedImageAt(loaded: seq<Raster<Byte>>, i: nat, text: Raster<Rgb>, dx: int, dy: int, x: int, y: int)
    requires i < |loaded| && text.height == CanvasHeight
    requires 0 <= x < loaded[i].width && 0 <= y < CanvasHeight
    ensures ComposeFrom(loaded, i, text, dx, dy).At(x, y) == Pasted(loaded[i], dx, dy, x, y)
  {
  }

  /** Pixels right of the image prepended last are those of the canvas it was prepended to. */
  lemma PrependedCanvasAt(loaded: seq<Raster<Byte>>, i: nat, text: Raster<Rgb>, dx: int, dy: int, x: int, y: int)
    requires i < |loaded| && text.height == CanvasHeight
    requires loaded[i].width <= x < WidthFrom(loaded, i) + text.width && 0 <= y < CanvasHeight
    ensures ComposeFrom(loaded, i, text, dx, dy).At(x, y) ==
      ComposeFrom(loaded, i + 1, text, dx, dy).At(x - loaded[i].width, y)
  {
  }

  /** The widths of `loaded[k..]` are part of the widths of `loaded[i..]`. */
  lemma {:induction false} WidthFromShrinks(loaded: seq<Raster<Byte>>, i: nat, k: nat)
    requires i <= k <= |loaded|
    ensures WidthFrom(loaded, k) <= WidthFrom(loaded, i)
    decreases k - i
  {
    if i < k {
      WidthFromShrinks(loaded, i + 1, k);
    }
  }

  /**
   * Merged image k occupies the columns after the widths of the images
   * before it: there the canvas shows image k as pasted at (dx, dy) on
   * white, so the left-to-right order is merge[0], merge[1], ..., text.
   */
  lemma {:induction false} ComposePlacesImage(loaded: seq<Raster<Byte>>, i: nat, text: Raster<Rgb>, dx: int, dy: int,
                                              k: nat, x: int, y: int)
    requires i <= k < |loaded| && text.height == CanvasHeight
    requires 0 <= x < loaded[k].width && 0 <= y < CanvasHeight
    ensures WidthFrom(loaded, k) <= WidthFrom(loaded, i)
    ensures ComposeFrom(loaded, i, text, dx, dy).At(WidthFrom(loaded, i) - WidthFrom(loaded, k) + x, y) ==
      Pasted(loaded[k], dx, dy, x, y)
    decreases k - i
  {
    WidthFromShrinks(loaded, i, k);
    if i == k {
      PrependedImageAt(loaded, i, text, dx, dy, x, y);
    } else {
      ComposePlacesImage(loaded, i + 1, text, dx, dy, k, x, y);
      var column := WidthFrom(loaded, i + 1) - WidthFrom(loaded, k) + x;
      WidthFromShrinks(loaded, i + 1, k + 1);
      assert column < WidthFrom(loaded, i + 1) by {
        assert WidthFrom(loaded, k) == loaded[k].width + WidthFrom(loaded, k + 1);
      }
      PrependedCanvasAt(loaded, i, text, dx, dy, loaded[i].width + column, y);
    }
  }

  /** What `process_image` gives for one merge item. */
  datatype Processed =
    | Rejected                      // no ink, or ink within a single row or column
    | Unresizable                   // cropped, but the library cannot resize the crop
    | Resized(image: Raster<Byte>)  // the resized crop

  /** The crop of `item` is accepted, but the library cannot resize it. */
  predicate ResizeFails(item: Raster<Byte>, whiteLevel: int, resize: Raster<Byte> -> Option<Raster<Byte>>)
  {
    var c := CropToContent(item, whiteLevel);
    c.Some? && resize(c.value).None?
  }

  /**
   * What `process_image` gives for each merge item: the resize of its crop,
   * or the reason it gives none.
   */
  function Outcomes(items: seq<Raster<Byte>>, whiteLevel: int, resize: Raster<Byte> -> Option<Raster<Byte>>): (outs: seq<Processed>)
    ensures |outs| == |items|
  {
    seq(|items|, i requires 0 <= i < |items| =>
      match CropToContent(items[i], whiteLevel)
      case None => Rejected
      case Some(c) =>
        match resize(c)
        case None => Unresizable
        case Some(z) => Resized(z))
  }

  /** The processed images; an empty image stands in for an item that failed. */
  function Loaded(outs: seq<Processed>): (loaded: seq<Raster<Byte>>)
    ensures |loaded| == |outs|
    ensures forall i :: 0 <= i < |outs| && outs[i].Resized? ==> loaded[i] == outs[i].image
  {
    seq(|outs|, i requires 0 <= i < |outs| => if outs[i].Resized? then outs[i].image else Raster(0, 0, (x, y) => 0))
  }

  /** The last item before `n` that gave no image, or -1 when there is none. */
  function LastFailed(outs: seq<Processed>, n: nat): (k: int)
    requires n <= |outs|
    ensures -1 <= k < n
    ensures k >= 0 ==> !outs[k].Resized?
    ensures forall i :: k < i < n ==> outs[i].Resized?
  {
    if n == 0 then -1
    else if !outs[n - 1].Resized? then n - 1
    else LastFailed(outs, n - 1)
  }

  /**
   * Reference outcome of the merge loop: the reverse traversal stops at the
   * last item that gives no image; otherwise all processed images are composed.
   */
  function MergeOutcome(outs: seq<Processed>, text: Raster<Rgb>, dx: int, dy: int): (r: Result<Raster<Rgb>, Error>)
    requires text.height == CanvasHeight
    ensures r.Err? ==>
      (r.error.InvalidImage? || r.error.ResizeFailed?) && r.error.index < |outs| &&
      (r.error.InvalidImage? <==> outs[r.error.index].Rejected?) &&
      (r.error.ResizeFailed? <==> outs[r.error.index].Unresizable?)
    ensures r.Ok? ==> r.value.height == CanvasHeight && r.value.width == WidthFrom(Loaded(outs), 0) + text.width
  {
    var k := LastFailed(outs, |outs|);
    if k < 0 then Ok(ComposeFrom(Loaded(outs), 0, text, dx, dy))
    else if outs[k].Rejected? then Err(InvalidImage(k))
    else Err(ResizeFailed(k))
  }

  /** The merge loop as written: reverse order, process, prepend. */
  method MergeImages(items: seq<Raster<Byte>>, text: Raster<Rgb>, whiteLevel: int,
                     resize: Raster<Byte> -> Option<Raster<Byte>>, dx: int, dy: int)
    returns (r: Result<Raster<Rgb>, Error>)
    requires text.height == CanvasHeight
    ensures r == MergeOutcome(Outcomes(items, whiteLevel, resize), text, dx, dy)
  {
    ghost var outs := Outcomes(items, whiteLevel, resize);
    ghost var loaded := Loaded(outs);
    var image := text;
    for i := |items| downto 0
      invariant LastFailed(outs, |outs|) < i
      invariant image == ComposeFrom(loaded, i, text, dx, dy)
    {
      var cropped := ProcessImage(items[i], whiteLevel);
      if cropped.None? {
        assert outs[i].Rejected?;
        return Err(InvalidImage(i));
      }
      var resized := resize(cropped.value);
      if resized.None? {
        assert outs[i].Unresizable?;
        return Err(ResizeFailed(i));
      }
      assert outs[i] == Resized(resized.value);
      image := Prepend(resized.value, image, dx, dy);
    }
    r := Ok(image);
  }

  /**
   * A failed merge names the last item that gave no image, and why, all
   * items after it being processed. A successful one processed every item
   * and is a canvas 88 high and as wide as the processed images plus the
   * text, with the text unchanged at its right end.
   */
  lemma MergeShape(outs: seq<Processed>, text: Raster<Rgb>, dx: int, dy: int)
    requires text.height == CanvasHeight
    ensures match MergeOutcome(outs, text, dx, dy)
      case Err(e) =>
        e.index < |outs| &&
        ((e.InvalidImage? && outs[e.index].Rejected?) || (e.ResizeFailed? && outs[e.index].Unresizable?)) &&
        forall i :: e.index < i < |outs| ==> outs[i].Resized?
      case Ok(c) =>
        var w := WidthFrom(Loaded(outs), 0);
        (forall i :: 0 <= i < |outs| ==> outs[i].Resized?) &&
        c.height == CanvasHeight && c.width == w + text.width &&
        forall x, y :: 0 <= x < text.width && 0 <= y < CanvasHeight ==> c.At(w + x, y) == text.At(x, y)
  {
    var loaded := Loaded(outs);
    if LastFailed(outs, |outs|) < 0 {
      forall x, y | 0 <= x < text.width && 0 <= y < CanvasHeight
        ensures ComposeFrom(loaded, 0, text, dx, dy).At(WidthFrom(loaded, 0) + x, y) == text.At(x, y)
      {
        ComposeKeepsText(loaded, 0, text, dx, dy, x, y);
      }
    }
  }

  /**
   * In a successful merge, pixel (x, y) of item k's processed image, pasted
   * at (dx, dy) on white, is found after the processed widths of the items
   * before k: the items appear left to right in their given order.
   */
  lemma MergeOrder(outs: seq<Processed>, text: Raster<Rgb>, dx: int, dy: int, k: nat, x: int, y: int)
    requires text.height == CanvasHeight && MergeOutcome(outs, text, dx, dy).Ok?
    requires k < |outs| && outs[k].Resized? && 0 <= x < outs[k].image.width && 0 <= y < CanvasHeight
    ensures var loaded := Loaded(outs);
      var c := MergeOutcome(outs, text, dx, dy).value;
      var before := WidthFrom(loaded, 0) - WidthFrom(loaded, k);
      0 <= before + x < c.width && c.At(before + x, y) == Pasted(outs[k].image, dx, dy, x, y)
  {
    var loaded := Loaded(outs);
    ComposePlacesImage(loaded, 0, text, dx, dy, k, x, y);
    assert WidthFrom(loaded, k) == loaded[k].width + WidthFrom(loaded, k + 1);
  }

  /**
   * A merge fails exactly when `process_image` gives no image for some
   * item: its ink, if any, lies within a single row or a single column, or
   * the library cannot resize its crop.
   */
  lemma MergeFailsIff(items: seq<Raster<Byte>>, text: Raster<Rgb>, whiteLevel: int,
                      resize: Raster<Byte> -> Option<Raster<Byte>>, dx: int, dy: int)
    requires text.height == CanvasHeight
    ensures MergeOutcome(Outcomes(items, whiteLevel, resize), text, dx, dy).Err? <==>
      exists i :: 0 <= i < |items| &&
        (!(InkSpansColumns(items[i], whiteLevel) && InkSpansRows(items[i], whiteLevel)) || ResizeFails(items[i], whiteLevel, resize))
  {
    var outs := Outcomes(items, whiteLevel, resize);
    MergeShape(outs, text, dx, dy);
    forall i | 0 <= i < |items|
      ensures outs[i].Resized? <==>
        InkSpansColumns(items[i], whiteLevel) && InkSpansRows(items[i], whiteLevel) && !ResizeFails(items[i], whiteLevel, resize)
    {
      CropAcceptedIff(items[i], whiteLevel);
    }
  }

  /**
   * The error of a failed merge, read back on the items: `InvalidImage`
   * names an item whose ink is missing or within one row or one column,
   * `ResizeFailed` an accepted item whose crop the library cannot resize.
   */
  lemma MergeErrorNamesItem(items: seq<Raster<Byte>>, text: Raster<Rgb>, whiteLevel: int,
                            resize: Raster<Byte> -> Option<Raster<Byte>>, dx: int, dy: int)
    requires text.height == CanvasHeight
    ensures var m := MergeOutcome(Outcomes(items, whiteLevel, resize), text, dx, dy);
      m.Err? ==>
        m.error.index < |items| &&
        (m.error.InvalidImage? ==> !(InkSpansColumns(items[m.error.index], whiteLevel) && InkSpansRows(items[m.error.index], whiteLevel))) &&
        (m.error.ResizeFailed? ==> ResizeFails(items[m.error.index], whiteLevel, resize)) &&
        forall i :: m.error.index < i < |items| ==> !ResizeFails(items[i], whiteLevel, resize) && InkSpansColumns(items[i], whiteLevel) && InkSpansRows(items[i], whiteLevel)
  {
    var outs := Outcomes(items, whiteLevel, resize);
    var m := MergeOutcome(outs, text, dx, dy);
    MergeShape(outs, text, dx, dy);
    if m.Err? {
      CropAcceptedIff(items[m.error.index], whiteLevel);
      forall i | m.error.index < i < |items|
        ensures !ResizeFails(items[i], whiteLevel, resize) && InkSpansColumns(items[i], whiteLevel) && InkSpansRows(items[i], whiteLevel)
      {
        assert outs[i].Resized?;
        CropAcceptedIff(items[i], whiteLevel);
      }
    }
  }
}
