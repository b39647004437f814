/**
 * The auto-crop of printlabel.py `process_image` (lines 195-212 and
 * 226-228): scan a greyscale image for the bounding box of the pixels
 * darker than the white level, and crop to it, or reject the image when
 * the box is not at least two pixels in each direction.
 *
 * Opening the file, flattening transparency onto white and the RGB to
 * greyscale conversion happen before (the input is the greyscale image);
 * the aspect-preserving resize happens after (see Merge).
 */
module AutoCrop {
  import opened Wrappers
  import opened Raster

  /** A pixel that counts as content: strictly darker than the white level. */
  predicate IsInk(img: Raster<Byte>, whiteLevel: int, x: int, y: int)
  {
    0 <= x < img.width && 0 <= y < img.height && img.At(x, y) < whiteLevel
  }

  predicate HasInk(img: Raster<Byte>, whiteLevel: int)
  {
    exists x, y :: 0 <= x < img.width && 0 <= y < img.height && IsInk(img, whiteLevel, x, y)
  }

  predicate ColumnHasInk(img: Raster<Byte>, whiteLevel: int, x: int)
  {
    exists y :: 0 <= y < img.height && IsInk(img, whiteLevel, x, y)
  }

  predicate RowHasInk(img: Raster<Byte>, whiteLevel: int, y: int)
  {
    exists x :: 0 <= x < img.width && IsInk(img, whiteLevel, x, y)
  }

  /** The first column at or after `from` holding ink, or the width when there is none. */
  function FirstInkColumn(img: Raster<Byte>, whiteLevel: int, from: nat): (k: nat)
    requires from <= img.width
    ensures from <= k <= img.width
    ensures k < img.width ==> ColumnHasInk(img, whiteLevel, k)
    ensures forall c :: from <= c < k ==> !ColumnHasInk(img, whiteLevel, c)
    decreases img.width - from
  {
    if from == img.width || ColumnHasInk(img, whiteLevel, from) then from
    else FirstInkColumn(img, whiteLevel, from + 1)
  }

  /** The last column before `upto` holding ink, or -1 when there is none. */
  function LastInkColumn(img: Raster<Byte>, whiteLevel: int, upto: nat): (k: int)
    requires upto <= img.width
    ensures -1 <= k < upto
    ensures k >= 0 ==> ColumnHasInk(img, whiteLevel, k)
    ensures forall c :: k < c < upto ==> !ColumnHasInk(img, whiteLevel, c)
  {
    if upto == 0 then -1
    else if ColumnHasInk(img, whiteLevel, upto - 1) then upto - 1
    else LastInkColumn(img, whiteLevel, upto - 1)
  }

  /** The first row at or after `from` holding ink, or the height when there is none. */
  function FirstInkRow(img: Raster<Byte>, whiteLevel: int, from: nat): (k: nat)
    requires from <= img.height
    ensures from <= k <= img.height
    ensures k < img.height ==> RowHasInk(img, whiteLevel, k)
    ensures forall r :: from <= r < k ==> !RowHasInk(img, whiteLevel, r)
    decreases img.height - from
  {
    if from == img.height || RowHasInk(img, whiteLevel, from) then from
    else FirstInkRow(img, whiteLevel, from + 1)
  }

  /** The last row before `upto` holding ink, or -1 when there is none. */
  function LastInkRow(img: Raster<Byte>, whiteLevel: int, upto: nat): (k: int)
    requires upto <= img.height
    ensures -1 <= k < upto
    ensures k >= 0 ==> RowHasInk(img, whiteLevel, k)
    ensures forall r :: k < r < upto ==> !RowHasInk(img, whiteLevel, r)
  {
    if upto == 0 then -1
    else if RowHasInk(img, whiteLevel, upto - 1) then upto - 1
    else LastInkRow(img, whiteLevel, upto - 1)
  }

  /** The values of `left, top, right, bottom` (all inclusive) after the scan. */
  datatype Box = Box(left: int, top: int, right: int, bottom: int)

  /**
   * Reference definition of the scan's outcome: the first and last ink
   * column and row, or the initial values (width, height, 0, 0) when the
   * image has no ink.
   */
  function ScanBox(img: Raster<Byte>, whiteLevel: int): Box
  {
    if HasInk(img, whiteLevel) then
      Box(FirstInkColumn(img, whiteLevel, 0), FirstInkRow(img, whiteLevel, 0),
          LastInkColumn(img, whiteLevel, img.width), LastInkRow(img, whiteLevel, img.height))
    else Box(img.width, img.height, 0, 0)
  }

  /** The box every ink pixel lies in, each of whose four edges some ink pixel touches. */
  ghost predicate TightAround(img: Raster<Byte>, whiteLevel: int, b: Box)
  {
    (forall x, y :: IsInk(img, whiteLevel, x, y) ==> b.left <= x <= b.right && b.top <= y <= b.bottom) &&
    ColumnHasInk(img, whiteLevel, b.left) && ColumnHasInk(img, whiteLevel, b.right) &&
    RowHasInk(img, whiteLevel, b.top) && RowHasInk(img, whiteLevel, b.bottom)
  }

  /** With ink, the scan's box is tight around it; without, it keeps its initial values. */
  lemma ScanBoxTight(img: Raster<Byte>, whiteLevel: int)
    ensures HasInk(img, whiteLevel) ==> TightAround(img, whiteLevel, ScanBox(img, whiteLevel))
    ensures !HasInk(img, whiteLevel) ==> ScanBox(img, whiteLevel) == Box(img.width, img.height, 0, 0)
  {
    if HasInk(img, whiteLevel) {
      var b := ScanBox(img, whiteLevel);
      var x0, y0 :| 0 <= x0 < img.width && 0 <= y0 < img.height && IsInk(img, whiteLevel, x0, y0);
      assert ColumnHasInk(img, whiteLevel, x0) && RowHasInk(img, whiteLevel, y0);
      forall x, y | IsInk(img, whiteLevel, x, y)
        ensures b.left <= x <= b.right && b.top <= y <= b.bottom
      {
        assert ColumnHasInk(img, whiteLevel, x) && RowHasInk(img, whiteLevel, y);
      }
    }
  }

  /** Pixels scanned before reaching column x of row y, in the source's row-major order. */
  ghost predicate ScannedInk(img: Raster<Byte>, whiteLevel: int, y: int, x: int, px: int, py: int)
  {
    IsInk(img, whiteLevel, px, py) && (py < y || (py == y && px < x))
  }

  /** What the scan variables say about the pixels scanned so far. */
  ghost predicate ScanProgress(img: Raster<Byte>, whiteLevel: int, y: int, x: int, found: bool,
                               left: int, top: int, right: int, bottom: int,
                               leftRow: int, rightRow: int, topColumn: int, bottomColumn: int)
  {
    (forall px, py :: ScannedInk(img, whiteLevel, y, x, px, py) ==>
      left <= px <= right && top <= py <= bottom) &&
    (!found ==> left == img.width && top == img.height && right == 0 && bottom == 0) &&
    (!found ==> forall px, py :: !ScannedInk(img, whiteLevel, y, x, px, py)) &&
    (found ==>
      ScannedInk(img, whiteLevel, y, x, left, leftRow) && ScannedInk(img, whiteLevel, y, x, right, rightRow) &&
      ScannedInk(img, whiteLevel, y, x, topColumn, top) && ScannedInk(img, whiteLevel, y, x, bottomColumn, bottom))
  }

  /** The nested scan loops of `process_image`. */
  method FindBox(img: Raster<Byte>, whiteLevel: int) returns (left: int, top: int, right: int, bottom: int)
    ensures Box(left, top, right, bottom) == ScanBox(img, whiteLevel)
    ensures forall x, y :: IsInk(img, whiteLevel, x, y) ==> left <= x <= right && top <= y <= bottom
  {
    left, top, right, bottom := img.width, img.height, 0, 0;
    ghost var found := false;
    ghost var leftRow, rightRow, topColumn, bottomColumn := 0, 0, 0, 0;
    for y := 0 to img.height
      invariant ScanProgress(img, whiteLevel, y, 0, found, left, top, right, bottom,
                             leftRow, rightRow, topColumn, bottomColumn)
    {
      for x := 0 to img.width
        invariant ScanProgress(img, whiteLevel, y, x, found, left, top, right, bottom,
                               leftRow, rightRow, topColumn, bottomColumn)
      {
        var pixel := img.At(x, y);
        if pixel < whiteLevel {
          if x < left { leftRow := y; }
          if x >= right { rightRow := y; }
          if y < top { topColumn := x; }
          if y >= bottom { bottomColumn := x; }
          left := Min(left, x);
          right := Max(right, x);
          top := Min(top, y);
          bottom := Max(bottom, y);
          found := true;
        }
        ghost var next := x + 1;
        forall px, py | ScannedInk(img, whiteLevel, y, next, px, py)
          ensures left <= px <= right && top <= py <= bottom
        {
          if px != x || py != y {
            assert ScannedInk(img, whiteLevel, y, x, px, py);
          }
        }
      }
      ghost var next := y + 1;
      forall px, py | ScannedInk(img, whiteLevel, next, 0, px, py)
        ensures left <= px <= right && top <= py <= bottom
      {
        assert ScannedInk(img, whiteLevel, y, img.width, px, py);
      }
    }
    forall px, py | IsInk(img, whiteLevel, px, py)
      ensures left <= px <= right && top <= py <= bottom
    {
      assert ScannedInk(img, whiteLevel, img.height, 0, px, py);
    }
    if found {
      assert ColumnHasInk(img, whiteLevel, left) && ColumnHasInk(img, whiteLevel, right);
      assert RowHasInk(img, whiteLevel, top) && RowHasInk(img, whiteLevel, bottom);
      assert HasInk(img, whiteLevel) by {
        assert IsInk(img, whiteLevel, left, leftRow);
      }
      SameEdges(img, whiteLevel, Box(left, top, right, bottom));
    } else {
      forall px, py | 0 <= px < img.width && 0 <= py < img.height
        ensures !IsInk(img, whiteLevel, px, py)
      {
        assert !ScannedInk(img, whiteLevel, img.height, 0, px, py);
      }
    }
  }

  /** A tight box is the reference box: its edges are the first and last ink column and row. */
  lemma SameEdges(img: Raster<Byte>, whiteLevel: int, b: Box)
    requires TightAround(img, whiteLevel, b)
    ensures HasInk(img, whiteLevel) && b == ScanBox(img, whiteLevel)
  {
  }

  /**
   * What `process_image` keeps of an image before resizing it: the crop
   * `(left, top, right + 1, bottom + 1)` when `right > left and bottom > top`,
   * otherwise nothing ("No content detected to crop.").
   */
  function CropToContent(img: Raster<Byte>, whiteLevel: int): (r: Option<Raster<Byte>>)
    ensures r.Some? ==> r.value.width >= 2 && r.value.height >= 2
    ensures r.Some? ==> HasInk(img, whiteLevel)
  {
    var b := ScanBox(img, whiteLevel);
    if b.right > b.left && b.bottom > b.top then
      Some(Crop(img, b.left, b.top, b.right + 1, b.bottom + 1))
    else None
  }

  /** The scan and the crop decision of `process_image`. */
  method ProcessImage(img: Raster<Byte>, whiteLevel: int) returns (r: Option<Raster<Byte>>)
    ensures r == CropToContent(img, whiteLevel)
  {
    var left, top, right, bottom := FindBox(img, whiteLevel);
    if right > left && bottom > top {
      r := Some(Crop(img, left, top, right + 1, bottom + 1));
    } else {
      r := None;
    }
  }

  /** Two ink pixels in different columns. */
  ghost predicate InkSpansColumns(img: Raster<Byte>, whiteLevel: int)
  {
    exists x1, x2, y1, y2 :: IsInk(img, whiteLevel, x1, y1) && IsInk(img, whiteLevel, x2, y2) && x1 != x2
  }

  /** Two ink pixels in different rows. */
  ghost predicate InkSpansRows(img: Raster<Byte>, whiteLevel: int)
  {
    exists x1, x2, y1, y2 :: IsInk(img, whiteLevel, x1, y1) && IsInk(img, whiteLevel, x2, y2) && y1 != y2
  }

  /**
   * An image is rejected exactly when it has no ink, or all its ink lies in
   * a single row or a single column: the strict test keeps only boxes at
   * least two pixels wide and two pixels high.
   */
  lemma CropAcceptedIff(img: Raster<Byte>, whiteLevel: int)
    ensures CropToContent(img, whiteLevel).Some? <==>
      InkSpansColumns(img, whiteLevel) && InkSpansRows(img, whiteLevel)
  {
    ScanBoxTight(img, whiteLevel);
    var b := ScanBox(img, whiteLevel);
    if InkSpansColumns(img, whiteLevel) && InkSpansRows(img, whiteLevel) {
      var x1, x2, y1, y2 :| IsInk(img, whiteLevel, x1, y1) && IsInk(img, whiteLevel, x2, y2) && x1 != x2;
      var u1, u2, v1, v2 :| IsInk(img, whiteLevel, u1, v1) && IsInk(img, whiteLevel, u2, v2) && v1 != v2;
      assert HasInk(img, whiteLevel);
    }
    if CropToContent(img, whiteLevel).Some? {
      assert HasInk(img, whiteLevel);
      var yl :| 0 <= yl < img.height && IsInk(img, whiteLevel, b.left, yl);
      var yr :| 0 <= yr < img.height && IsInk(img, whiteLevel, b.right, yr);
      var xt :| 0 <= xt < img.width && IsInk(img, whiteLevel, xt, b.top);
      var xb :| 0 <= xb < img.width && IsInk(img, whiteLevel, xb, b.bottom);
    }
  }

  /**
   * An accepted crop is at least 2 x 2 and holds every ink pixel of the
   * image unchanged, shifted by the box's top-left corner.
   */
  lemma CropKeepsAllInk(img: Raster<Byte>, whiteLevel: int)
    requires CropToContent(img, whiteLevel).Some?
    ensures var c := CropToContent(img, whiteLevel).value;
      var b := ScanBox(img, whiteLevel);
      c.width >= 2 && c.height >= 2 &&
      forall x, y :: IsInk(img, whiteLevel, x, y) ==>
        0 <= x - b.left < c.width && 0 <= y - b.top < c.height && c.At(x - b.left, y - b.top) == img.At(x, y)
  {
    ScanBoxTight(img, whiteLevel);
  }

  /** Ink touches each of the four borders of an accepted crop: nothing more could be cut off. */
  lemma CropTouchesEveryBorder(img: Raster<Byte>, whiteLevel: int)
    requires CropToContent(img, whiteLevel).Some?
    ensures var c := CropToContent(img, whiteLevel).value;
      ColumnHasInk(c, whiteLevel, 0) && ColumnHasInk(c, whiteLevel, c.width - 1) &&
      RowHasInk(c, whiteLevel, 0) && RowHasInk(c, whiteLevel, c.height - 1)
  {
    ScanBoxTight(img, whiteLevel);
    var b := ScanBox(img, whiteLevel);
    var c := CropToContent(img, whiteLevel).value;
    assert HasInk(img, whiteLevel);
    var yl :| 0 <= yl < img.height && IsInk(img, whiteLevel, b.left, yl);
    var yr :| 0 <= yr < img.height && IsInk(img, whiteLevel, b.right, yr);
    var xt :| 0 <= xt < img.width && IsInk(img, whiteLevel, xt, b.top);
    var xb :| 0 <= xb < img.width && IsInk(img, whiteLevel, xb, b.bottom);
    assert IsInk(c, whiteLevel, 0, yl - b.top);
    assert IsInk(c, whiteLevel, c.width - 1, yr - b.top);
    assert IsInk(c, whiteLevel, xt - b.left, 0);
    assert IsInk(c, whiteLevel, xb - b.left, c.height - 1);
  }

  function Min(a: int, b: int): int { if a < b then a else b }
  function Max(a: int, b: int): int { if a < b then b else a }
}
