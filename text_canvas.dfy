/**
 * The text canvas of printlabel.py `main`: its size (lines 277-281 and
 * 316-321) and the removal of the black columns the horizontal stretch
 * leaves at its right edge (lines 312-314).
 */
module TextCanvas {
  import opened Wrappers
  import opened Geometry
  import opened Raster

  /**
   * The white canvas the text is drawn on: the ink width plus the padding
   * on both sides and one extra column, or no columns at all for an empty
   * text; always a full canvas high. Glyph drawing itself belongs to the
   * font library and is not part of this model.
   */
  function BlankTextCanvas(text: string, inkWidth: nat): (c: Raster<Rgb>)
    ensures c.height == CanvasHeight
    ensures text == [] ==> c.width == 0
    ensures text != [] ==> c.width == HPadding + inkWidth + HPadding + 1
    ensures forall x, y :: 0 <= x < c.width && 0 <= y < c.height ==> c.At(x, y) == White
  {
    var width := if text == [] then 0 else inkWidth + HPadding * 2 + 1;
    Raster(width, CanvasHeight, (x, y) => White)
  }

  /** Every column of `img` has a pure black top pixel (true of an image with no columns). */
  predicate BlackTopRow(img: Raster<Rgb>)
    requires img.height > 0
  {
    forall c :: 0 <= c < img.width ==> img.At(c, 0) == Black
  }

  /**
   * `t` is `img` without its maximal run of trailing columns whose top
   * pixel is pure black: a non-empty left part of `img`, pixel for pixel,
   * whose own last column does not start black.
   */
  ghost predicate TrimmedTail(img: Raster<Rgb>, t: Raster<Rgb>)
  {
    var w := t.width;
    t.height == img.height && 0 < w <= img.width && 0 < img.height &&
    img.At(w - 1, 0) != Black &&
    (forall c :: w <= c < img.width ==> img.At(c, 0) == Black) &&
    (forall x, y :: 0 <= x < w && 0 <= y < img.height ==> t.At(x, y) == img.At(x, y))
  }

  /**
   * Drop right-most columns while the top pixel of the last column is pure
   * black. When every column goes, the next `getpixel((width - 1, 0))`
   * falls outside the image and the source fails: `Err(TrimmedAway)`.
   */
  method TrimBlackTail(img: Raster<Rgb>) returns (r: Result<Raster<Rgb>, Error>)
    requires img.height == CanvasHeight
    ensures r.Err? <==> BlackTopRow(img)
    ensures r.Err? ==> r.error == TrimmedAway
    ensures r.Ok? ==> TrimmedTail(img, r.value)
  {
    var image := img;
    while image.width > 0 && image.At(image.width - 1, 0) == Black
      invariant image.height == img.height && image.width <= img.width
      invariant forall c :: image.width <= c < img.width ==> img.At(c, 0) == Black
      invariant forall x, y :: 0 <= x < image.width && 0 <= y < img.height ==> image.At(x, y) == img.At(x, y)
      decreases image.width
    {
      image := Crop(image, 0, 0, image.width - 1, CanvasHeight);
    }
    if image.width == 0 {
      r := Err(TrimmedAway);
    } else {
      r := Ok(image);
    }
  }

  /** The trim's result is unique: the left part ends just before the maximal black-topped tail. */
  lemma TrimmedTailUnique(img: Raster<Rgb>, t1: Raster<Rgb>, t2: Raster<Rgb>)
    requires TrimmedTail(img, t1) && TrimmedTail(img, t2)
    ensures t1.width == t2.width
    ensures forall x, y :: 0 <= x < t1.width && 0 <= y < t1.height ==> t1.At(x, y) == t2.At(x, y)
  {
  }
}
