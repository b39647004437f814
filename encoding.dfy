/**
 * The raster encoding of printlabel.py `main` (lines 414-432): the
 * composed RGB canvas becomes greyscale, is rotated a quarter turn
 * clockwise (`rotate(-90, expand=True)`), inverted, mirrored left to right,
 * thresholded strictly above `threshold`, converted to a bilevel image and
 * centred in a buffer as wide as the 128-dot print head. Each row of that
 * buffer is one line burnt across the tape.
 *
 * The RGB to greyscale luma is the library function `luma`.
 */
module Encoding {
  import opened Geometry
  import opened Raster

  /** `convert('L')`: every pixel through the library's luma. */
  function ToGrey(img: Raster<Rgb>, luma: Rgb -> Byte): (g: Raster<Byte>)
    ensures g.width == img.width && g.height == img.height
  {
    Raster(img.width, img.height, (x, y) => luma(img.pixel(x, y)))
  }

  /**
   * `rotate(-90, expand=True)`: a quarter turn clockwise. The result is as
   * wide as the image was high; its top-left pixel is the bottom-left one.
   */
  function RotateClockwise<T>(img: Raster<T>): (r: Raster<T>)
    ensures r.width == img.height && r.height == img.width
    ensures forall x, y :: 0 <= x < r.width && 0 <= y < r.height ==>
      r.At(x, y) == img.At(y, img.height - 1 - x)
  {
    Raster(img.height, img.width, (x, y) => img.pixel(y, img.height - 1 - x))
  }

  /** `ImageOps.invert` of a greyscale image. */
  function Invert(img: Raster<Byte>): (r: Raster<Byte>)
    ensures r.width == img.width && r.height == img.height
  {
    Raster(img.width, img.height, (x, y) => 255 - img.pixel(x, y))
  }

  /** `ImageOps.mirror`: reverse the column order. */
  function Mirror<T>(img: Raster<T>): (r: Raster<T>)
    ensures r.width == img.width && r.height == img.height
    ensures forall x, y :: 0 <= x < r.width && 0 <= y < r.height ==>
      r.At(x, y) == img.At(img.width - 1 - x, y)
  {
    Raster(img.width, img.height, (x, y) => img.pixel(img.width - 1 - x, y))
  }

  /** The lambda given to `point`: `p > threshold and 255`, which is 255 or `False` (0). */
  function ThresholdLevel(p: Byte, threshold: int): (v: Byte)
    ensures v == 0 || v == 255
    ensures v == 255 <==> p > threshold
  {
    if p > threshold then 255 else 0
  }

  function Point(img: Raster<Byte>, threshold: int): (r: Raster<Byte>)
    ensures r.width == img.width && r.height == img.height
  {
    Raster(img.width, img.height, (x, y) => ThresholdLevel(img.pixel(x, y), threshold))
  }

  /**
   * `convert('1')` as it acts on an image whose levels are all 0 or 255,
   * the only levels `Point` produces: a dot is set for 255 and clear for 0,
   * and the Floyd-Steinberg dither diffuses no error. On other levels the
   * library's dithered conversion is not modelled.
   */
  function ToBilevel(img: Raster<Byte>): (r: Raster<bool>)
    ensures r.width == img.width && r.height == img.height
  {
    Raster(img.width, img.height, (x, y) => img.pixel(x, y) >= 128)
  }

  /** The binary image of lines 414-424, built step by step as the source does. */
  function Encode(canvas: Raster<Rgb>, luma: Rgb -> Byte, threshold: int): (e: Raster<bool>)
    ensures e.width == canvas.height && e.height == canvas.width
  {
    ToBilevel(Point(Mirror(Invert(RotateClockwise(ToGrey(canvas, luma)))), threshold))
  }

  /** A clockwise quarter turn followed by a mirror is the transpose: pixel (x, y) comes from (y, x). */
  lemma RotateThenMirrorTransposes<T>(img: Raster<T>)
    ensures var t := Mirror(RotateClockwise(img));
      t.width == img.height && t.height == img.width &&
      forall x, y :: 0 <= x < t.width && 0 <= y < t.height ==> t.At(x, y) == img.At(y, x)
  {
  }

  /**
   * The encoding is a transpose of the canvas: the binary image is as wide
   * as the canvas is high and as high as the canvas is wide, and dot (x, y)
   * is set exactly when the inverted luma of canvas pixel (y, x) is strictly
   * above the threshold, that is when the luma is below 255 - threshold.
   */
  lemma EncodeIsTranspose(canvas: Raster<Rgb>, luma: Rgb -> Byte, threshold: int)
    ensures var e := Encode(canvas, luma, threshold);
      e.width == canvas.height && e.height == canvas.width &&
      forall x, y :: 0 <= x < e.width && 0 <= y < e.height ==>
        (e.At(x, y) <==> 255 - luma(canvas.At(y, x)) > threshold) &&
        (e.At(x, y) <==> luma(canvas.At(y, x)) < 255 - threshold)
  {
    var g := ToGrey(canvas, luma);
    var m := Mirror(Invert(RotateClockwise(g)));
    RotateThenMirrorTransposes(g);
    forall x, y | 0 <= x < m.width && 0 <= y < m.height
      ensures m.At(x, y) == 255 - luma(canvas.At(y, x))
    {
      assert m.At(x, y) == Invert(RotateClockwise(g)).At(m.width - 1 - x, y);
      assert Mirror(RotateClockwise(g)).At(x, y) == g.At(y, x);
    }
  }

  /**
   * Left offset `(128 - w) // 2` of the pasted image. Of the head's spare
   * dots the left side gets the smaller half; an odd leftover goes right.
   * An image wider than the head gets a negative offset and is clipped on
   * both sides.
   */
  function PadOffset(w: int): (off: int)
    ensures 2 * off <= HeadWidth - w <= 2 * off + 1
    ensures w <= HeadWidth ==> 0 <= off && off <= HeadWidth - w - off <= off + 1
    ensures w > HeadWidth + 1 ==> off < 0
    ensures w == CanvasHeight ==> off == 20
  {
    (HeadWidth - w) / 2
  }

  /**
   * The padded bitmap: 128 dots wide, one row per row of the binary image,
   * the binary image pasted at the offset and clipped to the head, every
   * other dot clear.
   */
  function Padded(bin: Raster<bool>): (p: Raster<bool>)
    ensures p.width == HeadWidth && p.height == bin.height
  {
    var off := PadOffset(bin.width);
    Raster(HeadWidth, bin.height, (x, y) => off <= x < off + bin.width && bin.pixel(x - off, y))
  }

  /** Written so far by the paste loop: full rows above `y`, and the first `x` source columns of row `y`. */
  ghost predicate PasteProgress(a: array2<bool>, bin: Raster<bool>, y: int, x: int)
    requires a.Length0 == bin.height && a.Length1 == HeadWidth
    reads a
  {
    var off := PadOffset(bin.width);
    forall j, i :: 0 <= j < a.Length0 && 0 <= i < a.Length1 ==>
      a[j, i] == (off <= i < off + bin.width && (j < y || (j == y && i < off + x)) && bin.At(i - off, j))
  }

  /** `padded = Image.new('1', (128, h))` and `padded.paste(...)`: the source columns copied one dot at a time, clipped to the head. */
  method PadToHead(bin: Raster<bool>) returns (a: array2<bool>)
    ensures fresh(a)
    ensures a.Length0 == bin.height && a.Length1 == HeadWidth
    ensures forall y, x :: 0 <= y < a.Length0 && 0 <= x < a.Length1 ==> a[y, x] == Padded(bin).At(x, y)
  {
    var off := PadOffset(bin.width);
    a := new bool[bin.height, HeadWidth]((y, x) => false);
    for y := 0 to bin.height
      invariant PasteProgress(a, bin, y, 0)
    {
      for x := 0 to bin.width
        invariant PasteProgress(a, bin, y, x)
      {
        if 0 <= off + x < HeadWidth {
          a[y, off + x] := bin.At(x, y);
        }
      }
      assert PasteProgress(a, bin, y + 1, 0);
    }
    assert PasteProgress(a, bin, bin.height, 0);
  }
}
