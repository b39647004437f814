/**
 * Pixel grids. A raster is a value: every imaging operation of the
 * pipeline (crop, paste onto a new canvas, rotate, mirror, point) yields a
 * new raster rather than changing one in place.
 */
module Raster {

  /** One 8-bit sample: a greyscale pixel or one RGB channel. */
  type Byte = x: int | 0 <= x < 256

  datatype Rgb = Rgb(r: Byte, g: Byte, b: Byte)

  const White: Rgb := Rgb(255, 255, 255)
  const Black: Rgb := Rgb(0, 0, 0)

  /**
   * A width x height image; `pixel(x, y)` is the pixel in column x of row
   * y, as PIL's `getpixel((x, y))`. Outside the image it means nothing.
   */
  datatype Raster<T> = Raster(width: nat, height: nat, pixel: (int, int) -> T) {

    function At(x: int, y: int): T
      requires 0 <= x < width && 0 <= y < height
    {
      pixel(x, y)
    }
  }

  /** PIL `crop((left, top, right, bottom))` of a box inside the image: right and bottom are exclusive. */
  function Crop<T>(img: Raster<T>, left: int, top: int, right: int, bottom: int): (c: Raster<T>)
    requires 0 <= left <= right <= img.width && 0 <= top <= bottom <= img.height
    ensures c.width == right - left && c.height == bottom - top
    ensures forall x, y :: 0 <= x < c.width && 0 <= y < c.height ==> c.At(x, y) == img.At(left + x, top + y)
  {
    Raster(right - left, bottom - top, (x, y) => img.pixel(left + x, top + y))
  }
}
