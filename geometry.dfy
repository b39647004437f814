/**
 * The fixed geometry of the PT-P300BT label printer and the errors a
 * label job can end with (printlabel.py, `main`).
 */
module Geometry {

  /** Number of dots the print head can burn across the tape (9 mm). */
  const PrintableHeight: int := 64
  /** Height of every composed canvas: the tape plus two border lines. */
  const CanvasHeight: int := 88
  /** Blank columns left and right of the rendered text. */
  const HPadding: int := 5
  /** Dots of the print head: the fixed width of the encoded bitmap. */
  const HeadWidth: int := 128

  /** Why a job stops before any data is produced. */
  datatype Error =
    | FontNotLoadable(size: int)   // the font library refused this size
    | StretchFailed                // the library could not stretch the text to the requested length
    | TrimmedAway                  // every column of row 0 was black: getpixel ran off the image
    | InvalidImage(index: nat)     // merge item `index` had no croppable content
    | ResizeFailed(index: nat)     // merge item `index` was cropped, but its resize target had a side of zero or less
    | TapeTooLong(dots: nat)       // the label would exceed 49.9 cm of used tape
}
