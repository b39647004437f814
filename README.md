# PT-P300BT label pipeline, modelled in Dafny

`printlabel.py` prints text labels on the Brother PT-P300BT over a
Bluetooth serial port. It builds the label in four stages:

1. It searches for the TrueType size whose ink is exactly 64 dots high, the printable height of the 9 mm head. It then renders the text on a white canvas 88 rows high. Optionally it stretches the canvas and trims the black right edge the stretch leaves behind.
2. Each `--merge` image is auto-cropped to its content, resized, and put in front of the canvas.
3. The canvas becomes a 1-bit bitmap 128 dots wide, one row per canvas column. The steps are greyscale, a quarter turn clockwise, invert, mirror, threshold and centring in the head width.
4. A job whose tape would exceed 49.9 cm is abandoned.

This project models those four stages and proves what each one promises.

Pixels live in value rasters (`Raster.Raster`). Crop, rotation, conversion and `point` return new images in the imaging library, while `paste` and `draw.text` change an image in place. Those in-place changes are sound as values here: each merge pass pastes into a canvas freshly made by `Image.new` (printlabel.py:334), and the text is drawn on a canvas made just before. The loops of the source are methods that reassign such values:

- the font-size search;
- the nested bounding-box scan;
- the trim;
- the merge.

The padding is a loop filling a fresh `array2<bool>`.

The font library, the luma conversion, the text drawing, the affine stretch and the LANCZOS resize are parameters of the model:

- `probe` gives the ink box at a size, or nothing when the font does not load;
- `luma` and `draw`;
- `stretch` and `resize`, each of which gives nothing where the library raises.

Most methods are proved against a reference function: `Chosen`/`FirstHalt`, `ScanBox`, `CropToContent`, `MergeOutcome`, `Padded` and `LabelOutcome`. The lemmas state the properties of those functions. Two are specified otherwise: `TextCanvas.TrimBlackTail` against the predicate `TrimmedTail`, which says what a trim removes and keeps, and `Label.TextImage` by stating its result directly in terms of `Chosen`, `BlankTextCanvas` and `TrimmedTail`.

Modules, one file each:

- `Wrappers`: `Option`, `Result`.
- `Geometry`: the printer's constants and the job errors.
- `Raster`: the image type and crop.
- `FontFit`: the font-size search.
- `TextCanvas`: canvas size and trim.
- `AutoCrop`: bounding box and reject.
- `Merge`: the merge loop.
- `Encoding`: rotation, threshold and padding.
- `TapeLength`: the length ceiling.
- `Label`: the stages chained; `BuildLabel` runs the text stage and then merge, encoding, padding and the length check on its canvas.

Behaviour worth knowing:

- **Empty text.** It gives a canvas with no columns.
- **Odd padding.** The spare dot of an odd padding goes to the right side (`(128 - w) // 2` on the left).
- **Font size.** The search stops at the first size whose ink reaches 64 dots: it returns that size when its ink is exactly 64, otherwise the size below it. When ink height never shrinks with size, no larger loadable size has ink below 64 (`FontFit.ChosenFits`). When it grows strictly, the chosen size is the largest that fits (`FontFit.ChosenIsLargestFit`).
- **Images wider than the head.** These are clipped by the paste.

## Model

| member | source | states |
|---|---|---|
| FontFit.FirstHalt | printlabel.py:256-269 | the first size from `from` on at which the upward search must stop (font fails to load or ink at least 64 high); no size before it stops the search |
| FontFit.FitFontSize | printlabel.py:248-274 | the `while` loop returns exactly `Chosen` at the first halting size: the exact fit, the step back after an overshoot, or the load failure of the last size tried |
| FontFit.SearchOutcome | printlabel.py:256-274 | without overshoot the result is the first size whose ink is exactly 64 high; after an overshoot it is one less than the first size whose ink is higher than 64; every smaller size loads and is too short; an error names a size at which the font does not load: the first halting size, or the one below it after an overshoot |
| FontFit.ChosenFits | printlabel.py:256-274 | the chosen ink is at most 64 high (size at least 1); if ink height never shrinks with size, no larger loadable size has ink below 64, and after an overshoot every larger loadable size has ink above 64 |
| FontFit.ChosenIsLargestFit | printlabel.py:256-274 | if ink height grows strictly with size, every loadable size larger than the chosen one has ink above 64: the chosen size is the largest that fits |
| FontFit.Chosen | printlabel.py:256-274 | the outcome at the first halting size k: an exact fit at k (ink 64 high), a step back to k - 1 after ink above 64 at k, with the returned ink being that size's ink; it fails exactly when the font does not load at k, or does not load at k - 1 after a miss at k, and the error names a size at which the font does not load |
| TextCanvas.BlankTextCanvas | printlabel.py:277-281 | white canvas 88 rows high, `font_width + 2*5 + 1` columns for non-empty text and 0 columns for empty text (lines 316-321) |
| TextCanvas.TrimBlackTail | printlabel.py:312-314 | fails (`TrimmedAway`) exactly when every column has a pure black top pixel; otherwise removes exactly the maximal trailing run of such columns, keeps every other pixel and leaves a last column whose top pixel is not black |
| TextCanvas.TrimmedTailUnique | printlabel.py:312-314 | the trimmed result is unique: two trims of the same image have the same width and pixels |
| Raster.Crop | printlabel.py:212 | the cropped image is `right - left` by `bottom - top` and pixel (x, y) is pixel (left + x, top + y) of the source |
| AutoCrop.FirstInkColumn | printlabel.py:199-208 | the first column at or after `from` holding a pixel darker than the white level, with none before it |
| AutoCrop.LastInkColumn | printlabel.py:199-208 | the last column before `upto` holding ink, with none after it, or -1 |
| AutoCrop.FirstInkRow | printlabel.py:199-208 | the first row at or after `from` holding ink, with none before it |
| AutoCrop.LastInkRow | printlabel.py:199-208 | the last row before `upto` holding ink, with none after it, or -1 |
| AutoCrop.ScanBoxTight | printlabel.py:195-208 | with ink, every ink pixel lies in the box and ink touches each of its four edges; without ink the box keeps its initial values (width, height, 0, 0) |
| AutoCrop.FindBox | printlabel.py:195-208 | the nested scan loops end with exactly the reference box `ScanBox`, and every pixel darker than the white level lies inside it |
| AutoCrop.SameEdges | printlabel.py:195-208 | a box that holds all ink and whose edges all touch ink is the box the scan finds |
| AutoCrop.CropToContent | printlabel.py:195-228 | an accepted image is at least 2 x 2 and the source image holds ink |
| AutoCrop.ProcessImage | printlabel.py:195-228 | `process_image` before resizing: the crop `(left, top, right + 1, bottom + 1)` when `right > left and bottom > top`, otherwise nothing |
| AutoCrop.CropAcceptedIff | printlabel.py:210-228 | an image is accepted exactly when its ink spans two different columns and two different rows; no ink, or ink in a single row or column, is rejected |
| AutoCrop.CropKeepsAllInk | printlabel.py:210-212 | an accepted crop is at least 2 x 2 and contains every ink pixel, unchanged, shifted by the box's corner |
| AutoCrop.CropTouchesEveryBorder | printlabel.py:199-212 | ink touches all four borders of an accepted crop |
| Merge.GreyToRgb | printlabel.py:339 | a grey level pasted onto the RGB canvas is white exactly for level 255 and black exactly for level 0 |
| Merge.Pasted | printlabel.py:339 | outside the pasted image's box the new canvas is white; inside it, a pixel is white exactly when the image's level there is 255 |
| Merge.Prepend | printlabel.py:334-341 | the new canvas is as wide as the loaded image and the old canvas together, and 88 high |
| Merge.ComposeFrom | printlabel.py:325-341 | after prepending images i.. the canvas is 88 high and as wide as their widths plus the text canvas |
| Merge.PrependedImageAt | printlabel.py:339 | the columns of the image prepended last show it pasted at (dx, dy) on white, clipped to the canvas |
| Merge.PrependedCanvasAt | printlabel.py:340 | right of the image prepended last, the canvas is the one it was prepended to, shifted by that image's width |
| Merge.ComposeKeepsText | printlabel.py:325-341 | text pixel (x, y) appears unchanged at column (sum of the merged widths) + x |
| Merge.WidthFromShrinks | printlabel.py:336 | the widths of later items are part of the widths accumulated from an earlier item |
| Merge.ComposePlacesImage | printlabel.py:325-341 | merge image k sits after the widths of the images before it: the left-to-right order is merge[0], merge[1], ..., text |
| Merge.Outcomes | printlabel.py:210-228 | one `process_image` outcome per merge item: rejected, cropped but not resizable, or the resized crop |
| Merge.Loaded | printlabel.py:326-331 | the processed image of every item that gave one, in item order |
| Merge.LastFailed | printlabel.py:325-333 | the last item before `n` that gave no image, every item after it giving one, or -1 |
| Merge.MergeOutcome | printlabel.py:324-341 | a failure names an item that gave no image, as `InvalidImage` exactly when it was rejected and `ResizeFailed` exactly when its resize failed; a success is 88 high and as wide as the loaded images plus the text canvas |
| Merge.MergeImages | printlabel.py:324-341 | the reverse loop equals `MergeOutcome`: an error naming the last item that gave no image, otherwise the composition of all processed images in front of the text |
| Merge.MergeShape | printlabel.py:324-341 | a failed merge names the last item that gave no image and why, all later items giving one; a successful one processed every item, is 88 high and as wide as the processed images plus the text, with the text unchanged at its right end |
| Merge.MergeOrder | printlabel.py:325-341 | in a successful merge, item k's image pasted at (dx, dy) starts right after the widths of items 0..k-1 |
| Merge.MergeFailsIff | printlabel.py:210-333 | a merge fails exactly when some item's ink is missing or lies within one row or one column, or the library cannot resize some item's crop |
| Merge.MergeErrorNamesItem | printlabel.py:210-333 | an `InvalidImage` error names an item whose ink is missing or within one row or one column, a `ResizeFailed` error an item whose crop cannot be resized, and every later item is accepted and resizable |
| Encoding.ToGrey | printlabel.py:415 | greyscale conversion keeps the size; its pixels are stated by `Encoding.EncodeIsTranspose` |
| Encoding.RotateClockwise | printlabel.py:414-417 | `rotate(-90, expand=True)` swaps width and height; pixel (x, y) comes from (y, height - 1 - x) |
| Encoding.Invert | printlabel.py:414 | inversion keeps the size; its pixels are stated by `Encoding.EncodeIsTranspose` |
| Encoding.Mirror | printlabel.py:418 | mirroring keeps the size; pixel (x, y) comes from (width - 1 - x, y) |
| Encoding.RotateThenMirrorTransposes | printlabel.py:414-418 | a quarter turn clockwise followed by a mirror is the transpose |
| Encoding.ThresholdLevel | printlabel.py:421 | the `point` lambda yields only 0 or 255, and 255 exactly for levels strictly above the threshold |
| Encoding.Point | printlabel.py:421 | thresholding keeps the size; its pixels are stated by `Encoding.EncodeIsTranspose` |
| Encoding.ToBilevel | printlabel.py:424 | the bilevel conversion keeps the size; its pixels are stated by `Encoding.EncodeIsTranspose` |
| Encoding.Encode | printlabel.py:414-424 | the binary image has the canvas's width and height swapped |
| Encoding.EncodeIsTranspose | printlabel.py:414-424 | the binary image is the canvas transposed; dot (x, y) is set exactly when `255 - luma(canvas(y, x)) > threshold`, i.e. when the luma is below `255 - threshold` |
| Encoding.PadOffset | printlabel.py:430 | the left offset takes the smaller half of the spare dots, the odd one going right; 20 for the 88-dot canvas; negative for images wider than the head |
| Encoding.Padded | printlabel.py:428-432 | the padded bitmap is 128 dots wide and has one row per row of the binary image |
| Encoding.PadToHead | printlabel.py:428-432 | the paste into a fresh 128-wide zero buffer yields exactly `Padded`, clipped to the head |
| TapeLength.TooLong | printlabel.py:435-457 | `rows * 0.149 + 26 > 499` holds exactly for more than 3174 rows; up to 3174 rows the used tape stays within 499 mm |
| Label.TextImage | printlabel.py:248-321 | empty text gives a 0-column canvas; otherwise the font-search error, or the drawn canvas `font_width + 11` wide, or (with a stretch) `StretchFailed` when the stretch fails, else the trimmed stretched canvas or `TrimmedAway`; always 88 high |
| Label.LabelOutcome | printlabel.py:324-457 | a finished job comes from a successful merge, is 128 dots wide and has one row per merged column, at most 3174; a stopped job carries the merge's error, naming an item, or `TapeTooLong` with the merged width when it exceeds 3174 |
| Label.PrintBitmap | printlabel.py:324-457 | merge, encoding, padding and the length check yield exactly `LabelOutcome`, the bitmap stored row by row in a fresh array |
| Label.BuildLabel | printlabel.py:248-457 | the text stage's error stops the job; otherwise the job yields exactly `LabelOutcome` of the text canvas, stored row by row in a fresh array |
| Label.LabelDots | printlabel.py:324-457 | a finished job is 128 dots wide and one row per merged-canvas column, at most 3174 rows; dot x of row y is set exactly when 20 <= x < 108 and canvas pixel (y, x - 20) has luma below `255 - threshold`; a stopped job names an item without ink spanning two rows and two columns, an item whose crop cannot be resized, or a merged canvas wider than 3174 columns, so every successful merge of at most 3174 columns prints |

## Left out

- Argument parsing (`set_args`): configuration only. The values the pipeline uses are its parameters: white level, threshold, merge offset, stretch, merge list.
- The serial port, `do_print_job` and `reset_printer`: transport I/O into a module that is not part of this model.
- `convert_pdf`: a PDF rasteriser call and file writes.
- Opening merge images, flattening transparency onto white and their RGB to greyscale conversion (lines 169-193): these are library calls. The model starts from the greyscale image.
- Joining the words and `--unicode` escape decoding (lines 251-254): string handling before the search; the text is a parameter.
- Font loading, glyph metrics (`getbbox`) and `draw.text`: library calls, modelled as the parameters `probe` and `draw`. Invalid fill or stroke arguments, which make `draw.text` fail, are not modelled.
- FontFit.FitFontSize: it needs a size at which the search halts (the ghost `reach`). When every size loads and its ink stays below 64 high, the source loops forever, and the model does not cover that.
- The affine stretch of `--text-size` (lines 294-311): float arithmetic, modelled as the parameter `stretch`, which may fail. A failure stands for the division by zero at line 306 when `int(text_size / 0.149) - 5 - end_margin` is 0, and for `transform` refusing a negative width at line 308. Both raise an exception in the source; the model returns `StretchFailed`. Which inputs trigger them is not modelled.
- The LANCZOS resize to the printable height (lines 217-225): float arithmetic and resampling, modelled as the parameter `resize`. Every accepted image goes through it. A target size with a side of zero or less (a 2-wide, 129-high crop gives `int(64 * 2 / 129) == 0`; a negative `--resize` gives negative sides) makes the library raise; `resize` then gives nothing and the job stops with `ResizeFailed`. Which crops and multipliers do so is not modelled, since the target size is float arithmetic.
- The RGB to greyscale luma (line 415): the parameter `luma`. The Floyd-Steinberg dither of `convert('L')` has no effect for an L target. The dither of `convert('1')` has none on levels that are all 0 or 255.
- Rulers and guide lines (`--lines`, lines 345-411): drawing with float steps.
- Label.PrintBitmap, Label.LabelDots, Label.LabelOutcome: describe jobs without `--lines`. With it, the guides are drawn into the canvas before encoding (lines 345-411 precede line 414) and are printed; the model's dots do not include them.
- The cm, inch and seconds printouts (lines 436-452): formatting only. The length ceiling is modelled in whole micrometres. For any row count this agrees with the float comparison, since the row counts nearest the limit land at least 74 µm from it (3174 rows use 498.926 mm, 3175 rows 499.075 mm).
- Save, show and the quits they trigger (lines 460-472): output only.
- `padded.tobytes()` (line 474): the library's bit packing.
- Legacy mode (`--image`, line 241): this file builds no print data for it.
