/**
 * The tape-length ceiling of printlabel.py `main` (lines 435, 444 and
 * 455-457), in whole micrometres: every printed row advances the tape by
 * 0.149 mm, 25 mm are wasted before the label and 1 mm after it, and a
 * job using more than 49.9 cm of tape is abandoned before any data is
 * sent.
 */
module TapeLength {

  /** Tape advance per printed row. */
  const RowPitchMicrons: nat := 149
  /** Tape wasted before (25 mm) and after (1 mm) the label. */
  const MarginMicrons: nat := 25000 + 1000
  /** The longest tape a job may use (49.9 cm). */
  const MaxTapeMicrons: nat := 499000
  /** The most rows a label can have. */
  const MaxRows: nat := 3174

  /** Tape used by a label of `rows` printed rows, margins included. */
  function UsedTapeMicrons(rows: nat): nat
  {
    rows * RowPitchMicrons + MarginMicrons
  }

  /**
   * The source's `print_length > 499`: true exactly for labels of more
   * than 3174 rows; every label up to 3174 rows fits within the ceiling.
   */
  predicate TooLong(rows: nat): (b: bool)
    ensures b <==> rows > MaxRows
    ensures !b ==> UsedTapeMicrons(rows) <= MaxTapeMicrons
  {
    UsedTapeMicrons(rows) > MaxTapeMicrons
  }

}
