/**
 * The font-size search of printlabel.py `main` (lines 248-274): grow the
 * TrueType size one step at a time until the ink of the text is exactly
 * as high as the printable area; on overshoot step back one size and stop.
 *
 * The font library is the parameter `probe`: `probe(size)` is the ink box
 * `getbbox(text, anchor="lt")[2:]` reports at that size, or `None` when
 * `ImageFont.truetype` cannot load the font at that size.
 */
module FontFit {
  import opened Wrappers
  import opened Geometry

  /** Right and bottom edge of the ink box of the text ("font_width", "font_height"). */
  datatype Ink = Ink(width: nat, height: nat)

  /** The chosen size, its ink box, and whether the search had to step back. */
  datatype Fit = Fit(size: int, ink: Ink, steppedBack: bool)

  /** Probing `size` ends the upward search: the font fails to load or the ink reaches the printable height. */
  predicate Halts(probe: int -> Option<Ink>, size: int) {
    probe(size).None? || probe(size).value.height >= PrintableHeight
  }

  /** The smallest size at or above `from` whose probe ends the upward search. */
  function FirstHalt(probe: int -> Option<Ink>, from: int, reach: int): (k: int)
    requires 1 <= from <= reach && Halts(probe, reach)
    ensures from <= k <= reach && Halts(probe, k)
    ensures forall s :: from <= s < k ==> !Halts(probe, s)
    decreases reach - from
  {
    if Halts(probe, from) then from else FirstHalt(probe, from + 1, reach)
  }

  /**
   * What the search yields once it has probed the first halting size `k`:
   * an exact fit at `k`, the size below `k` after an overshoot, or the
   * loading failure of the last size it tried.
   */
  function Chosen(probe: int -> Option<Ink>, k: int): (r: Result<Fit, Error>)
    requires Halts(probe, k)
    ensures r.Ok? ==> probe(r.value.size) == Some(r.value.ink) && r.value.size == (if r.value.steppedBack then k - 1 else k)
    ensures r.Ok? && !r.value.steppedBack ==> r.value.ink.height == PrintableHeight
    ensures r.Ok? && r.value.steppedBack ==> probe(k).Some? && probe(k).value.height > PrintableHeight
    ensures r.Err? ==> r.error == FontNotLoadable(k) || r.error == FontNotLoadable(k - 1)
    ensures r.Err? ==> r.error.FontNotLoadable? && probe(r.error.size).None?
    ensures r.Err? <==> probe(k).None? || (probe(k).value.height != PrintableHeight && probe(k - 1).None?)
  {
    match probe(k)
    case None => Err(FontNotLoadable(k))
    case Some(ink) =>
      if ink.height == PrintableHeight then Ok(Fit(k, ink, false))
      else
        match probe(k - 1)
        case None => Err(FontNotLoadable(k - 1))
        case Some(below) => Ok(Fit(k - 1, below, true))
  }

  /**
   * The search loop as written. `reach` is any size whose probe halts the
   * search; without one the loop of the source never ends.
   */
  method FitFontSize(probe: int -> Option<Ink>, ghost reach: int) returns (r: Result<Fit, Error>)
    requires 1 <= reach && Halts(probe, reach)
    ensures r == Chosen(probe, FirstHalt(probe, 1, reach))
  {
    ghost var k := FirstHalt(probe, 1, reach);
    var fontSize: int, fontWidth: nat, fontHeight: nat := 0, 0, 0;
    var stop := false;
    while fontHeight != PrintableHeight
      invariant 0 <= fontSize <= k
      invariant forall s :: 1 <= s < fontSize ==> !Halts(probe, s)
      invariant fontSize == 0 ==> fontHeight == 0
      invariant fontSize >= 1 ==> probe(fontSize) == Some(Ink(fontWidth, fontHeight))
      invariant !stop
      decreases k - fontSize
    {
      if fontHeight > PrintableHeight {
        fontSize := fontSize - 1;
        stop := true;
      } else {
        fontSize := fontSize + 1;
      }
      match probe(fontSize)
      case None =>
        if stop {
          assert Halts(probe, fontSize + 1) && fontSize + 1 == k;
        } else {
          assert Halts(probe, fontSize) && fontSize == k;
        }
        return Err(FontNotLoadable(fontSize));
      case Some(ink) =>
        fontWidth, fontHeight := ink.width, ink.height;
      if stop {
        assert Halts(probe, fontSize + 1) && fontSize + 1 == k;
        break;
      }
    }
    assert stop || (Halts(probe, fontSize) && fontSize == k);
    r := Ok(Fit(fontSize, Ink(fontWidth, fontHeight), stop));
  }

  /** Ink height never shrinks as the size grows, among sizes the font loads at. */
  ghost predicate Monotone(probe: int -> Option<Ink>) {
    forall a, b :: 1 <= a <= b && probe(a).Some? && probe(b).Some? ==>
      probe(a).value.height <= probe(b).value.height
  }

  /**
   * The two ways the search ends. Without overshoot it returns the first
   * size whose ink is exactly the printable height; after an overshoot it
   * returns the size just below the first one whose ink is too high. Every
   * smaller size loads and is too short. It fails only where the font does
   * not load: at the first halting size, or at the size below it after an
   * overshoot.
   */
  lemma {:induction false} SearchOutcome(probe: int -> Option<Ink>, reach: int)
    requires 1 <= reach && Halts(probe, reach)
    ensures var k := FirstHalt(probe, 1, reach);
      match Chosen(probe, k)
      case Ok(f) =>
        probe(f.size) == Some(f.ink) &&
        (forall s :: 1 <= s < k ==> probe(s).Some? && probe(s).value.height < PrintableHeight) &&
        (!f.steppedBack ==> f.size == k && f.ink.height == PrintableHeight) &&
        (f.steppedBack ==> f.size == k - 1 && probe(k).Some? && probe(k).value.height > PrintableHeight)
      case Err(e) =>
        e.FontNotLoadable? && probe(e.size).None? &&
        (forall s :: 1 <= s < k ==> probe(s).Some? && probe(s).value.height < PrintableHeight) &&
        (e.size == k || (e.size == k - 1 && probe(k).Some? && probe(k).value.height > PrintableHeight))
  {
    var k := FirstHalt(probe, 1, reach);
    forall s | 1 <= s < k
      ensures probe(s).Some? && probe(s).value.height < PrintableHeight
    {
      assert !Halts(probe, s);
    }
  }

  /**
   * The chosen ink never exceeds the printable height (unless the search
   * stepped back to size 0, below any size it measured); with monotone
   * metrics no larger size leaves slack, and after an overshoot every
   * larger size is too high, so the chosen size is the largest that fits.
   */
  lemma ChosenFits(probe: int -> Option<Ink>, reach: int)
    requires 1 <= reach && Halts(probe, reach)
    ensures var f := Chosen(probe, FirstHalt(probe, 1, reach));
      f.Ok? && f.value.size >= 1 ==> f.value.ink.height <= PrintableHeight
    ensures var f := Chosen(probe, FirstHalt(probe, 1, reach));
      f.Ok? && Monotone(probe) ==>
        forall s :: f.value.size < s && probe(s).Some? ==>
          probe(s).value.height >= PrintableHeight &&
          (f.value.steppedBack ==> probe(s).value.height > PrintableHeight)
  {
    var k := FirstHalt(probe, 1, reach);
    var f := Chosen(probe, k);
    if f.Ok? && f.value.size >= 1 && f.value.steppedBack {
      assert !Halts(probe, f.value.size);
    }
    if f.Ok? && Monotone(probe) {
      forall s | f.value.size < s && probe(s).Some?
        ensures probe(s).value.height >= PrintableHeight
        ensures f.value.steppedBack ==> probe(s).value.height > PrintableHeight
      {
        assert k <= s;
        assert probe(k).Some?;
      }
    }
  }

  /** Ink height grows strictly with size, among sizes the font loads at. */
  ghost predicate StrictlyGrowing(probe: int -> Option<Ink>) {
    forall a, b :: 1 <= a < b && probe(a).Some? && probe(b).Some? ==>
      probe(a).value.height < probe(b).value.height
  }

  /**
   * When ink height grows strictly with size, the chosen size is the
   * largest that fits: every larger size the font loads at is higher than
   * the printable area.
   */
  lemma ChosenIsLargestFit(probe: int -> Option<Ink>, reach: int)
    requires 1 <= reach && Halts(probe, reach) && StrictlyGrowing(probe)
    ensures var f := Chosen(probe, FirstHalt(probe, 1, reach));
      f.Ok? ==>
        forall s :: f.value.size < s && probe(s).Some? ==> probe(s).value.height > PrintableHeight
  {
    var k := FirstHalt(probe, 1, reach);
    var f := Chosen(probe, k);
    if f.Ok? {
      forall s | f.value.size < s && probe(s).Some?
        ensures probe(s).value.height > PrintableHeight
      {
        assert k <= s;
        assert probe(k).Some?;
      }
    }
  }
}
