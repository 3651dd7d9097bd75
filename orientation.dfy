/** Choosing the rotation that puts an image upright (app.py,
    adjust_orientation).

    The application hands the imaging library an angle in degrees,
    counter-clockwise, with the canvas expanded to fit. Only the angle and its
    effect on pixel positions are modelled; the pixels themselves are not.
    As a reference, the eight Orientation values of TIFF 6.0, Section 8, are
    given as the map from stored pixel positions to displayed ones. */
module Orientation {
  import opened Wrappers
  import opened Geometry

  /** What the application does to the image: nothing, or a rotation by a
      number of degrees counter-clockwise with the canvas expanded. */
  datatype Adjustment = Unchanged | RotateCcw(degrees: int)

  predicate QuarterTurn(degrees: int) {
    degrees == 90 || degrees == 180 || degrees == 270
  }

  /** The rotation chosen for an orientation value (None: no Orientation tag). */
  function AdjustmentFor(orientation: Option<int>): (a: Adjustment)
    ensures a.RotateCcw? <==> orientation == Some(3) || orientation == Some(6) || orientation == Some(8)
    ensures a.RotateCcw? ==> QuarterTurn(a.degrees)
  {
    if orientation == Some(3) then RotateCcw(180)
    else if orientation == Some(6) then RotateCcw(270)
    else if orientation == Some(8) then RotateCcw(90)
    else Unchanged
  }

  predicate Supported(a: Adjustment) {
    a.Unchanged? || QuarterTurn(a.degrees)
  }

  /** Canvas size after the adjustment: a quarter turn exchanges the sides. */
  function AdjustedSize(a: Adjustment, s: Size): (r: Size)
    ensures multiset{r.width, r.height} == multiset{s.width, s.height}
  {
    if a.RotateCcw? && a.degrees != 180 then Transposed(s) else s
  }

  /** Where the pixel stored at p ends up after the adjustment of an image of
      size s. */
  function Apply(a: Adjustment, s: Size, p: Point): (q: Point)
    requires Supported(a)
    ensures InBounds(p, s) ==> InBounds(q, AdjustedSize(a, s))
  {
    match a
    case Unchanged => p
    case RotateCcw(d) =>
      if d == 90 then Point(p.y, s.width - 1 - p.x)
      else if d == 180 then Point(s.width - 1 - p.x, s.height - 1 - p.y)
      else Point(s.height - 1 - p.y, p.x)
  }

  /** The adjustment never sends two pixels of the image to the same place:
      with the canvas expanded to the new size, it rearranges the pixels
      without losing any. */
  lemma ApplyInjective(a: Adjustment, s: Size, p: Point, q: Point)
    requires Supported(a)
    requires InBounds(p, s) && InBounds(q, s)
    requires Apply(a, s, p) == Apply(a, s, q)
    ensures p == q
  {
  }

  /** TIFF 6.0 Orientation values 1..8. */
  predicate ValidOrientation(o: int) {
    1 <= o <= 8
  }

  /** The size at which an image stored as s is meant to be shown. Values 5 to
      8 store the rows as the visual columns. */
  function DisplaySize(o: int, s: Size): Size
    requires ValidOrientation(o)
  {
    if o >= 5 then Transposed(s) else s
  }

  /** Where the pixel stored at p is meant to be shown, by TIFF 6.0, Section 8:
      the value names the visual side on which stored row 0 and stored
      column 0 lie. */
  function Display(o: int, s: Size, p: Point): (q: Point)
    requires ValidOrientation(o)
    ensures InBounds(p, s) ==> InBounds(q, DisplaySize(o, s))
  {
    var w, h := s.width, s.height;
    if o == 1 then p                                   // top, left
    else if o == 2 then Point(w - 1 - p.x, p.y)        // top, right
    else if o == 3 then Point(w - 1 - p.x, h - 1 - p.y) // bottom, right
    else if o == 4 then Point(p.x, h - 1 - p.y)        // bottom, left
    else if o == 5 then Point(p.y, p.x)                // left, top
    else if o == 6 then Point(h - 1 - p.y, p.x)        // right, top
    else if o == 7 then Point(h - 1 - p.y, w - 1 - p.x) // right, bottom
    else Point(p.y, w - 1 - p.x)                       // left, bottom
  }

  /** The adjustment shows the image as the orientation value intends. */
  ghost predicate Upright(o: int, s: Size)
    requires ValidOrientation(o)
  {
    var a := AdjustmentFor(Some(o));
    AdjustedSize(a, s) == DisplaySize(o, s) &&
    forall p :: InBounds(p, s) ==> Apply(a, s, p) == Display(o, s, p)
  }

  /** The chosen rotation shows an image stored with an unmirrored value
      (1, 3, 6 or 8) as that value intends. */
  lemma UnmirroredUpright(o: int, s: Size)
    requires o == 1 || o == 3 || o == 6 || o == 8
    ensures Upright(o, s)
  {
    var a := AdjustmentFor(Some(o));
    forall p | InBounds(p, s)
      ensures Apply(a, s, p) == Display(o, s, p)
    {
      if o == 1 {
      } else if o == 3 {
        assert a == RotateCcw(180);
      } else if o == 6 {
        assert a == RotateCcw(270);
      } else {
        assert a == RotateCcw(90);
      }
    }
  }

  /** A mirrored value (2, 4, 5 or 7) gets no adjustment, and an image of at
      least 2 by 2 pixels is then not shown as the value intends. */
  lemma MirroredNotUpright(o: int, s: Size)
    requires o == 2 || o == 4 || o == 5 || o == 7
    requires s.width >= 2 && s.height >= 2
    ensures AdjustmentFor(Some(o)) == Unchanged
    ensures !Upright(o, s)
  {
    var p := if o == 5 then Point(1, 0) else Point(0, 0);
    assert InBounds(p, s);
    assert Apply(Unchanged, s, p) != Display(o, s, p);
  }

  /** For every image of at least 2 by 2 pixels the adjustment shows the image
      as intended exactly for the unmirrored values 1, 3, 6 and 8. */
  lemma UprightExactlyUnmirrored(o: int, s: Size)
    requires ValidOrientation(o)
    requires s.width >= 2 && s.height >= 2
    ensures Upright(o, s) <==> (o == 1 || o == 3 || o == 6 || o == 8)
  {
    if o == 1 || o == 3 || o == 6 || o == 8 {
      UnmirroredUpright(o, s);
    } else {
      MirroredNotUpright(o, s);
    }
  }

  /** Values outside 1..8, and a missing tag, leave the image unchanged (a
      corollary of the contract of AdjustmentFor, stated for the reader). */
  lemma UnknownLeavesImage(orientation: Option<int>)
    requires orientation.None? || !ValidOrientation(orientation.value)
    ensures AdjustmentFor(orientation) == Unchanged
  {
  }
}
