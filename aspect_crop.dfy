/** The centred crop that gives the target image the source's aspect ratio
    (app.py, crop_to_aspect).

    The application compares the two aspect ratios as floating-point
    quotients and truncates the new side with int(). This model uses exact
    integer arithmetic instead: the comparison tw/th > sw/sh becomes
    tw*sh > th*sw, and the new side becomes a floor division. The lemmas at
    the end show that these agree with the exact rational computation. */
module AspectCrop {
  import opened Wrappers
  import opened Geometry

  /** The division by zero the computation raises for a zero height, or for a
      zero source width when the target is not wider than the source. */
  datatype CropError = ZeroDivision

  /** The target is strictly wider than the source (ratios compared exactly).
      Only a target of positive width against a source of positive height
      can be wider. */
  predicate Wider(target: Size, src: Size): (b: bool)
    ensures b ==> target.width > 0 && src.height > 0
  {
    target.width * src.height > target.height * src.width
  }

  /** The side sizes for which the computation divides by zero: one of the
      two aspect ratios has a zero height, or the target is not wider and
      the height crop divides by a source ratio of zero. */
  predicate Undefined(target: Size, src: Size): (b: bool)
    ensures b <==> src.height == 0 || target.height == 0 || (!Wider(target, src) && src.width == 0)
  {
    if src.height > 0 then
      ZeroSourceWidth(target.width, target.height, src.width, src.height);
      target.height == 0 || (src.width == 0 && target.width == 0)
    else
      true
  }

  /** The crop box for a target of size `target` and a source of size `src`. */
  function CropBox(target: Size, src: Size): (r: Result<Box, CropError>)
    ensures r.Failure? <==> Undefined(target, src)
  {
    var tw, th, sw, sh := target.width, target.height, src.width, src.height;
    if sh == 0 || th == 0 then
      Failure(ZeroDivision)
    else
      ZeroSourceWidth(tw, th, sw, sh);
      if tw * sh > th * sw then
        var newWidth := (th * sw) / sh;
        var offset := (tw - newWidth) / 2;
        Success(Box(offset, 0, offset + newWidth, th))
      else if sw == 0 then
        Failure(ZeroDivision)
      else
        var newHeight := (tw * sh) / sw;
        var offset := (th - newHeight) / 2;
        Success(Box(0, offset, tw, offset + newHeight))
  }

  /** Helper: a source of width zero sends only a target of width zero to
      the height crop. */
  lemma ZeroSourceWidth(tw: nat, th: nat, sw: nat, sh: nat)
    requires sh > 0
    ensures sw == 0 ==> (tw * sh > th * sw <==> tw > 0)
  {
    if sw == 0 {
      assert th * sw == 0;
      if tw > 0 {
        MulMonotone(1, tw, sh);
      }
    }
  }

  /** Helper: a quotient bounded through its numerator. */
  lemma FloorDivAtMost(a: nat, b: nat, c: nat)
    requires b > 0 && a <= c * b
    ensures a / b <= c
  {
    FloorDivBounds(a, b);
    if a / b > c {
      MulMonotone(c + 1, a / b, b);
    }
  }

  /** Helper: multiplying by a natural number keeps the order. */
  lemma MulMonotone(x: int, y: int, k: nat)
    requires x <= y
    ensures x * k <= y * k
  {
  }

  /** Helper: the defining bounds of floor division. */
  lemma FloorDivBounds(a: nat, b: nat)
    requires b > 0
    ensures (a / b) * b <= a < (a / b + 1) * b
  {
  }

  /** The box lies inside the target and is not inverted. */
  lemma CropWithin(target: Size, src: Size)
    requires !Undefined(target, src)
    ensures Within(CropBox(target, src).value, target)
  {
    var tw, th, sw, sh := target.width, target.height, src.width, src.height;
    if Wider(target, src) {
      FloorDivAtMost(th * sw, sh, tw);
      CentredSpan(tw, (th * sw) / sh);
    } else {
      FloorDivAtMost(tw * sh, sw, th);
      CentredSpan(th, (tw * sh) / sw);
    }
  }

  /** Helper: a part centred with a floor-halved offset fits in the whole. */
  lemma CentredSpan(whole: nat, part: nat)
    requires part <= whole
    ensures 0 <= (whole - part) / 2 && (whole - part) / 2 + part <= whole
  {
  }

  /** The width is cropped exactly when the target is strictly wider than the
      source; equal ratios crop the height. The other side is kept whole. */
  lemma CropKeepsOneSide(target: Size, src: Size)
    requires !Undefined(target, src)
    ensures var b := CropBox(target, src).value;
            if Wider(target, src) then b.top == 0 && b.bottom == target.height
            else b.left == 0 && b.right == target.width
  {
  }

  /** The crop is centred: the margin before the box is at most the margin
      after it, which is at most one pixel more. */
  lemma CropCentred(target: Size, src: Size)
    requires !Undefined(target, src)
    ensures var b := CropBox(target, src).value;
            b.left <= target.width - b.right <= b.left + 1 &&
            b.top <= target.height - b.bottom <= b.top + 1
  {
  }

  /** The cropped side is the largest whole number of pixels that does not
      exceed the side the source's ratio calls for, so the box's ratio is the
      source's to within one pixel. */
  lemma CropRatio(target: Size, src: Size)
    requires !Undefined(target, src)
    ensures var b := CropBox(target, src).value;
            if Wider(target, src) then
              BoxWidth(b) * src.height <= BoxHeight(b) * src.width < (BoxWidth(b) + 1) * src.height
            else
              BoxHeight(b) * src.width <= BoxWidth(b) * src.height < (BoxHeight(b) + 1) * src.width
  {
    if Wider(target, src) {
      FloorDivBounds(target.height * src.width, src.height);
    } else {
      FloorDivBounds(target.width * src.height, src.width);
    }
  }

  /** A target that already has the source's aspect ratio is kept whole. */
  lemma SameAspectKeepsWhole(target: Size, src: Size)
    requires !Undefined(target, src)
    requires target.width * src.height == target.height * src.width
    ensures CropBox(target, src) == Success(Box(0, 0, target.width, target.height))
  {
    assert src.width > 0;
    MultipleDiv(target.height, src.width);
    assert (target.width * src.height) / src.width == target.height;
  }

  /** Helper: dividing an exact multiple. */
  lemma MultipleDiv(a: nat, b: nat)
    requires b > 0
    ensures (a * b) / b == a
  {
    var q, r := (a * b) / b, (a * b) % b;
    assert (a - q) * b == r;
    SmallMultipleIsZero(a - q, b, r);
  }

  /** Helper: the only multiple of b in [0, b) is 0. */
  lemma SmallMultipleIsZero(k: int, b: nat, m: int)
    requires b > 0 && 0 <= m < b && k * b == m
    ensures k == 0
  {
  }

  /** The aspect ratio width / height as an exact rational. */
  function Aspect(s: Size): (r: real)
    requires s.height > 0
    ensures r >= 0.0 && r * (s.height as real) == s.width as real
  {
    (s.width as real) / (s.height as real)
  }

  /** The integer comparison decides what comparing the two aspect ratios
      exactly decides. */
  lemma WiderMeansGreaterAspect(target: Size, src: Size)
    requires target.height > 0 && src.height > 0
    ensures Wider(target, src) <==> Aspect(target) > Aspect(src)
  {
    var tw, th, sw, sh := target.width as real, target.height as real, src.width as real, src.height as real;
    var k := th * sh;
    assert Aspect(target) * k == (target.width * src.height) as real;
    assert Aspect(src) * k == (target.height * src.width) as real;
    ScaleStrict(Aspect(target), Aspect(src), k);
  }

  /** Helper: scaling by a positive real keeps a strict order. */
  lemma ScaleStrict(x: real, y: real, k: real)
    requires k > 0.0
    ensures x > y <==> x * k > y * k
  {
  }

  /** The cropped side is the exact rational side the source ratio calls for,
      truncated: target height times the source ratio for a wider target,
      target width divided by it otherwise. */
  lemma CroppedSideIsTruncatedQuotient(target: Size, src: Size)
    requires !Undefined(target, src)
    ensures var b := CropBox(target, src).value;
            if Wider(target, src) then
              BoxWidth(b) == ((target.height as real) * Aspect(src)).Floor
            else
              BoxHeight(b) == ((target.width as real) / Aspect(src)).Floor
  {
    var b := CropBox(target, src).value;
    if Wider(target, src) {
      assert BoxWidth(b) == (target.height * src.width) / src.height;
      TruncatedProduct(target.height, src.width, src.height);
    } else {
      assert BoxHeight(b) == (target.width * src.height) / src.width;
      TruncatedQuotient(target.width, src.width, src.height);
    }
  }

  /** Helper: int(h * (w / d)) in exact arithmetic is the floor quotient. */
  lemma TruncatedProduct(h: nat, w: nat, d: nat)
    requires d > 0
    ensures ((h as real) * ((w as real) / (d as real))).Floor == (h * w) / d
  {
    var x := (h as real) * ((w as real) / (d as real));
    assert x * (d as real) == (h * w) as real;
    FloorOfQuotient(h * w, d, x);
  }

  /** Helper: int(t / (w / d)) in exact arithmetic is the floor quotient. */
  lemma TruncatedQuotient(t: nat, w: nat, d: nat)
    requires w > 0 && d > 0
    ensures ((t as real) / ((w as real) / (d as real))).Floor == (t * d) / w
  {
    var x := (t as real) / ((w as real) / (d as real));
    assert x == (t as real) * (d as real) / (w as real);
    assert x * (w as real) == (t * d) as real;
    FloorOfQuotient(t * d, w, x);
  }

  /** Helper: a real x with x * b == a truncates to the floor quotient a / b. */
  lemma FloorOfQuotient(a: nat, b: nat, x: real)
    requires b > 0 && x * (b as real) == a as real
    ensures x.Floor == a / b
  {
    var q := a / b;
    FloorDivBounds(a, b);
    assert (q as real) * (b as real) <= x * (b as real);
    assert x * (b as real) < ((q + 1) as real) * (b as real);
    assert q as real <= x < (q + 1) as real;
  }
}
