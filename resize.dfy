/**
 The input-size rule of `limitar_tamano`: an image whose larger side exceeds
 `MAX_INPUT_SIDE` pixels is scaled down, both sides by the same factor
 `512 / larger side`, each truncated to a whole pixel count. Only the target
 size is modelled; the resampling of pixel content is not.
 */
module Resize {

  /** `MAX_INPUT_SIDE`: the largest side, in pixels, handed to the enhancement model. */
  const MaxInputSide: nat := 512

  function Max(a: nat, b: nat): nat
  {
    if a >= b then a else b
  }

  /** One side scaled by `MaxInputSide / larger`, truncated: the floor of `side * 512 / larger`. */
  function ScaleSide(side: nat, larger: nat): (r: nat)
    requires larger > MaxInputSide && side <= larger
    ensures r * larger <= side * MaxInputSide < (r + 1) * larger
    ensures r <= MaxInputSide && r <= side
    ensures side > 0 ==> r < side
  {
    var r := side * MaxInputSide / larger;
    ScaleSideBounds(side, larger, r);
    r
  }

  lemma ScaleSideBounds(side: nat, larger: nat, r: nat)
    requires larger > MaxInputSide && side <= larger
    requires r == side * MaxInputSide / larger
    ensures r * larger <= side * MaxInputSide < (r + 1) * larger
    ensures r <= MaxInputSide && r <= side
    ensures side > 0 ==> r < side
  {
    var p := side * MaxInputSide;
    assert r * larger + p % larger == p;
    assert r * larger <= p < (r + 1) * larger;
    MulMonotone(side, larger, MaxInputSide);
    assert p <= MaxInputSide * larger;
    CancelFactor(MaxInputSide + 1, r, larger);
    if side > 0 {
      StrictMulMonotone(MaxInputSide, larger, side);
      assert p < side * larger;
      CancelFactor(side, r, larger);
    }
  }

  /**
   `limitar_tamano`'s target (width, height) for an image of `w` x `h`
   pixels: unchanged when the larger side is at most 512, otherwise both
   sides shrunk by the common factor `512 / max(w, h)` and truncated.
   */
  function LimitSize(w: nat, h: nat): (r: (nat, nat))
    ensures Max(w, h) <= MaxInputSide ==> r == (w, h)
    ensures Max(w, h) > MaxInputSide ==>
      r.0 <= MaxInputSide && r.1 <= MaxInputSide && r.0 <= w && r.1 <= h
  {
    var larger := Max(w, h);
    if larger <= MaxInputSide then (w, h)
    else (ScaleSide(w, larger), ScaleSide(h, larger))
  }

  // ----------------------------------------------------------------------
  // Properties
  // ----------------------------------------------------------------------

  /** After the rule, no side exceeds 512 pixels and no side has grown. */
  lemma LimitSizeBounded(w: nat, h: nat)
    ensures Max(LimitSize(w, h).0, LimitSize(w, h).1) <= MaxInputSide
    ensures LimitSize(w, h).0 <= w && LimitSize(w, h).1 <= h
  {
  }

  /** Applying the rule to its own result changes nothing. */
  lemma LimitSizeIdempotent(w: nat, h: nat)
    ensures LimitSize(LimitSize(w, h).0, LimitSize(w, h).1) == LimitSize(w, h)
  {
    LimitSizeBounded(w, h);
  }

  /**
   Each new side is the truncation of the exact scaled side: the new width
   times the larger side is at most `w * 512` and less than one more pixel.
   */
  lemma LimitSizeIsTruncatedScale(w: nat, h: nat)
    requires Max(w, h) > MaxInputSide
    ensures LimitSize(w, h).0 * Max(w, h) <= w * MaxInputSide < (LimitSize(w, h).0 + 1) * Max(w, h)
    ensures LimitSize(w, h).1 * Max(w, h) <= h * MaxInputSide < (LimitSize(w, h).1 + 1) * Max(w, h)
  {
  }

  /** A scaled image is strictly smaller along every side that was not already empty. */
  lemma LimitSizeShrinks(w: nat, h: nat)
    requires Max(w, h) > MaxInputSide
    ensures w > 0 ==> LimitSize(w, h).0 < w
    ensures h > 0 ==> LimitSize(w, h).1 < h
  {
  }

  /** The orientation survives: a side that was not longer than the other is still not longer. */
  lemma LimitSizeKeepsOrientation(w: nat, h: nat)
    ensures w <= h ==> LimitSize(w, h).0 <= LimitSize(w, h).1
    ensures h <= w ==> LimitSize(w, h).1 <= LimitSize(w, h).0
  {
    var larger := Max(w, h);
    if larger > MaxInputSide {
      if w <= h {
        MulMonotone(w, h, MaxInputSide);
        DivMonotone(w * MaxInputSide, h * MaxInputSide, larger);
      }
      if h <= w {
        MulMonotone(h, w, MaxInputSide);
        DivMonotone(h * MaxInputSide, w * MaxInputSide, larger);
      }
    }
  }

  lemma MulMonotone(a: nat, b: nat, c: nat)
    requires a <= b
    ensures a * c <= b * c
  {
  }

  lemma DivMonotone(a: nat, b: nat, d: nat)
    requires a <= b && d > 0
    ensures a / d <= b / d
  {
    var qa, qb := a / d, b / d;
    assert qa * d <= a;
    assert b < (qb + 1) * d;
    if qa > qb {
      MulMonotone(qb + 1, qa, d);
      assert false;
    }
  }

  /**
   The aspect ratio is kept up to truncation: with (w', h') the new size of
   an image with two non-empty sides, `w' * h - h' * w` lies strictly
   between `-h` and `w`, so w'/h' is w/h up to less than one pixel of
   either new side.
   */
  lemma LimitSizeKeepsAspect(w: nat, h: nat)
    requires Max(w, h) > MaxInputSide
    requires w > 0 && h > 0
    ensures -(h as int) < LimitSize(w, h).0 * h - LimitSize(w, h).1 * w < w
  {
    LimitSizeIsTruncatedScale(w, h);
    CrossProductBounds(w, h, Max(w, h), MaxInputSide, LimitSize(w, h).0, LimitSize(w, h).1);
  }

  /** If a = floor(c w / L) and b = floor(c h / L), then a h - b w lies strictly between -h and w. */
  lemma CrossProductBounds(w: nat, h: nat, L: nat, c: nat, a: nat, b: nat)
    requires L > 0 && w > 0 && h > 0
    requires a * L <= c * w < (a + 1) * L
    requires b * L <= c * h < (b + 1) * L
    ensures -(h as int) < a * h - b * w < w
  {
    CrossProductUpper(w, h, L, c, a, b);
    CrossProductUpper(h, w, L, c, b, a);
  }

  /** The upper half of CrossProductBounds; the lower half is this one with the sides swapped. */
  lemma CrossProductUpper(w: nat, h: nat, L: nat, c: nat, a: nat, b: nat)
    requires L > 0 && w > 0
    requires a * L <= c * w
    requires c * h < (b + 1) * L
    ensures a * h - b * w < w
  {
    MulMonotone(a * L, c * w, h);
    StrictMulMonotone(c * h, (b + 1) * L, w);
    assert (c * w) * h == (c * h) * w;
    assert ((b + 1) * L) * w == (b * L) * w + L * w;
    var d := a * h - b * w;
    assert d * L == (a * L) * h - (b * L) * w;
    assert d * L < (w as int) * L;
    CancelFactor(w as int, d, L);
  }

  lemma StrictMulMonotone(a: nat, b: nat, c: nat)
    requires a < b && c > 0
    ensures a * c < b * c
  {
  }

  lemma CancelFactor(x: int, y: int, c: nat)
    requires c > 0 && x * c > y * c
    ensures x > y
  {
  }

  /**
   A side of a shrunk image comes out empty exactly when it was under
   `1 / 512` of the larger side: the rule does not keep sides positive,
   so a 2000 x 1 image is given a height of 0.
   */
  lemma LimitSizePositiveIff(w: nat, h: nat)
    requires Max(w, h) > MaxInputSide
    ensures LimitSize(w, h).0 > 0 <==> w * MaxInputSide >= Max(w, h)
    ensures LimitSize(w, h).1 > 0 <==> h * MaxInputSide >= Max(w, h)
  {
    LimitSizeIsTruncatedScale(w, h);
    PositiveFloorIff(LimitSize(w, h).0, w * MaxInputSide, Max(w, h));
    PositiveFloorIff(LimitSize(w, h).1, h * MaxInputSide, Max(w, h));
  }

  lemma PositiveFloorIff(q: nat, p: nat, d: nat)
    requires d > 0 && q * d <= p < (q + 1) * d
    ensures q > 0 <==> p >= d
  {
    if q > 0 {
      assert q * d >= d;
    }
  }

  /** A 2000 x 1 image is given the size 512 x 0. */
  lemma ThinImageCollapses()
    ensures LimitSize(2000, 1) == (512, 0)
  {
  }
}
