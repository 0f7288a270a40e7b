/**
  * The chromaticity classifier: the B8-B4-B2 composite of each (masked) pixel is
  * mapped by a fixed 3x3 matrix to a tristimulus value (X, Y, Z), normalised to
  * chromaticity coordinates x = X / (X + Y + Z + 1e-6), y = Y / (X + Y + Z + 1e-6),
  * and the pixel is colony (1) when y > -0.2622 x + 0.4321, otherwise 0.
  */
module Chromaticity {
  import opened Pixels
  import opened FloatExt

  datatype Xyz = Xyz(x: real, y: real, z: real)

  const Epsilon: real := 0.000001
  const Slope: real := -0.2622
  const Intercept: real := 0.4321

  /** `image[:, :, [4, 3, 1]]` for one pixel: B8, B4, B2 as r, g, b. */
  function Composite(p: Pixel): (c: Rgb)
    ensures c == Rgb(p.b8, p.b4, p.b2)
  {
    Select(p, 4, 3, 1)
  }

  /** The fixed linear map from the composite to tristimulus values. */
  function RgbToXyz(c: Rgb): (t: Xyz)
    ensures c == Rgb(0.0, 0.0, 0.0) ==> t == Xyz(0.0, 0.0, 0.0)
    ensures c.r >= 0.0 && c.g >= 0.0 && c.b >= 0.0 ==> t.x >= 0.0 && t.y >= 0.0 && t.z >= 0.0
  {
    Xyz(2.7689 * c.r + 1.7517 * c.g + 1.1302 * c.b,
        1.0000 * c.r + 4.5907 * c.g + 0.0601 * c.b,
        0.0000 * c.r + 0.0565 * c.g + 5.5943 * c.b)
  }

  /** The normalising sum `X + Y + Z + 1e-6`. */
  function ChromaSum(t: Xyz): (s: real)
    ensures t.x >= 0.0 && t.y >= 0.0 && t.z >= 0.0 ==> s >= Epsilon > 0.0
  {
    t.x + t.y + t.z + Epsilon
  }

  /** The chromaticity coordinates (x, y) with IEEE division by the sum. */
  function Chroma(t: Xyz): (xy: (Ext, Ext))
    ensures ChromaSum(t) != 0.0 ==>
      xy.0.Fin? && xy.1.Fin? && xy.0.v * ChromaSum(t) == t.x && xy.1.v * ChromaSum(t) == t.y
  {
    (Div(t.x, ChromaSum(t)), Div(t.y, ChromaSum(t)))
  }

  /** `left_boundary(x) = -0.2622 * x + 0.4321`. */
  function LeftBoundary(x: Ext): (r: Ext)
    ensures r.Fin? <==> x.Fin?
    ensures x.Fin? ==> r.v - Slope * x.v == Intercept
    ensures x == PosInf <==> r == NegInf
    ensures x == NegInf <==> r == PosInf
    ensures x == NaN <==> r == NaN
  {
    MulAdd(Slope, x, Intercept)
  }

  /** `(y > left_boundary(x)).astype(np.uint8)` at chromaticity `xy`. */
  function MaskValue(xy: (Ext, Ext)): (m: nat)
    ensures m == 0 || m == 1
    ensures m == 1 ==> xy.0 != NaN && xy.1 != NaN
  {
    if Gt(xy.1, LeftBoundary(xy.0)) then 1 else 0
  }

  /** The mask value of one pixel. */
  function Classify(p: Pixel): (m: nat)
    ensures m == 0 || m == 1
  {
    MaskValue(Chroma(RgbToXyz(Composite(p))))
  }

  /** The mask of a whole image, pixel by pixel. */
  function ClassifyImage(image: seq<Pixel>): (mask: seq<nat>)
    ensures |mask| == |image|
    ensures forall i :: 0 <= i < |mask| ==> (mask[i] == 0 || mask[i] == 1) && mask[i] == Classify(image[i])
  {
    seq(|image|, i requires 0 <= i < |image| => Classify(image[i]))
  }

  /** The matrix map is linear in the composite. */
  lemma RgbToXyzLinear(a: real, c: Rgb, d: Rgb)
    ensures RgbToXyz(Rgb(a * c.r + d.r, a * c.g + d.g, a * c.b + d.b)) ==
      var s, t := RgbToXyz(c), RgbToXyz(d);
      Xyz(a * s.x + t.x, a * s.y + t.y, a * s.z + t.z)
  {
  }

  /**
    * A pixel whose B8, B4 and B2 are zero, as every masked pixel is, lands at
    * chromaticity (0, 0), below the boundary, and is not colony.
    */
  lemma DarkPixelNotColony(p: Pixel)
    requires p.b8 == 0.0 && p.b4 == 0.0 && p.b2 == 0.0
    ensures Chroma(RgbToXyz(Composite(p))) == (Fin(0.0), Fin(0.0))
    ensures Classify(p) == 0
  {
    DarkTristimulus(p);
    OriginChromaticity();
  }

  /** Zero B8, B4 and B2 give zero tristimulus values. */
  lemma DarkTristimulus(p: Pixel)
    requires p.b8 == 0.0 && p.b4 == 0.0 && p.b2 == 0.0
    ensures RgbToXyz(Composite(p)) == Xyz(0.0, 0.0, 0.0)
  {
  }

  /** Zero tristimulus values give chromaticity (0, 0), which lies below the boundary. */
  lemma OriginChromaticity()
    ensures Chroma(Xyz(0.0, 0.0, 0.0)) == (Fin(0.0), Fin(0.0))
    ensures MaskValue((Fin(0.0), Fin(0.0))) == 0
  {
  }

  /**
    * With a nonzero sum the decision is a linear test on the tristimulus
    * values: the sign of the sum decides the direction of the inequality.
    */
  lemma ClassifyLinear(p: Pixel)
    requires ChromaSum(RgbToXyz(Composite(p))) != 0.0
    ensures var t := RgbToXyz(Composite(p)); var s := ChromaSum(t);
      Classify(p) == 1 <==>
        (s > 0.0 && t.y - Slope * t.x > Intercept * s) ||
        (s < 0.0 && t.y - Slope * t.x < Intercept * s)
  {
    MaskLinear(RgbToXyz(Composite(p)));
  }

  /** The linear form of the boundary test, for any tristimulus value with a nonzero sum. */
  lemma MaskLinear(t: Xyz)
    requires ChromaSum(t) != 0.0
    ensures var s := ChromaSum(t);
      MaskValue(Chroma(t)) == 1 <==>
        (s > 0.0 && t.y - Slope * t.x > Intercept * s) ||
        (s < 0.0 && t.y - Slope * t.x < Intercept * s)
  {
    var s := ChromaSum(t);
    var x, y := t.x / s, t.y / s;
    assert Chroma(t) == (Fin(x), Fin(y));
    assert MaskValue(Chroma(t)) == 1 <==> y > Slope * x + Intercept;
    var d := y - Slope * x - Intercept;
    assert d * s == t.y - Slope * t.x - Intercept * s;
    PositiveBySign(d, s);
  }

  /** The sign of `d` read off the product `d * s` and the sign of `s`. */
  lemma PositiveBySign(d: real, s: real)
    requires s != 0.0
    ensures d > 0.0 <==> (s > 0.0 && d * s > 0.0) || (s < 0.0 && d * s < 0.0)
  {
    if s > 0.0 {
      if d > 0.0 { assert d * s > 0.0; } else { assert d * s <= 0.0; }
    } else {
      if d > 0.0 { assert d * s < 0.0; } else { assert d * s >= 0.0; }
    }
  }

  /** A point exactly on the boundary line is not colony: the test is strict. */
  lemma OnBoundaryNotColony(x: real)
    ensures MaskValue((Fin(x), Fin(Slope * x + Intercept))) == 0
  {
  }

  /**
    * When the sum is exactly zero (possible only with negative reflectances) x and
    * y are infinite or NaN; the pixel is colony exactly when X and Y are both
    * positive (y = +inf against a boundary of -inf).
    */
  lemma ZeroSumClassify(p: Pixel)
    requires ChromaSum(RgbToXyz(Composite(p))) == 0.0
    ensures var t := RgbToXyz(Composite(p)); Classify(p) == 1 <==> t.x > 0.0 && t.y > 0.0
  {
  }

  /** Non-negative reflectances keep the sum positive, so x and y are always finite. */
  lemma NonNegativeSumPositive(p: Pixel)
    requires p.b8 >= 0.0 && p.b4 >= 0.0 && p.b2 >= 0.0
    ensures ChromaSum(RgbToXyz(Composite(p))) >= Epsilon
  {
  }

  /**
    * The example pixel (B8, B4, B2) = (0.6, 0.5, 0.5) has X = 3.10229, Y = 2.9254,
    * Z = 2.8254; y is about 0.3304 against a boundary of about 0.3402, so it is not colony.
    */
  lemma ExamplePixelNotColony()
    ensures Classify(Pixel(0.3, 0.5, 0.4, 0.5, 0.6, 0.1)) == 0
  {
    var p := Pixel(0.3, 0.5, 0.4, 0.5, 0.6, 0.1);
    assert RgbToXyz(Composite(p)) == Xyz(3.10229, 2.9254, 2.8254);
    ClassifyLinear(p);
  }
}
