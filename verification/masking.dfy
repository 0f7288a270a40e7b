/**
  * The masking preprocessor. Three rejection rules run in order over the image,
  * each zeroing every band of the pixels it rejects, in place:
  * overbright (B4 > 1), exposed rock (-0.196 <= ERI <= 0.679, where
  * ERI = (B8 - B12) / (B8 + B12) and a zero denominator is replaced by NaN)
  * and shadow (B2 < 0.25). Each rule reads the image as the previous rules
  * left it.
  */
module Masking {
  import opened Pixels
  import opened FloatExt

  const OverbrightLimit: real := 1.0
  const EriLow: real := -0.196
  const EriHigh: real := 0.679
  const ShadowLimit: real := 0.25

  /** Saturated pixel: B4 above 1. */
  predicate Overbright(p: Pixel)
    ensures Overbright(p) ==> p != Zero
  {
    p.b4 > OverbrightLimit
  }

  /** The Exposed Rock Index, NaN where B8 + B12 is 0. */
  function Eri(p: Pixel): (e: Ext)
    ensures e == NaN <==> p.b8 + p.b12 == 0.0
    ensures e != NaN ==> e.Fin? && e.v * (p.b8 + p.b12) == p.b8 - p.b12
  {
    var denominator := if p.b8 + p.b12 == 0.0 then NaN else Fin(p.b8 + p.b12);
    match denominator
    case Fin(d) => Fin((p.b8 - p.b12) / d)
    case _ => NaN
  }

  /** `(ERI >= -0.196) & (ERI <= 0.679)`, both comparisons false on NaN. */
  predicate ExposedRock(p: Pixel)
    ensures ExposedRock(p) ==> p.b8 + p.b12 != 0.0 && p != Zero
  {
    Ge(Eri(p), Fin(EriLow)) && Le(Eri(p), Fin(EriHigh))
  }

  /** Shadowed pixel: B2 below 0.25. */
  predicate Shadow(p: Pixel)
    ensures p == Zero ==> Shadow(p)
  {
    p.b2 < ShadowLimit
  }

  /** A pixel after one rule: zeroed if the rule rejects it, untouched otherwise. */
  function ApplyRule(reject: Pixel -> bool, p: Pixel): (r: Pixel)
    ensures r == Zero || r == p
    ensures r == p <==> !reject(p) || p == Zero
  {
    if reject(p) then Zero else p
  }

  /** A pixel after the three rules, each applied to what the previous one left. */
  function Preprocessed(p: Pixel): (r: Pixel)
    ensures r == Zero || r == p
    ensures r != Zero ==> !Overbright(r) && !ExposedRock(r) && !Shadow(r)
  {
    ApplyRule(Shadow, ApplyRule(ExposedRock, ApplyRule(Overbright, p)))
  }

  /** The exposed-rock rule in terms of the reals: a defined ERI inside the closed interval. */
  lemma ExposedRockExactly(p: Pixel)
    ensures ExposedRock(p) <==>
      p.b8 + p.b12 != 0.0 && EriLow <= (p.b8 - p.b12) / (p.b8 + p.b12) <= EriHigh
  {
    if p.b8 + p.b12 != 0.0 {
      FiniteComparisons((p.b8 - p.b12) / (p.b8 + p.b12), EriLow);
      FiniteComparisons((p.b8 - p.b12) / (p.b8 + p.b12), EriHigh);
    }
  }

  /** A zero denominator exempts a pixel from the exposed-rock rule, whatever its other bands. */
  lemma ZeroDenominatorNotRock(p: Pixel)
    requires p.b8 + p.b12 == 0.0
    ensures !ExposedRock(p)
  {
    NaNComparesFalse(Fin(EriLow));
  }

  /**
    * A pixel is zeroed by the preprocessing exactly when one of the rules
    * rejects it as loaded; otherwise it keeps every band. A pixel zeroed by an
    * earlier rule is not affected by the later ones (it stays all-zero).
    */
  lemma PreprocessedZeroOrUnchanged(p: Pixel)
    ensures Preprocessed(p) == if Overbright(p) || ExposedRock(p) || Shadow(p) then Zero else p
  {
    ZeroDenominatorNotRock(Zero);
  }

  /** What a surviving pixel satisfies: none of the three rules holds of it, stated over the reals. */
  lemma SurvivorPasses(p: Pixel)
    requires Preprocessed(p) != Zero
    ensures Preprocessed(p) == p
    ensures p.b4 <= OverbrightLimit && p.b2 >= ShadowLimit
    ensures p.b8 + p.b12 == 0.0 ||
      (p.b8 - p.b12) / (p.b8 + p.b12) < EriLow || (p.b8 - p.b12) / (p.b8 + p.b12) > EriHigh
  {
    PreprocessedZeroOrUnchanged(p);
    ExposedRockExactly(p);
  }

  /** Running the preprocessing twice changes nothing more. */
  lemma PreprocessedIdempotent(p: Pixel)
    ensures Preprocessed(Preprocessed(p)) == Preprocessed(p)
  {
    PreprocessedZeroOrUnchanged(p);
    PreprocessedZeroOrUnchanged(Zero);
  }

  /**
    * The pixel B1=0.3, B2=0.5, B3=0.4, B4=0.5, B8=0.6, B12=0.1 survives: its
    * ERI is 0.5/0.7, about 0.714, above 0.679.
    */
  lemma ExamplePixelSurvives()
    ensures Preprocessed(Pixel(0.3, 0.5, 0.4, 0.5, 0.6, 0.1)) == Pixel(0.3, 0.5, 0.4, 0.5, 0.6, 0.1)
  {
    var p := Pixel(0.3, 0.5, 0.4, 0.5, 0.6, 0.1);
    ExposedRockExactly(p);
    assert (p.b8 - p.b12) / (p.b8 + p.b12) == 5.0 / 7.0;
    PreprocessedZeroOrUnchanged(p);
  }

  /** `image[rejected] = 0`, with `rejected` computed from the image as it is when the statement runs. */
  method ZeroWhere(image: array<Pixel>, reject: Pixel -> bool)
    modifies image
    ensures forall i :: 0 <= i < image.Length ==> image[i] == ApplyRule(reject, old(image[i]))
  {
    var i := 0;
    while i < image.Length
      invariant 0 <= i <= image.Length
      invariant forall j :: 0 <= j < i ==> image[j] == ApplyRule(reject, old(image[j]))
      invariant forall j :: i <= j < image.Length ==> image[j] == old(image[j])
    {
      if reject(image[i]) {
        image[i] := Zero;
      }
      i := i + 1;
    }
  }

  /** The three rules, in the script's order, on the image in place. */
  method Preprocess(image: array<Pixel>)
    modifies image
    ensures forall i :: 0 <= i < image.Length ==> image[i] == Preprocessed(old(image[i]))
  {
    ZeroWhere(image, Overbright);
    ZeroWhere(image, ExposedRock);
    ZeroWhere(image, Shadow);
  }
}
