/**
  * The script end to end: load the stacked image, keep a copy of its B4-B3-B2
  * composite, mask the image in place, classify it and scale the mask for saving.
  */
module Pipeline {
  import opened Wrappers
  import opened Pixels
  import opened Bands
  import opened Masking
  import opened Chromaticity
  import opened Output

  /** What a run produces: the unmasked true-colour copy, the 0/1 mask and the values written. */
  datatype Outcome = Outcome(originalRgb: seq<Rgb>, mask: seq<nat>, saved: seq<nat>)

  /** `image[:, :, [3, 2, 1]]` for one pixel: B4, B3, B2. */
  function TrueColour(p: Pixel): (c: Rgb)
    ensures c == Rgb(p.b4, p.b3, p.b2)
  {
    Select(p, 3, 2, 1)
  }

  /** The kept copy `image[:, :, [3, 2, 1]].copy()` of a whole image. */
  function TrueColourImage(image: seq<Pixel>): (rgb: seq<Rgb>)
    ensures |rgb| == |image|
    ensures forall i :: 0 <= i < |image| ==> rgb[i] == Rgb(image[i].b4, image[i].b3, image[i].b2)
  {
    seq(|image|, i requires 0 <= i < |image| => TrueColour(image[i]))
  }

  /** The image after the three masking rules, pixel by pixel. */
  function MaskedImage(image: seq<Pixel>): (masked: seq<Pixel>)
    ensures |masked| == |image|
    ensures forall i :: 0 <= i < |image| ==> masked[i] == Zero || masked[i] == image[i]
  {
    seq(|image|, i requires 0 <= i < |image| => Preprocessed(image[i]))
  }

  /**
    * A pixel is colony in the final mask exactly when no rule rejects it and its
    * unmasked bands classify as colony: a rejected pixel is never colony.
    */
  lemma FinalVerdict(p: Pixel)
    ensures Classify(Preprocessed(p)) == 1 <==>
      !Overbright(p) && !ExposedRock(p) && !Shadow(p) && Classify(p) == 1
  {
    PreprocessedZeroOrUnchanged(p);
    if Overbright(p) || ExposedRock(p) || Shadow(p) {
      DarkPixelNotColony(Zero);
    }
  }

  /** The final mask of an image, entry by entry: colony exactly where no rule rejects and the pixel classifies as colony. */
  lemma FinalMask(image: seq<Pixel>, i: nat)
    requires i < |image|
    ensures |ClassifyImage(MaskedImage(image))| == |image|
    ensures ClassifyImage(MaskedImage(image))[i] == 1 <==>
      !Overbright(image[i]) && !ExposedRock(image[i]) && !Shadow(image[i]) && Classify(image[i]) == 1
  {
    assert MaskedImage(image)[i] == Preprocessed(image[i]);
    FinalVerdict(image[i]);
  }

  /** Runs the script on a raster given by its band descriptions and bands. */
  method Run(descriptions: seq<Option<string>>, raster: seq<seq<real>>) returns (r: Result<Outcome, LoadError>)
    requires |raster| == |descriptions| && SameSize(raster) && NonEmptyBands(raster)
    ensures r.Err? <==> Load(descriptions, raster).Err?
    ensures r.Err? ==> r.error == Load(descriptions, raster).error
    ensures r.Ok? ==> var image := Load(descriptions, raster).value;
      r.value.originalRgb == TrueColourImage(image) &&
      r.value.mask == ClassifyImage(MaskedImage(image)) &&
      r.value.saved == ScaleForSave(r.value.mask)
    ensures r.Ok? ==> forall i :: 0 <= i < |r.value.saved| ==>
      (r.value.saved[i] == 255 <==> r.value.mask[i] == 1) && (r.value.saved[i] == 0 <==> r.value.mask[i] == 0)
  {
    var loaded := Load(descriptions, raster);
    if loaded.Err? {
      return Err(loaded.error);
    }
    var pixels := loaded.value;
    var image := new Pixel[|pixels|](i requires 0 <= i < |pixels| => pixels[i]);
    assert image[..] == pixels;
    var originalRgb := TrueColourImage(image[..]);
    Preprocess(image);
    assert image[..] == MaskedImage(pixels);
    var mask := ClassifyImage(image[..]);
    var saved := ScaleForSave(mask);
    BinaryMaskSaved(mask);
    r := Ok(Outcome(originalRgb, mask, saved));
  }
}
