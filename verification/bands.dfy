/**
  * Band loading: each required band name is resolved to a band number through
  * the raster's band descriptions, the bands are read by number and stacked
  * along a last axis in required order.
  *
  * A raster is given as its description list (one entry per band, `None` for a
  * band without a description) and its bands, band number `n` being
  * `raster[n - 1]`, each a row-major sequence of the band's pixels.
  */
module Bands {
  import opened Wrappers
  import opened Pixels

  /** The band names the script needs, in the order they are stacked. */
  const RequiredBands: seq<string> := ["B1", "B2", "B3", "B4", "B8", "B12"]

  /**
    * A required band that no description names. The script fails with the
    * `ValueError` of `tuple.index`, which does not say which band; the name
    * carried here is the model's addition.
    */
  datatype LoadError = MissingBand(name: string)

  /** `descriptions.index(name)`: the position of the first occurrence, or None where Python raises. */
  function IndexOf(descriptions: seq<Option<string>>, name: string): (r: Option<nat>)
    ensures r.Some? <==> Some(name) in descriptions
    ensures r.Some? ==> r.value < |descriptions| && descriptions[r.value] == Some(name)
    ensures r.Some? ==> Some(name) !in descriptions[..r.value]
  {
    if |descriptions| == 0 then None
    else if descriptions[0] == Some(name) then Some(0)
    else match IndexOf(descriptions[1..], name)
      case None => None
      case Some(i) =>
        assert descriptions[..i + 1] == [descriptions[0]] + descriptions[1..][..i];
        Some(i + 1)
  }

  /**
    * The band numbers `[descriptions.index(n) + 1 for n in names]`, evaluated left
    * to right, so the error names the first missing band.
    */
  function ResolveBands(descriptions: seq<Option<string>>, names: seq<string>): (r: Result<seq<nat>, LoadError>)
    ensures r.Ok? <==> forall k :: 0 <= k < |names| ==> Some(names[k]) in descriptions
    ensures r.Ok? ==> |r.value| == |names|
    ensures r.Err? ==> exists k :: (0 <= k < |names| && r.error == MissingBand(names[k]) &&
      Some(names[k]) !in descriptions &&
      forall j :: 0 <= j < k ==> Some(names[j]) in descriptions)
  {
    if |names| == 0 then Ok([])
    else match IndexOf(descriptions, names[0])
      case None => Err(MissingBand(names[0]))
      case Some(i) =>
        match ResolveBands(descriptions, names[1..])
        case Err(e) =>
          assert forall k :: 1 <= k < |names| ==> names[k] == names[1..][k - 1];
          Err(e)
        case Ok(rest) => Ok([i + 1] + rest)
  }

  /**
    * The band number resolved for each name is `descriptions.index(name) + 1`,
    * so it describes that name and no earlier band does.
    */
  lemma {:induction false} ResolvedIsFirstIndex(descriptions: seq<Option<string>>, names: seq<string>, numbers: seq<nat>)
    requires ResolveBands(descriptions, names) == Ok(numbers)
    ensures |numbers| == |names|
    ensures forall k :: 0 <= k < |names| ==>
      1 <= numbers[k] <= |descriptions| && descriptions[numbers[k] - 1] == Some(names[k]) &&
      Some(names[k]) !in descriptions[..numbers[k] - 1]
    ensures forall k :: 0 <= k < |names| ==> IndexOf(descriptions, names[k]) == Some(numbers[k] - 1)
  {
    if |names| > 0 {
      ResolvedIsFirstIndex(descriptions, names[1..], numbers[1..]);
      forall k | 1 <= k < |names|
        ensures IndexOf(descriptions, names[k]) == Some(numbers[k] - 1)
      {
        assert names[k] == names[1..][k - 1] && numbers[k] == numbers[1..][k - 1];
      }
    }
  }

  /** Every band of the raster has at least one pixel (a zero-sized raster cannot be opened). */
  predicate NonEmptyBands(raster: seq<seq<real>>)
  {
    forall b :: 0 <= b < |raster| ==> |raster[b]| > 0
  }

  /** All bands of the raster have the same number of pixels. */
  predicate SameSize(raster: seq<seq<real>>)
  {
    forall b, c :: 0 <= b < |raster| && 0 <= c < |raster| ==> |raster[b]| == |raster[c]|
  }

  /** The bands with the given numbers, in the order given: `[src.read(n) for n in numbers]`. */
  function ReadBands(raster: seq<seq<real>>, numbers: seq<nat>): (planes: seq<seq<real>>)
    requires SameSize(raster)
    requires forall k :: 0 <= k < |numbers| ==> 1 <= numbers[k] <= |raster|
    ensures |planes| == |numbers| && SameSize(planes)
    ensures forall k :: 0 <= k < |numbers| ==> planes[k] == raster[numbers[k] - 1]
  {
    seq(|numbers|, k requires 0 <= k < |numbers| => raster[numbers[k] - 1])
  }

  /** `np.stack(planes, axis=-1)` of six equally sized planes. */
  function Stack(planes: seq<seq<real>>): (image: seq<Pixel>)
    requires |planes| == ChannelCount && SameSize(planes)
    ensures |image| == |planes[0]|
    ensures forall i, k :: 0 <= i < |image| && 0 <= k < ChannelCount ==> Channel(image[i], k) == planes[k][i]
  {
    seq(|planes[0]|, i requires 0 <= i < |planes[0]| =>
      FromChannels([planes[0][i], planes[1][i], planes[2][i], planes[3][i], planes[4][i], planes[5][i]]))
  }

  /**
    * Loads the image: resolves every required band, reads band `index + 1` for
    * each and stacks them. Fails with the first missing band name.
    */
  function Load(descriptions: seq<Option<string>>, raster: seq<seq<real>>): (r: Result<seq<Pixel>, LoadError>)
    requires |raster| == |descriptions| && SameSize(raster) && NonEmptyBands(raster)
    ensures r.Ok? <==> forall k :: 0 <= k < ChannelCount ==> Some(RequiredBands[k]) in descriptions
    ensures r.Err? ==> exists k :: (0 <= k < ChannelCount && r.error == MissingBand(RequiredBands[k]) &&
      Some(RequiredBands[k]) !in descriptions)
    ensures r.Ok? ==> |raster| > 0 && |r.value| == |raster[0]| > 0
  {
    match ResolveBands(descriptions, RequiredBands)
    case Err(e) => Err(e)
    case Ok(numbers) =>
      assert |RequiredBands| == ChannelCount;
      ResolvedIsFirstIndex(descriptions, RequiredBands, numbers);
      Ok(Stack(ReadBands(raster, numbers)))
  }

  /**
    * The loaded image's channels come in required order: channel k of every
    * pixel is read from the band whose description is the k-th required name
    * (its first occurrence).
    */
  lemma LoadedChannels(descriptions: seq<Option<string>>, raster: seq<seq<real>>)
    requires |raster| == |descriptions| && SameSize(raster) && NonEmptyBands(raster)
    requires Load(descriptions, raster).Ok?
    ensures var image := Load(descriptions, raster).value;
      forall i, k :: 0 <= i < |image| && 0 <= k < ChannelCount ==>
        IndexOf(descriptions, RequiredBands[k]).Some? &&
        Channel(image[i], k) == raster[IndexOf(descriptions, RequiredBands[k]).value][i]
  {
    var numbers := ResolveBands(descriptions, RequiredBands).value;
    assert |RequiredBands| == ChannelCount;
    ResolvedIsFirstIndex(descriptions, RequiredBands, numbers);
  }
}
