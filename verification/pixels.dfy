/**
  * One pixel of the stacked image: one reflectance per required band, in the
  * order the loader stacks them (B1, B2, B3, B4, B8, B12 at channel indices 0..5).
  */
module Pixels {

  datatype Pixel = Pixel(b1: real, b2: real, b3: real, b4: real, b8: real, b12: real)

  /** A three-band composite, as produced by selecting three channels of a pixel. */
  datatype Rgb = Rgb(r: real, g: real, b: real)

  const ChannelCount: nat := 6

  /** A rejected pixel: every band set to 0. */
  const Zero: Pixel := Pixel(0.0, 0.0, 0.0, 0.0, 0.0, 0.0)

  /** Channel `k` of a pixel, i.e. `image[row, col, k]`. */
  function Channel(p: Pixel, k: nat): real
    requires k < ChannelCount
  {
    if k == 0 then p.b1
    else if k == 1 then p.b2
    else if k == 2 then p.b3
    else if k == 3 then p.b4
    else if k == 4 then p.b8
    else p.b12
  }

  /** The pixel whose channels are `c[0]`, ..., `c[5]`. */
  function FromChannels(c: seq<real>): (p: Pixel)
    requires |c| == ChannelCount
    ensures forall k :: 0 <= k < ChannelCount ==> Channel(p, k) == c[k]
  {
    Pixel(c[0], c[1], c[2], c[3], c[4], c[5])
  }

  /** Fancy indexing of the last axis with three indices, `image[:, :, [i, j, k]]`, for one pixel. */
  function Select(p: Pixel, i: nat, j: nat, k: nat): (c: Rgb)
    requires i < ChannelCount && j < ChannelCount && k < ChannelCount
    ensures c.r == Channel(p, i) && c.g == Channel(p, j) && c.b == Channel(p, k)
    ensures p == Zero ==> c == Rgb(0.0, 0.0, 0.0)
  {
    Rgb(Channel(p, i), Channel(p, j), Channel(p, k))
  }
}
