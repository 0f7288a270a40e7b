# NIR-R-B emperor penguin colony detector — Dafny model

This project models the per-pixel core of `run_CIE_NIRRB.py`, a script that finds
emperor penguin colonies in a six-band satellite raster (bands B1, B2, B3, B4, B8,
B12). The script

1. resolves each required band name through the raster's band descriptions and
   stacks the bands it reads, in required order, into an image of six-channel pixels;
2. keeps a copy of the unmasked B4-B3-B2 composite for display;
3. masks the image in place with three rules applied in order — overbright
   (B4 > 1), exposed rock (-0.196 <= ERI <= 0.679 with ERI = (B8 - B12)/(B8 + B12),
   a zero denominator being replaced by NaN so the pixel is exempt) and shadow
   (B2 < 0.25) — each zeroing all six bands of the pixels it rejects;
4. maps the B8-B4-B2 composite through a fixed 3x3 matrix to (X, Y, Z), normalises
   to x = X/(X+Y+Z+1e-6), y = Y/(X+Y+Z+1e-6), and marks colony where
   y > -0.2622 x + 0.4321;
5. writes the mask times 255 as an 8-bit raster to `output/<stem>_NIRRB_output.tif`.

Modules, one per stage: `Pixels` (the six-channel pixel and channel selection),
`FloatExt` (the float64 special values +inf, -inf and NaN over exact reals, with the
IEEE outcome of the few operations the script applies), `Bands` (loader), `Masking`
(preprocessor; an imperative method over `array<Pixel>` specified by the pure
per-pixel function `Preprocessed`), `Chromaticity` (classifier), `Output` (scaling
and output path) and `Pipeline` (the whole run). `Wrappers` holds Option and Result.

Reflectances are `real`, so thresholds, the matrix and the boundary are exact. The
image is a flat row-major sequence (or array) of pixels: every rule and the
classifier act on each pixel on its own, so the two-dimensional shape plays no part.
A band description missing in the file (`None`) is `None` in the description list.

A missing band makes `descriptions.index` raise a `ValueError` at the first missing
required name, in required order; the model returns `MissingBand(name)` there
(the name is the model's addition: the script's error does not carry it). The three
rejection rules can overlap — one pixel may meet several — and their order only
matters in that later rules read the pixels earlier rules already zeroed.

## Model

| member | source | states |
|---|---|---|
| `Bands.IndexOf` | CIE_for_emperor_penguin/run_CIE_NIRRB.py:24 | finds a name exactly when it is among the descriptions, at its first occurrence |
| `Bands.ResolveBands` | CIE_for_emperor_penguin/run_CIE_NIRRB.py:21-24 | succeeds iff every required name is described, with one band number per name; otherwise fails naming the first missing band in required order |
| `Bands.ResolvedIsFirstIndex` | CIE_for_emperor_penguin/run_CIE_NIRRB.py:24 | every resolved band number equals `descriptions.index(name) + 1`: a band that describes the name, with no earlier band describing it |
| `Bands.ReadBands` | CIE_for_emperor_penguin/run_CIE_NIRRB.py:24 | the k-th band read is band number `numbers[k]`, and all have the same size |
| `Bands.Stack` | CIE_for_emperor_penguin/run_CIE_NIRRB.py:27 | channel k of pixel i of the stack is pixel i of the k-th plane |
| `Bands.Load` | CIE_for_emperor_penguin/run_CIE_NIRRB.py:21-27 | for a raster whose bands are equally sized and non-empty, loading fails iff some required band is missing, naming a missing one; on success the image has one pixel per band pixel, at least one |
| `Bands.LoadedChannels` | CIE_for_emperor_penguin/run_CIE_NIRRB.py:21-27 | channel k of every loaded pixel comes from the band whose description is the k-th required name (first occurrence), so channels are in B1, B2, B3, B4, B8, B12 order |
| `FloatExt.Div` | CIE_for_emperor_penguin/run_CIE_NIRRB.py:59-60 | division is finite iff the denominator is nonzero, then an exact quotient; 0/0 is NaN and a positive value over 0 is +inf |
| `FloatExt.MulAdd` | CIE_for_emperor_penguin/run_CIE_NIRRB.py:64 | `k * x + c` is finite iff x is; NaN iff x is NaN or an infinity is multiplied by 0; a negative factor turns +inf into -inf and back |
| `FloatExt.Le` | CIE_for_emperor_penguin/run_CIE_NIRRB.py:42 | `a <= b` is false whenever either side is NaN and is the real `<=` on finite values |
| `FloatExt.Ge` | CIE_for_emperor_penguin/run_CIE_NIRRB.py:42 | `a >= b` is false whenever either side is NaN and is the real `>=` on finite values |
| `FloatExt.FiniteComparisons` | CIE_for_emperor_penguin/run_CIE_NIRRB.py:42 | on finite operands `>`, `<=` and `>=` agree with the reals |
| `FloatExt.Gt` | CIE_for_emperor_penguin/run_CIE_NIRRB.py:66 | `a > b` holds only when neither is NaN, a is not -inf and b is not +inf |
| `FloatExt.GtStrictOrder` | CIE_for_emperor_penguin/run_CIE_NIRRB.py:66 | `>` is irreflexive, asymmetric and transitive, with -inf below and +inf above every finite value |
| `FloatExt.NaNComparesFalse` | CIE_for_emperor_penguin/run_CIE_NIRRB.py:40-42 | every ordering comparison involving NaN is false |
| `Masking.Overbright` | CIE_for_emperor_penguin/run_CIE_NIRRB.py:34-35 | an overbright pixel (B4 > 1) is never an all-zero pixel |
| `Masking.ApplyRule` | CIE_for_emperor_penguin/run_CIE_NIRRB.py:35-45 | one rule on one pixel leaves it all-zero or unchanged, unchanged exactly when the rule does not reject it or it is already all-zero |
| `Masking.Eri` | CIE_for_emperor_penguin/run_CIE_NIRRB.py:38-41 | ERI is NaN exactly when B8 + B12 is 0, and otherwise is the quotient (B8 - B12)/(B8 + B12) |
| `Masking.ExposedRock` | CIE_for_emperor_penguin/run_CIE_NIRRB.py:38-42 | a pixel the rock rule rejects has a nonzero denominator B8 + B12 and is not all-zero |
| `Masking.Shadow` | CIE_for_emperor_penguin/run_CIE_NIRRB.py:45 | an all-zero pixel always meets the shadow rule (B2 = 0 < 0.25), so zeroing it again changes nothing |
| `Masking.Preprocessed` | CIE_for_emperor_penguin/run_CIE_NIRRB.py:34-45 | after the three rules a pixel is either all-zero or unchanged, and a pixel left nonzero meets none of the rules |
| `Masking.ExposedRockExactly` | CIE_for_emperor_penguin/run_CIE_NIRRB.py:39-42 | the rock rule rejects exactly the pixels with a nonzero denominator and ERI in the closed interval [-0.196, 0.679] |
| `Masking.ZeroDenominatorNotRock` | CIE_for_emperor_penguin/run_CIE_NIRRB.py:39-42 | a pixel with B8 + B12 = 0 is never rejected by the rock rule |
| `Masking.PreprocessedZeroOrUnchanged` | CIE_for_emperor_penguin/run_CIE_NIRRB.py:34-45 | after the three rules a pixel is all-zero exactly when one rule rejects its loaded values, and is otherwise unchanged; zeroed pixels stay zero through later rules |
| `Masking.SurvivorPasses` | CIE_for_emperor_penguin/run_CIE_NIRRB.py:34-45 | a surviving pixel is unchanged and has B4 <= 1, B2 >= 0.25 and an undefined ERI or one strictly outside [-0.196, 0.679] |
| `Masking.PreprocessedIdempotent` | CIE_for_emperor_penguin/run_CIE_NIRRB.py:34-45 | masking an already masked pixel changes nothing |
| `Masking.ExamplePixelSurvives` | CIE_for_emperor_penguin/run_CIE_NIRRB.py:34-45 | the pixel B1..B12 = 0.3, 0.5, 0.4, 0.5, 0.6, 0.1 (ERI 5/7) survives masking unchanged |
| `Masking.ZeroWhere` | CIE_for_emperor_penguin/run_CIE_NIRRB.py:35-45 | `image[rule] = 0`: pixels the rule rejects (as the image stands) become all-zero, every other pixel is unchanged |
| `Masking.Preprocess` | CIE_for_emperor_penguin/run_CIE_NIRRB.py:33-45 | the in-place masking leaves each pixel equal to `Preprocessed` of its value before the call |
| `Pixels.Select` | CIE_for_emperor_penguin/run_CIE_NIRRB.py:30 | `image[:, :, [i, j, k]]` on a pixel gives channels i, j, k in that order, and zeros for an all-zero pixel |
| `Chromaticity.Composite` | CIE_for_emperor_penguin/run_CIE_NIRRB.py:48 | channels 4, 3, 1 are B8, B4, B2 |
| `Chromaticity.RgbToXyz` | CIE_for_emperor_penguin/run_CIE_NIRRB.py:50-55 | the zero composite maps to zero tristimulus values, and non-negative composites to non-negative ones |
| `Chromaticity.ChromaSum` | CIE_for_emperor_penguin/run_CIE_NIRRB.py:58 | non-negative tristimulus values give a sum of at least 1e-6 |
| `Chromaticity.Chroma` | CIE_for_emperor_penguin/run_CIE_NIRRB.py:58-60 | with a nonzero sum, x and y are finite and x·(X+Y+Z+1e-6) = X, y·(X+Y+Z+1e-6) = Y |
| `Chromaticity.LeftBoundary` | CIE_for_emperor_penguin/run_CIE_NIRRB.py:63-64 | a finite x gives the finite height of the line y = -0.2622 x + 0.4321 at x; +inf and -inf swap and NaN stays NaN |
| `Chromaticity.MaskValue` | CIE_for_emperor_penguin/run_CIE_NIRRB.py:63-66 | the mask value at a chromaticity is 0 or 1, and 1 only when neither coordinate is NaN |
| `Chromaticity.Classify` | CIE_for_emperor_penguin/run_CIE_NIRRB.py:48-66 | the mask value of a pixel is 0 or 1 |
| `Chromaticity.ClassifyImage` | CIE_for_emperor_penguin/run_CIE_NIRRB.py:66 | the mask has one 0/1 entry per pixel, the classification of that pixel |
| `Chromaticity.RgbToXyzLinear` | CIE_for_emperor_penguin/run_CIE_NIRRB.py:50-55 | `rgb_to_xyz` is linear in the composite |
| `Chromaticity.DarkPixelNotColony` | CIE_for_emperor_penguin/run_CIE_NIRRB.py:48-66 | a pixel with B8 = B4 = B2 = 0, as every masked pixel is, has chromaticity (0, 0) and mask 0 |
| `Chromaticity.ClassifyLinear` | CIE_for_emperor_penguin/run_CIE_NIRRB.py:58-66 | with a nonzero sum s, colony iff Y + 0.2622 X > 0.4321 s for s > 0, and the reverse inequality for s < 0 |
| `Chromaticity.MaskLinear` | CIE_for_emperor_penguin/run_CIE_NIRRB.py:58-66 | for any tristimulus value with a nonzero sum s, the boundary test equals Y + 0.2622 X > 0.4321 s (s > 0) or the reverse (s < 0) |
| `Chromaticity.OnBoundaryNotColony` | CIE_for_emperor_penguin/run_CIE_NIRRB.py:63-66 | every point exactly on y = -0.2622 x + 0.4321 is classified 0 (strict test) |
| `Chromaticity.ZeroSumClassify` | CIE_for_emperor_penguin/run_CIE_NIRRB.py:58-66 | with X+Y+Z+1e-6 = 0 the pixel is colony iff X > 0 and Y > 0 (infinite x and y) |
| `Chromaticity.NonNegativeSumPositive` | CIE_for_emperor_penguin/run_CIE_NIRRB.py:58 | non-negative B8, B4, B2 give a sum of at least 1e-6, so the chromaticity is always finite |
| `Chromaticity.ExamplePixelNotColony` | CIE_for_emperor_penguin/run_CIE_NIRRB.py:48-66 | the surviving example pixel (r, g, b) = (0.6, 0.5, 0.5) lies below the boundary, so its mask is 0 |
| `Output.ScaleForSave` | CIE_for_emperor_penguin/run_CIE_NIRRB.py:96 | a mask value m is saved as 0 when m = 0 and as the wrapped uint8 value 256 - m otherwise, so 0 and 1 are saved as 0 and 255 |
| `Output.WrappedTimes255` | CIE_for_emperor_penguin/run_CIE_NIRRB.py:96 | the uint8 product `m * 255` is 0 for m = 0 and 256 - m for every other byte |
| `Output.BinaryMaskSaved` | CIE_for_emperor_penguin/run_CIE_NIRRB.py:96 | a 0/1 mask is saved as 0/255, with 255 exactly where the mask is 1 |
| `Output.RFind` | CIE_for_emperor_penguin/run_CIE_NIRRB.py:12 | the result is -1 or a position holding the character, with none after it |
| `Output.SplitExt` | CIE_for_emperor_penguin/run_CIE_NIRRB.py:12 | root + extension is the name; the extension is empty or one dot followed by no dot or slash; it is nonempty exactly when the last path component has a dot preceded by some non-dot character |
| `Output.Join` | CIE_for_emperor_penguin/run_CIE_NIRRB.py:13 | an absolute second part replaces the first; otherwise the parts are concatenated, with one slash between them unless the first is empty or already ends in a slash |
| `Output.OutputPath` | CIE_for_emperor_penguin/run_CIE_NIRRB.py:12-13 | every output path ends in `_NIRRB_output.tif` |
| `Output.OutputPathOfPlainName` | CIE_for_emperor_penguin/run_CIE_NIRRB.py:10-13 | a plain name `stem.ext` (such as `Astrid20201018.tif`) gives `output/stem_NIRRB_output.tif` |
| `Pipeline.TrueColour` | CIE_for_emperor_penguin/run_CIE_NIRRB.py:30 | channels 3, 2, 1 are B4, B3, B2 |
| `Pipeline.TrueColourImage` | CIE_for_emperor_penguin/run_CIE_NIRRB.py:30 | the kept copy holds B4, B3, B2 of every pixel, one entry per pixel |
| `Pipeline.MaskedImage` | CIE_for_emperor_penguin/run_CIE_NIRRB.py:34-45 | the masked image has one pixel per input pixel, each all-zero or unchanged |
| `Pipeline.FinalVerdict` | CIE_for_emperor_penguin/run_CIE_NIRRB.py:34-66 | a pixel is colony in the final mask iff no rule rejects it and its loaded values classify as colony |
| `Pipeline.FinalMask` | CIE_for_emperor_penguin/run_CIE_NIRRB.py:34-66 | entry i of the final mask is 1 iff no rule rejects pixel i and its loaded values classify as colony |
| `Pipeline.Run` | CIE_for_emperor_penguin/run_CIE_NIRRB.py:21-96 | fails exactly when loading fails; otherwise the kept copy is the B4-B3-B2 composite of the unmasked image, the mask is the classification of the masked image and the saved values are 255 where the mask is 1 and 0 elsewhere |

## Left out

- Raster I/O: opening the file, reading bands, writing the GeoTIFF and passing the transform and CRS through (foreign library calls). A raster is given as its description list and its bands; a missing or unreadable input file is not modelled.
- The display: percentile normalisation and clipping of the true-colour copy and the two-panel figure (a floating-point statistic and UI). The copy itself is modelled.
- `os.makedirs` and the confirmation line printed on success.
- `np.apply_along_axis` mechanics: only its per-pixel meaning is modelled.
- Floating-point rounding: all arithmetic is exact over reals, so boundary and tie results hold for the real model, not bit for bit for float64. NaN or infinite reflectances in the input are not modelled; only the NaN the script itself creates (ERI) and the infinities of a zero chromaticity sum are.
- `FloatExt.Div`: a zero denominator is taken to be +0; -0 cannot arise from the sums the script divides by, since the ERI test removes every zero and X+Y+Z+1e-6 cancels to +0.
- Integer-typed rasters: the model assumes floating-point reflectances (with an integer raster the NaN assignment to the denominator would itself fail).
- Bands.Load: requires every band to hold at least one pixel, because a zero-sized raster cannot be opened.
- Pipeline.Run: requires the same, so the error an image without pixels would raise at `np.apply_along_axis` is not modelled.
- Path rules: `SplitExt` and `Join` follow POSIX `os.path` (slash separators); Windows paths with backslashes and drive letters are not modelled.
- The 2-D image shape: images are flat row-major pixel sequences; the output raster's height and width are the input's.
