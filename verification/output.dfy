/**
  * The output stage: the mask scaled for an 8-bit raster, and the output path
  * `output/<input stem>_NIRRB_output.tif` derived from the input file name.
  */
module Output {

  /** `(mask * 255)` on a uint8 array: the product wraps modulo 256. */
  function ScaleForSave(mask: seq<nat>): (saved: seq<nat>)
    requires forall i :: 0 <= i < |mask| ==> mask[i] < 256
    ensures |saved| == |mask|
    ensures forall i :: 0 <= i < |saved| ==> saved[i] == if mask[i] == 0 then 0 else 256 - mask[i]
    ensures forall i :: 0 <= i < |saved| && mask[i] <= 1 ==> saved[i] == 255 * mask[i]
  {
    seq(|mask|, i requires 0 <= i < |mask| => WrappedTimes255(mask[i]))
  }

  /** The uint8 product `m * 255`, which wraps to `256 - m` for every nonzero `m`. */
  function WrappedTimes255(m: nat): (r: nat)
    requires m < 256
    ensures r == if m == 0 then 0 else 256 - m
  {
    assert m * 255 == 256 * (m - 1) + (256 - m) by {
      assert m * 255 == m * 256 - m;
    }
    (m * 255) % 256
  }

  /** A binary mask is saved as {0, 255}, 1 becoming 255 and 0 staying 0. */
  lemma BinaryMaskSaved(mask: seq<nat>)
    requires forall i :: 0 <= i < |mask| ==> mask[i] == 0 || mask[i] == 1
    ensures forall i :: 0 <= i < |mask| ==>
      (ScaleForSave(mask)[i] == 255 <==> mask[i] == 1) &&
      (ScaleForSave(mask)[i] == 0 <==> mask[i] == 0)
  {
  }

  /** Python's `s.rfind(c)`: the last position of `c` in `s`, or -1. */
  function RFind(s: string, c: char): (r: int)
    ensures -1 <= r < |s|
    ensures r >= 0 ==> s[r] == c
    ensures forall j :: r < j < |s| ==> s[j] != c
  {
    if |s| == 0 then -1
    else if s[|s| - 1] == c then |s| - 1
    else RFind(s[..|s| - 1], c)
  }

  /** Some character of `p[lo..hi]` is not a dot. */
  predicate HasNonDot(p: string, lo: int, hi: int)
    requires 0 <= lo && hi <= |p|
  {
    exists i :: lo <= i < hi && p[i] != '.'
  }

  /**
    * `os.path.splitext` on POSIX: the extension starts at the last dot of the
    * last path component, unless everything before that dot in the component
    * is dots (so `.profile` has no extension).
    */
  function SplitExt(p: string): (r: (string, string))
    ensures r.0 + r.1 == p
    ensures r.1 == "" || (r.1[0] == '.' && '.' !in r.1[1..] && '/' !in r.1)
    ensures r.1 != "" <==> exists i, j :: (0 <= i < j < |p| && p[j] == '.' && p[i] != '.' &&
      forall m :: i <= m < |p| ==> p[m] != '/')
  {
    var sep := RFind(p, '/');
    var dot := RFind(p, '.');
    if dot > sep && HasNonDot(p, sep + 1, dot) then
      assert p[..dot] + p[dot..] == p;
      assert forall j :: 0 <= j < |p[dot..]| ==> p[dot..][j] == p[dot + j];
      (p[..dot], p[dot..])
    else (p, "")
  }

  /** `os.path.join(a, b)` on POSIX: an absolute `b` discards `a`. */
  function Join(a: string, b: string): (r: string)
    ensures |b| > 0 && b[0] == '/' ==> r == b
    ensures (|b| == 0 || b[0] != '/') && |a| > 0 && a[|a| - 1] != '/' ==> r == a + "/" + b
    ensures (|b| == 0 || b[0] != '/') && (|a| == 0 || a[|a| - 1] == '/') ==> r == a + b
  {
    if |b| > 0 && b[0] == '/' then b
    else if |a| == 0 || a[|a| - 1] == '/' then a + b
    else a + "/" + b
  }

  const OutputDir: string := "output"
  const OutputSuffix: string := "_NIRRB_output.tif"

  /** The output path for an input file name. */
  function OutputPath(inputFilename: string): (r: string)
    ensures |r| >= |OutputSuffix| && r[|r| - |OutputSuffix|..] == OutputSuffix
  {
    var base := SplitExt(inputFilename).0;
    Join(OutputDir, base + OutputSuffix)
  }

  /**
    * For a plain file name `stem.ext` (no directory, not starting with a dot,
    * one-dot extension) the output is `output/stem_NIRRB_output.tif`.
    */
  lemma OutputPathOfPlainName(stem: string, ext: string)
    requires |stem| > 0 && stem[0] != '.' && '/' !in stem
    requires '.' !in ext && '/' !in ext
    ensures OutputPath(stem + "." + ext) == "output/" + stem + OutputSuffix
  {
    var p := stem + "." + ext;
    assert p[|stem|] == '.';
    var dot := RFind(p, '.');
    var sep := RFind(p, '/');
    assert dot == |stem| by {
      forall j | |stem| < j < |p| ensures p[j] != '.' {
        assert p[j] == ext[j - |stem| - 1];
      }
    }
    assert sep == -1 by {
      forall j | 0 <= j < |p| ensures p[j] != '/' {
        if j < |stem| { assert p[j] == stem[j]; }
        else if j > |stem| { assert p[j] == ext[j - |stem| - 1]; }
      }
    }
    assert p[0] != '.';
    assert HasNonDot(p, sep + 1, dot);
    assert p[..dot] == stem;
    assert (stem + OutputSuffix)[0] == stem[0];
  }
}
