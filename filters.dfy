/**
 * The small rules of the filter module: kernel sizes of the beauty filter and the
 * background blur, the full-frame composite of a sharp frame over its blurred copy through
 * the segmentation alpha (with the blur-only fallback), and the LUT shape check and
 * colormap dispatch of the colour filters.
 */
module Filters {
  import opened Wrappers
  import opened Pixels
  import OutPaths

  function MaxReal(a: real, b: real): real { if a <= b then b else a }

  /** max(0.0, min(1.0, s)): the strength clamped to the unit interval. */
  function ClampUnit(s: real): (c: real)
    ensures 0.0 <= c <= 1.0
    ensures 0.0 <= s <= 1.0 ==> c == s
    ensures s < 0.0 ==> c == 0.0
    ensures 1.0 < s ==> c == 1.0
  {
    MaxReal(0.0, if s <= 1.0 then s else 1.0)
  }

  /**
   * Python's n | 1 on a non-negative integer: it sets the lowest bit, giving n itself when n
   * is odd and n + 1 when it is even.
   */
  function OrOne(n: nat): (r: nat)
    ensures r % 2 == 1
    ensures r == n || r == n + 1
  {
    (n / 2) * 2 + 1
  }

  /** On 8-bit words, or-ing with 1 is halving, doubling and adding one. */
  lemma BitwiseOrOne(b: bv8)
    ensures b | 1 == (b / 2) * 2 + 1
  {
  }

  /** On every value an 8-bit word holds (the blur kernel's range), OrOne is Python's n | 1. */
  lemma OrOneIsBitwiseOr(n: nat)
    requires n < 256
    ensures OrOne(n) == ((n as bv8) | 1) as int
  {
    var b := n as bv8;
    BitwiseOrOne(b);
    var h := b / 2;
    assert h as int == n / 2;
    assert (h * 2) as int == (n / 2) * 2;
    assert (h * 2 + 1) as int == (n / 2) * 2 + 1;
  }

  /**
   * The blur kernel of apply_background_blur: max(3, int(25 * clamp(s)) | 1). It is odd,
   * between 3 and 25, and (above the minimum) within one of 25 times the clamped strength.
   */
  function BlurKernel(strength: real): (k: nat)
    ensures k % 2 == 1 && 3 <= k <= 25
    ensures k == 3 || (k - 1) as real <= 25.0 * ClampUnit(strength) < (k + 1) as real
    ensures k == 3 <==> 25.0 * ClampUnit(strength) < 4.0
  {
    var n := (25.0 * ClampUnit(strength)).Floor;
    Max(3, OrOne(n))
  }

  /** A stronger blur never asks for a smaller kernel. */
  lemma BlurKernelMonotone(s: real, t: real)
    requires s <= t
    ensures BlurKernel(s) <= BlurKernel(t)
  {
    var u, v := 25.0 * ClampUnit(s), 25.0 * ClampUnit(t);
    assert u <= v;
    assert u.Floor <= v.Floor;
  }

  /** Full strength gives the largest kernel, no strength the smallest. */
  lemma BlurKernelExtremes(s: real)
    ensures 1.0 <= s ==> BlurKernel(s) == 25
    ensures s <= 0.0 ==> BlurKernel(s) == 3
  {
    if 1.0 <= s {
      assert (25.0 * ClampUnit(s)).Floor == 25;
    }
    if s <= 0.0 {
      assert (25.0 * ClampUnit(s)).Floor == 0;
    }
  }

  /**
   * The bilateral-filter diameter of apply_beauty: max(5, int(9 * max(0.1, intensity))),
   * moved up to the next odd number when even. It is odd, at least 5, and (above the
   * minimum) within one of nine times the intensity.
   */
  function BeautyKernel(intensity: real): (d: nat)
    ensures d % 2 == 1 && 5 <= d
    ensures d == 5 || (d - 1) as real <= 9.0 * MaxReal(0.1, intensity) < (d + 1) as real
    ensures d == 5 <==> 9.0 * MaxReal(0.1, intensity) < 6.0
  {
    var d := Max(5, (9.0 * MaxReal(0.1, intensity)).Floor);
    if d % 2 == 0 then d + 1 else d
  }

  /** Intensities at or below 0.1 are all treated as 0.1, which gives the minimum diameter 5. */
  lemma BeautyKernelLowIntensity(intensity: real)
    requires intensity <= 0.1
    ensures BeautyKernel(intensity) == BeautyKernel(0.1) == 5
  {
    assert (9.0 * MaxReal(0.1, intensity)).Floor == 0;
  }

  /** There is no upper bound on the diameter: intensity n gives at least 9n. */
  lemma BeautyKernelUnbounded(n: nat)
    ensures BeautyKernel(n as real) >= 9 * n
  {
    var x := 9.0 * MaxReal(0.1, n as real);
    if n > 0 {
      assert x == (9 * n) as real;
      assert x.Floor == 9 * n;
    }
  }

  /** A higher intensity never gives a smaller diameter. */
  lemma BeautyKernelMonotone(s: real, t: real)
    requires s <= t
    ensures BeautyKernel(s) <= BeautyKernel(t)
  {
    var u, v := 9.0 * MaxReal(0.1, s), 9.0 * MaxReal(0.1, t);
    assert u <= v;
    assert u.Floor <= v.Floor;
  }

  /** A decoded image buffer: height x width pixels of `channels` samples each. */
  datatype Raster = Raster(height: nat, width: nat, channels: nat, data: seq<seq<seq<Byte>>>) {
    predicate Valid() {
      |data| == height &&
      forall i :: 0 <= i < height ==>
        |data[i]| == width && forall j :: 0 <= j < width ==> |data[i][j]| == channels
    }
  }

  /** Same height, width and channel count. */
  predicate SameShape(a: Raster, b: Raster) {
    a.height == b.height && a.width == b.width && a.channels == b.channels
  }

  /** What the composite needs: two valid 3-channel frames of one shape and a valid RGBA result of the same size. */
  predicate CompositeInputs(sharp: Raster, blurred: Raster, rgba: Raster) {
    sharp.Valid() && blurred.Valid() && rgba.Valid() &&
    sharp.channels == 3 && SameShape(sharp, blurred) &&
    rgba.height == sharp.height && rgba.width == sharp.width && 4 <= rgba.channels
  }

  /**
   * The composite of apply_background_blur: a new frame whose every sample is the blend of
   * the sharp sample over the blurred one, with the segmentation result's fourth channel as
   * opacity. Neither input is changed (they are values).
   */
  function Composite(sharp: Raster, blurred: Raster, rgba: Raster): (r: Raster)
    requires CompositeInputs(sharp, blurred, rgba)
    ensures r.Valid() && SameShape(r, sharp)
    ensures forall i, j, c :: 0 <= i < r.height && 0 <= j < r.width && 0 <= c < 3 ==>
              r.data[i][j][c] == Blend(rgba.data[i][j][3], sharp.data[i][j][c], blurred.data[i][j][c])
  {
    Raster(sharp.height, sharp.width, 3,
      seq(sharp.height, i requires 0 <= i < sharp.height =>
        seq(sharp.width, j requires 0 <= j < sharp.width =>
          seq(3, c requires 0 <= c < 3 =>
            Blend(rgba.data[i][j][3], sharp.data[i][j][c], blurred.data[i][j][c])))))
  }

  /** Hard selection: the sharp pixel where the mask is 255, the blurred pixel elsewhere. */
  function HardSelect(sharp: Raster, blurred: Raster, rgba: Raster): Raster
    requires CompositeInputs(sharp, blurred, rgba)
  {
    Raster(sharp.height, sharp.width, 3,
      seq(sharp.height, i requires 0 <= i < sharp.height =>
        seq(sharp.width, j requires 0 <= j < sharp.width =>
          if rgba.data[i][j][3] == 255 then sharp.data[i][j] else blurred.data[i][j])))
  }

  /** Opacity 255 keeps the sharp pixel and opacity 0 the blurred one, exactly. */
  lemma CompositeSelectsPixel(sharp: Raster, blurred: Raster, rgba: Raster, i: nat, j: nat)
    requires CompositeInputs(sharp, blurred, rgba)
    requires i < sharp.height && j < sharp.width
    ensures rgba.data[i][j][3] == 255 ==> Composite(sharp, blurred, rgba).data[i][j] == sharp.data[i][j]
    ensures rgba.data[i][j][3] == 0 ==> Composite(sharp, blurred, rgba).data[i][j] == blurred.data[i][j]
  {
    var p := Composite(sharp, blurred, rgba).data[i][j];
    assert |p| == 3 == |sharp.data[i][j]| == |blurred.data[i][j]|;
    if rgba.data[i][j][3] == 255 {
      assert forall c :: 0 <= c < 3 ==> p[c] == sharp.data[i][j][c];
    }
    if rgba.data[i][j][3] == 0 {
      assert forall c :: 0 <= c < 3 ==> p[c] == blurred.data[i][j][c];
    }
  }

  /** With a binary mask (every opacity 0 or 255) the composite is exactly the hard selection. */
  lemma CompositeOfBinaryMask(sharp: Raster, blurred: Raster, rgba: Raster)
    requires CompositeInputs(sharp, blurred, rgba)
    requires forall i, j :: 0 <= i < rgba.height && 0 <= j < rgba.width ==>
               rgba.data[i][j][3] == 0 || rgba.data[i][j][3] == 255
    ensures Composite(sharp, blurred, rgba) == HardSelect(sharp, blurred, rgba)
  {
    var comp, hard := Composite(sharp, blurred, rgba), HardSelect(sharp, blurred, rgba);
    forall i | 0 <= i < sharp.height
      ensures comp.data[i] == hard.data[i]
    {
      forall j | 0 <= j < sharp.width
        ensures comp.data[i][j] == hard.data[i][j]
      {
        CompositeSelectsPixel(sharp, blurred, rgba, i, j);
      }
    }
  }

  /** Which path apply_background_blur took, with the frame it wrote. */
  datatype BlurOutcome = BlurredOnly(frame: Raster) | Composited(frame: Raster)

  /**
   * apply_background_blur on decoded buffers. `gaussian` stands for the library blur with a
   * given kernel size and `rgba` for the decoded segmentation result (None when it cannot be
   * decoded). Without a result of at least four channels the whole frame is blurred;
   * otherwise the composite is returned. Both paths blur with the same kernel.
   */
  function BackgroundBlur(bgr: Raster, strength: real, rgba: Option<Raster>,
                          gaussian: (Raster, nat) -> Raster): (r: BlurOutcome)
    requires bgr.Valid() && bgr.channels == 3
    requires gaussian(bgr, BlurKernel(strength)).Valid() && SameShape(gaussian(bgr, BlurKernel(strength)), bgr)
    requires rgba.Some? && 4 <= rgba.value.channels ==>
               rgba.value.Valid() && rgba.value.height == bgr.height && rgba.value.width == bgr.width
    ensures r.BlurredOnly? <==> rgba.None? || rgba.value.channels < 4
    ensures r.BlurredOnly? ==> r.frame == gaussian(bgr, BlurKernel(strength))
    ensures r.Composited? ==> r.frame == Composite(bgr, gaussian(bgr, BlurKernel(strength)), rgba.value)
  {
    if rgba.None? || rgba.value.channels < 4 then
      var k := BlurKernel(strength);
      BlurredOnly(gaussian(bgr, k))
    else
      var k := BlurKernel(strength);
      Composited(Composite(bgr, gaussian(bgr, k), rgba.value))
  }

  /** The LUT image shape check of apply_lut: 256x1, 1x256 or 256x256, with three channels. */
  function LutShapeAccepted(rows: nat, cols: nat, channels: nat): (ok: bool)
    ensures ok <==> (rows, cols, channels) == (256, 1, 3) || (rows, cols, channels) == (1, 256, 3) ||
                    (rows, cols, channels) == (256, 256, 3)
  {
    (rows == 256 && channels == 3 && (cols == 1 || cols == 256)) ||
    (cols == 256 && channels == 3 && (rows == 1 || rows == 256))
  }

  datatype Colormap = Ocean | Autumn | Cividis

  /** The LUT file of a filter: absent, present but unreadable, or decoded with a shape. */
  datatype LutFile = NoFile | Unreadable | Decoded(rows: nat, cols: nat, channels: nat)

  /** How apply_lut grades the image: through the LUT, or through a colormap with or without the cinematic step. */
  datatype Grading = TableLookup | ColorMapped(colormap: Colormap, cinematicStep: bool)

  /** The colormap fallback: "cool" is OCEAN, "warm" is AUTUMN, any other name CIVIDIS. */
  function ColormapFor(filterType: string): (cm: Colormap)
    ensures cm == Ocean <==> filterType == "cool"
    ensures cm == Autumn <==> filterType == "warm"
    ensures cm == Cividis <==> filterType != "cool" && filterType != "warm"
  {
    if filterType == "cool" then Ocean
    else if filterType == "warm" then Autumn
    else Cividis
  }

  /** Where apply_lut looks for the LUT of a filter. */
  function LutPath(filterType: string): string {
    "app/lut_filters/" + filterType + ".png"
  }

  /**
   * The grading apply_lut chooses. `files` stands for the file system: what looking up a path
   * finds there. The LUT is used when the file at LutPath decodes to an accepted shape;
   * otherwise the filter's colormap, followed by the contrast/teal step exactly for "cinematic".
   */
  function LutGrading(filterType: string, files: string -> LutFile): (g: Grading)
    ensures var lut := files(LutPath(filterType));
            g.TableLookup? <==> lut.Decoded? && LutShapeAccepted(lut.rows, lut.cols, lut.channels)
    ensures g.ColorMapped? ==> g.colormap == ColormapFor(filterType)
    ensures g.ColorMapped? ==> (g.cinematicStep <==> filterType == "cinematic")
  {
    var lut := files(LutPath(filterType));
    if lut.Decoded? && LutShapeAccepted(lut.rows, lut.cols, lut.channels) then TableLookup
    else ColorMapped(ColormapFor(filterType), filterType == "cinematic")
  }

  /** The output path of apply_lut. */
  function LutOutPath(imagePath: string, filterType: string): (r: string)
    ensures r == OutPaths.SplitExt(imagePath).0 + "_lut_" + filterType + ".jpg"
  {
    OutPaths.SafeOutPath(imagePath, "_lut_" + filterType, Some(".jpg"))
  }

  /** "_lut_" followed by a name without '/' has no '/' and starts with a non-dot. */
  lemma LutSuffixPlain(filterType: string)
    requires forall k :: 0 <= k < |filterType| ==> filterType[k] != '/'
    ensures forall k :: 0 <= k < |"_lut_" + filterType| ==> ("_lut_" + filterType)[k] != '/'
    ensures ("_lut_" + filterType)[0] != '.'
  {
    var suffix := "_lut_" + filterType;
    forall k | 0 <= k < |suffix| ensures suffix[k] != '/' {
      if k >= 5 { assert suffix[k] == filterType[k - 5]; }
    }
  }

  /** For a filter name without '/', the output of apply_lut is a ".jpg" next to the input's stem. */
  lemma LutOutPathIsJpeg(imagePath: string, filterType: string)
    requires forall k :: 0 <= k < |filterType| ==> filterType[k] != '/'
    ensures OutPaths.SplitExt(LutOutPath(imagePath, filterType)) ==
              (OutPaths.SplitExt(imagePath).0 + "_lut_" + filterType, ".jpg")
  {
    var suffix := "_lut_" + filterType;
    LutSuffixPlain(filterType);
    assert 0 < |suffix| && suffix[0] != '.';
    var jpg := ".jpg";
    assert OutPaths.IsExtension(jpg);
    assert OutPaths.Forced(Some(jpg));
    OutPaths.SafeOutPathSplits(imagePath, suffix, Some(jpg));
    assert OutPaths.OutExtension(imagePath, Some(jpg)) == jpg;
    var stem := OutPaths.SplitExt(imagePath).0;
    assert stem + suffix == stem + "_lut_" + filterType;
  }
}
