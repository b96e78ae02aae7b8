# filters_api: sticker placement, alpha overlay and filter rules in Dafny

This project models the integer and array logic of an image-filter service (skin smoothing,
background blur, colour grading and a face-anchored sticker) and proves properties of it.

- **Stickers** (`stickers.dfy`) covers `place_sticker`. Two anchor landmarks, already in
  integer pixels, and the sticker's intrinsic shape give a sticker width of 1.5 face widths
  and a height that keeps the aspect ratio. The origin is a quarter face width left of the
  first anchor and one sticker height above it. The origin is clamped to zero. The size is
  cut on right or bottom overflow. Zeroing a negative origin leaves the size alone: anchors
  (300,200) and (500,200) on an 800×600 image with a square sticker give the rectangle
  (250, 0, 300, 300) (`PlacementSquareScenario`). The overlay is skipped when the clamped
  size is not positive. `PlaceSticker` is the function's control flow, in the source's order:
  unreadable image, no face, anchor index, missing sticker, geometry. The sticker file is
  read only after a face has been found, so with no face a missing sticker is no error, and
  with a face it is the error `StickerNotFound`. `OverlayWithAlpha` is
  `_overlay_with_alpha`: a method that rewrites a window of a 3-channel `array3` in place.
  For a 4-channel sticker it writes the alpha blend; otherwise it copies the sticker's first
  three channels. Everything outside the window is left as it was.
- **Pixels** (`pixels.dfy`) holds the shared blend: `floor((a*s + (255-a)*d) / 255)` on
  8-bit samples.
- **OutPaths** (`out_paths.dfy`) models `_safe_out_path` and the POSIX `os.path.splitext`
  it calls. splitext splits at the last dot of the last path component, unless nothing but
  dots comes before that dot.
- **Filters** (`filters.dfy`) covers the odd kernel sizes of `apply_beauty` and
  `apply_background_blur`; the blur kernel truncates `25·s` and then sets its lowest bit. It has the background composite over value rasters, the
  blur-only fallback with an explicit `BlurOutcome` saying which path was taken, the LUT
  shape check, and the filter-name to colormap dispatch of `apply_lut`.

## Model

| member | source | states |
|---|---|---|
| `Pixels.Blend` | app/stickers_utils.py:8-12 | the blended sample lies between the two samples, hence in 0..255; opacity 255 gives the sticker sample exactly, opacity 0 the base sample exactly |
| `Pixels.BlendMonotoneInOpacity` | app/stickers_utils.py:8-12 | when the sticker sample is at least the base sample, a higher opacity never gives a smaller result |
| `Stickers.FaceWidth` | app/stickers_utils.py:33 | the face width is the absolute horizontal distance of the anchors |
| `Stickers.StickerWidth` | app/stickers_utils.py:39 | the width is the largest integer not above 1.5 face widths |
| `Stickers.StickerHeight` | app/stickers_utils.py:40 | the height is the largest integer h with h·cols ≤ width·rows (aspect ratio, truncated) |
| `Stickers.OriginX` | app/stickers_utils.py:42 | the unclamped x origin lies a truncated quarter face width left of the first anchor |
| `Stickers.Origin` | app/stickers_utils.py:42-43 | the clamped origin is never negative |
| `Stickers.Placement` | app/stickers_utils.py:33-49 | a placed rectangle lies inside the image with positive size for any integer anchors; its origin is the zero-clamped origin; it is never larger than the natural size; it is cut only where it meets the right or bottom edge; it is skipped exactly when the natural width or height is 0 or the clamped origin is at or beyond the right or bottom edge |
| `Stickers.PlacementKeepsNaturalSize` | app/stickers_utils.py:39-47 | without overflow the rectangle has the natural width and height |
| `Stickers.PlacementSkipsZeroFaceWidth` | app/stickers_utils.py:33-49 | anchors in the same column give no overlay |
| `Stickers.PlacementSkipsBeyondEdge` | app/stickers_utils.py:42-49 | an origin at or beyond the right or bottom edge gives no overlay |
| `Stickers.PlacementZeroingDoesNotTrim` | app/stickers_utils.py:42-46 | a negative x origin becomes 0 and the width stays natural when it fits |
| `Stickers.SquareStickerHeight` | app/stickers_utils.py:40 | a square sticker's height equals its width exactly, for every size |
| `Stickers.PlacementSquareScenario` | app/stickers_utils.py:33-47 | anchors (300,200),(500,200), 800×600 image, square sticker give (250, 0, 300, 300) |
| `Stickers.PlaceSticker` | app/stickers_utils.py:18-51 | an unreadable image and only that is `ImageNotReadable`; no face (None or empty) keeps the image whatever the sticker; a bad anchor index after a face is found is an error; a missing sticker is an error exactly when a face was found with valid anchors; every overlay rectangle lies inside the image |
| `Stickers.NoFaceIgnoresSticker` | app/stickers_utils.py:26-28 | with no face, the outcome is the same for any sticker, present or missing |
| `Stickers.PlaceStickerUsesPlacement` | app/stickers_utils.py:31-51 | with a face and a sticker, the outcome is the overlay at `Placement`'s rectangle, or the unchanged image when it skips |
| `Stickers.DefaultAnchorsInRange` | app/stickers_utils.py:18-32 | the default anchors (10, 338) never raise on a 468-point face mesh |
| `Stickers.OverlayWithAlpha` | app/stickers_utils.py:5-16 | returns the very buffer it changed; inside the window each channel becomes the blend (4-channel sticker) or the sticker's sample (otherwise); every sample outside the window is unchanged |
| `OutPaths.RFind` | app/filters.py:11 | the result is -1 or an index holding the character, and no later index holds it |
| `OutPaths.SplitExt` | app/filters.py:11 | stem + ext is the path; ext is empty or a dot followed by characters that are neither dots nor slashes |
| `OutPaths.SplitExtFindsInnerDot` | app/filters.py:11 | an extension is found exactly when the last path component has a dot after some non-dot character |
| `OutPaths.SplitExtOfJoin` | app/filters.py:11-14 | a stem whose last component has a non-dot character, joined with an extension, splits back into the same parts |
| `OutPaths.SafeOutPath` | app/filters.py:10-14 | a non-empty forced extension gives stem + suffix + forced extension; otherwise stem + suffix + own extension, or path + suffix + ".jpg" when there is none |
| `OutPaths.SafeOutPathSplits` | app/filters.py:10-14 | for a suffix without '/' that has a non-dot character, the output splits into the input's stem plus the suffix, and the chosen extension |
| `Filters.ClampUnit` | app/filters.py:59 | the clamped strength lies in [0, 1] and equals the strength inside it |
| `Filters.OrOne` | app/filters.py:59 | setting the lowest bit of n gives an odd number, n itself or n + 1 |
| `Filters.OrOneIsBitwiseOr` | app/filters.py:59 | for every n below 256, `OrOne(n)` is the bitwise or of n with 1 |
| `Filters.BlurKernel` | app/filters.py:59 | the blur kernel is odd, 3 ≤ k ≤ 25; it is 3 exactly when 25 times the clamped strength is below 4, and otherwise within one of it |
| `Filters.BlurKernelMonotone` | app/filters.py:59 | a stronger blur never gives a smaller kernel |
| `Filters.BlurKernelExtremes` | app/filters.py:59 | strength ≥ 1 gives 25 and strength ≤ 0 gives 3 |
| `Filters.BeautyKernel` | app/filters.py:29-31 | the diameter is odd and at least 5; it is 5 exactly when 9·max(0.1, intensity) is below 6, and otherwise within one of it |
| `Filters.BeautyKernelLowIntensity` | app/filters.py:29 | intensities at or below 0.1 act as 0.1 and give 5 |
| `Filters.BeautyKernelUnbounded` | app/filters.py:29-31 | intensity n gives a diameter of at least 9n: there is no upper bound |
| `Filters.BeautyKernelMonotone` | app/filters.py:29-31 | a higher intensity never gives a smaller diameter |
| `Filters.Composite` | app/filters.py:65-72 | a new frame of the input's shape whose every sample blends the sharp sample over the blurred one with the fourth RGBA channel as opacity |
| `Filters.CompositeSelectsPixel` | app/filters.py:65-72 | opacity 255 yields exactly the sharp pixel, opacity 0 exactly the blurred pixel |
| `Filters.CompositeOfBinaryMask` | app/filters.py:65-72 | with a mask of only 0 and 255 the composite equals the hard selection `HardSelect` |
| `Filters.BackgroundBlur` | app/filters.py:54-72 | the blur-only path is taken exactly when the segmentation result is absent or has fewer than 4 channels; both paths blur with the same `BlurKernel` |
| `Filters.LutShapeAccepted` | app/filters.py:98-101 | a LUT image is accepted exactly when it is 256×1×3, 1×256×3 or 256×256×3 |
| `Filters.ColormapFor` | app/filters.py:108-113 | "cool" maps to OCEAN, "warm" to AUTUMN, every other name to CIVIDIS |
| `Filters.LutGrading` | app/filters.py:92-125 | the LUT is used exactly when the file at `app/lut_filters/<name>.png` decodes to an accepted shape; otherwise the colormap of the name, with the contrast/teal step exactly for "cinematic" |
| `Filters.LutOutPath` | app/filters.py:127 | the output path is the input's stem, then "_lut_" and the filter name, then ".jpg" |
| `Filters.LutOutPathIsJpeg` | app/filters.py:127 | for a filter name without '/', the output is stem + "_lut_" + name with extension ".jpg" |

## Left out

- Landmark detection (MediaPipe in `app/face_mesh_utils.py`) and `landmark_to_pixel`'s
  float-times-int truncation are not modelled. The landmarks come in as integer pixels,
  which may lie outside the frame, or as None when no face is found.
- OpenCV and rembg calls are left out: `imread`, `imwrite`, `imdecode`, `cvtColor`,
  `resize`, `GaussianBlur`, `bilateralFilter`, `LUT`, `applyColorMap`, `convertScaleAbs`,
  `addWeighted` and `remove`. They are foreign library code.
  - Image reads appear as an `Option` of a shape or raster.
  - The Gaussian blur is a function parameter of `BackgroundBlur`.
  - The existence check and decoding of the LUT file are a function parameter of
    `LutGrading`, from path to what is found there.
  - The sticker reaches `OverlayWithAlpha` already resized to the window.
- `PlaceSticker` states the decision and the rectangle. The resize-then-overlay on real
  buffers is the separate method `OverlayWithAlpha`; no single method chains the two.
- Pixels.Blend: uses exact integer arithmetic. It does not model numpy's floating-point
  `a/255.0` product followed by truncation to uint8, which can differ by one unit. The
  endpoints 0 and 255 agree exactly.
- Filters.Composite: uses the exact integer blend of `Pixels.Blend`, not numpy's float
  product, for the same reason.
- Stickers.StickerWidth: uses exact integer division instead of the float product
  `face_w*1.5`. The two agree for the values images have.
- Stickers.StickerHeight: uses exact integer division instead of the float quotient
  `sw*rows/cols`. The two agree for the values images have.
- Stickers.OriginX: uses exact integer division instead of the float product `face_w*0.25`.
- Filters.BlurKernel: takes the strength as a real number. It does not model float
  rounding, NaN or infinities.
- Filters.BeautyKernel: takes the intensity as a real number. It does not model float
  rounding, NaN or infinities (an infinite intensity makes `int()` raise).
- The bilateral sigmas and the cinematic gain factors are not modelled. They only tune
  library calls.
- Filters.LutGrading: accepts a 256×256×3 LUT, as the shape test at line 98 does. The reshape to 256×1×3
  that follows raises for that shape in the source, and numpy exceptions are not modelled.
- Stickers.OverlayWithAlpha: the cases below are not modelled.
  - It requires a sticker of at least 3 channels. A grayscale sticker makes the source
    raise.
  - It writes pixel by pixel, while the source builds the blended window first. The two
    agree because the resized sticker is a fresh buffer (`base != st`).
- Filters.BackgroundBlur: the cases below are not modelled.
  - It requires masks of the frame's size, since a mismatch raises in numpy.
  - A 2-D decoded segmentation result (where `shape[2]` raises) is not modelled.
  - An exception raised by `remove` is not modelled; it propagates in the source.
- In `Stickers.PlaceSticker`, the anchor indices are natural numbers, so Python's negative
  indexing is not modelled.
- The "input image not readable" errors of the filter functions are file I/O and are not
  modelled. The same check in `place_sticker` is modelled.
- Not modelled: `apply_face_morph`, a placeholder that only copies its input, and the thin
  wrapper `apply_sticker`, which builds the sticker path and output name. The output paths
  of `apply_beauty` and `apply_background_blur` are only covered through `SafeOutPath`.
- `app/main.py` is not modelled: HTTP routes, temporary files and response streaming.
