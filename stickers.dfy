/**
 * The face-anchored sticker path: the placement rectangle that place_sticker derives from
 * two anchor pixels and the sticker's intrinsic size, the decision it takes (error, image
 * unchanged, or overlay), and the in-place window update of _overlay_with_alpha.
 */
module Stickers {
  import opened Wrappers
  import opened Pixels

  /** Extent of a decoded image: never zero. */
  type Extent = n: int | 0 < n witness 1

  /** Shape of a decoded image, in numpy order: rows (height) first, columns (width) second. */
  datatype Shape = Shape(rows: Extent, cols: Extent)

  /** A landmark already converted to integer pixel coordinates; it may lie outside the frame. */
  datatype Pixel = Pixel(x: int, y: int)

  /** Placement rectangle: origin (x, y), width w, height h, in pixels. */
  datatype Rect = Rect(x: int, y: int, w: int, h: int)

  /** The anchor indices place_sticker uses unless told otherwise (forehead points). */
  const DEFAULT_ANCHORS: (nat, nat) := (10, 338)

  /** A non-empty rectangle lying wholly inside an image of the given shape. */
  predicate Inside(r: Rect, img: Shape) {
    0 <= r.x && 0 <= r.y && 0 < r.w && 0 < r.h && r.x + r.w <= img.cols && r.y + r.h <= img.rows
  }

  /** Horizontal distance between the two anchors. */
  function FaceWidth(a1: Pixel, a2: Pixel): (fw: nat)
    ensures fw == a2.x - a1.x || fw == a1.x - a2.x
  {
    if a1.x <= a2.x then a2.x - a1.x else a1.x - a2.x
  }

  /** int(face_w * 1.5): the largest integer not above one and a half face widths. */
  function StickerWidth(faceW: nat): (sw: nat)
    ensures 2 * sw <= 3 * faceW < 2 * sw + 2
  {
    (3 * faceW) / 2
  }

  /** int(sw * rows / cols): the largest height not above the one that keeps the sticker's aspect ratio. */
  function StickerHeight(sw: nat, sticker: Shape): (sh: nat)
    ensures sh * sticker.cols <= sw * sticker.rows < sh * sticker.cols + sticker.cols
  {
    var n := sw * sticker.rows;
    assert n == sticker.cols * (n / sticker.cols) + n % sticker.cols;
    n / sticker.cols
  }

  /** x1 - int(face_w * 0.25): a quarter face width left of the first anchor, before clamping. */
  function OriginX(a1: Pixel, faceW: nat): (x: int)
    ensures 4 * (a1.x - x) <= faceW < 4 * (a1.x - x) + 4
  {
    a1.x - faceW / 4
  }

  /** Width of the sticker before any clamping. */
  function NaturalWidth(a1: Pixel, a2: Pixel): nat {
    StickerWidth(FaceWidth(a1, a2))
  }

  /** Height of the sticker before any clamping. */
  function NaturalHeight(a1: Pixel, a2: Pixel, sticker: Shape): nat {
    StickerHeight(NaturalWidth(a1, a2), sticker)
  }

  /** The origin after a negative coordinate is set to zero; the size is not touched by this step. */
  function Origin(a1: Pixel, a2: Pixel, sticker: Shape): (o: Pixel)
    ensures 0 <= o.x && 0 <= o.y
  {
    Pixel(Max(0, OriginX(a1, FaceWidth(a1, a2))), Max(0, a1.y - NaturalHeight(a1, a2, sticker)))
  }

  /**
   * The geometry of place_sticker: anchors a1, a2 and the sticker's shape give a rectangle
   * inside the image, or None when the clamped width or height is not positive (the source
   * then returns the image unchanged). The origin is only moved to zero when negative; the
   * size is only cut where it runs past the right or bottom edge, and the height is not
   * recomputed after the width is cut.
   */
  function Placement(a1: Pixel, a2: Pixel, sticker: Shape, img: Shape): (r: Option<Rect>)
    ensures r.Some? ==> Inside(r.value, img)
    ensures r.Some? ==> Pixel(r.value.x, r.value.y) == Origin(a1, a2, sticker)
    ensures r.Some? ==> r.value.w <= NaturalWidth(a1, a2) && r.value.h <= NaturalHeight(a1, a2, sticker)
    ensures r.Some? ==> r.value.w == NaturalWidth(a1, a2) || r.value.x + r.value.w == img.cols
    ensures r.Some? ==> r.value.h == NaturalHeight(a1, a2, sticker) || r.value.y + r.value.h == img.rows
    ensures r.None? <==>
              NaturalWidth(a1, a2) == 0 || NaturalHeight(a1, a2, sticker) == 0 ||
              Origin(a1, a2, sticker).x >= img.cols || Origin(a1, a2, sticker).y >= img.rows
  {
    var faceW := FaceWidth(a1, a2);
    var sw := StickerWidth(faceW);
    var sh := StickerHeight(sw, sticker);
    var x := Max(0, a1.x - faceW / 4);
    var y := Max(0, a1.y - sh);
    var sw' := if x + sw > img.cols then img.cols - x else sw;
    var sh' := if y + sh > img.rows then img.rows - y else sh;
    if sw' <= 0 || sh' <= 0 then None else Some(Rect(x, y, sw', sh'))
  }

  /** When nothing overflows the sticker keeps its natural size, hence its aspect ratio up to truncation. */
  lemma PlacementKeepsNaturalSize(a1: Pixel, a2: Pixel, sticker: Shape, img: Shape)
    requires NaturalWidth(a1, a2) > 0 && NaturalHeight(a1, a2, sticker) > 0
    requires Origin(a1, a2, sticker).x + NaturalWidth(a1, a2) <= img.cols
    requires Origin(a1, a2, sticker).y + NaturalHeight(a1, a2, sticker) <= img.rows
    ensures Placement(a1, a2, sticker, img) ==
              Some(Rect(Origin(a1, a2, sticker).x, Origin(a1, a2, sticker).y,
                        NaturalWidth(a1, a2), NaturalHeight(a1, a2, sticker)))
  {
  }

  /** Two anchors in the same column give a zero face width, and the overlay is skipped. */
  lemma PlacementSkipsZeroFaceWidth(a1: Pixel, a2: Pixel, sticker: Shape, img: Shape)
    requires a1.x == a2.x
    ensures Placement(a1, a2, sticker, img) == None
  {
  }

  /** A sticker whose origin starts at or beyond the right or bottom edge is skipped. */
  lemma PlacementSkipsBeyondEdge(a1: Pixel, a2: Pixel, sticker: Shape, img: Shape)
    requires OriginX(a1, FaceWidth(a1, a2)) >= img.cols || a1.y - NaturalHeight(a1, a2, sticker) >= img.rows
    ensures Placement(a1, a2, sticker, img) == None
  {
  }

  /**
   * A negative origin is moved to zero without trimming the sticker: the rectangle starts
   * at the edge with its natural width, as long as that width fits the image.
   */
  lemma PlacementZeroingDoesNotTrim(a1: Pixel, a2: Pixel, sticker: Shape, img: Shape)
    requires OriginX(a1, FaceWidth(a1, a2)) < 0
    requires 0 < NaturalWidth(a1, a2) <= img.cols
    requires Placement(a1, a2, sticker, img).Some?
    ensures Placement(a1, a2, sticker, img).value.x == 0
    ensures Placement(a1, a2, sticker, img).value.w == NaturalWidth(a1, a2)
  {
  }

  /** A positive multiple of n is at least n. */
  lemma {:induction false} MulAtLeast(m: int, n: int)
    requires m >= 1 && n >= 0
    ensures m * n >= n
    decreases m
  {
    if m > 1 {
      MulAtLeast(m - 1, n);
      assert m * n == (m - 1) * n + n;
    }
  }

  /** Quotient and remainder are unique: x == q*n + r with 0 <= r < n means x / n == q. */
  lemma DivUnique(x: int, n: int, q: int, r: int)
    requires n > 0 && x == q * n + r && 0 <= r < n
    ensures x / n == q
  {
    var q0, r0 := x / n, x % n;
    assert x == q0 * n + r0;
    assert (q0 - q) * n == r - r0;
    if q0 > q {
      MulAtLeast(q0 - q, n);
    } else if q0 < q {
      assert (q - q0) * n == r0 - r;
      MulAtLeast(q - q0, n);
    }
  }

  /** A square sticker is as high as it is wide: no truncation happens. */
  lemma SquareStickerHeight(sw: nat, n: Extent)
    ensures StickerHeight(sw, Shape(n, n)) == sw
  {
    DivUnique(sw * n, n, sw, 0);
  }

  /**
   * Anchors (300, 200) and (500, 200) on an 800x600 image with a square sticker: the face is
   * 200 wide, the sticker 300x300, its origin (250, -100) becomes (250, 0) and its height stays 300.
   */
  lemma PlacementSquareScenario(n: Extent)
    ensures Placement(Pixel(300, 200), Pixel(500, 200), Shape(n, n), Shape(600, 800)) ==
              Some(Rect(250, 0, 300, 300))
  {
    assert FaceWidth(Pixel(300, 200), Pixel(500, 200)) == 200;
    assert StickerWidth(200) == 300;
    SquareStickerHeight(300, n);
  }

  /** Why place_sticker can fail. */
  datatype PlaceError = ImageNotReadable | AnchorIndexOutOfRange | StickerNotFound

  /** What place_sticker does with the image when it does not fail. */
  datatype Action = KeepImage | Overlay(rect: Rect)

  /**
   * The control flow of place_sticker: image (None when unreadable), the detected landmarks
   * in pixels (None when no face was found), the anchor indices into them, and the sticker's
   * shape (None when the sticker file cannot be read). Steps run in the source's order, so a
   * missing sticker is only noticed once a face has been found.
   */
  function PlaceSticker(image: Option<Shape>, landmarks: Option<seq<Pixel>>, anchors: (nat, nat),
                        sticker: Option<Shape>): (r: Result<Action, PlaceError>)
    ensures image.None? <==> r == Failure(ImageNotReadable)
    ensures image.Some? && (landmarks.None? || landmarks.value == []) ==> r == Success(KeepImage)
    ensures r == Failure(AnchorIndexOutOfRange) <==>
              image.Some? && landmarks.Some? && landmarks.value != [] &&
              (anchors.0 >= |landmarks.value| || anchors.1 >= |landmarks.value|)
    ensures r == Failure(StickerNotFound) <==>
              image.Some? && landmarks.Some? && landmarks.value != [] &&
              anchors.0 < |landmarks.value| && anchors.1 < |landmarks.value| && sticker.None?
    ensures r.Success? && r.value.Overlay? ==> image.Some? && Inside(r.value.rect, image.value)
  {
    if image.None? then Failure(ImageNotReadable)
    else if landmarks.None? || landmarks.value == [] then Success(KeepImage)
    else if anchors.0 >= |landmarks.value| || anchors.1 >= |landmarks.value| then Failure(AnchorIndexOutOfRange)
    else if sticker.None? then Failure(StickerNotFound)
    else
      var p := Placement(landmarks.value[anchors.0], landmarks.value[anchors.1], sticker.value, image.value);
      if p.None? then Success(KeepImage) else Success(Overlay(p.value))
  }

  /** With no face, the outcome does not depend on the sticker at all: a missing sticker is not an error. */
  lemma NoFaceIgnoresSticker(image: Shape, anchors: (nat, nat), s1: Option<Shape>, s2: Option<Shape>)
    ensures PlaceSticker(Some(image), None, anchors, s1) == PlaceSticker(Some(image), None, anchors, s2)
    ensures PlaceSticker(Some(image), None, anchors, None) == Success(KeepImage)
  {
  }

  /** Once a face and a sticker are present, place_sticker overlays exactly where the geometry says, or keeps the image. */
  lemma PlaceStickerUsesPlacement(image: Shape, lms: seq<Pixel>, anchors: (nat, nat), sticker: Shape)
    requires anchors.0 < |lms| && anchors.1 < |lms|
    ensures var p := Placement(lms[anchors.0], lms[anchors.1], sticker, image);
            PlaceSticker(Some(image), Some(lms), anchors, Some(sticker)) ==
              if p.None? then Success(KeepImage) else Success(Overlay(p.value))
  {
  }

  /** The default anchors (10, 338) index into a 468-point face mesh, so they never raise. */
  lemma DefaultAnchorsInRange(image: Shape, lms: seq<Pixel>, sticker: Option<Shape>)
    requires |lms| == 468
    ensures PlaceSticker(Some(image), Some(lms), DEFAULT_ANCHORS, sticker) != Failure(AnchorIndexOutOfRange)
  {
  }

  /** Window membership of pixel (i, j) for the rectangle at (x, y) of size w x h. */
  predicate InWindow(i: int, j: int, x: int, y: int, w: int, h: int) {
    y <= i < y + h && x <= j < x + w
  }

  /**
   * Channel c of the sticker pixel (i, j) laid over the base sample d: the alpha blend when
   * the sticker has four channels, the sticker's own sample otherwise.
   */
  ghost function Stamp(st: array3<Byte>, i: int, j: int, c: int, d: Byte): Byte
    reads st
    requires 0 <= i < st.Length0 && 0 <= j < st.Length1 && 0 <= c < 3 <= st.Length2
  {
    if st.Length2 == 4 then Blend(st[i, j, 3], st[i, j, c], d) else st[i, j, c]
  }

  /**
   * _overlay_with_alpha on a 3-channel base buffer and a sticker already resized to h x w:
   * every sample inside the window [y, y+h) x [x, x+w) becomes the blend of sticker and
   * base (4-channel sticker) or the sticker's sample (3-channel sticker), every sample
   * outside it keeps its value, and the buffer returned is the one that was changed.
   */
  method OverlayWithAlpha(base: array3<Byte>, st: array3<Byte>, x: nat, y: nat, w: nat, h: nat)
    returns (out: array3<Byte>)
    requires base.Length2 == 3 && st.Length2 >= 3
    requires st.Length0 == h && st.Length1 == w
    requires y + h <= base.Length0 && x + w <= base.Length1
    requires base != st
    modifies base
    ensures out == base
    ensures st.Length2 == 4 ==>
              forall i, j, c :: InWindow(i, j, x, y, w, h) && 0 <= c < 3 ==>
                base[i, j, c] == Blend(st[i - y, j - x, 3], st[i - y, j - x, c], old(base[i, j, c]))
    ensures st.Length2 != 4 ==>
              forall i, j, c :: InWindow(i, j, x, y, w, h) && 0 <= c < 3 ==>
                base[i, j, c] == st[i - y, j - x, c]
    ensures forall i, j, c ::
              0 <= i < base.Length0 && 0 <= j < base.Length1 && 0 <= c < 3 && !InWindow(i, j, x, y, w, h) ==>
                base[i, j, c] == old(base[i, j, c])
  {
    var i := 0;
    while i < h
      invariant 0 <= i <= h
      invariant forall r, q, c :: 0 <= r < base.Length0 && 0 <= q < base.Length1 && 0 <= c < 3 ==>
                  base[r, q, c] == if InWindow(r, q, x, y, w, i) then Stamp(st, r - y, q - x, c, old(base[r, q, c]))
                                   else old(base[r, q, c])
    {
      var j := 0;
      while j < w
        invariant 0 <= j <= w
        invariant forall r, q, c :: 0 <= r < base.Length0 && 0 <= q < base.Length1 && 0 <= c < 3 ==>
                    base[r, q, c] == if InWindow(r, q, x, y, w, i) || (r == y + i && x <= q < x + j)
                                     then Stamp(st, r - y, q - x, c, old(base[r, q, c]))
                                     else old(base[r, q, c])
      {
        var b0, b1, b2 := base[y + i, x + j, 0], base[y + i, x + j, 1], base[y + i, x + j, 2];
        if st.Length2 == 4 {
          var a := st[i, j, 3];
          base[y + i, x + j, 0] := Blend(a, st[i, j, 0], b0);
          base[y + i, x + j, 1] := Blend(a, st[i, j, 1], b1);
          base[y + i, x + j, 2] := Blend(a, st[i, j, 2], b2);
        } else {
          base[y + i, x + j, 0] := st[i, j, 0];
          base[y + i, x + j, 1] := st[i, j, 1];
          base[y + i, x + j, 2] := st[i, j, 2];
        }
        j := j + 1;
      }
      i := i + 1;
    }
    out := base;
  }
}
