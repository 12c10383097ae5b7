/**
 * The centre crop to 4:3 (`calculateCropDimensions` and the rectangle arithmetic of
 * `cropToAspect` in main.go).
 *
 * The program compares and scales with the float64 constant 4.0/3.0 and truncates with `int()`.
 * Here the ratio is the integer pair (4, 3): the test `width/height > 4/3` is `width * 3 > height * 4`,
 * `int(height * 4/3)` is `(height * 4) / 3` and `int(width / (4/3))` is `(width * 3) / 4`.
 * This integer reading stands in for the float64 expressions for realistic page sizes; it also
 * agrees with them on a zero width or height. A zero height makes the float ratio +Inf (positive
 * width) or NaN (zero width), a zero width with a positive height makes it 0; all three readings,
 * float and integer, give a 0 x 0 crop. Image bounds are taken to start at (0, 0).
 */
module CropGeometry {

  /** The fixed size every page is resampled to (`targetWidth`, `targetHeight`). */
  const TargetWidth: nat := 1440
  const TargetHeight: nat := 1080

  datatype Size = Size(width: nat, height: nat)

  /** A pixel rectangle from (x0, y0) inclusive to (x1, y1) exclusive, as `image.Rect` takes it. */
  datatype Rect = Rect(x0: int, y0: int, x1: int, y1: int)

  /** Whether a width x height raster is strictly wider than 4:3. */
  predicate WiderThanFourThree(width: nat, height: nat)
  {
    width * 3 > height * 4
  }

  /**
   * `calculateCropDimensions`: a raster wider than 4:3 keeps its height and gets the widest width
   * that is not wider than 4:3; any other raster keeps its width and gets the tallest height that is
   * not taller than 4:3. Either way the crop fits inside the raster.
   */
  function CropDimensions(width: nat, height: nat): (crop: Size)
    ensures crop.width <= width && crop.height <= height
    ensures WiderThanFourThree(width, height) ==>
      crop.height == height && crop.width * 3 <= height * 4 < (crop.width + 1) * 3
    ensures !WiderThanFourThree(width, height) ==>
      crop.width == width && crop.height * 4 <= width * 3 < (crop.height + 1) * 4
  {
    if WiderThanFourThree(width, height) then
      Size((height * 4) / 3, height)
    else
      Size(width, (width * 3) / 4)
  }

  /**
   * The rectangle `cropToAspect` hands to `SubImage`: the crop size placed at the centre, with the
   * program's four clamps to the image bounds. The clamps never fire: the rectangle lies inside
   * the image, has exactly the crop size, and its left (top) margin is the right (bottom) margin
   * or one pixel less.
   */
  function CropRect(width: nat, height: nat): (r: Rect)
    ensures 0 <= r.x0 <= r.x1 <= width && 0 <= r.y0 <= r.y1 <= height
    ensures r.x1 - r.x0 == CropDimensions(width, height).width
    ensures r.y1 - r.y0 == CropDimensions(width, height).height
    ensures 0 <= (width - r.x1) - r.x0 <= 1
    ensures 0 <= (height - r.y1) - r.y0 <= 1
  {
    var crop := CropDimensions(width, height);
    // Go's `/` truncates toward zero; both numerators are non-negative here, where it agrees with Dafny's.
    var left := (width - crop.width) / 2;
    var top := (height - crop.height) / 2;
    var x0 := if left < 0 then 0 else left;
    var y0 := if top < 0 then 0 else top;
    var right := x0 + crop.width;
    var bottom := y0 + crop.height;
    var x1 := if right > width then width else right;
    var y1 := if bottom > height then height else bottom;
    Rect(x0, y0, x1, y1)
  }

  /** A raster that is already exactly 4:3 is not cropped at all. */
  lemma FourThreeIsUncropped(width: nat, height: nat)
    requires width * 3 == height * 4
    ensures CropDimensions(width, height) == Size(width, height)
    ensures CropRect(width, height) == Rect(0, 0, width, height)
  {
    var crop := CropDimensions(width, height);
    assert crop.width == width;
    assert crop.height * 4 <= height * 4 < (crop.height + 1) * 4;
  }

  /**
   * The crop keeps some pixels exactly when the raster is at least two pixels wide and one pixel
   * high: a one-pixel-wide raster is never wider than 4:3, and three quarters of one pixel
   * truncate to a height of zero.
   */
  lemma CropNonEmptyIff(width: nat, height: nat)
    ensures (CropRect(width, height).x0 < CropRect(width, height).x1 &&
             CropRect(width, height).y0 < CropRect(width, height).y1)
        <==> width >= 2 && height >= 1
  {
    var crop := CropDimensions(width, height);
    if width >= 2 && height >= 1 {
      if WiderThanFourThree(width, height) {
        assert crop.width >= 1;
      } else {
        assert crop.height >= 1;
      }
    } else if width == 1 && height >= 1 {
      assert !WiderThanFourThree(width, height);
      assert crop.height == 0;
    }
  }

  /**
   * The crop ratio and the resize target agree: 1440 x 1080 is exactly 4:3, so resampling a crop to
   * it changes the crop's ratio only by the crop's own rounding.
   */
  lemma ResizeTargetMatchesCropRatio()
    ensures TargetWidth * 3 == TargetHeight * 4
  {
  }

  /** A 1000 x 750 page is exactly 4:3 and comes out whole. */
  lemma ExampleFourThreePage()
    ensures CropRect(1000, 750) == Rect(0, 0, 1000, 750)
  {
    FourThreeIsUncropped(1000, 750);
  }

  /** A 1600 x 900 (16:9) page is cropped to its middle 1200 x 900. */
  lemma ExampleSixteenNinePage()
    ensures CropDimensions(1600, 900) == Size(1200, 900)
    ensures CropRect(1600, 900) == Rect(200, 0, 1400, 900)
  {
  }

  /** A one-pixel-wide page keeps its width and is cropped to height zero. */
  lemma ExampleOnePixelWidePage()
    ensures CropRect(1, 5) == Rect(0, 2, 1, 2)
  {
  }

  /**
   * Truncation can move the ratio away from 4:3: a 3 x 2 raster (ratio 1.5) is cropped to 2 x 2
   * (ratio 1.0), which is further from 4/3 than the raster it came from. Rounding to nearest
   * would have kept 3 x 2.
   */
  lemma TruncationCanWidenRatioError()
    ensures CropDimensions(3, 2) == Size(2, 2)
    ensures var crop := CropDimensions(3, 2);
      // |crop.width / crop.height - 4/3| > |3/2 - 4/3|, cross-multiplied by 3 * 2 * crop.height
      (4 * crop.height - 3 * crop.width) * 2 > (3 * 3 - 4 * 2) * crop.height
  {
  }
}
