/**
 * The pure part of BitmapWorkerTask: the inSampleSize rule and the
 * two-pass "read the bounds, then decode sampled" download.
 */
module Sampling {
  import opened Wrappers
  import JavaInt
  import opened Images

  /** The floor of n / d for either sign of d (Dafny's `/` floors only for d > 0). */
  function FloorDiv(n: int, d: int): int
    requires d != 0
  {
    if d > 0 then n / d else (-n) / (-d)
  }

  /**
   * Math.round((float) a / (float) b): the nearest int to a / b, halves
   * rounded up; +Infinity, -Infinity and NaN (b == 0) give MAX_VALUE,
   * MIN_VALUE and 0.
   */
  function RoundedRatio(a: int, b: int): (r: int)
    ensures JavaInt.IsInt(r)
    ensures b > 0 && JavaInt.IsInt(a) ==> b * (2 * r - 1) <= 2 * a < b * (2 * r + 1)
    ensures b == 0 ==> r == (if a > 0 then JavaInt.MAX_VALUE else if a < 0 then JavaInt.MIN_VALUE else 0)
  {
    if b == 0 then
      (if a > 0 then JavaInt.MAX_VALUE else if a < 0 then JavaInt.MIN_VALUE else 0)
    else
      var q := FloorDiv(2 * a + b, 2 * b);
      HalfUpInRange(a, b);
      JavaInt.Saturate(q)
  }

  lemma HalfUpInRange(a: int, b: int)
    requires b != 0
    ensures b > 0 && JavaInt.IsInt(a) ==>
      var q := (2 * a + b) / (2 * b);
      JavaInt.IsInt(q) && b * (2 * q - 1) <= 2 * a < b * (2 * q + 1)
  {
    if b < 0 || !JavaInt.IsInt(a) {
      return;
    }
    var q := (2 * a + b) / (2 * b);
    JavaInt.QuotientBounds(2 * a + b, 2 * b);
    assert 2 * b * q == b * (2 * q);
    if q > JavaInt.MAX_VALUE {
      JavaInt.ScaleMonotone(2 * b, JavaInt.MAX_VALUE + 1, q);
      JavaInt.ScaleMonotone(2 * JavaInt.MAX_VALUE + 2, 1, b);
      assert false;
    }
    if q < JavaInt.MIN_VALUE {
      JavaInt.ScaleMonotone(2 * b, q + 1, JavaInt.MIN_VALUE);
      JavaInt.ScaleMonotone(-2 * JavaInt.MIN_VALUE - 2, 1, b);
      assert false;
    }
  }

  predicate Fits(outWidth: int, outHeight: int, reqWidth: int, reqHeight: int) {
    outHeight <= reqHeight && outWidth <= reqWidth
  }

  /**
   * calculateInSampleSize: 1 when the image already fits the request,
   * otherwise the smaller of the two rounded ratios.
   */
  function CalculateInSampleSize(outWidth: int, outHeight: int, reqWidth: int, reqHeight: int): (r: int)
    ensures Fits(outWidth, outHeight, reqWidth, reqHeight) ==> r == 1
    ensures !Fits(outWidth, outHeight, reqWidth, reqHeight) ==>
      && r <= RoundedRatio(outHeight, reqHeight) && r <= RoundedRatio(outWidth, reqWidth)
      && (r == RoundedRatio(outHeight, reqHeight) || r == RoundedRatio(outWidth, reqWidth))
  {
    if outHeight > reqHeight || outWidth > reqWidth then
      var heightRatio := RoundedRatio(outHeight, reqHeight);
      var widthRatio := RoundedRatio(outWidth, reqWidth);
      if heightRatio < widthRatio then heightRatio else widthRatio
    else
      1
  }

  /**
   * Without Math.round: the factor is at most half a step above each exact
   * ratio, and within half a step of one of them.
   */
  lemma SampleSizeNearestRatio(outWidth: int, outHeight: int, reqWidth: int, reqHeight: int)
    requires reqWidth > 0 && reqHeight > 0
    requires JavaInt.IsInt(outWidth) && JavaInt.IsInt(outHeight)
    requires !Fits(outWidth, outHeight, reqWidth, reqHeight)
    ensures var r := CalculateInSampleSize(outWidth, outHeight, reqWidth, reqHeight);
      && reqHeight * (2 * r - 1) <= 2 * outHeight
      && reqWidth * (2 * r - 1) <= 2 * outWidth
      && (2 * outHeight < reqHeight * (2 * r + 1) || 2 * outWidth < reqWidth * (2 * r + 1))
  {
    var r := CalculateInSampleSize(outWidth, outHeight, reqWidth, reqHeight);
    var hr := RoundedRatio(outHeight, reqHeight);
    var wr := RoundedRatio(outWidth, reqWidth);
    JavaInt.ScaleMonotone(reqHeight, 2 * r - 1, 2 * hr - 1);
    JavaInt.ScaleMonotone(reqWidth, 2 * r - 1, 2 * wr - 1);
  }

  /** A ratio under one half rounds to 0. */
  lemma RoundsToZero(a: int, b: int)
    requires b > 0 && 0 <= 2 * a < b
    ensures RoundedRatio(a, b) == 0
  {
    var q := (2 * a + b) / (2 * b);
    JavaInt.QuotientBounds(2 * a + b, 2 * b);
    if q >= 1 {
      JavaInt.ScaleMonotone(2 * b, 1, q);
    }
    if q <= -1 {
      JavaInt.ScaleMonotone(2 * b, q, -1);
    }
    assert FloorDiv(2 * a + b, 2 * b) == 0;
  }

  /** A ratio above one rounds to at least 1. */
  lemma RoundsToAtLeastOne(a: int, b: int)
    requires b > 0 && JavaInt.IsInt(a) && a > b
    ensures RoundedRatio(a, b) >= 1
  {
    var r := RoundedRatio(a, b);
    if r < 1 {
      JavaInt.ScaleMonotone(b, 2 * r + 1, 1);
    }
  }

  /** The factor is 0 when one side exceeds its request and the other is under half of its request. */
  lemma SampleSizeCanBeZero(outWidth: int, outHeight: int, reqWidth: int, reqHeight: int)
    requires reqWidth > 0 && reqHeight > 0 && JavaInt.IsInt(outHeight)
    requires outHeight > reqHeight && 0 <= 2 * outWidth < reqWidth
    ensures CalculateInSampleSize(outWidth, outHeight, reqWidth, reqHeight) == 0
  {
    RoundsToAtLeastOne(outHeight, reqHeight);
    RoundsToZero(outWidth, reqWidth);
  }

  /** The mirror case: wider than requested, and under half the requested height. */
  lemma SampleSizeCanBeZeroWide(outWidth: int, outHeight: int, reqWidth: int, reqHeight: int)
    requires reqWidth > 0 && reqHeight > 0 && JavaInt.IsInt(outWidth)
    requires outWidth > reqWidth && 0 <= 2 * outHeight < reqHeight
    ensures CalculateInSampleSize(outWidth, outHeight, reqWidth, reqHeight) == 0
  {
    RoundsToAtLeastOne(outWidth, reqWidth);
    RoundsToZero(outHeight, reqHeight);
  }

  /**
   * The comment beside the rule promises both decoded dimensions stay at or
   * above the request. They do not: an image 1.5 to 2 times the request in
   * height, and at least 1.5 times in width, gets factor 2, and half its
   * height is below the requested height.
   */
  lemma SampleSizeCanUndershoot(outWidth: int, outHeight: int, reqWidth: int, reqHeight: int)
    requires reqWidth > 0 && reqHeight > 0
    requires JavaInt.IsInt(outWidth) && JavaInt.IsInt(outHeight)
    requires 3 * reqHeight <= 2 * outHeight < 4 * reqHeight
    requires 3 * reqWidth <= 2 * outWidth
    ensures CalculateInSampleSize(outWidth, outHeight, reqWidth, reqHeight) == 2
    ensures outHeight / 2 < reqHeight
  {
    var hr := RoundedRatio(outHeight, reqHeight);
    var wr := RoundedRatio(outWidth, reqWidth);
    if hr < 2 {
      JavaInt.ScaleMonotone(reqHeight, 2 * hr + 1, 3);
    }
    if hr > 2 {
      JavaInt.ScaleMonotone(reqHeight, 5, 2 * hr - 1);
    }
    if wr < 2 {
      JavaInt.ScaleMonotone(reqWidth, 2 * wr + 1, 3);
    }
  }

  /** Three worked examples of the rule, each against a 100x100 request. */
  lemma SampleSizeExamples()
    ensures CalculateInSampleSize(800, 600, 100, 100) == 6
    ensures CalculateInSampleSize(50, 50, 100, 100) == 1
    ensures CalculateInSampleSize(150, 150, 100, 100) == 2
  {
  }

  /**
   * decodeSampledBitmapFromUrl: a first GET decoded for bounds only, then a
   * second GET decoded with the inSampleSize those bounds give. An
   * IOException from either request propagates.
   */
  function DecodeSampledBitmapFromUrl(reqWidth: int, reqHeight: int, codec: Codec,
                                      boundsFetch: Response, imageFetch: Response): (r: Result<Option<Bitmap>, IOException>)
    ensures r.Failure? <==> boundsFetch.IOFailure? || imageFetch.IOFailure?
    ensures r.Success? ==>
      var (outWidth, outHeight) := codec.bounds(boundsFetch.bytes);
      r.value == codec.decode(imageFetch.bytes, CalculateInSampleSize(outWidth, outHeight, reqWidth, reqHeight))
  {
    match boundsFetch
    case IOFailure => Failure(IOException)
    case Body(header) =>
      var (outWidth, outHeight) := codec.bounds(header);
      var inSampleSize := CalculateInSampleSize(outWidth, outHeight, reqWidth, reqHeight);
      match imageFetch
      case IOFailure => Failure(IOException)
      case Body(image) => Success(codec.decode(image, inSampleSize))
  }

  /** The first response reaches the result only through its dimensions. */
  lemma BoundsPassOnlyGivesDimensions(reqWidth: int, reqHeight: int, codec: Codec,
                                      first1: Response, first2: Response, imageFetch: Response)
    requires first1.Body? && first2.Body? && codec.bounds(first1.bytes) == codec.bounds(first2.bytes)
    ensures DecodeSampledBitmapFromUrl(reqWidth, reqHeight, codec, first1, imageFetch)
         == DecodeSampledBitmapFromUrl(reqWidth, reqHeight, codec, first2, imageFetch)
  {
  }
}
