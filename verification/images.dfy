/**
 * The values the cache moves around. Pixel data, JPEG compression and
 * image decoding belong to the Android platform; they enter the model as
 * the uninterpreted functions of a `Codec`.
 */
module Images {
  import opened Wrappers

  type Bytes = seq<bv8>

  /** A decoded image: its dimensions, the bytes of one pixel row, and the pixels. */
  datatype Bitmap = Bitmap(width: int, height: int, rowBytes: int, pixels: Bytes)

  /**
   * The platform's image codec:
   * `bounds` is a decode with inJustDecodeBounds set, giving (outWidth, outHeight),
   * which BitmapFactory reports as -1 for data it cannot read;
   * `decode` is BitmapFactory.decodeStream with the given inSampleSize, None for
   * data it cannot decode;
   * `compress` is Bitmap.compress(JPEG, 80), None when it returns false.
   */
  datatype Codec = Codec(
    bounds: Bytes -> (int, int),
    decode: (Bytes, int) -> Option<Bitmap>,
    compress: Bitmap -> Option<Bytes>)

  /** The outcome of one HTTP GET: the body, or an IOException. */
  datatype Response = IOFailure | Body(bytes: Bytes)

  datatype IOException = IOException
}
