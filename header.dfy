/** The header stage of resize: the format check on the two headers read from
    the input, and the headers of the enlarged image derived from them
    (resize.c lines 29-33 and 65-96). */
module Header {
  import opened Bmp

  datatype Error = UnsupportedFormat

  datatype Result<T> = Ok(value: T) | Err(error: Error)

  /** The scale factor accepted on the command line. */
  predicate ValidScale(n: int)
  {
    1 <= n <= 100
  }

  /** The header is that of a 24-bit uncompressed bitmap with a BITMAPINFOHEADER. */
  predicate IsSupported(bf: FileHeader, bi: InfoHeader)
  {
    && bf.bfType == MAGIC_BM
    && bf.bfOffBits == PIXEL_DATA_OFFSET
    && bi.biSize == INFO_HEADER_SIZE
    && bi.biBitCount == BITS_PER_PIXEL
    && bi.biCompression == COMPRESSION_NONE
  }

  /** `x & ~31` on a non-negative two's-complement integer: the five low bits cleared. */
  function ClearLow5Bits(x: nat): (r: nat)
    ensures r % 32 == 0 && r <= x < r + 32
  {
    x - x % 32
  }

  /** `x >> 3` on a non-negative integer. */
  function ShiftRight3(x: nat): nat
  {
    x / 8
  }

  /** Bytes per row for `width` pixels of `bitCount` bits, rounded up to whole
      32-bit words, written with the mask and shift of the biSizeImage formula. */
  function RowStride(width: nat, bitCount: nat): nat
  {
    ShiftRight3(ClearLow5Bits(width * bitCount + 31))
  }

  /** Bytes that follow `width` pixels in a row: the only value in 0..3 that
      makes the row length a multiple of 4. */
  function Padding(width: nat): (r: nat)
    ensures r <= 3
    ensures (width * 3 + r) % 4 == 0
  {
    (4 - (width * 3) % 4) % 4
  }

  /** Bytes of pixel data in `height` rows of `width` pixels, each row padded. */
  function PaddedImageBytes(width: nat, height: nat): nat
  {
    (width * 3 + Padding(width)) * height
  }

  /** The mask-and-shift stride and the padding formula describe the same row,
      and both agree with rounding the row's bits up to whole 32-bit words. */
  lemma StrideMatchesPadding(width: nat)
    ensures RowStride(width, 24) == width * 3 + Padding(width)
    ensures RowStride(width, 24) == (width * 3 * 8 + 31) / 32 * 4
    ensures RowStride(width, 24) % 4 == 0
    ensures width * 3 <= RowStride(width, 24) < width * 3 + 4
  {
    var q, r := (width * 3) / 4, (width * 3) % 4;
    var bits := width * 24 + 31;
    // bits is a whole number of 32-bit words plus a remainder below 32
    var words := if r == 0 then q else q + 1;
    var rest := if r == 0 then 31 else 8 * r - 1;
    assert bits == 32 * words + rest;
    WordsAndRest(words, rest);
    assert ClearLow5Bits(bits) == 32 * words;
    assert Padding(width) == if r == 0 then 0 else 4 - r;
  }

  lemma WordsAndRest(words: nat, rest: nat)
    requires rest < 32
    ensures (32 * words + rest) % 32 == rest
    ensures (32 * words + rest) / 32 == words
  {
  }

  /** The old dimensions are small enough that the products of lines 78, 79
      and 84 stay within a 32-bit LONG, and abs() of the new height is defined.
      The width is not negative. */
  predicate ScaleFits(bi: InfoHeader, n: nat)
  {
    var width := bi.biWidth as int * n;
    var height := Abs(bi.biHeight as int * n);
    && 0 <= bi.biWidth as int
    && width * 24 + 31 <= INT32_MAX
    && height <= INT32_MAX
    && RowStride(width, 24) * height <= INT32_MAX
  }

  /** Line 78: `bi.biWidth *= n`, a LONG product that fits. */
  function ScaledWidth(bi: InfoHeader, n: nat): (w: int32)
    requires ValidScale(n) && ScaleFits(bi, n)
    ensures w as int == bi.biWidth as int * n
    ensures 0 <= w as int
  {
    var width := bi.biWidth as int * n;
    assert 0 <= width <= width * 24;
    width as int32
  }

  /** Line 79: `bi.biHeight *= n`, a LONG product whose abs() is defined. */
  function ScaledHeight(bi: InfoHeader, n: nat): (h: int32)
    requires ValidScale(n) && ScaleFits(bi, n)
    ensures h as int == bi.biHeight as int * n
    ensures h < 0 <==> bi.biHeight < 0
    ensures h == 0 <==> bi.biHeight == 0
    ensures Abs(h as int) == Abs(bi.biHeight as int) * n
  {
    ScaleKeepsSign(bi.biHeight as int, n);
    (bi.biHeight as int * n) as int32
  }

  /** Line 84: the new biSizeImage, one stride per row of the new height. */
  function ImageSize(width: int32, height: int32): (s: uint32)
    requires 0 <= width as int && width as int * 24 + 31 <= INT32_MAX
    requires RowStride(width as int, 24) * Abs(height as int) <= INT32_MAX
    ensures s as int == PaddedImageBytes(width as int, Abs(height as int))
  {
    StrideMatchesPadding(width as int);
    (RowStride(width as int, 24) * Abs(height as int)) as uint32
  }

  /** Lines 81 and 85: `bfSize -= oldImage` then `bfSize += newImage` on a DWORD. */
  function AdjustedFileSize(bfSize: uint32, oldImage: uint32, newImage: uint32): (s: uint32)
    ensures s as int == (bfSize as int - oldImage as int + newImage as int) % 0x1_0000_0000
    ensures oldImage <= bfSize && bfSize as int - oldImage as int + newImage as int < 0x1_0000_0000
            ==> s as int == bfSize as int - oldImage as int + newImage as int
  {
    var lessImage := (bfSize as int - oldImage as int) % 0x1_0000_0000;
    WrappedSum(bfSize as int - oldImage as int, newImage as int);
    ((lessImage + newImage as int) % 0x1_0000_0000) as uint32
  }

  /** The headers of the image enlarged n times: width and height scaled,
      biSizeImage recomputed from the padded rows, bfSize adjusted by the
      difference of the image sizes, and every other field kept. */
  function ScaledHeaders(bf: FileHeader, bi: InfoHeader, n: nat): (r: (FileHeader, InfoHeader))
    requires IsSupported(bf, bi) && ValidScale(n) && ScaleFits(bi, n)
    ensures r.1.biWidth as int == bi.biWidth as int * n && 0 <= r.1.biWidth
    ensures r.1.biHeight as int == bi.biHeight as int * n
    ensures r.1.biHeight < 0 <==> bi.biHeight < 0
    ensures r.1.biHeight == 0 <==> bi.biHeight == 0
    ensures Abs(r.1.biHeight as int) == Abs(bi.biHeight as int) * n
    ensures r.1.biSizeImage as int == PaddedImageBytes(r.1.biWidth as int, Abs(r.1.biHeight as int))
    ensures r.1 == bi.(biWidth := r.1.biWidth, biHeight := r.1.biHeight, biSizeImage := r.1.biSizeImage)
    ensures r.0 == bf.(bfSize := r.0.bfSize)
    ensures r.0.bfSize as int
            == (bf.bfSize as int - bi.biSizeImage as int + r.1.biSizeImage as int) % 0x1_0000_0000
    ensures bi.biSizeImage <= bf.bfSize
            && bf.bfSize as int - bi.biSizeImage as int + r.1.biSizeImage as int < 0x1_0000_0000
            ==> r.0.bfSize as int == bf.bfSize as int - bi.biSizeImage as int + r.1.biSizeImage as int
  {
    var width := ScaledWidth(bi, n);
    var height := ScaledHeight(bi, n);
    var image := ImageSize(width, height);
    var size := AdjustedFileSize(bf.bfSize, bi.biSizeImage, image);
    (bf.(bfSize := size), bi.(biWidth := width, biHeight := height, biSizeImage := image))
  }

  /** Multiplying by a positive factor keeps the sign and scales the magnitude. */
  lemma ScaleKeepsSign(h: int, n: nat)
    requires 1 <= n
    ensures h * n < 0 <==> h < 0
    ensures h * n == 0 <==> h == 0
    ensures Abs(h * n) == Abs(h) * n
  {
    if h < 0 {
      assert h * n == -((-h) * n);
      assert (-h) * n >= -h;
    } else {
      assert h * n >= h;
    }
  }

  /** Two DWORD operations in a row wrap like their exact sum wrapped once. */
  lemma WrappedSum(a: int, b: int)
    ensures (a % 0x1_0000_0000 + b) % 0x1_0000_0000 == (a + b) % 0x1_0000_0000
  {
    var q := a / 0x1_0000_0000;
    assert a == q * 0x1_0000_0000 + a % 0x1_0000_0000;
    assert a + b == (a % 0x1_0000_0000 + b) + q * 0x1_0000_0000;
  }

  /** The header stage: reject anything but a 24-bit uncompressed bitmap,
      otherwise produce the scaled headers. */
  function Transcode(bf: FileHeader, bi: InfoHeader, n: nat): (r: Result<(FileHeader, InfoHeader)>)
    requires ValidScale(n)
    requires IsSupported(bf, bi) ==> ScaleFits(bi, n)
    ensures r.Ok? <==> (bf.bfType == 0x4d42 && bf.bfOffBits == 54 && bi.biSize == 40
                        && bi.biBitCount == 24 && bi.biCompression == 0)
    ensures r.Err? ==> r.error == UnsupportedFormat
    ensures r.Ok? ==> r.value == ScaledHeaders(bf, bi, n)
  {
    if IsSupported(bf, bi) then Ok(ScaledHeaders(bf, bi, n)) else Err(UnsupportedFormat)
  }

  /** With n = 1 the headers come back unchanged exactly when biSizeImage
      already holds the padded size (and so bfSize already accounts for it). */
  lemma UnitScaleKeepsHeaders(bf: FileHeader, bi: InfoHeader)
    requires IsSupported(bf, bi) && ScaleFits(bi, 1)
    ensures ScaledHeaders(bf, bi, 1) == (bf, bi)
            <==> bi.biSizeImage as int == PaddedImageBytes(bi.biWidth as int, Abs(bi.biHeight as int))
  {
    var r := ScaledHeaders(bf, bi, 1);
    assert r.1.biWidth == bi.biWidth && r.1.biHeight == bi.biHeight;
    if bi.biSizeImage as int == PaddedImageBytes(bi.biWidth as int, Abs(bi.biHeight as int)) {
      assert r.1 == bi by {
        assert r.1.biSizeImage == bi.biSizeImage;
      }
      assert r.0 == bf by {
        assert r.0.bfSize == bf.bfSize;
      }
    }
  }
}
