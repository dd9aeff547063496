/** The data model of a 24-bit uncompressed bitmap: the fixed-width integer
    types of the bitmap header declarations, the two header records and the
    three-byte pixel.  Header fields are kept as integers of their declared
    width; their packing into the 54 bytes at the start of the file is not
    part of this model. */
module Bmp {

  /** BYTE, WORD, DWORD and LONG of the bitmap header declarations. */
  newtype byte = x: int | 0 <= x < 0x100
  newtype uint16 = x: int | 0 <= x < 0x1_0000
  newtype uint32 = x: int | 0 <= x < 0x1_0000_0000
  newtype int32 = x: int | -0x8000_0000 <= x < 0x8000_0000

  const INT32_MAX: int := 0x7fff_ffff

  /** "BM" read as a little-endian WORD. */
  const MAGIC_BM: uint16 := 0x4d42
  /** Offset of the pixel data: both headers, 14 + 40 bytes. */
  const PIXEL_DATA_OFFSET: uint32 := 54
  /** Size of a BITMAPINFOHEADER. */
  const INFO_HEADER_SIZE: uint32 := 40
  const BITS_PER_PIXEL: uint16 := 24
  /** BI_RGB: no compression. */
  const COMPRESSION_NONE: uint32 := 0

  /** BITMAPFILEHEADER */
  datatype FileHeader = FileHeader(
    bfType: uint16,
    bfSize: uint32,
    bfReserved1: uint16,
    bfReserved2: uint16,
    bfOffBits: uint32)

  /** BITMAPINFOHEADER; a negative biHeight means the rows are stored top-down. */
  datatype InfoHeader = InfoHeader(
    biSize: uint32,
    biWidth: int32,
    biHeight: int32,
    biPlanes: uint16,
    biBitCount: uint16,
    biCompression: uint32,
    biSizeImage: uint32,
    biXPelsPerMeter: int32,
    biYPelsPerMeter: int32,
    biClrUsed: uint32,
    biClrImportant: uint32)

  /** RGBTRIPLE: stored blue first, then green, then red. */
  datatype Pixel = Pixel(blue: byte, green: byte, red: byte)

  /** The three bytes of a pixel in storage order; sizeof(RGBTRIPLE) is 3,
      written as the literal 3 throughout. */
  function TripleBytes(p: Pixel): (r: seq<byte>)
    ensures |r| == 3
    ensures TripleAt(r, 0) == p
  {
    [p.blue, p.green, p.red]
  }

  /** The pixel whose three bytes start at `offset`, as one fread of an RGBTRIPLE reads it. */
  function TripleAt(bytes: seq<byte>, offset: nat): Pixel
    requires offset + 3 <= |bytes|
  {
    Pixel(bytes[offset], bytes[offset + 1], bytes[offset + 2])
  }

  function Abs(x: int): nat
  {
    if x < 0 then -x else x
  }
}
