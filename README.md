# resize: a verified model of the CS50 bitmap resizer

`resize n infile outfile` enlarges a 24-bit uncompressed bitmap by an integer
factor `n` (1..100). Every source pixel becomes an n×n block, so each row is
stretched horizontally and written n times. This project models the one
C file of the program, `resize.c`, in four modules plus one arithmetic helper
module:

- `Bmp` (bmp.dfy):
  - the fixed-width header types BYTE/WORD/DWORD/LONG as newtypes;
  - the two header records and the three-byte pixel.
- `Header` (header.dfy), lines 29-33 and 64-96, pure:
  - the scale-factor guard;
  - the five-condition format check;
  - the scaled width and height;
  - `biSizeImage`, recomputed with the mask-and-shift stride formula;
  - the DWORD adjustment of `bfSize`;
  - the two row paddings.
- `Resample` (resample.dfy), lines 98-135, imperative:
  - the row buffer is an `array<byte>`, filled in place;
  - each source pixel is stored n times, then the tail is zeroed;
  - the buffer is handed to `fwrite` n times;
  - `padding_old` input bytes are skipped.

  The methods are proved against reference functions: the recursive
  `Stretch`, `Flatten` and `RowWrites`, and `ExpandedRow`, which composes
  them. Lemmas about those functions state
  the pixel replication, the zero padding and the stream length.
- `Resize` (resize.dfy), lines 56-135, is one run of `main`:
  - a rejected header writes nothing;
  - a failed allocation leaves exactly the two header writes;
  - otherwise both headers and then the `n × |biHeight|` row writes follow;
  - the bytes written agree with the `biSizeImage` announced in the new header.
- `Arith` (arith.dfy): small lemmas about products of naturals.

Inputs and outputs are modelled as follows:
- The input file is the two header records plus the sequence of pixel bytes
  that follows them.
- The output file is the sequence of `fwrite` calls.
- The input position reached is returned as `consumed`.

A reader might expect three behaviours of such a tool: an error on truncated
input, the files released on every exit, and a byte copy of the input at
n = 1. The code provides none of them, and the model follows the code:
- **Short reads.** The code never checks `fread`, so a short input is not
  detected. The model requires enough pixel bytes (`Resize.Readable`).
- **Allocation failure.** The code returns 6 after the headers have already
  been written, without closing either file. The model ends with exactly
  those two writes.
- **n = 1.** The output is not always a byte copy of the input:
  - `biSizeImage` is recomputed, so the headers come back unchanged only
    when that field already held the padded size
    (`Header.UnitScaleKeepsHeaders`);
  - each row's padding is written as zeros, whatever the input held there
    (`Resample.UnitScaleCopiesRows`).

## Model

| member | source | states |
|---|---|---|
| Bmp.TripleBytes | resize.c:99 | an RGBTRIPLE occupies three bytes, blue first, and reading them back gives the pixel |
| Header.ClearLow5Bits | resize.c:84 | `& ~31` on a non-negative value yields the largest multiple of 32 not above it |
| Header.Padding | resize.c:94-96 | the padding lies in 0..3 and makes `width*3 + padding` a multiple of 4 |
| Header.StrideMatchesPadding | resize.c:84-96 | the mask-and-shift stride equals `width*3 + padding`; it equals the row's bits rounded up to whole 32-bit words; it is a multiple of 4 in `[width*3, width*3+4)` |
| Header.ScaledWidth | resize.c:78 | the new width is `biWidth * n` and is non-negative |
| Header.ScaledHeight | resize.c:79 | the new height is `biHeight * n`; its sign and its zero-ness are those of the old height; its magnitude is `abs(biHeight) * n` |
| Header.ScaleKeepsSign | resize.c:79 | multiplying by `n >= 1` keeps the sign and scales the absolute value by n |
| Header.ImageSize | resize.c:84 | the new `biSizeImage` is one padded row stride per row of `abs(height)` |
| Header.WrappedSum | resize.c:81-85 | reducing modulo 2^32 after the subtraction and again after the addition equals reducing the exact sum once |
| Header.AdjustedFileSize | resize.c:81-85 | `bfSize - oldImage + newImage` modulo 2^32, and exactly that sum when nothing wraps |
| Header.ScaledHeaders | resize.c:74-85 | width and height scaled with the height's sign kept; `biSizeImage` the padded size of the new image; `bfSize` adjusted by the change in image size; every other field of both headers unchanged |
| Header.Transcode | resize.c:64-85 | accepted exactly when all five header conditions hold (magic `0x4d42`, offset 54, info size 40, 24 bits, no compression); otherwise an unsupported-format error; on acceptance the scaled headers |
| Header.UnitScaleKeepsHeaders | resize.c:78-85 | with n = 1 the headers come back unchanged if and only if `biSizeImage` already held the padded image size |
| Resample.SourceRow | resize.c:112-115 | the pixels of one source row: `width` triples read three bytes apart from the row's start |
| Resample.Flatten | resize.c:104-105 | the byte view of a pixel sequence through `byteline` has three bytes per pixel |
| Resample.Stretch | resize.c:117-120 | the stretched row has `width * n` pixels |
| Resample.ExpandedRow | resize.c:110-124 | the filled buffer has `width*n*3 + padding_new` bytes |
| Resample.RowWrites | resize.c:107-135 | the writes for `rows` source rows number `rows * n`, each of `width*n*3 + padding_new` bytes |
| Resample.RowOffsetGrows | resize.c:132-134 | the next source row starts `width*3 + padding_old` bytes after the current one |
| Resample.StretchAt | resize.c:112-121 | slot `j*n + k` of the stretched row holds source pixel j, for every k < n |
| Resample.FlattenAt | resize.c:104-105 | pixel s of a stored pixel sequence occupies the bytes at `s*3` |
| Resample.ExpandedRowAt | resize.c:110-121 | in the filled buffer, pixel slot `j*n + k` holds source pixel j |
| Resample.ExpandedRowPadding | resize.c:122-124 | in the filled buffer, the `padding_new` bytes after the pixels are zero |
| Resample.RowWritesUnfold | resize.c:107-135 | one more source row appends its filled buffer n times |
| Resample.RowWritesStep | resize.c:107-135 | the loop step: row i lies inside the input; its buffer written n times extends the writes of i rows to those of i + 1 rows; the next row starts one padded source row further on |
| Resample.RowWritesAt | resize.c:107-130 | for every r < n, write `i*n + r` is the filled buffer of source row i |
| Resample.PixelReplication | resize.c:107-130 | output row `i*n + r`, pixel `j*n + k`, is source pixel j of source row i, for all r, k < n |
| Resample.PaddingIsZero | resize.c:122-130 | every padding byte of every output row is zero |
| Resample.ConcatLength | resize.c:126-130 | writes that all have one length make a stream of count × length bytes |
| Resample.StreamLength | resize.c:126-130 | the pixel section is `(width*n*3 + padding_new) * (rows*n)` bytes |
| Resample.StretchByOne | resize.c:117-120 | with n = 1 the stretched row is the source row |
| Resample.FlattenSourceRow | resize.c:112-119 | reading a row pixel by pixel and storing the pixels again gives back the row's bytes |
| Resample.UnitScaleCopiesRows | resize.c:107-130 | with n = 1, written row i is the pixel bytes of source row i unchanged, followed by `padding_new` zeros |
| Resample.StoreTriple | resize.c:119 | storing pixel slot q puts the pixel's three bytes at `q*3` and changes no other byte |
| Resample.StoreCopies | resize.c:117-120 | the k loop stores the pixel in n consecutive slots, keeps every byte after them, and returns the advanced counter `q + n` |
| Resample.ZeroPadding | resize.c:122-124 | the padding loop zeroes the buffer's tail and keeps the pixel bytes |
| Resample.FillRow | resize.c:110-124 | after the j loop and the padding loop, the buffer is the expanded source row; `width*3` input bytes were read; the counter ends at `width*n` |
| Resample.EmitRow | resize.c:126-130 | the write loop appends the whole buffer n times |
| Resample.ResampleRow | resize.c:110-134 | one source row: the buffer ends holding its expanded row; the writes gain that buffer n times; the position moves past its pixels and its `padding_old` bytes |
| Resample.ResampleRows | resize.c:98-135 | the row loop produces exactly `RowWrites` and ends at offset `rows * (width*3 + padding_old)` |
| Resize.PixelWrites | resize.c:129 | one fwrite of the row buffer per written buffer, in order |
| Resize.Resize | resize.c:56-135 | rejection writes nothing and reads no pixels; allocation failure leaves only the two scaled headers written; success writes both headers followed by the row writes and consumes `abs(biHeight)` padded source rows |
| Resize.PixelSectionMatchesHeader | resize.c:84-130 | the pixel section is `abs(new biHeight)` writes of one new row stride each, in all exactly the new `biSizeImage` bytes |

## Left out

- The command line is not modelled: `argc`, `atoi`, the usage message and the file names (lines 21-37). The guard `1 <= n <= 100` (lines 29-33) is kept as a precondition, `Header.ValidScale`.
- Opening and closing the files, `free`, the messages printed and the exit codes 1, 2, 3 and 5 are not modelled. Exits 0, 4 and 6 are modelled as `Resize.Status`.
- Only the results of `fread`, `fwrite` and `fseek` are modelled, never their return values; the code ignores them. A short input is excluded by the precondition `Resize.Readable`, since the code has no error path for it.
- `malloc` failure (lines 101-103) cannot be observed in Dafny. The boolean parameter `allocationFails` stands in for it.
- Header packing (byte order and field layout in the 54 header bytes) is left out. bmp.h is not part of this model; the field widths are the usual BYTE, WORD, DWORD and LONG.
- Header.ScaleFits: negative widths are excluded by this precondition, although the code does not reject them. The code would then mix signed and unsigned arithmetic in `malloc` and in the paddings, which is not modelled.
- Header.ScaleFits: the LONG products of lines 78, 79 and 84 are required to fit in 32 bits, so signed overflow (undefined behaviour in C) is not modelled. The DWORD arithmetic on `bfSize` does wrap, and is modelled modulo 2^32.
- Header.ClearLow5Bits: `& ~31` and `>> 3` are modelled as integer arithmetic on non-negative values, not as two's-complement bit operations. The two agree on the values the preconditions allow.
- Resample.ResampleRows: the buffer is allocated at its exact size `width*n*3 + padding_new`. The aliasing of `scanline` and `byteline` onto it is modelled as slot `q` meaning bytes `q*3 .. q*3+2`.
- The claim that n = 1 copies the file byte for byte is not proved, because the code does not meet it in general. What holds is stated in Header.UnitScaleKeepsHeaders and Resample.UnitScaleCopiesRows.
