/** One run of resize on an opened input and output (resize.c lines 29-33,
    56-135): the header stage, the two header writes, the row buffer, the
    pixel stage.  The output is the list of fwrite calls in order; the input
    is the pixel data that follows the two headers. */
module Resize {
  import opened Bmp
  import opened Header
  import opened Resample

  /** How a run ends: return 0, return 4 (unsupported format) or return 6
      (the row buffer could not be allocated). */
  datatype Status = Resized | Unsupported | OutOfMemory

  /** One fwrite to the output file. */
  datatype Write =
    | FileHeaderWrite(fileHeader: FileHeader)
    | InfoHeaderWrite(infoHeader: InfoHeader)
    | PixelWrite(bytes: seq<byte>)

  function PixelWrites(ws: seq<seq<byte>>): (r: seq<Write>)
    ensures |r| == |ws|
    ensures forall t :: 0 <= t < |ws| ==> r[t] == PixelWrite(ws[t])
  {
    seq(|ws|, t requires 0 <= t < |ws| => PixelWrite(ws[t]))
  }

  /** What the source relies on without checking it: a supported header whose
      scaled sizes fit a LONG, and enough pixel bytes for every source row. */
  predicate Readable(bf: FileHeader, bi: InfoHeader, n: nat, pixels: seq<byte>)
  {
    IsSupported(bf, bi) ==>
      && ScaleFits(bi, n)
      && HasPixelRows(pixels, bi.biWidth as int, Abs(bi.biHeight as int), Padding(bi.biWidth as int))
  }

  /** The run.  A rejected header writes nothing; a failed allocation leaves
      only the two headers written; otherwise each source row becomes n
      writes of the padded new row. */
  method Resize(n: nat, bf: FileHeader, bi: InfoHeader, pixels: seq<byte>, allocationFails: bool)
    returns (status: Status, out: seq<Write>, consumed: nat)
    requires ValidScale(n)
    requires Readable(bf, bi, n, pixels)
    ensures !IsSupported(bf, bi) ==> status == Unsupported && out == [] && consumed == 0
    ensures IsSupported(bf, bi) ==>
              var (bf', bi') := ScaledHeaders(bf, bi, n);
              var width, rows := bi.biWidth as int, Abs(bi.biHeight as int);
              if allocationFails then
                && status == OutOfMemory
                && out == [FileHeaderWrite(bf'), InfoHeaderWrite(bi')]
                && consumed == 0
              else
                && status == Resized
                && out == [FileHeaderWrite(bf'), InfoHeaderWrite(bi')]
                          + PixelWrites(RowWrites(pixels, width, rows, n, Padding(width), Padding(bi'.biWidth as int)))
                && consumed == RowOffset(rows, width, Padding(width))
  {
    var result := Transcode(bf, bi, n);
    if result.Err? {
      return Unsupported, [], 0;
    }
    var (bf', bi') := result.value;
    // the original size, for reading the source rows
    var widthOld: nat := bi.biWidth as int;
    var heightOld: nat := Abs(bi.biHeight as int);
    out := [FileHeaderWrite(bf'), InfoHeaderWrite(bi')];
    var paddingOld := Padding(widthOld);
    var paddingNew := Padding(bi'.biWidth as int);
    if allocationFails {
      return OutOfMemory, out, 0;
    }
    var writes;
    writes, consumed := ResampleRows(pixels, widthOld, heightOld, n, paddingOld, paddingNew);
    out := out + PixelWrites(writes);
    status := Resized;
  }

  /** The pixel section written holds exactly the biSizeImage bytes the new
      header announces, in n * |biHeight| writes of one new row's stride each. */
  lemma PixelSectionMatchesHeader(bf: FileHeader, bi: InfoHeader, n: nat, pixels: seq<byte>)
    requires ValidScale(n) && IsSupported(bf, bi) && Readable(bf, bi, n, pixels)
    ensures var (_, bi') := ScaledHeaders(bf, bi, n);
            var width, rows := bi.biWidth as int, Abs(bi.biHeight as int);
            var ws := RowWrites(pixels, width, rows, n, Padding(width), Padding(width * n));
            && |ws| == Abs(bi'.biHeight as int)
            && (forall t :: 0 <= t < |ws| ==> |ws[t]| == RowStride(bi'.biWidth as int, 24))
            && |Concat(ws)| == bi'.biSizeImage as int
  {
    var (_, bi') := ScaledHeaders(bf, bi, n);
    var width, rows := bi.biWidth as int, Abs(bi.biHeight as int);
    var newWidth: nat := bi'.biWidth as int;
    var ws := RowWrites(pixels, width, rows, n, Padding(width), Padding(newWidth));
    var stride := newWidth * 3 + Padding(newWidth);
    StrideMatchesPadding(newWidth);
    StreamLength(pixels, width, rows, n, Padding(width), Padding(newWidth));
  }
}
