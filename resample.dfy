/** The pixel stage of resize: every source row is read pixel by pixel into a
    row buffer, each pixel n times; the buffer is padded with zeros and
    written n times; the source row's padding is skipped (resize.c lines
    98-135).  The input is the pixel data after the headers, read through a
    position; the output is the sequence of buffers handed to fwrite, in
    order. */
module Resample {
  import opened Bmp
  import opened Arith

  /** Where source row i starts: every row takes width*3 pixel bytes and
      padOld padding bytes. */
  function RowOffset(i: nat, width: nat, padOld: nat): nat
  {
    i * (width * 3 + padOld)
  }

  /** The input holds the pixel bytes of `rows` source rows; the padding of the
      last row may be missing, since skipping it is a seek and never a read. */
  predicate HasPixelRows(input: seq<byte>, width: nat, rows: nat, padOld: nat)
  {
    rows == 0 || RowOffset(rows - 1, width, padOld) + width * 3 <= |input|
  }

  /** The pixels of the source row whose bytes start at `offset`. */
  function SourceRow(input: seq<byte>, offset: nat, width: nat): (r: seq<Pixel>)
    requires offset + width * 3 <= |input|
    ensures |r| == width
    ensures forall j :: 0 <= j < width ==> r[j] == TripleAt(input, offset + j * 3)
  {
    seq(width, j requires 0 <= j < width => TripleAt(input, offset + j * 3))
  }

  /** `p` repeated `k` times. */
  function Copies<T>(p: T, k: nat): (r: seq<T>)
    ensures |r| == k
    ensures forall t :: 0 <= t < k ==> r[t] == p
  {
    seq(k, _ => p)
  }

  /** Horizontal replication: each pixel of `row` n times, in order. */
  function Stretch(row: seq<Pixel>, n: nat): (r: seq<Pixel>)
    ensures |r| == |row| * n
  {
    if row == [] then []
    else
      MulSucc(|row| - 1, n);
      Stretch(row[..|row| - 1], n) + Copies(row[|row| - 1], n)
  }

  /** The bytes of a sequence of pixels, three per pixel. */
  function Flatten(ps: seq<Pixel>): (r: seq<byte>)
    ensures |r| == |ps| * 3
  {
    if ps == [] then []
    else Flatten(ps[..|ps| - 1]) + TripleBytes(ps[|ps| - 1])
  }

  /** The filled row buffer: the stretched pixels followed by padNew zeros. */
  function ExpandedRow(row: seq<Pixel>, n: nat, padNew: nat): (r: seq<byte>)
    ensures |r| == |row| * n * 3 + padNew
  {
    Flatten(Stretch(row, n)) + Copies(0, padNew)
  }

  /** The buffers written for the first `rows` source rows: each row's filled
      buffer n times. */
  function RowWrites(input: seq<byte>, width: nat, rows: nat, n: nat, padOld: nat, padNew: nat)
    : (r: seq<seq<byte>>)
    requires HasPixelRows(input, width, rows, padOld)
    ensures |r| == rows * n
    ensures forall t :: 0 <= t < |r| ==> |r[t]| == width * n * 3 + padNew
  {
    if rows == 0 then []
    else
      assert HasPixelRows(input, width, rows - 1, padOld) by {
        if rows > 1 { RowOffsetGrows(rows - 2, width, padOld); }
      }
      var last := SourceRow(input, RowOffset(rows - 1, width, padOld), width);
      MulSucc(rows - 1, n);
      RowWrites(input, width, rows - 1, n, padOld, padNew) + Copies(ExpandedRow(last, n, padNew), n)
  }

  /** The output byte stream: the written buffers one after another. */
  function Concat(ws: seq<seq<byte>>): seq<byte>
  {
    if ws == [] then [] else Concat(ws[..|ws| - 1]) + ws[|ws| - 1]
  }

  lemma RowOffsetGrows(i: nat, width: nat, padOld: nat)
    ensures RowOffset(i + 1, width, padOld) == RowOffset(i, width, padOld) + width * 3 + padOld
  {
    MulSucc(i, width * 3 + padOld);
  }

  /** Fewer rows need fewer input bytes. */
  lemma HasFewerPixelRows(input: seq<byte>, width: nat, rows: nat, fewer: nat, padOld: nat)
    requires HasPixelRows(input, width, rows, padOld) && fewer <= rows
    ensures HasPixelRows(input, width, fewer, padOld)
  {
    if fewer > 0 {
      MulMonotone(fewer - 1, rows - 1, width * 3 + padOld);
    }
  }

  // Properties of the reference functions

  /** Slot j*n+k of the stretched row holds source pixel j. */
  lemma {:induction false} StretchAt(row: seq<Pixel>, n: nat, j: nat, k: nat)
    requires j < |row| && k < n
    ensures j * n + k < |Stretch(row, n)|
    ensures Stretch(row, n)[j * n + k] == row[j]
  {
    var init := row[..|row| - 1];
    assert Stretch(row, n) == Stretch(init, n) + Copies(row[|row| - 1], n);
    if j < |row| - 1 {
      SlotInBlocks(j, k, n, |init|);
      StretchAt(init, n, j, k);
    } else {
      assert j * n == |init| * n;
    }
  }

  /** The three bytes of pixel s of Flatten(ps) are those of ps[s]. */
  lemma {:induction false} FlattenAt(ps: seq<Pixel>, s: nat)
    requires s < |ps|
    ensures (s + 1) * 3 <= |Flatten(ps)|
    ensures TripleAt(Flatten(ps), s * 3) == ps[s]
  {
    var init := ps[..|ps| - 1];
    if s < |ps| - 1 {
      FlattenAt(init, s);
    }
  }

  /** In the filled buffer pixel slot j*n+k holds source pixel j. */
  lemma ExpandedRowAt(row: seq<Pixel>, n: nat, padNew: nat, j: nat, k: nat)
    requires j < |row| && k < n
    ensures (j * n + k + 1) * 3 <= |ExpandedRow(row, n, padNew)|
    ensures TripleAt(ExpandedRow(row, n, padNew), (j * n + k) * 3) == row[j]
  {
    StretchAt(row, n, j, k);
    FlattenAt(Stretch(row, n), j * n + k);
  }

  /** In the filled buffer the padNew bytes after the pixels are zero. */
  lemma ExpandedRowPadding(row: seq<Pixel>, n: nat, padNew: nat, t: nat)
    requires t < padNew
    ensures ExpandedRow(row, n, padNew)[|row| * n * 3 + t] == 0
  {
  }

  /** One more source row appends its filled buffer n times. */
  lemma RowWritesUnfold(input: seq<byte>, width: nat, rows: nat, n: nat, padOld: nat, padNew: nat)
    requires HasPixelRows(input, width, rows, padOld) && rows > 0
    ensures HasPixelRows(input, width, rows - 1, padOld)
    ensures RowWrites(input, width, rows, n, padOld, padNew)
            == RowWrites(input, width, rows - 1, n, padOld, padNew)
               + Copies(ExpandedRow(SourceRow(input, RowOffset(rows - 1, width, padOld), width), n, padNew), n)
  {
    HasFewerPixelRows(input, width, rows, rows - 1, padOld);
  }

  /** The loop step of the resampler: source row i lies in the input, its
      filled buffer n times extends the writes of i rows to those of i + 1
      rows, and the next row starts one padded source row further on. */
  lemma RowWritesStep(input: seq<byte>, width: nat, rows: nat, i: nat, n: nat, padOld: nat, padNew: nat)
    requires HasPixelRows(input, width, rows, padOld) && i < rows
    ensures HasPixelRows(input, width, i + 1, padOld)
    ensures RowOffset(i, width, padOld) + width * 3 <= |input|
    ensures RowWrites(input, width, i + 1, n, padOld, padNew)
            == RowWrites(input, width, i, n, padOld, padNew)
               + Copies(ExpandedRow(SourceRow(input, RowOffset(i, width, padOld), width), n, padNew), n)
    ensures RowOffset(i + 1, width, padOld) == RowOffset(i, width, padOld) + width * 3 + padOld
  {
    HasFewerPixelRows(input, width, rows, i + 1, padOld);
    RowWritesUnfold(input, width, i + 1, n, padOld, padNew);
    RowOffsetGrows(i, width, padOld);
  }

  /** Write i*n+r, for every r < n, is the filled buffer of source row i. */
  lemma {:induction false} RowWritesAt(input: seq<byte>, width: nat, rows: nat, n: nat,
                                       padOld: nat, padNew: nat, i: nat, r: nat)
    requires HasPixelRows(input, width, rows, padOld)
    requires i < rows && r < n
    ensures RowOffset(i, width, padOld) + width * 3 <= |input|
    ensures i * n + r < |RowWrites(input, width, rows, n, padOld, padNew)|
    ensures RowWrites(input, width, rows, n, padOld, padNew)[i * n + r]
            == ExpandedRow(SourceRow(input, RowOffset(i, width, padOld), width), n, padNew)
  {
    HasFewerPixelRows(input, width, rows, i + 1, padOld);
    RowWritesUnfold(input, width, rows, n, padOld, padNew);
    if i < rows - 1 {
      SlotInBlocks(i, r, n, rows - 1);
      RowWritesAt(input, width, rows - 1, n, padOld, padNew, i, r);
    }
  }

  /** Pixel replication: output row i*n+r, pixel j*n+k, is source pixel j of
      source row i, for every r < n and k < n. */
  lemma PixelReplication(input: seq<byte>, width: nat, rows: nat, n: nat, padOld: nat, padNew: nat,
                         i: nat, r: nat, j: nat, k: nat)
    requires HasPixelRows(input, width, rows, padOld)
    requires i < rows && r < n && j < width && k < n
    ensures RowOffset(i, width, padOld) + (j + 1) * 3 <= |input|
    ensures i * n + r < |RowWrites(input, width, rows, n, padOld, padNew)|
    ensures (j * n + k + 1) * 3 <= |RowWrites(input, width, rows, n, padOld, padNew)[i * n + r]|
    ensures TripleAt(RowWrites(input, width, rows, n, padOld, padNew)[i * n + r], (j * n + k) * 3)
            == TripleAt(input, RowOffset(i, width, padOld) + j * 3)
  {
    RowWritesAt(input, width, rows, n, padOld, padNew, i, r);
    var row := SourceRow(input, RowOffset(i, width, padOld), width);
    ExpandedRowAt(row, n, padNew, j, k);
  }

  /** Every padding byte of every written buffer is zero. */
  lemma PaddingIsZero(input: seq<byte>, width: nat, rows: nat, n: nat, padOld: nat, padNew: nat,
                      i: nat, r: nat, t: nat)
    requires HasPixelRows(input, width, rows, padOld)
    requires i < rows && r < n && t < padNew
    ensures i * n + r < |RowWrites(input, width, rows, n, padOld, padNew)|
    ensures width * n * 3 + t < |RowWrites(input, width, rows, n, padOld, padNew)[i * n + r]|
    ensures RowWrites(input, width, rows, n, padOld, padNew)[i * n + r][width * n * 3 + t] == 0
  {
    RowWritesAt(input, width, rows, n, padOld, padNew, i, r);
    ExpandedRowPadding(SourceRow(input, RowOffset(i, width, padOld), width), n, padNew, t);
  }

  /** Writes of one length `len` make a stream of |ws| * len bytes. */
  lemma {:induction false} ConcatLength(ws: seq<seq<byte>>, len: nat)
    requires forall t :: 0 <= t < |ws| ==> |ws[t]| == len
    ensures |Concat(ws)| == |ws| * len
  {
    if ws != [] {
      ConcatLength(ws[..|ws| - 1], len);
      MulSucc(|ws| - 1, len);
    }
  }

  /** The pixel section of the output is n * rows writes of one padded new row
      each, (width*n*3 + padNew) * (rows*n) bytes in all. */
  lemma StreamLength(input: seq<byte>, width: nat, rows: nat, n: nat, padOld: nat, padNew: nat)
    requires HasPixelRows(input, width, rows, padOld)
    ensures |Concat(RowWrites(input, width, rows, n, padOld, padNew))|
            == (width * n * 3 + padNew) * (rows * n)
  {
    var ws := RowWrites(input, width, rows, n, padOld, padNew);
    ConcatLength(ws, width * n * 3 + padNew);
  }

  /** With n = 1 the stretched row is the source row itself. */
  lemma {:induction false} StretchByOne(row: seq<Pixel>)
    ensures Stretch(row, 1) == row
  {
    if row != [] {
      StretchByOne(row[..|row| - 1]);
    }
  }

  /** Reading a row pixel by pixel and storing the pixels again gives back the
      row's bytes. */
  lemma {:induction false} FlattenSourceRow(input: seq<byte>, offset: nat, width: nat)
    requires offset + width * 3 <= |input|
    ensures Flatten(SourceRow(input, offset, width)) == input[offset..offset + width * 3]
  {
    if width > 0 {
      var row := SourceRow(input, offset, width);
      var mid := offset + (width - 1) * 3;
      assert row[..width - 1] == SourceRow(input, offset, width - 1);
      FlattenSourceRow(input, offset, width - 1);
      assert TripleBytes(row[width - 1]) == input[mid..mid + 3];
      assert input[offset..mid + 3] == input[offset..mid] + input[mid..mid + 3];
    }
  }

  /** With n = 1 every written buffer is the pixel bytes of its source row,
      unchanged, followed by padNew zeros. */
  lemma UnitScaleCopiesRows(input: seq<byte>, width: nat, rows: nat, padOld: nat, padNew: nat, i: nat)
    requires HasPixelRows(input, width, rows, padOld) && i < rows
    ensures RowOffset(i, width, padOld) + width * 3 <= |input|
    ensures i < |RowWrites(input, width, rows, 1, padOld, padNew)|
    ensures RowWrites(input, width, rows, 1, padOld, padNew)[i]
            == input[RowOffset(i, width, padOld)..RowOffset(i, width, padOld) + width * 3] + Copies(0, padNew)
  {
    RowWritesAt(input, width, rows, 1, padOld, padNew, i, 0);
    var row := SourceRow(input, RowOffset(i, width, padOld), width);
    StretchByOne(row);
    FlattenSourceRow(input, RowOffset(i, width, padOld), width);
  }

  lemma CopiesSnoc<T>(p: T, k: nat)
    ensures Copies(p, k + 1) == Copies(p, k) + [p]
  {
  }

  lemma FlattenSnoc(ps: seq<Pixel>, p: Pixel)
    ensures Flatten(ps + [p]) == Flatten(ps) + TripleBytes(p)
  {
    assert (ps + [p])[..|ps|] == ps;
  }

  lemma {:induction false} FlattenAppend(xs: seq<Pixel>, ys: seq<Pixel>)
    ensures Flatten(xs + ys) == Flatten(xs) + Flatten(ys)
  {
    if ys == [] {
      assert xs + ys == xs;
    } else {
      var init := ys[..|ys| - 1];
      assert (xs + ys)[..|xs + ys| - 1] == xs + init;
      FlattenAppend(xs, init);
    }
  }

  /** The n slots of pixel j end inside a row of `width` pixels. */
  lemma SlotsBeforeRowEnd(j: nat, n: nat, width: nat)
    requires j < width
    ensures (j + 1) * n == j * n + n
    ensures (j * n + n) * 3 <= width * n * 3
  {
    MulSucc(j, n);
    MulMonotone(j + 1, width, n);
  }

  // The imperative resampler

  /** Line 119: `*(scanline + q) = triple`, the three bytes of pixel slot q. */
  method StoreTriple(line: array<byte>, q: nat, p: Pixel)
    requires (q + 1) * 3 <= line.Length
    modifies line
    ensures line[..(q + 1) * 3] == old(line[..q * 3]) + TripleBytes(p)
    ensures line[(q + 1) * 3..] == old(line[(q + 1) * 3..])
  {
    line[q * 3] := p.blue;
    line[q * 3 + 1] := p.green;
    line[q * 3 + 2] := p.red;
  }

  /** Lines 118-120: store pixel p in the n slots from cursor q on; the
      cursor ends n slots further. */
  method StoreCopies(line: array<byte>, q: nat, p: Pixel, n: nat) returns (next: nat)
    requires (q + n) * 3 <= line.Length
    modifies line
    ensures next == q + n
    ensures line[..next * 3] == old(line[..q * 3]) + Flatten(Copies(p, n))
    ensures line[next * 3..] == old(line[next * 3..])
  {
    ghost var prefix := line[..q * 3];
    next := q;
    for k := 0 to n
      invariant next == q + k
      invariant line[..next * 3] == prefix + Flatten(Copies(p, k))
      invariant line[(q + n) * 3..] == old(line[(q + n) * 3..])
    {
      StoreTriple(line, next, p);
      FlattenSnoc(Copies(p, k), p);
      CopiesSnoc(p, k);
      next := next + 1;
    }
  }

  /** Lines 123-124: zero the `count` bytes from `start` to the end of the buffer. */
  method ZeroPadding(line: array<byte>, start: nat, count: nat)
    requires start + count == line.Length
    modifies line
    ensures line[..] == old(line[..start]) + Copies(0, count)
  {
    ghost var prefix := line[..start];
    for k := 0 to count
      invariant line[..start + k] == prefix + Copies(0, k)
    {
      line[start + k] := 0;
      CopiesSnoc(0 as byte, k);
    }
    assert line[..] == line[..start + count];
  }

  /** Lines 110-124: read `width` pixels from `offset` and store each n times
      through the cursor q, then zero the padNew bytes after them. */
  method FillRow(line: array<byte>, input: seq<byte>, offset: nat, width: nat, n: nat, padNew: nat)
    returns (pos: nat, q: nat)
    requires line.Length == width * n * 3 + padNew
    requires offset + width * 3 <= |input|
    modifies line
    ensures pos == offset + width * 3
    ensures q == width * n
    ensures line[..] == ExpandedRow(SourceRow(input, offset, width), n, padNew)
  {
    ghost var row := SourceRow(input, offset, width);
    pos, q := offset, 0;
    for j := 0 to width
      invariant pos == offset + j * 3
      invariant q == j * n && q <= width * n
      invariant line[..q * 3] == Flatten(Stretch(row[..j], n))
    {
      var triple := TripleAt(input, pos);
      pos := pos + 3;
      assert triple == row[j];
      SlotsBeforeRowEnd(j, n, width);
      q := StoreCopies(line, q, triple, n);
      assert row[..j + 1][..j] == row[..j];
      FlattenAppend(Stretch(row[..j], n), Copies(triple, n));
    }
    assert row[..width] == row;
    ZeroPadding(line, q * 3, padNew);
  }

  /** Lines 127-130: hand the whole buffer to fwrite n times. */
  method EmitRow(line: array<byte>, written: seq<seq<byte>>, n: nat) returns (writes: seq<seq<byte>>)
    ensures writes == written + Copies(line[..], n)
  {
    writes := written;
    for k := 0 to n
      invariant writes == written + Copies(line[..], k)
    {
      writes := writes + [line[..]];
      CopiesSnoc(line[..], k);
    }
  }

  /** Lines 110-134, one source row: fill the buffer, write it n times, skip
      the source row's padding. */
  method ResampleRow(line: array<byte>, input: seq<byte>, offset: nat, width: nat, n: nat,
                     padOld: nat, padNew: nat, written: seq<seq<byte>>)
    returns (writes: seq<seq<byte>>, pos: nat)
    requires line.Length == width * n * 3 + padNew
    requires offset + width * 3 <= |input|
    modifies line
    ensures line[..] == ExpandedRow(SourceRow(input, offset, width), n, padNew)
    ensures writes == written + Copies(ExpandedRow(SourceRow(input, offset, width), n, padNew), n)
    ensures pos == offset + width * 3 + padOld
  {
    var next, q := FillRow(line, input, offset, width, n, padNew);
    writes := EmitRow(line, written, n);
    pos := next + padOld;
  }

  /** Lines 101-135: allocate the row buffer, then for each of `rows` source
      rows fill it, write it n times, and skip padOld input bytes.  The result
      is the list of written buffers and the input position reached. */
  method ResampleRows(input: seq<byte>, width: nat, rows: nat, n: nat, padOld: nat, padNew: nat)
    returns (writes: seq<seq<byte>>, pos: nat)
    requires HasPixelRows(input, width, rows, padOld)
    ensures writes == RowWrites(input, width, rows, n, padOld, padNew)
    ensures pos == RowOffset(rows, width, padOld)
  {
    var line := new byte[width * n * 3 + padNew];
    writes, pos := [], 0;
    for i := 0 to rows
      invariant pos == RowOffset(i, width, padOld)
      invariant HasPixelRows(input, width, i, padOld)
      invariant writes == RowWrites(input, width, i, n, padOld, padNew)
    {
      RowWritesStep(input, width, rows, i, n, padOld, padNew);
      writes, pos := ResampleRow(line, input, pos, width, n, padOld, padNew, writes);
    }
  }
}
