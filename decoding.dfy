/** The scanline layout `PNG.process_data` reads from the decompressed
    stream: height rows, each a filter-type byte followed by width * 3
    filtered bytes (8-bit RGB), and the rows it rebuilds from them, each cut
    into 3-byte pixels. */
module Decoding {
  import opened Bytes
  import opened Wrappers
  import opened Errors
  import Scanlines

  /** `bpp = 3`: 8-bit RGB. */
  const BytesPerPixel: nat := 3

  /** A pixel is one slice `reconstructed_row[j:j + bpp]`; an image is the
      list of rows of pixels. */
  type Pixel = seq<byte>
  type Row = seq<Pixel>
  type Image = seq<Row>

  /** `row_length = self.width * bpp`: the data bytes of a row. */
  function RowLength(width: nat): nat
  {
    BytesPerPixel * width
  }

  /** Bytes per row in the stream: the filter byte and the row's data. */
  function Stride(width: nat): nat
  {
    1 + RowLength(width)
  }

  /** The `offset` of `process_data` when row k starts: where its filter
      byte sits. Each row moves it on by 1 + row_length. */
  function RowOffset(width: nat, k: nat): nat
  {
    if k == 0 then 0 else RowOffset(width, k - 1) + Stride(width)
  }

  /** `decompressed_data[offset:offset + row_length]` for row k: the slice
      clamps, so a stream cut short yields a short (or empty) row. */
  function RowData(raw: seq<byte>, width: nat, k: nat): (r: seq<byte>)
    ensures |r| <= RowLength(width)
  {
    Slice(raw, RowOffset(width, k) + 1, RowOffset(width, k) + 1 + RowLength(width))
  }

  /** Row k has a filter byte, and the decoder knows its filter type. */
  predicate RowOk(raw: seq<byte>, width: nat, k: nat)
  {
    RowOffset(width, k) < |raw| && Scanlines.IsFilterByte(raw[RowOffset(width, k)])
  }

  function FilterAt(raw: seq<byte>, width: nat, k: nat): Scanlines.FilterType
    requires RowOk(raw, width, k)
  {
    Scanlines.FilterOf(raw[RowOffset(width, k)])
  }

  /** The exception row k raises when it is not RowOk: IndexError when its
      filter byte lies past the end, ValueError for an unknown filter type. */
  function RowError(raw: seq<byte>, width: nat, k: nat): Error
  {
    if RowOffset(width, k) >= |raw| then OutOfRange else UnsupportedFilter(raw[RowOffset(width, k)])
  }

  /** Rows never grow down the stream: a later row is cut at least as short. */
  lemma RowDataShrinks(raw: seq<byte>, width: nat, k: nat)
    ensures |RowData(raw, width, k + 1)| <= |RowData(raw, width, k)|
  {
    assert RowOffset(width, k + 1) == RowOffset(width, k) + Stride(width);
  }

  /** `[r[j:j + n] for j in range(0, len(r), n)]`: r cut into pieces of n
      bytes, the last one possibly shorter. */
  function Group(r: seq<byte>, n: nat): (g: seq<seq<byte>>)
    requires n > 0
    ensures Flatten(g) == r
    ensures forall k :: 0 <= k < |g| ==> 0 < |g[k]| <= n
    ensures forall k :: 0 <= k < |g| - 1 ==> |g[k]| == n
    decreases |r|
  {
    if r == [] then []
    else if |r| <= n then [r]
    else
      var g := [r[..n]] + Group(r[n..], n);
      assert r == r[..n] + r[n..];
      g
  }

  /** Rows i.. of the image, given the reconstruction prev of row i - 1
      (`[]` above the first row): the loop of `process_data` from row i on. */
  function DecodeRows(raw: seq<byte>, width: nat, height: nat, i: nat, prev: seq<byte>): (res: Result<Image, Error>)
    requires i <= height && Scanlines.FitsAbove(prev, RowData(raw, width, i))
    ensures res.Success? ==> |res.value| == height - i
    decreases height - i
  {
    if i == height then Success([])
    else if !RowOk(raw, width, i) then Failure(RowError(raw, width, i))
    else
      var row := RowData(raw, width, i);
      var r := Scanlines.Unfiltered(FilterAt(raw, width, i), row, prev, BytesPerPixel);
      RowDataShrinks(raw, width, i);
      var rest :- DecodeRows(raw, width, height, i + 1, r);
      Success([Group(r, BytesPerPixel)] + rest)
  }

  /** `process_data(decompressed_data)` for an image of width x height. */
  function DecodeImage(raw: seq<byte>, width: nat, height: nat): (r: Result<Image, Error>)
    ensures r.Success? ==> |r.value| == height
  {
    DecodeRows(raw, width, height, 0, [])
  }

  /** The rows decoded so far followed by the rows still to decode, or the
      error those rows raise. */
  function Prepend(done: Image, rest: Result<Image, Error>): Result<Image, Error>
  {
    if rest.Success? then Success(done + rest.value) else rest
  }

  /** Row i decodes to the 3-byte grouping of its reconstruction, which is
      the row above for row i + 1. */
  lemma DecodeRowsStep(raw: seq<byte>, width: nat, height: nat, i: nat, prev: seq<byte>)
    requires i < height && Scanlines.FitsAbove(prev, RowData(raw, width, i)) && RowOk(raw, width, i)
    ensures var r := Scanlines.Unfiltered(FilterAt(raw, width, i), RowData(raw, width, i), prev, BytesPerPixel);
      && Scanlines.FitsAbove(r, RowData(raw, width, i + 1))
      && DecodeRows(raw, width, height, i, prev) == Prepend([Group(r, BytesPerPixel)], DecodeRows(raw, width, height, i + 1, r))
  {
    RowDataShrinks(raw, width, i);
  }

  /** Row i without a filter byte of a known type stops decoding with its error. */
  lemma DecodeRowsFails(raw: seq<byte>, width: nat, height: nat, i: nat, prev: seq<byte>)
    requires i < height && Scanlines.FitsAbove(prev, RowData(raw, width, i)) && !RowOk(raw, width, i)
    ensures DecodeRows(raw, width, height, i, prev) == Failure(RowError(raw, width, i))
  {
  }

  /** Decoding rows i.. succeeds exactly when each of them has a filter byte
      of a known type. */
  lemma {:induction false} DecodeRowsOutcome(raw: seq<byte>, width: nat, height: nat, i: nat, prev: seq<byte>)
    requires i <= height && Scanlines.FitsAbove(prev, RowData(raw, width, i))
    ensures DecodeRows(raw, width, height, i, prev).Success? <==> forall k :: i <= k < height ==> RowOk(raw, width, k)
    decreases height - i
  {
    if i < height && RowOk(raw, width, i) {
      var r := Scanlines.Unfiltered(FilterAt(raw, width, i), RowData(raw, width, i), prev, BytesPerPixel);
      DecodeRowsStep(raw, width, height, i, prev);
      DecodeRowsOutcome(raw, width, height, i + 1, r);
    }
  }

  /** When decoding rows i.. fails, it raises the error of the first row
      whose filter byte is missing or of an unknown type. */
  lemma {:induction false} DecodeRowsFirstError(raw: seq<byte>, width: nat, height: nat, i: nat, prev: seq<byte>)
    requires i <= height && Scanlines.FitsAbove(prev, RowData(raw, width, i))
    ensures var res := DecodeRows(raw, width, height, i, prev);
      res.Failure? ==>
        exists k :: i <= k < height && !RowOk(raw, width, k) && res.error == RowError(raw, width, k)
                    && forall j :: i <= j < k ==> RowOk(raw, width, j)
    decreases height - i
  {
    if i < height && RowOk(raw, width, i) {
      var r := Scanlines.Unfiltered(FilterAt(raw, width, i), RowData(raw, width, i), prev, BytesPerPixel);
      DecodeRowsStep(raw, width, height, i, prev);
      DecodeRowsFirstError(raw, width, height, i + 1, r);
    }
  }

  /** Stream row k has filter byte 0 (None) and its bytes, cut into pixels,
      are row. */
  predicate IsNoneRow(raw: seq<byte>, width: nat, k: nat, row: Row)
  {
    && RowOk(raw, width, k) && FilterAt(raw, width, k) == Scanlines.None
    && Group(RowData(raw, width, k), BytesPerPixel) == row
  }

  /** Rows whose filter byte is 0 (None) decode to the 3-byte grouping of
      their bytes as they stand, whatever the row above. */
  lemma {:induction false} NoneRowsDecode(raw: seq<byte>, width: nat, height: nat, i: nat, prev: seq<byte>, rows: Image)
    requires i <= height && Scanlines.FitsAbove(prev, RowData(raw, width, i)) && |rows| == height
    requires forall k :: i <= k < height ==> IsNoneRow(raw, width, k, rows[k])
    ensures DecodeRows(raw, width, height, i, prev) == Success(rows[i..])
    decreases height - i
  {
    if i < height {
      var row := RowData(raw, width, i);
      assert IsNoneRow(raw, width, i, rows[i]);
      NoneRowStep(raw, width, height, i, prev, rows[i]);
      NoneRowsDecode(raw, width, height, i + 1, row, rows);
      SuffixCons(rows, i);
    } else {
      assert rows[i..] == [];
    }
  }

  /** A None row is its own reconstruction, so it is also the row above
      the next one. */
  lemma NoneRowStep(raw: seq<byte>, width: nat, height: nat, i: nat, prev: seq<byte>, pixels: Row)
    requires i < height && Scanlines.FitsAbove(prev, RowData(raw, width, i))
    requires IsNoneRow(raw, width, i, pixels)
    ensures var row := RowData(raw, width, i);
      && Scanlines.FitsAbove(row, RowData(raw, width, i + 1))
      && DecodeRows(raw, width, height, i, prev)
         == Prepend([pixels], DecodeRows(raw, width, height, i + 1, row))
  {
    Scanlines.UnfilteredNoneIsIdentity(RowData(raw, width, i), prev, BytesPerPixel);
    DecodeRowsStep(raw, width, height, i, prev);
  }

  lemma SuffixCons<T>(s: seq<T>, i: nat)
    requires i < |s|
    ensures s[i..] == [s[i]] + s[i + 1..]
  {
  }

  /** Each row of img, from stream row i on, is the 3-byte grouping of a
      sequence of bytes that solves the recurrence of the row's filter type
      over its filtered bytes and the bytes of the row above it (prev for
      the first). */
  ghost predicate RowsSolveFilters(raw: seq<byte>, width: nat, i: nat, prev: seq<byte>, img: Image)
    decreases |img|
  {
    img != [] ==>
      && RowOk(raw, width, i)
      && img[0] == Group(Flatten(img[0]), BytesPerPixel)
      && Scanlines.IsUnfiltering(FilterAt(raw, width, i), RowData(raw, width, i), prev, BytesPerPixel, Flatten(img[0]))
      && RowsSolveFilters(raw, width, i + 1, Flatten(img[0]), img[1..])
  }

  /** What decoding computes: one row per image row, each solving the
      recurrence of its filter over the row above. */
  lemma {:induction false} DecodeRowsSolveFilters(raw: seq<byte>, width: nat, height: nat, i: nat, prev: seq<byte>)
    requires i <= height && Scanlines.FitsAbove(prev, RowData(raw, width, i))
    requires DecodeRows(raw, width, height, i, prev).Success?
    ensures var img := DecodeRows(raw, width, height, i, prev).value;
      |img| == height - i && RowsSolveFilters(raw, width, i, prev, img)
    decreases height - i
  {
    if i < height {
      var f := FilterAt(raw, width, i);
      var row := RowData(raw, width, i);
      var r := Scanlines.Unfiltered(f, row, prev, BytesPerPixel);
      DecodeRowsStep(raw, width, height, i, prev);
      DecodeRowsSolveFilters(raw, width, height, i + 1, r);
      Scanlines.UnfilteredIsUnfiltering(f, row, prev, BytesPerPixel);
      var img := DecodeRows(raw, width, height, i, prev).value;
      assert img[1..] == DecodeRows(raw, width, height, i + 1, r).value;
    }
  }

  /** The decoded image is the only one whose rows solve their filters: any
      image that does is what decoding returns. */
  lemma {:induction false} SolvingFiltersIsDecoding(raw: seq<byte>, width: nat, height: nat, i: nat, prev: seq<byte>, img: Image)
    requires i <= height && Scanlines.FitsAbove(prev, RowData(raw, width, i))
    requires |img| == height - i && RowsSolveFilters(raw, width, i, prev, img)
    ensures DecodeRows(raw, width, height, i, prev) == Success(img)
    decreases height - i
  {
    if i < height {
      var f := FilterAt(raw, width, i);
      var row := RowData(raw, width, i);
      var r := Scanlines.Unfiltered(f, row, prev, BytesPerPixel);
      Scanlines.UnfilteringIffUnfiltered(f, row, prev, BytesPerPixel, Flatten(img[0]));
      DecodeRowsStep(raw, width, height, i, prev);
      SolvingFiltersIsDecoding(raw, width, height, i + 1, r, img[1..]);
      assert img == [img[0]] + img[1..];
    }
  }

  /** A row of pixels of 3 bytes each. */
  predicate IsPixelRow(row: Row)
  {
    forall j :: 0 <= j < |row| ==> |row[j]| == BytesPerPixel
  }

  /** An image of height rows of width pixels, each of 3 bytes. */
  predicate HasShape(img: Image, width: nat, height: nat)
  {
    && |img| == height
    && forall k :: 0 <= k < |img| ==> |img[k]| == width && IsPixelRow(img[k])
  }

  /** A stream of at least height full rows. */
  predicate LongEnough(raw: seq<byte>, width: nat, height: nat)
  {
    |raw| >= RowOffset(width, height)
  }

  /** Row k starts k strides into the stream. */
  lemma {:induction false} RowOffsetIsMultiple(width: nat, k: nat)
    ensures RowOffset(width, k) == k * Stride(width)
  {
    if k > 0 {
      RowOffsetIsMultiple(width, k - 1);
    }
  }

  /** Rows start further down the stream the later they come. */
  lemma {:induction false} RowOffsetMonotone(width: nat, a: nat, b: nat)
    requires a <= b
    ensures RowOffset(width, a) <= RowOffset(width, b)
    decreases b
  {
    if a < b {
      RowOffsetMonotone(width, a, b - 1);
    }
  }

  lemma RowDataFull(raw: seq<byte>, width: nat, height: nat, k: nat)
    requires LongEnough(raw, width, height) && k < height
    ensures |RowData(raw, width, k)| == RowLength(width)
  {
    RowOffsetMonotone(width, k + 1, height);
  }

  /** A row of exactly m pixels' worth of bytes cuts into m pixels. */
  lemma {:induction false} GroupExact(r: seq<byte>, m: nat)
    requires |r| == BytesPerPixel * m
    ensures |Group(r, BytesPerPixel)| == m
    ensures IsPixelRow(Group(r, BytesPerPixel))
    decreases m
  {
    if m > 1 {
      GroupExact(r[BytesPerPixel..], m - 1);
      assert Group(r, BytesPerPixel) == [r[..BytesPerPixel]] + Group(r[BytesPerPixel..], BytesPerPixel);
    }
  }

  /** When the stream holds every row in full, a successful decode has the
      shape the header announces. */
  lemma {:induction false} DecodeRowsShape(raw: seq<byte>, width: nat, height: nat, i: nat, prev: seq<byte>)
    requires i <= height && Scanlines.FitsAbove(prev, RowData(raw, width, i))
    requires LongEnough(raw, width, height)
    requires DecodeRows(raw, width, height, i, prev).Success?
    ensures HasShape(DecodeRows(raw, width, height, i, prev).value, width, height - i)
    decreases height - i
  {
    if i < height {
      var f := FilterAt(raw, width, i);
      var row := RowData(raw, width, i);
      var r := Scanlines.Unfiltered(f, row, prev, BytesPerPixel);
      DecodeRowsStep(raw, width, height, i, prev);
      RowDataFull(raw, width, height, i);
      GroupExact(r, width);
      DecodeRowsShape(raw, width, height, i + 1, r);
      var img := DecodeRows(raw, width, height, i, prev).value;
      assert img == [Group(r, BytesPerPixel)] + DecodeRows(raw, width, height, i + 1, r).value;
    }
  }
}
