/** `PNG.save_rgb`: keep one colour channel of the image, zero the other
    two, and lay the result out as a PNG file (signature, IHDR, one IDAT
    record holding the compressed rows, each with filter type 0, and IEND). */
module Encoding {
  import opened Bytes
  import opened Wrappers
  import opened Errors
  import opened Chunks
  import opened Header
  import opened Compression
  import opened Decoding

  /** `[pixel[0], 0, 0]`, `[0, pixel[1], 0]` or `[0, 0, pixel[2]]` for
      channel 0, 1 or 2. */
  function ProjectPixel(p: Pixel, ch: nat): (q: Pixel)
    requires ch < BytesPerPixel && ch < |p|
    ensures |q| == BytesPerPixel && q[ch] == p[ch]
    ensures forall k :: 0 <= k < BytesPerPixel && k != ch ==> q[k] == 0
  {
    if ch == 0 then [p[0], 0, 0]
    else if ch == 1 then [0, p[1], 0]
    else [0, 0, p[2]]
  }

  /** Every pixel of the row has a byte for channel ch (else `pixel[ch]`
      raises IndexError). */
  predicate RowHasChannel(row: Row, ch: nat)
  {
    forall j :: 0 <= j < |row| ==> ch < |row[j]|
  }

  /** Every pixel of the image has a byte for channel ch. */
  predicate HasChannel(img: Image, ch: nat)
  {
    forall k :: 0 <= k < |img| ==> RowHasChannel(img[k], ch)
  }

  /** The row with every pixel projected on channel ch. */
  function ProjectRow(row: Row, ch: nat): (r: Row)
    requires ch < BytesPerPixel && RowHasChannel(row, ch)
    ensures |r| == |row|
    ensures forall j :: 0 <= j < |row| ==> r[j] == ProjectPixel(row[j], ch)
  {
    if row == [] then [] else [ProjectPixel(row[0], ch)] + ProjectRow(row[1..], ch)
  }

  /** The image with every pixel projected on channel ch: rows and pixels
      stay where they were, every pixel has 3 bytes, the chosen channel
      keeps its value and the other two are 0. */
  function ProjectImage(img: Image, ch: nat): (r: Image)
    requires ch < BytesPerPixel && HasChannel(img, ch)
    ensures |r| == |img|
    ensures forall k :: 0 <= k < |img| ==> |r[k]| == |img[k]|
    ensures forall k, j :: 0 <= k < |img| && 0 <= j < |img[k]| ==>
              && |r[k][j]| == BytesPerPixel
              && forall c :: 0 <= c < BytesPerPixel ==> r[k][j][c] == (if c == ch then img[k][j][ch] else 0)
    ensures forall w, h :: HasShape(img, w, h) ==> HasShape(r, w, h)
  {
    seq(|img|, k requires 0 <= k < |img| => ProjectRow(img[k], ch))
  }

  /** `channel_data`: one flat list of bytes per row, `modified_row`. Row k
      holds 3 bytes per pixel of image row k; byte i is channel ch of pixel
      i / 3 when i % 3 is ch, and 0 otherwise. */
  function ChannelData(img: Image, ch: nat): (rows: seq<seq<byte>>)
    requires ch < BytesPerPixel && HasChannel(img, ch)
    ensures |rows| == |img|
    ensures forall k :: 0 <= k < |img| ==> |rows[k]| == BytesPerPixel * |img[k]|
    ensures forall k, i :: 0 <= k < |img| && 0 <= i < |rows[k]| ==>
              rows[k][i] == (if i % BytesPerPixel == ch then img[k][i / BytesPerPixel][ch] else 0)
  {
    var p := ProjectImage(img, ch);
    var rows := seq(|p|, k requires 0 <= k < |p| => Flatten(p[k]));
    ChannelDataLayout(img, ch, rows);
    rows
  }

  /** The byte layout of rows that are the projected image rows laid end to end. */
  lemma ChannelDataLayout(img: Image, ch: nat, rows: seq<seq<byte>>)
    requires ch < BytesPerPixel && HasChannel(img, ch) && |rows| == |img|
    requires forall k :: 0 <= k < |img| ==> rows[k] == Flatten(ProjectRow(img[k], ch))
    ensures forall k :: 0 <= k < |img| ==> |rows[k]| == BytesPerPixel * |img[k]|
    ensures forall k, i :: 0 <= k < |img| && 0 <= i < |rows[k]| ==>
              rows[k][i] == (if i % BytesPerPixel == ch then img[k][i / BytesPerPixel][ch] else 0)
  {
    forall k | 0 <= k < |img|
      ensures |rows[k]| == BytesPerPixel * |img[k]|
      ensures forall i :: 0 <= i < |rows[k]| ==>
                rows[k][i] == (if i % BytesPerPixel == ch then img[k][i / BytesPerPixel][ch] else 0)
    {
      FlatProjectedRow(img[k], ch);
    }
  }

  /** A projected row laid end to end: 3 bytes per pixel, byte i being
      channel ch of pixel i / 3 when i % 3 is ch, and 0 otherwise. */
  lemma FlatProjectedRow(row: Row, ch: nat)
    requires ch < BytesPerPixel && RowHasChannel(row, ch)
    ensures |Flatten(ProjectRow(row, ch))| == BytesPerPixel * |row|
    ensures forall i :: 0 <= i < |Flatten(ProjectRow(row, ch))| ==>
              Flatten(ProjectRow(row, ch))[i] == (if i % BytesPerPixel == ch then row[i / BytesPerPixel][ch] else 0)
  {
    var ps := ProjectRow(row, ch);
    assert IsPixelRow(ps);
    FlattenPixels(ps);
    forall i | 0 <= i < |Flatten(ps)|
      ensures Flatten(ps)[i] == (if i % BytesPerPixel == ch then row[i / BytesPerPixel][ch] else 0)
    {
      assert ps[i / BytesPerPixel] == ProjectPixel(row[i / BytesPerPixel], ch);
    }
  }

  /** Pixels of 3 bytes laid end to end: byte i is byte i % 3 of pixel i / 3. */
  lemma {:induction false} FlattenPixels(ps: Row)
    requires IsPixelRow(ps)
    ensures |Flatten(ps)| == BytesPerPixel * |ps|
    ensures forall i :: 0 <= i < |Flatten(ps)| ==> Flatten(ps)[i] == ps[i / BytesPerPixel][i % BytesPerPixel]
    decreases |ps|
  {
    if ps != [] {
      var rest := ps[1..];
      assert IsPixelRow(rest) by {
        forall j | 0 <= j < |rest|
          ensures |rest[j]| == BytesPerPixel
        {
          assert rest[j] == ps[j + 1];
        }
      }
      FlattenPixels(rest);
      var f := Flatten(ps);
      assert f == ps[0] + Flatten(rest);
      forall i | BytesPerPixel <= i < |f|
        ensures f[i] == ps[i / BytesPerPixel][i % BytesPerPixel]
      {
        NextPixelIndex(i);
        assert rest[(i - 3) / 3] == ps[i / 3];
      }
    }
  }

  /** Byte i of a row, past the first pixel, is byte i - 3 of the rest:
      at the same place within its pixel, one pixel earlier. */
  lemma NextPixelIndex(i: nat)
    requires i >= BytesPerPixel
    ensures (i - BytesPerPixel) % BytesPerPixel == i % BytesPerPixel
    ensures (i - BytesPerPixel) / BytesPerPixel == i / BytesPerPixel - 1
  {
  }

  /** `b''.join(b'\x00' + bytes(row) for row in channel_data)`: every row
      behind a filter byte 0 (None). */
  function RawData(rows: seq<seq<byte>>): seq<byte>
  {
    if rows == [] then [] else [0] + rows[0] + RawData(rows[1..])
  }

  /** Python's clamping slice over a + t, past a, is the slice over t. */
  lemma SliceShift(a: seq<byte>, t: seq<byte>, lo: nat, hi: nat)
    ensures Slice(a + t, |a| + lo, |a| + hi) == Slice(t, lo, hi)
  {
    var l, r := Slice(a + t, |a| + lo, |a| + hi), Slice(t, lo, hi);
    assert |l| == |r|;
    forall k | 0 <= k < |l|
      ensures l[k] == r[k]
    {
    }
  }

  /** RawData of rows of row_length bytes takes a stride per row. */
  lemma {:induction false} RawDataLength(rows: seq<seq<byte>>, width: nat)
    requires forall k :: 0 <= k < |rows| ==> |rows[k]| == RowLength(width)
    ensures |RawData(rows)| == RowOffset(width, |rows|)
  {
    if rows != [] {
      assert forall k :: 0 <= k < |rows[1..]| ==> rows[1..][k] == rows[k + 1];
      RawDataLength(rows[1..], width);
      RowOffsetShift(width, |rows| - 1);
    }
  }

  /** A stride then k more rows is k + 1 rows. */
  lemma {:induction false} RowOffsetShift(width: nat, k: nat)
    ensures RowOffset(width, k + 1) == Stride(width) + RowOffset(width, k)
  {
  }

  /** In RawData of rows of row_length bytes, row k sits at RowOffset
      behind its filter byte 0. */
  lemma {:induction false} RawDataRow(rows: seq<seq<byte>>, width: nat, k: nat)
    requires forall j :: 0 <= j < |rows| ==> |rows[j]| == RowLength(width)
    requires k < |rows|
    ensures RowOffset(width, k) < |RawData(rows)| && RawData(rows)[RowOffset(width, k)] == 0
    ensures RowData(RawData(rows), width, k) == rows[k]
  {
    var head := [0] + rows[0];
    var tail := RawData(rows[1..]);
    assert RawData(rows) == head + tail;
    if k == 0 {
      HeadSlice(0, rows[0], tail);
    } else {
      assert forall i :: 0 <= i < |rows[1..]| ==> rows[1..][i] == rows[i + 1];
      RawDataRow(rows[1..], width, k - 1);
      RowDataShift(head, tail, width, k - 1);
    }
  }

  /** A stream of one more row in front: its row k + 1 is row k of the rest. */
  lemma RowDataShift(head: seq<byte>, tail: seq<byte>, width: nat, k: nat)
    requires |head| == Stride(width) && RowOffset(width, k) < |tail|
    ensures RowOffset(width, k + 1) < |head + tail|
    ensures (head + tail)[RowOffset(width, k + 1)] == tail[RowOffset(width, k)]
    ensures RowData(head + tail, width, k + 1) == RowData(tail, width, k)
  {
    var offset := RowOffset(width, k);
    RowOffsetShift(width, k);
    SliceShift(head, tail, offset + 1, offset + 1 + RowLength(width));
    assert RowData(head + tail, width, k + 1) == Slice(head + tail, |head| + (offset + 1), |head| + (offset + 1 + RowLength(width)));
  }

  lemma HeadSlice<T>(x: T, b: seq<T>, c: seq<T>)
    ensures ([x] + b + c)[1..1 + |b|] == b
  {
  }

  /** Cutting a row of pixels, laid end to end, back into pixels restores it. */
  lemma {:induction false} GroupFlatten(row: seq<seq<byte>>)
    requires IsPixelRow(row)
    ensures |Flatten(row)| == BytesPerPixel * |row|
    ensures Group(Flatten(row), BytesPerPixel) == row
  {
    if row != [] {
      assert IsPixelRow(row[1..]) by {
        forall j | 0 <= j < |row[1..]|
          ensures |row[1..][j]| == BytesPerPixel
        {
          assert row[1..][j] == row[j + 1];
        }
      }
      GroupFlatten(row[1..]);
      var f := Flatten(row);
      assert f == row[0] + Flatten(row[1..]);
      assert f[..BytesPerPixel] == row[0] && f[BytesPerPixel..] == Flatten(row[1..]);
      if |row| > 1 {
        assert Group(f, BytesPerPixel) == [row[0]] + Group(Flatten(row[1..]), BytesPerPixel);
      }
      assert row == [row[0]] + row[1..];
    }
  }

  /** The file `save_rgb` writes for the raw scanline data: the signature,
      the IHDR record, one IDAT record holding the compressed data, and an
      empty IEND record. */
  function PngFile(width: nat, height: nat, raw: seq<byte>, z: Zlib): (r: Result<seq<byte>, Error>)
    ensures r.Success? <==> width < Pow256(4) && height < Pow256(4) && |z.compress(raw)| < Pow256(4)
    ensures r.Failure? ==> r.error == Overflow
    ensures r.Success? ==> ValidPng(r.value)
  {
    var ihdrData :- IhdrData(width, height);
    var ihdrChunk := CreateChunk(IhdrTag, ihdrData, z.crc32).value;
    var idatChunk :- CreateChunk(IdatTag, z.compress(raw), z.crc32);
    var iendChunk := CreateChunk(IendTag, [], z.crc32).value;
    var file := Signature + (ihdrChunk + idatChunk + iendChunk);
    assert file[..8] == Signature;
    Success(file)
  }

  /** A file of four parts a, b, c, d: after a and b come c and d. */
  lemma FourParts<T>(a: seq<T>, b: seq<T>, c: seq<T>, d: seq<T>)
    ensures a + (b + c + d) == a + b + (c + d)
    ensures (a + b + (c + d))[|a| + |b|..|a| + |b| + |c| + |d|] == c + d
  {
  }

  /** The file PngFile lays out reads back: its header holds width and
      height with the fixed 8-bit RGB settings, and the scan of
      `read_chunks` from offset 33 collects exactly the compressed data. */
  lemma PngFileReadsBack(width: nat, height: nat, raw: seq<byte>, z: Zlib)
    requires PngFile(width, height, raw, z).Success?
    ensures var file := PngFile(width, height, raw, z).value;
      && ParseHeader(file) == Success(Ihdr(width, height, 8, 2, 0, 0, 0))
      && IdatPayload(file, FirstChunkOffset) == z.compress(raw)
  {
    var compressed := z.compress(raw);
    var ihdrChunk := CreateChunk(IhdrTag, IhdrData(width, height).value, z.crc32).value;
    var idatChunk := CreateChunk(IdatTag, compressed, z.crc32).value;
    var iendChunk := CreateChunk(IendTag, [], z.crc32).value;
    var file := PngFile(width, height, raw, z).value;
    assert file == Signature + (ihdrChunk + idatChunk + iendChunk);
    FourParts(Signature, ihdrChunk, idatChunk, iendChunk);
    HeaderRoundTrip(width, height, z.crc32, idatChunk + iendChunk);
    assert |Signature| + |ihdrChunk| == FirstChunkOffset;
    IdatPayloadOfSavedRecords(file, FirstChunkOffset, compressed, z.crc32, idatChunk, iendChunk);
  }

  /** The bytes `save_rgb` writes for channel rgbOption (1 = red, 2 = green,
      3 = blue), or the exception it raises, in the order it checks:
      the option, an empty image, a pixel without that channel, then the
      overflows of PngFile. */
  function EncodeRgb(img: Image, width: nat, height: nat, rgbOption: int, z: Zlib): (r: Result<seq<byte>, Error>)
    ensures !(1 <= rgbOption <= 3) ==> r == Failure(InvalidRgbOption)
    ensures 1 <= rgbOption <= 3 && img == [] ==> r == Failure(EmptyImage)
    ensures 1 <= rgbOption <= 3 && img != [] && !HasChannel(img, rgbOption - 1) ==> r == Failure(OutOfRange)
  {
    if !(1 <= rgbOption <= 3) then Failure(InvalidRgbOption)
    else if img == [] then Failure(EmptyImage)
    else
      var ch := rgbOption - 1;
      if !HasChannel(img, ch) then Failure(OutOfRange)
      else PngFile(width, height, RawData(ChannelData(img, ch)), z)
  }

  /** save_rgb gets past its checks only for an option in 1..3, a non-empty
      image and pixels that all have the chosen channel, and then writes
      the file PngFile lays out for that channel's rows. */
  lemma EncodeRgbSucceeds(img: Image, width: nat, height: nat, rgbOption: int, z: Zlib)
    requires EncodeRgb(img, width, height, rgbOption, z).Success?
    ensures 1 <= rgbOption <= 3 && img != [] && HasChannel(img, rgbOption - 1)
    ensures EncodeRgb(img, width, height, rgbOption, z)
              == PngFile(width, height, RawData(ChannelData(img, rgbOption - 1)), z)
  {
  }
}
