/** The `PNG` class: the bytes of a file, the IHDR fields read from it and
    the decoded image, with the methods that fill them in (`read_header`,
    `read_chunks`, `process_data`) and the one that encodes a channel of the
    image back into a file (`save_rgb`). */
module Png {
  import opened Bytes
  import opened Wrappers
  import opened Errors
  import opened Chunks
  import opened Header
  import opened Compression
  import opened Decoding
  import opened Encoding
  import Scanlines

  /** `read_chunks` from the bytes of a file and the width and height read
      from its header: the IDAT stream, decompressed, then decoded. */
  function ReadImage(data: seq<byte>, width: nat, height: nat, z: Zlib): (r: Result<Image, Error>)
    ensures width == 0 || height == 0 ==> r == Failure(HeaderNotRead)
    ensures width > 0 && height > 0 && z.decompress(IdatPayload(data, FirstChunkOffset)).None? ==>
              r == Failure(DecompressFailed)
  {
    if width == 0 || height == 0 then Failure(HeaderNotRead)
    else
      match z.decompress(IdatPayload(data, FirstChunkOffset))
      case None => Failure(DecompressFailed)
      case Some(raw) => DecodeImage(raw, width, height)
  }

  class PNG {
    var data: seq<byte>
    var info: string
    var width: nat
    var height: nat
    var bitDepth: nat
    var colorType: nat
    var compression: nat
    var filter: nat
    var interlace: nat
    var img: Image

    /** `__init__`: no data, every field 0, an empty image. */
    constructor()
      ensures data == [] && info == "" && img == []
      ensures width == 0 && height == 0 && bitDepth == 0 && colorType == 0
      ensures compression == 0 && filter == 0 && interlace == 0
    {
      data := [];
      info := "";
      width, height, bitDepth, colorType := 0, 0, 0, 0;
      compression, filter, interlace := 0, 0, 0;
      img := [];
    }

    /** The seven header fields as one IHDR value. */
    function Fields(): Ihdr
      reads this
    {
      Ihdr(width, height, bitDepth, colorType, compression, filter, interlace)
    }

    /** `read_header`: on success the seven fields hold the IHDR values;
        on failure nothing changes. */
    method ReadHeader() returns (res: Outcome<Error>)
      modifies this`width, this`height, this`bitDepth, this`colorType
      modifies this`compression, this`filter, this`interlace
      ensures var h := ParseHeader(old(data));
        && (h.Failure? ==> res == Fail(h.error) && unchanged(this))
        && (h.Success? ==> res == Pass && Fields() == h.value)
      ensures data == old(data) && info == old(info) && img == old(img)
    {
      var header := ParseHeader(data);
      if header.Failure? {
        return Fail(header.error);
      }
      var h := header.value;
      width, height, bitDepth, colorType := h.width, h.height, h.bitDepth, h.colorType;
      compression, filter, interlace := h.compression, h.filter, h.interlace;
      res := Pass;
    }

    /** `read_chunks`: walk the records from offset 33, collect the IDAT
        payloads until IEND, decompress and decode them into img. On an
        error img keeps its old value. */
    method ReadChunks(z: Zlib) returns (res: Outcome<Error>)
      modifies this`img
      ensures var r := ReadImage(data, width, height, z);
        && (r.Success? ==> res == Pass && img == r.value)
        && (r.Failure? ==> res == Fail(r.error) && img == old(img))
    {
      if width == 0 || height == 0 {
        return Fail(HeaderNotRead);
      }
      var compressed := CollectIdat(data);
      var decompressed := z.decompress(compressed);
      if decompressed.None? {
        return Fail(DecompressFailed);
      }
      var decoded := ProcessData(decompressed.value);
      assert decoded == ReadImage(data, width, height, z);
      if decoded.Failure? {
        return Fail(decoded.error);
      }
      img := decoded.value;
      res := Pass;
    }

    /** `process_data`: rebuild height rows of width pixels from the
        decompressed stream, one filter byte and width * 3 bytes per row. */
    method ProcessData(raw: seq<byte>) returns (res: Result<Image, Error>)
      ensures res == DecodeImage(raw, width, height)
    {
      var rows: Image := [];
      var rowLength := RowLength(width);
      var offset: nat := 0;
      var prev: seq<byte> := [];
      assert Prepend([], DecodeImage(raw, width, height)) == DecodeImage(raw, width, height) by {
        if DecodeImage(raw, width, height).Success? {
          assert [] + DecodeImage(raw, width, height).value == DecodeImage(raw, width, height).value;
        }
      }
      for i := 0 to height
        invariant offset == RowOffset(width, i)
        invariant Scanlines.FitsAbove(prev, RowData(raw, width, i))
        invariant DecodeImage(raw, width, height) == Prepend(rows, DecodeRows(raw, width, height, i, prev))
      {
        var unfiltered := ReadRow(raw, width, i, offset, prev);
        if unfiltered.Failure? {
          DecodeRowsFails(raw, width, height, i, prev);
          return Failure(unfiltered.error);
        }
        var reconstructed := unfiltered.value;
        assert offset + 1 + rowLength == RowOffset(width, i + 1);
        offset := offset + 1 + rowLength;
        PrependStep(raw, width, height, i, prev, rows);
        rows := rows + [Group(reconstructed, BytesPerPixel)];
        prev := reconstructed;
      }
      assert rows + [] == rows;
      res := Success(rows);
    }

    /** `save_rgb` up to the file write: the bytes of the file, or the
        exception raised before it is opened. */
    method SaveRgb(rgbOption: int, z: Zlib) returns (res: Result<seq<byte>, Error>)
      ensures res == EncodeRgb(img, width, height, rgbOption, z)
    {
      if !(1 <= rgbOption <= 3) {
        return Failure(InvalidRgbOption);
      }
      if img == [] {
        return Failure(EmptyImage);
      }
      var channelData := CollectChannelData(img, rgbOption);
      if channelData.Failure? {
        return channelData.PropagateFailure();
      }
      var rawData := RawData(channelData.value);
      res := PngFile(width, height, rawData, z);
    }
  }

  /** The `while` loop of `read_chunks`: the IDAT payloads met from
      offset 33 up to the first IEND record, in file order. Each pass moves
      the offset on by 12 + the declared length, so the loop ends. */
  method CollectIdat(data: seq<byte>) returns (compressed: seq<byte>)
    ensures compressed == IdatPayload(data, FirstChunkOffset)
  {
    var offset := FirstChunkOffset;
    compressed := [];
    assert [] + IdatPayload(data, offset) == IdatPayload(data, offset);
    while offset < |data|
      invariant compressed + IdatPayload(data, offset) == IdatPayload(data, FirstChunkOffset)
      decreases |data| - offset
    {
      var chunkLength := ChunkLength(data, offset);
      var chunkType := ChunkType(data, offset);
      var chunkData := ChunkData(data, offset);
      if chunkType == IendTag {
        ScanDone(data, offset, compressed);
        return;
      }
      ScanStep(data, offset, compressed);
      if chunkType == IdatTag {
        compressed := compressed + chunkData;
      }
      var next := offset + 8 + chunkLength + 4;
      assert next == NextOffset(data, offset);
      offset := next;
    }
    ScanDone(data, offset, compressed);
  }

  /** The outer loop of `save_rgb`: one flat row of bytes per image row,
      each pixel cut down to channel rgbOption - 1; IndexError when a pixel
      lacks that channel. */
  method CollectChannelData(img: Image, rgbOption: int) returns (res: Result<seq<seq<byte>>, Error>)
    requires 1 <= rgbOption <= 3
    ensures HasChannel(img, rgbOption - 1) ==> res == Success(ChannelData(img, rgbOption - 1))
    ensures !HasChannel(img, rgbOption - 1) ==> res == Failure(OutOfRange)
  {
    var channelIndex := rgbOption - 1;
    var channelData: seq<seq<byte>> := [];
    for k := 0 to |img|
      invariant |channelData| == k
      invariant forall j :: 0 <= j < k ==> RowHasChannel(img[j], channelIndex)
      invariant forall j :: 0 <= j < k ==> channelData[j] == Flatten(ProjectRow(img[j], channelIndex))
    {
      var modifiedRow := ModifiedRow(img[k], rgbOption);
      if modifiedRow.Failure? {
        return modifiedRow.PropagateFailure();
      }
      channelData := channelData + [modifiedRow.value];
    }
    assert channelData == ChannelData(img, channelIndex);
    return Success(channelData);
  }

  /** One pass of the loop of `process_data`: the filter byte at offset
      (IndexError past the end of the stream), the row_length bytes after
      it, and the row reconstructed under that filter. */
  method ReadRow(raw: seq<byte>, width: nat, i: nat, offset: nat, prev: seq<byte>) returns (res: Result<seq<byte>, Error>)
    requires offset == RowOffset(width, i) && Scanlines.FitsAbove(prev, RowData(raw, width, i))
    ensures RowOk(raw, width, i) ==>
              res == Success(Scanlines.Unfiltered(FilterAt(raw, width, i), RowData(raw, width, i), prev, BytesPerPixel))
    ensures !RowOk(raw, width, i) ==> res == Failure(RowError(raw, width, i))
  {
    if offset >= |raw| {
      return Failure(OutOfRange);
    }
    var filterType := raw[offset];
    var rowData := Slice(raw, offset + 1, offset + 1 + RowLength(width));
    assert rowData == RowData(raw, width, i);
    res := UnfilterRow(filterType, rowData, prev);
  }

  /** The filter dispatch of `process_data` for one row: the row
      reconstructed under the filter its first byte names, or ValueError
      for a byte outside 0..4. */
  method UnfilterRow(filterType: byte, rowData: seq<byte>, prev: seq<byte>) returns (res: Result<seq<byte>, Error>)
    requires Scanlines.FitsAbove(prev, rowData)
    ensures Scanlines.IsFilterByte(filterType) ==>
              res == Success(Scanlines.Unfiltered(Scanlines.FilterOf(filterType), rowData, prev, BytesPerPixel))
    ensures !Scanlines.IsFilterByte(filterType) ==> res == Failure(UnsupportedFilter(filterType))
  {
    var reconstructed: seq<byte>;
    if filterType == 0 {
      reconstructed := rowData;
      Scanlines.UnfilteredNoneIsIdentity(rowData, prev, BytesPerPixel);
    } else if filterType == 1 {
      reconstructed := Scanlines.UnfilterSub(rowData, BytesPerPixel);
      Scanlines.SubIgnoresAbove(rowData, prev, BytesPerPixel);
    } else if filterType == 2 {
      reconstructed := Scanlines.UnfilterUp(rowData, prev);
      Scanlines.UpSolves(rowData, prev, BytesPerPixel, reconstructed);
    } else if filterType == 3 {
      reconstructed := Scanlines.UnfilterAverage(rowData, prev, BytesPerPixel);
    } else if filterType == 4 {
      reconstructed := Scanlines.UnfilterPaeth(rowData, prev, BytesPerPixel);
    } else {
      return Failure(UnsupportedFilter(filterType));
    }
    res := Success(reconstructed);
  }

  /** The inner loop of `save_rgb`: the pixels of one row, each cut down to
      the chosen channel, laid end to end; IndexError when a pixel lacks
      that channel. */
  method ModifiedRow(row: Row, rgbOption: int) returns (res: Result<seq<byte>, Error>)
    requires 1 <= rgbOption <= 3
    ensures RowHasChannel(row, rgbOption - 1) ==>
              res == Success(Flatten(ProjectRow(row, rgbOption - 1)))
    ensures !RowHasChannel(row, rgbOption - 1) ==> res == Failure(OutOfRange)
  {
    var channelIndex := rgbOption - 1;
    var modifiedRow: seq<byte> := [];
    for m := 0 to |row|
      invariant RowHasChannel(row[..m], channelIndex)
      invariant modifiedRow == Flatten(ProjectRow(row[..m], channelIndex))
    {
      var pixel := row[m];
      if |pixel| <= channelIndex {
        return Failure(OutOfRange);
      }
      var modifiedPixel: seq<byte>;
      if rgbOption == 1 {
        modifiedPixel := [pixel[0], 0, 0];
      } else if rgbOption == 2 {
        modifiedPixel := [0, pixel[1], 0];
      } else {
        modifiedPixel := [0, 0, pixel[2]];
      }
      assert modifiedPixel == ProjectPixel(pixel, channelIndex);
      ModifiedRowStep(row, m, channelIndex);
      modifiedRow := modifiedRow + modifiedPixel;
    }
    assert row[..|row|] == row;
    res := Success(modifiedRow);
  }

  /** One more pixel of the row: its projection joins the bytes laid out so far. */
  lemma ModifiedRowStep(row: Row, m: nat, ch: nat)
    requires ch < BytesPerPixel && m < |row| && RowHasChannel(row[..m], ch) && ch < |row[m]|
    ensures RowHasChannel(row[..m + 1], ch)
    ensures Flatten(ProjectRow(row[..m + 1], ch)) == Flatten(ProjectRow(row[..m], ch)) + ProjectPixel(row[m], ch)
  {
    assert row[..m + 1] == row[..m] + [row[m]];
    ProjectRowSnoc(row, m, ch);
    var pixel := ProjectPixel(row[m], ch);
    FlattenAppend(ProjectRow(row[..m], ch), [pixel]);
    assert Flatten([pixel]) == pixel + [];
  }

  /** One more row decoded: the row joins the image and decoding resumes
      at the next row, over this row's reconstruction. */
  lemma PrependStep(raw: seq<byte>, width: nat, height: nat, i: nat, prev: seq<byte>, rows: Image)
    requires i < height && Scanlines.FitsAbove(prev, RowData(raw, width, i)) && RowOk(raw, width, i)
    ensures var r := Scanlines.Unfiltered(FilterAt(raw, width, i), RowData(raw, width, i), prev, BytesPerPixel);
      && Scanlines.FitsAbove(r, RowData(raw, width, i + 1))
      && Prepend(rows, DecodeRows(raw, width, height, i, prev))
        == Prepend(rows + [Group(r, BytesPerPixel)], DecodeRows(raw, width, height, i + 1, r))
  {
    var r := Scanlines.Unfiltered(FilterAt(raw, width, i), RowData(raw, width, i), prev, BytesPerPixel);
    var rest := DecodeRows(raw, width, height, i + 1, r);
    DecodeRowsStep(raw, width, height, i, prev);
    PrependAssoc(rows, Group(r, BytesPerPixel), rest);
  }

  lemma PrependAssoc(rows: Image, row: Row, rest: Result<Image, Error>)
    ensures Prepend(rows, Prepend([row], rest)) == Prepend(rows + [row], rest)
  {
    if rest.Success? {
      assert rows + ([row] + rest.value) == rows + [row] + rest.value;
    }
  }

  /** Projecting one more pixel of a row appends its projection. */
  lemma ProjectRowSnoc(row: Row, m: nat, ch: nat)
    requires ch < BytesPerPixel && m < |row| && RowHasChannel(row[..m + 1], ch)
    ensures RowHasChannel(row[..m], ch)
    ensures ProjectRow(row[..m + 1], ch) == ProjectRow(row[..m], ch) + [ProjectPixel(row[m], ch)]
  {
    var pre, ext := row[..m], row[..m + 1];
    assert ext == pre + [row[m]];
    var a, b := ProjectRow(ext, ch), ProjectRow(pre, ch) + [ProjectPixel(row[m], ch)];
    forall j | 0 <= j < |a|
      ensures a[j] == b[j]
    {
      if j < m {
        assert ext[j] == pre[j];
      }
    }
  }
}
