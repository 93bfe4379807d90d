/** Reading back what `save_rgb` writes: the header carries the image's
    width and height, and `read_chunks` rebuilds the image with every pixel
    cut down to the saved channel. */
module RoundTrip {
  import opened Bytes
  import opened Wrappers
  import opened Header
  import opened Compression
  import opened Decoding
  import opened Encoding
  import opened Png
  import Scanlines

  /** An image of the shape the header announces has every channel. */
  lemma ShapedHasChannel(img: Image, width: nat, height: nat, ch: nat)
    requires HasShape(img, width, height) && ch < BytesPerPixel
    ensures HasChannel(img, ch)
  {
    forall k | 0 <= k < |img|
      ensures RowHasChannel(img[k], ch)
    {
      assert IsPixelRow(img[k]);
    }
  }

  /** For an image of the shape the header announces and a channel in
      1..3, save_rgb gets past its checks, its raw stream holds exactly
      height full rows, and it succeeds exactly when width, height and the
      compressed stream fit their 4-byte fields. */
  lemma SavedStreamShape(img: Image, width: nat, height: nat, rgbOption: int, z: Zlib)
    requires HasShape(img, width, height) && height > 0 && 1 <= rgbOption <= 3
    ensures HasChannel(img, rgbOption - 1)
    ensures var raw := RawData(ChannelData(img, rgbOption - 1));
      && |raw| == RowOffset(width, height)
      && (EncodeRgb(img, width, height, rgbOption, z).Success? <==>
            width < Pow256(4) && height < Pow256(4) && |z.compress(raw)| < Pow256(4))
  {
    var ch := rgbOption - 1;
    ShapedHasChannel(img, width, height, ch);
    var rows := ChannelData(img, ch);
    forall k | 0 <= k < |rows|
      ensures |rows[k]| == RowLength(width)
    {
      ChannelRows(img, width, height, ch, k);
    }
    RawDataLength(rows, width);
  }

  /** The rows save_rgb lays out for an image of that shape: 3 * width
      bytes each, which cut back into 3-byte pixels give the projected
      image row. */
  lemma ChannelRows(img: Image, width: nat, height: nat, ch: nat, k: nat)
    requires HasShape(img, width, height) && ch < BytesPerPixel && k < height
    requires HasChannel(img, ch)
    ensures |ChannelData(img, ch)[k]| == RowLength(width)
    ensures Group(ChannelData(img, ch)[k], BytesPerPixel) == ProjectImage(img, ch)[k]
  {
    var row := ProjectRow(img[k], ch);
    assert IsPixelRow(row);
    GroupFlatten(row);
  }

  /** Row i of the stream save_rgb lays out: filter byte 0, then the
      3 * width bytes of the projected image row i. */
  lemma ProjectedRow(img: Image, width: nat, height: nat, ch: nat, i: nat)
    requires HasShape(img, width, height) && ch < BytesPerPixel && HasChannel(img, ch)
    requires i < height
    ensures var raw := RawData(ChannelData(img, ch));
      && RowOk(raw, width, i) && FilterAt(raw, width, i) == Scanlines.None
      && Group(RowData(raw, width, i), BytesPerPixel) == ProjectImage(img, ch)[i]
  {
    var rows := ChannelData(img, ch);
    forall j | 0 <= j < |rows|
      ensures |rows[j]| == RowLength(width)
    {
      ChannelRows(img, width, height, ch, j);
    }
    RawDataRow(rows, width, i);
    ChannelRows(img, width, height, ch, i);
  }

  /** save_rgb followed by read_header and read_chunks: for an image of
      the shape the header announces, with zlib's compress and decompress
      inverse to each other, the file save_rgb builds parses to the
      image's width and height with 8-bit RGB settings, and its IDAT
      stream decodes to the image with every pixel cut down to the saved
      channel. */
  lemma SaveThenLoad(img: Image, width: nat, height: nat, rgbOption: int, z: Zlib)
    requires HasShape(img, width, height) && width > 0 && height > 0
    requires forall raw :: RoundTrips(z, raw)
    requires EncodeRgb(img, width, height, rgbOption, z).Success?
    ensures 1 <= rgbOption <= 3 && HasChannel(img, rgbOption - 1)
    ensures var file := EncodeRgb(img, width, height, rgbOption, z).value;
      && ParseHeader(file) == Success(Ihdr(width, height, 8, 2, 0, 0, 0))
      && ReadImage(file, width, height, z) == Success(ProjectImage(img, rgbOption - 1))
  {
    var ch := rgbOption - 1;
    EncodeRgbSucceeds(img, width, height, rgbOption, z);
    var raw := RawData(ChannelData(img, ch));
    PngFileReadsBack(width, height, raw, z);
    assert RoundTrips(z, raw);
    ProjectedImageDecodes(img, width, height, ch);
  }

  /** The scanline stream save_rgb lays out for channel ch decodes to the
      image with every pixel cut down to that channel. */
  lemma ProjectedImageDecodes(img: Image, width: nat, height: nat, ch: nat)
    requires HasShape(img, width, height) && ch < BytesPerPixel && HasChannel(img, ch)
    ensures DecodeImage(RawData(ChannelData(img, ch)), width, height) == Success(ProjectImage(img, ch))
  {
    var raw := RawData(ChannelData(img, ch));
    forall k | 0 <= k < height
      ensures IsNoneRow(raw, width, k, ProjectImage(img, ch)[k])
    {
      ProjectedRow(img, width, height, ch, k);
    }
    NoneRowsDecode(raw, width, height, 0, [], ProjectImage(img, ch));
    assert ProjectImage(img, ch)[0..] == ProjectImage(img, ch);
  }

  /** Saving the green channel of the pixel [50, 100, 150] keeps [0, 100, 0]. */
  lemma GreenPixelExample()
    ensures ProjectPixel([50, 100, 150], 1) == [0, 100, 0]
  {
  }
}
