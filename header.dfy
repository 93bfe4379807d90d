/** The signature check and the IHDR record: `PNG.valid_png`,
    `PNG.read_header`, and the IHDR payload `PNG.save_rgb` writes. */
module Header {
  import opened Bytes
  import opened Wrappers
  import opened Errors
  import opened Chunks

  /** The seven IHDR fields (section 4.1.1 of RFC 2083). */
  datatype Ihdr = Ihdr(
    width: nat, height: nat, bitDepth: nat, colorType: nat,
    compression: nat, filter: nat, interlace: nat)

  /** `valid_png`: the data is not empty and starts with the signature. */
  function ValidPng(data: seq<byte>): (b: bool)
    ensures b <==> |data| >= 8 && data[..8] == Signature
  {
    if data == [] then false else Slice(data, 0, 8) == Signature
  }

  /** `read_header`: check the signature and the IHDR tag at bytes 12..16,
      then read the fields from bytes 16..29. The length field is not
      checked, and every slice clamps, so a file cut short inside the IHDR
      payload yields fields read from fewer bytes (0 from none). */
  function ParseHeader(data: seq<byte>): (r: Result<Ihdr, Error>)
    ensures r.Success? <==> ValidPng(data) && |data| >= 16 && data[12..16] == IhdrTag
    ensures !ValidPng(data) ==> r == Failure(NotValidPng)
    ensures ValidPng(data) && r.Failure? ==> r == Failure(InvalidIhdr)
    ensures r.Success? && |data| >= 29 ==>
      && r.value.width == BeValue(data[16..20])
      && r.value.height == BeValue(data[20..24])
      && r.value.bitDepth == data[24] && r.value.colorType == data[25]
      && r.value.compression == data[26] && r.value.filter == data[27]
      && r.value.interlace == data[28]
  {
    if !ValidPng(data) then Failure(NotValidPng)
    else if Slice(data, 12, 16) != IhdrTag then Failure(InvalidIhdr)
    else
      var ihdr := Slice(data, 16, 29);
      var r := Ihdr(
        BeValue(Slice(ihdr, 0, 4)), BeValue(Slice(ihdr, 4, 8)),
        BeValue(Slice(ihdr, 8, 9)), BeValue(Slice(ihdr, 9, 10)),
        BeValue(Slice(ihdr, 10, 11)), BeValue(Slice(ihdr, 11, 12)),
        BeValue(Slice(ihdr, 12, 13)));
      assert |data| >= 29 ==> ihdr[0..4] == data[16..20] && ihdr[4..8] == data[20..24];
      Success(r)
  }

  /** The 13-byte IHDR payload `save_rgb` writes: width and height as 4-byte
      big-endian numbers, then bit depth 8, colour type 2 (truecolour) and
      0 for compression, filter and interlace method. `to_bytes` raises
      OverflowError for a width or height of 2^32 or more. */
  function IhdrData(width: nat, height: nat): (r: Result<seq<byte>, Error>)
    ensures r.Success? <==> width < Pow256(4) && height < Pow256(4)
    ensures r.Failure? ==> r.error == Overflow
    ensures r.Success? ==> |r.value| == 13
  {
    var widthBytes :- ToBytes(width, 4);
    var heightBytes :- ToBytes(height, 4);
    Success(widthBytes + heightBytes + [8, 2, 0, 0, 0])
  }

  /** Where the bytes of the IHDR record save_rgb writes right after the
      signature land in the file. */
  lemma IhdrRecordLayout(widthBytes: seq<byte>, heightBytes: seq<byte>, crc32: seq<byte> -> int, c: seq<byte>, data: seq<byte>)
    requires |widthBytes| == 4 && |heightBytes| == 4
    requires CreateChunk(IhdrTag, widthBytes + heightBytes + [8, 2, 0, 0, 0], crc32) == Success(c)
    requires |data| >= 8 + |c| && data[..8 + |c|] == Signature + c
    ensures |data| >= 29 && data[..8] == Signature && data[12..16] == IhdrTag
    ensures data[16..20] == widthBytes && data[20..24] == heightBytes
    ensures data[24] == 8 && data[25] == 2 && data[26] == 0 && data[27] == 0 && data[28] == 0
  {
    var ihdr := widthBytes + heightBytes + [8, 2, 0, 0, 0];
    CreateChunkFields(IhdrTag, ihdr, crc32, c);
    IhdrFieldsLayout(widthBytes, heightBytes, c, data);
  }

  /** The same layout, from the fields of the record. */
  lemma IhdrFieldsLayout(widthBytes: seq<byte>, heightBytes: seq<byte>, c: seq<byte>, data: seq<byte>)
    requires |widthBytes| == 4 && |heightBytes| == 4
    requires |c| == 25 && c[4..8] == IhdrTag && c[8..21] == widthBytes + heightBytes + [8, 2, 0, 0, 0]
    requires |data| >= 8 + |c| && data[..8 + |c|] == Signature + c
    ensures |data| >= 29 && data[..8] == Signature && data[12..16] == IhdrTag
    ensures data[16..20] == widthBytes && data[20..24] == heightBytes
    ensures data[24] == 8 && data[25] == 2 && data[26] == 0 && data[27] == 0 && data[28] == 0
  {
    var ihdr := widthBytes + heightBytes + [8, 2, 0, 0, 0];
    SplitSlice(data, 0, Signature, c);
    SubSlice(data, 8, 8 + |c|, 4, 8);
    SubSlice(data, 8, 8 + |c|, 8, 21);
    assert data[16..29] == ihdr;
    SubSlice(data, 16, 29, 0, 4);
    SubSlice(data, 16, 29, 4, 8);
    assert forall k :: 8 <= k < 13 ==> data[16 + k] == data[16..29][k];
  }

  /** Reading back what save_rgb writes: a file that starts with the
      signature and the IHDR record built from width and height parses to
      exactly those dimensions and the fixed 8-bit RGB settings. */
  lemma HeaderRoundTrip(width: nat, height: nat, crc32: seq<byte> -> int, rest: seq<byte>)
    requires width < Pow256(4) && height < Pow256(4)
    ensures IhdrData(width, height).Success?
    ensures var ihdr := IhdrData(width, height).value;
      CreateChunk(IhdrTag, ihdr, crc32).Success?
    ensures var ihdr := IhdrData(width, height).value;
      var data := Signature + CreateChunk(IhdrTag, ihdr, crc32).value + rest;
      ParseHeader(data) == Success(Ihdr(width, height, 8, 2, 0, 0, 0))
  {
    var widthBytes, heightBytes := BeBytes(width, 4), BeBytes(height, 4);
    var ihdr := IhdrData(width, height).value;
    assert ihdr == widthBytes + heightBytes + [8, 2, 0, 0, 0];
    var c := CreateChunk(IhdrTag, ihdr, crc32).value;
    var data := Signature + c + rest;
    assert data[..8 + |c|] == Signature + c;
    IhdrRecordLayout(widthBytes, heightBytes, crc32, c, data);
  }
}
