/** The chunk layer of the container (section 3.2 of RFC 2083): a record is
    a 4-byte big-endian payload length, a 4-byte type tag, the payload and
    a 4-byte CRC over tag and payload. `PNG._create_chunk` writes records;
    the loop of `PNG.read_chunks` walks them, keeps the IDAT payloads and
    stops at IEND, without ever checking a CRC. */
module Chunks {
  import opened Bytes
  import opened Wrappers
  import opened Errors

  /** The 8-byte PNG signature (section 3.1 of RFC 2083). */
  const Signature: seq<byte> := [0x89, 0x50, 0x4E, 0x47, 0x0D, 0x0A, 0x1A, 0x0A]

  const IhdrTag: seq<byte> := [0x49, 0x48, 0x44, 0x52]  // "IHDR"
  const IdatTag: seq<byte> := [0x49, 0x44, 0x41, 0x54]  // "IDAT"
  const IendTag: seq<byte> := [0x49, 0x45, 0x4E, 0x44]  // "IEND"

  /** Where the chunk scan starts: 8 signature bytes and a 25-byte IHDR
      record (a 13-byte payload plus 12 bytes of framing). */
  const FirstChunkOffset: nat := 33

  /** `crc32(...) & 0xffffffff` keeps the value modulo 2^32. */
  const CrcModulus: nat := 0x1_0000_0000

  /** The mask keeps any value to one a 4-byte field can hold, and leaves
      a value that already fits (as Python 3's unsigned crc32 does) as it is. */
  lemma CrcMask(x: int)
    ensures 0 <= x % CrcModulus < Pow256(4)
    ensures 0 <= x < Pow256(4) ==> x % CrcModulus == x
  {
    assert Pow256(4) == CrcModulus;
  }

  /** `_create_chunk(chunk_type, chunk_data)`; the length field raises
      OverflowError for a payload of 2^32 bytes or more. */
  function CreateChunk(tag: seq<byte>, payload: seq<byte>, crc32: seq<byte> -> int): (r: Result<seq<byte>, Error>)
    ensures r.Success? <==> |payload| < Pow256(4)
    ensures r.Failure? ==> r.error == Overflow
    ensures r.Success? ==>
      var c, t, d := r.value, |tag|, |payload|;
      && |c| == 8 + t + d
      && BeValue(c[..4]) == d
      && c[4..4 + t] == tag
      && c[4 + t..4 + t + d] == payload
      && BeValue(c[4 + t + d..]) == crc32(tag + payload) % CrcModulus
  {
    CrcMask(crc32(tag + payload));
    var lengthBytes :- ToBytes(|payload|, 4);
    var crc := crc32(tag + payload) % CrcModulus;
    var crcBytes := BeBytes(crc, 4);
    var c := lengthBytes + tag + payload + crcBytes;
    assert c[..4] == lengthBytes && c[4..4 + |tag|] == tag;
    assert c[4 + |tag|..4 + |tag| + |payload|] == payload && c[4 + |tag| + |payload|..] == crcBytes;
    Success(c)
  }

  /** The fields of the record at offset, as `read_chunks` slices them.
      The length is the big-endian value of up to 4 bytes, so it fits a
      4-byte field; read from a complete field it is that field's value. */
  function ChunkLength(data: seq<byte>, offset: nat): (n: nat)
    ensures n < Pow256(4)
    ensures offset + 4 <= |data| ==> n == BeValue(data[offset..offset + 4])
  {
    var field := Slice(data, offset, offset + 4);
    Pow256Monotone(|field|, 4);
    BeValue(field)
  }

  /** The type tag: at most 4 bytes, and bytes 4..8 of the record when the
      data reaches that far. */
  function ChunkType(data: seq<byte>, offset: nat): (t: seq<byte>)
    ensures |t| <= 4
    ensures offset + 8 <= |data| ==> t == data[offset + 4..offset + 8]
  {
    Slice(data, offset + 4, offset + 8)
  }

  /** The payload: never longer than the declared length, and exactly the
      declared bytes when the data holds them all. */
  function ChunkData(data: seq<byte>, offset: nat): (d: seq<byte>)
    ensures |d| <= ChunkLength(data, offset)
    ensures offset + 8 + ChunkLength(data, offset) <= |data| ==>
              d == data[offset + 8..offset + 8 + ChunkLength(data, offset)]
  {
    Slice(data, offset + 8, offset + 8 + ChunkLength(data, offset))
  }

  /** Where the record after the one at offset starts: past the length,
      type, payload and CRC, so at least 12 bytes further on. */
  function NextOffset(data: seq<byte>, offset: nat): (next: nat)
    ensures next >= offset + 12
  {
    offset + 8 + ChunkLength(data, offset) + 4
  }

  /** The concatenated IDAT payloads met by the scan of `read_chunks` from
      offset onwards. Every field is read through a clamping slice, so a
      record cut short by the end of the data yields a short field rather
      than an error. */
  function IdatPayload(data: seq<byte>, offset: nat): (r: seq<byte>)
    ensures r != [] ==> offset + |r| <= |data|
    decreases |data| - offset
  {
    if offset >= |data| || ChunkType(data, offset) == IendTag then []
    else
      (if ChunkType(data, offset) == IdatTag then ChunkData(data, offset) else [])
      + IdatPayload(data, NextOffset(data, offset))
  }

  lemma IdatPayloadUnfold(data: seq<byte>, offset: nat)
    requires offset < |data|
    ensures ChunkType(data, offset) == IendTag ==> IdatPayload(data, offset) == []
    ensures ChunkType(data, offset) != IendTag ==>
              IdatPayload(data, offset) ==
                (if ChunkType(data, offset) == IdatTag then ChunkData(data, offset) else [])
                + IdatPayload(data, NextOffset(data, offset))
  {
  }

  /** One pass of the scan loop over a record that is not IEND keeps the
      loop invariant of the scan in `PNG.ReadChunks`. */
  lemma ScanStep(data: seq<byte>, offset: nat, compressed: seq<byte>)
    requires offset < |data| && ChunkType(data, offset) != IendTag
    requires compressed + IdatPayload(data, offset) == IdatPayload(data, FirstChunkOffset)
    ensures (if ChunkType(data, offset) == IdatTag then compressed + ChunkData(data, offset) else compressed)
            + IdatPayload(data, NextOffset(data, offset)) == IdatPayload(data, FirstChunkOffset)
  {
    IdatPayloadUnfold(data, offset);
    var rest := IdatPayload(data, NextOffset(data, offset));
    if ChunkType(data, offset) == IdatTag {
      ConcatAssoc(compressed, ChunkData(data, offset), rest);
    } else {
      assert [] + rest == rest;
    }
  }

  lemma ConcatAssoc(a: seq<byte>, b: seq<byte>, c: seq<byte>)
    ensures a + b + c == a + (b + c)
  {
  }

  /** When the scan stops (end of data or an IEND record), what was
      collected is the whole IDAT stream. */
  lemma ScanDone(data: seq<byte>, offset: nat, compressed: seq<byte>)
    requires offset >= |data| || ChunkType(data, offset) == IendTag
    requires compressed + IdatPayload(data, offset) == IdatPayload(data, FirstChunkOffset)
    ensures compressed == IdatPayload(data, FirstChunkOffset)
  {
    assert IdatPayload(data, offset) == [];
    assert compressed + [] == compressed;
  }

  /** A record: its type tag and its payload. */
  datatype Chunk = Chunk(tag: seq<byte>, payload: seq<byte>)

  /** What a record adds to the compressed stream: its payload if it is IDAT. */
  function Contribution(ch: Chunk): seq<byte>
  {
    if ch.tag == IdatTag then ch.payload else []
  }

  /** The layout of a record _create_chunk wrote, field by field. */
  lemma CreateChunkFields(tag: seq<byte>, payload: seq<byte>, crc32: seq<byte> -> int, c: seq<byte>)
    requires |tag| == 4 && CreateChunk(tag, payload, crc32) == Success(c)
    ensures |c| == 12 + |payload|
    ensures BeValue(c[..4]) == |payload| && c[4..8] == tag && c[8..8 + |payload|] == payload
  {
  }

  /** The fields the scan reads at offset, when the bytes there are a
      record c with a 4-byte tag and a payload of d bytes. */
  lemma RecordFields(data: seq<byte>, offset: nat, c: seq<byte>, tag: seq<byte>, payload: seq<byte>)
    requires |tag| == 4 && |c| == 12 + |payload|
    requires BeValue(c[..4]) == |payload| && c[4..8] == tag && c[8..8 + |payload|] == payload
    requires offset + |c| <= |data| && data[offset..offset + |c|] == c
    ensures offset < |data|
    ensures ChunkLength(data, offset) == |payload|
    ensures ChunkType(data, offset) == tag
    ensures ChunkData(data, offset) == payload
    ensures NextOffset(data, offset) == offset + |c|
  {
    SubSlice(data, offset, offset + |c|, 0, 4);
    SubSlice(data, offset, offset + |c|, 4, 8);
    SubSlice(data, offset, offset + |c|, 8, 8 + |payload|);
  }

  lemma SubSlice<T>(s: seq<T>, lo: nat, hi: nat, i: nat, j: nat)
    requires lo <= hi <= |s| && i <= j <= hi - lo
    ensures s[lo..hi][i..j] == s[lo + i..lo + j]
  {
    var a, b := s[lo..hi][i..j], s[lo + i..lo + j];
    forall k | 0 <= k < |a|
      ensures a[k] == b[k]
    {
      assert a[k] == s[lo..hi][i + k];
    }
  }

  /** Bytes at offset that spell a + b spell a, then b. */
  lemma SplitSlice<T>(data: seq<T>, offset: nat, a: seq<T>, b: seq<T>)
    requires offset + |a| + |b| <= |data| && data[offset..offset + |a| + |b|] == a + b
    ensures data[offset..offset + |a|] == a
    ensures data[offset + |a|..offset + |a| + |b|] == b
  {
    SubSlice(data, offset, offset + |a| + |b|, 0, |a|);
    SubSlice(data, offset, offset + |a| + |b|, |a|, |a| + |b|);
    assert (a + b)[0..|a|] == a && (a + b)[|a|..|a| + |b|] == b;
  }

  /** One step of the scan over a record whose fields are known. */
  lemma ScanRecord(data: seq<byte>, offset: nat, ch: Chunk, next: nat)
    requires offset < |data| && ChunkType(data, offset) == ch.tag
    requires ChunkData(data, offset) == ch.payload && NextOffset(data, offset) == next
    ensures ch.tag == IendTag ==> IdatPayload(data, offset) == []
    ensures ch.tag != IendTag ==> IdatPayload(data, offset) == Contribution(ch) + IdatPayload(data, next)
  {
    IdatPayloadUnfold(data, offset);
  }

  /** Scanning a record c with a 4-byte tag, followed by more bytes:
      unless it is IEND, it contributes its payload if it is IDAT and the
      scan resumes right after it, at next. */
  lemma ScanLaidOutRecord(data: seq<byte>, offset: nat, ch: Chunk, c: seq<byte>, rest: seq<byte>, next: nat)
    requires |ch.tag| == 4 && |c| == 12 + |ch.payload|
    requires BeValue(c[..4]) == |ch.payload| && c[4..8] == ch.tag && c[8..8 + |ch.payload|] == ch.payload
    requires next == offset + |c|
    requires next + |rest| <= |data| && data[offset..next + |rest|] == c + rest
    ensures data[next..next + |rest|] == rest
    ensures ch.tag == IendTag ==> IdatPayload(data, offset) == []
    ensures ch.tag != IendTag ==> IdatPayload(data, offset) == Contribution(ch) + IdatPayload(data, next)
  {
    SplitSlice(data, offset, c, rest);
    RecordFields(data, offset, c, ch.tag, ch.payload);
    ScanRecord(data, offset, ch, next);
  }

  /** An IDAT record then an IEND record, laid out at offset: the scan
      collects the IDAT payload and stops. */
  lemma ScanIdatThenIend(data: seq<byte>, offset: nat, payload: seq<byte>, idat: seq<byte>, iend: seq<byte>)
    requires |idat| == 12 + |payload| && BeValue(idat[..4]) == |payload|
    requires idat[4..8] == IdatTag && idat[8..8 + |payload|] == payload
    requires |iend| == 12 && iend[4..8] == IendTag
    requires offset + |idat| + |iend| <= |data| && data[offset..offset + |idat| + |iend|] == idat + iend
    ensures IdatPayload(data, offset) == payload
  {
    var next := offset + |idat|;
    ScanLaidOutRecord(data, offset, Chunk(IdatTag, payload), idat, iend, next);
    ScanStopsAtIend(data, next, iend);
    ConcatEmpty(payload);
  }

  /** The scan stops at a record whose tag is IEND. */
  lemma ScanStopsAtIend(data: seq<byte>, offset: nat, iend: seq<byte>)
    requires |iend| == 12 && iend[4..8] == IendTag
    requires offset + |iend| <= |data| && data[offset..offset + |iend|] == iend
    ensures IdatPayload(data, offset) == []
  {
    SubSlice(data, offset, offset + |iend|, 4, 8);
    assert ChunkType(data, offset) == IendTag;
  }

  lemma ConcatEmpty<T>(s: seq<T>)
    ensures s + [] == s
  {
  }

  /** The bytes read_chunks decompresses from a file laid out as save_rgb
      writes it: an IDAT record and then an IEND record yield exactly the
      IDAT payload. */
  lemma IdatPayloadOfSavedRecords(data: seq<byte>, offset: nat, payload: seq<byte>, crc32: seq<byte> -> int, idat: seq<byte>, iend: seq<byte>)
    requires CreateChunk(IdatTag, payload, crc32) == Success(idat)
    requires CreateChunk(IendTag, [], crc32) == Success(iend)
    requires offset + |idat| + |iend| <= |data| && data[offset..offset + |idat| + |iend|] == idat + iend
    ensures IdatPayload(data, offset) == payload
  {
    CreateChunkFields(IdatTag, payload, crc32, idat);
    CreateChunkFields(IendTag, [], crc32, iend);
    ScanIdatThenIend(data, offset, payload, idat, iend);
  }
}
