/** The three zlib entry points png.py calls, passed in as functions: the
    model does not implement DEFLATE or CRC-32. */
module Compression {
  import opened Bytes
  import opened Wrappers

  /** `zlib.crc32`, `zlib.compress` and `zlib.decompress`; decompress yields
      None where zlib raises zlib.error. */
  datatype Zlib = Zlib(
    crc32: seq<byte> -> int,
    compress: seq<byte> -> seq<byte>,
    decompress: seq<byte> -> Option<seq<byte>>)

  /** What zlib guarantees of its pair of functions, for one input. */
  predicate RoundTrips(z: Zlib, raw: seq<byte>)
  {
    z.decompress(z.compress(raw)) == Some(raw)
  }
}
