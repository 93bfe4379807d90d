/** The exceptions raised by the PNG class, one constructor each. */
module Errors {

  datatype Error =
    | NotValidPng                    // read_header: ValueError, the signature does not match
    | InvalidIhdr                    // read_header: ValueError, bytes 12..16 are not the IHDR tag
    | HeaderNotRead                  // read_chunks: ValueError, width or height is still 0
    | UnsupportedFilter(filterType: int)  // process_data: ValueError, filter byte outside 0..4
    | OutOfRange                     // IndexError: a filter byte or a pixel channel lies past the end
    | DecompressFailed               // zlib.error raised by decompress
    | InvalidRgbOption               // save_rgb: ValueError, the channel is not 1, 2 or 3
    | EmptyImage                     // save_rgb: ValueError, no image data to save
    | Overflow                       // OverflowError raised by int.to_bytes
}
