/** Optional values, results and the error values the log and the
    write-ahead log return. */
module Errors {

  datatype Option<+T> = None | Some(value: T)

  datatype Result<+T> = Ok(value: T) | Err(error: Error)

  datatype Error =
    | EOF              // io.EOF: no byte of a field was available
    | UnexpectedEOF    // io.ErrUnexpectedEOF: only part of a field was available
    | Corruption       // the stored checksum does not match the payload
    | InvalidHandle    // os.ErrInvalid: the handle has been closed (is nil)
    | InvalidSeek      // the offset does not fit a signed 64-bit seek position
    | WriteFailed      // the operating system rejected or cut short a write
    | CloseFailed      // the operating system failed to close the file
    | DecodeFailed     // a payload is not an encoded write operation
}
