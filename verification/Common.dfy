/** Options, results and the crate's error values (src/error.rs) as far as the
    modelled operations return them. */
module Common {

  datatype Option<+T> = None | Some(value: T)

  datatype Error =
    | Empty
    | TooLarge(len: nat, max: nat)
    | InvalidStream
    | ResourceLimit
    | SequenceExhausted
    | CorruptFrame
    | StreamConflict
    | Meta
    | Truncated
    | BadMagic
    | Lengths
    | NoEncryption
    | GzipIncomplete
    | GzipSize
    | Inflate
    | Crypto

  datatype Result<+T> = Ok(value: T) | Err(error: Error)

  const HEADER_LEN: nat := 25
  const MAX_SOURCE_BLOCKS: nat := 0xffff
  const U16_MAX: nat := 0xffff
  const MAX_FILE_BYTES: nat := 64 * 1024 * 1024
  const MAX_STREAM_BYTES: nat := MAX_FILE_BYTES + 2 * U16_MAX + 128
}
