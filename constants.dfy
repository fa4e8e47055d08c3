/** Machine types, format constants and the error type shared by the ziplist entry codec.

    The tag constants live in a constants module of the repository that is not part
    of this model; the values below are the ones of the Redis ziplist format that
    the codec follows. */
module ZiplistConstants {

  type u8 = x: int | 0 <= x < 0x100
  type u16 = x: int | 0 <= x < 0x1_0000
  type u32 = x: int | 0 <= x < 0x1_0000_0000
  type u64 = x: int | 0 <= x < 0x1_0000_0000_0000_0000
  type i64 = x: int | -0x8000_0000_0000_0000 <= x < 0x8000_0000_0000_0000

  const U16_MAX: int := 0xffff
  const U64_MAX: int := 0xffff_ffff_ffff_ffff
  const I64_MAX: int := 0x7fff_ffff_ffff_ffff
  const I64_MIN: int := -0x8000_0000_0000_0000

  /** String tags: the two top bits of the first header byte select the length class. */
  const ZIP_STR_MASK: u8 := 0xc0
  const ZIP_STR_06B: u8 := 0x00
  const ZIP_STR_14B: u8 := 0x40
  const ZIP_STR_32B: u8 := 0x80

  /** Integer tags. */
  const ZIP_INT_16B: u8 := 0xc0
  const ZIP_INT_32B: u8 := 0xd0
  const ZIP_INT_64B: u8 := 0xe0
  const ZIP_INT_24B: u8 := 0xf0
  const ZIP_INT_8B: u8 := 0xfe

  /** Immediate integers carry their value in the tag itself. */
  const ZIP_INT_IMM_MIN: u8 := 0xf1
  const ZIP_INT_IMM_MAX: u8 := 0xfd

  /** First byte at or above which the previous-entry-length field takes 5 bytes. */
  const ZIP_BIG_PREVLEN: u8 := 254

  const INT_24_MIN: int := -0x80_0000
  const INT_24_MAX: int := 0x7f_ffff

  /** Inputs of this many bytes or more are never parsed as integers. */
  const LONG_STR_SIZE: nat := 21

  /** Byte offset of the 16-bit element counter in the list header. */
  const ZIPLIST_LENGTH_OFFSET: nat := 8

  /** Header size reported by `encoding_len_size` for an unrecognised tag. */
  const ZIP_ENCODING_SIZE_INVALID: u8 := 0xff

  /** The error kinds of the decimal parser. */
  datatype ZipListError =
    | InValidString
    | InvalidFirstDigit
    | InvalidChar
    | OverFlowMul
    | OverFlowAdd
    | OverFlowNegative
    | OverFlowPositive

  /** A Rust `Result<T, ZipListError>`. */
  datatype Result<T> = Ok(value: T) | Err(error: ZipListError)

  /** A Rust `Option<T>`. */
  datatype Option<T> = None | Some(value: T)

  /** What a call does: return a value, or panic (the Rust program aborts the thread). */
  datatype Outcome<T> = Returns(value: T) | Panics
}
