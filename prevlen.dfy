/** The previous-entry-length field that starts every ziplist entry: one byte when the
    predecessor is shorter than ZIP_BIG_PREVLEN bytes, otherwise the marker byte
    ZIP_BIG_PREVLEN followed by the length as a 32-bit little-endian number.
    Source: src/ziplist/lib.rs, `decode_prev_len_size` to `store_prev_entry_length`
    and `prev_len_bytes_diff`. */
module ZiplistPrevLen {
  import opened ZiplistConstants
  import opened Bytes

  /** `decode_prev_len_size`: the width of the field, read off its first byte. */
  function DecodePrevLenSize(ptr: seq<u8>): (r: u32)
    requires |ptr| >= 1
    ensures r == 1 || r == 5
    ensures r == 1 <==> ptr[0] < ZIP_BIG_PREVLEN
  {
    if ptr[0] < ZIP_BIG_PREVLEN then 1 else 5
  }

  /** `decode_prev_len`: the width of the field and the previous entry's length. */
  function DecodePrevLen(ptr: seq<u8>): (r: (u32, u32))
    requires |ptr| >= 1
    requires ptr[0] >= ZIP_BIG_PREVLEN ==> |ptr| >= 5
    ensures r.0 == DecodePrevLenSize(ptr)
    ensures r.0 == 1 ==> r.1 == ptr[0]
    ensures r.0 == 5 ==> r.1 == LeValue(ptr[1..5])
  {
    var prevLenSize := DecodePrevLenSize(ptr);
    var prevLen := if prevLenSize == 1 then ptr[0] else LeValue(ptr[1..5]);
    assert Pow256(4) == 0x1_0000_0000;
    (prevLenSize, prevLen)
  }

  /** The width `store_prev_entry_length` reports for a length, with or without a destination. */
  function PrevEntryLengthSize(len: u32): (r: u32)
    ensures r == 1 || r == 5
    ensures r == 1 <==> len < ZIP_BIG_PREVLEN
  {
    if len < ZIP_BIG_PREVLEN then 1 else 5
  }

  /** The bytes of the field for len as the format lays them out (what a working store writes). */
  function EncodePrevLen(len: u32): (r: seq<u8>)
    ensures |r| == PrevEntryLengthSize(len)
  {
    if len < ZIP_BIG_PREVLEN then [len] else [ZIP_BIG_PREVLEN] + LeBytes(len, 4)
  }

  /** `store_prev_entry_length_large`. The source assigns into `p.to_vec()`, a temporary
      copy, so the caller's buffer is never written: the method has no modifies clause.
      Indexing the copy still panics on a destination shorter than 5 bytes. */
  method StorePrevEntryLengthLarge(data: array?<u8>, len: u32) returns (n: u32)
    requires data != null ==> data.Length >= 5
    ensures n == 5
    ensures len >= ZIP_BIG_PREVLEN ==> n == |EncodePrevLen(len)|
  {
    if data != null {
      var copy := data[..];
      copy := copy[0 := ZIP_BIG_PREVLEN];
      var copy2 := data[..];
      copy2 := copy2[..1] + LeBytes(len, 4) + copy2[5..];
    }
    n := 5;
  }

  /** `store_prev_entry_length`: reports the width of the field for len whether or not a
      destination is given, and (like the large variant) writes only into a temporary copy. */
  method StorePrevEntryLength(data: array?<u8>, len: u32) returns (n: u32)
    requires data != null ==> data.Length >= PrevEntryLengthSize(len)
    ensures n == |EncodePrevLen(len)|
    ensures n == 1 <==> len < ZIP_BIG_PREVLEN
  {
    if data != null {
      if len < ZIP_BIG_PREVLEN {
        var copy := data[..];
        copy := copy[0 := len];
        n := 1;
      } else {
        n := StorePrevEntryLengthLarge(data, len);
      }
    } else {
      if len < ZIP_BIG_PREVLEN {
        n := 1;
      } else {
        n := 5;
      }
    }
  }

  /** `prev_len_bytes_diff`: how many bytes the field at ptr must grow (or shrink) by to hold len. */
  function PrevLenBytesDiff(ptr: seq<u8>, len: u32): (r: int)
    requires |ptr| >= 1
    ensures r == -4 || r == 0 || r == 4
    ensures r == 4 <==> ptr[0] < ZIP_BIG_PREVLEN && len >= ZIP_BIG_PREVLEN
    ensures r == -4 <==> ptr[0] >= ZIP_BIG_PREVLEN && len < ZIP_BIG_PREVLEN
  {
    PrevEntryLengthSize(len) as int - DecodePrevLenSize(ptr) as int
  }

  /** Decoding the field written for len gives back len and the width that was reported for it. */
  lemma PrevLenRoundTrip(len: u32, rest: seq<u8>)
    ensures DecodePrevLen(EncodePrevLen(len) + rest) == (PrevEntryLengthSize(len), len)
  {
    var field := EncodePrevLen(len) + rest;
    if len >= ZIP_BIG_PREVLEN {
      assert field[1..5] == LeBytes(len, 4);
      LeValueOfLeBytes(len, 4);
    }
  }

  /** Once the field has been rewritten for len, no further resize is needed for len. */
  lemma PrevLenBytesDiffAfterStore(len: u32, rest: seq<u8>)
    ensures PrevLenBytesDiff(EncodePrevLen(len) + rest, len) == 0
  {
    PrevLenRoundTrip(len, rest);
  }

  /** Exhibits the lost write: storing any length into a zeroed buffer through
      `store_prev_entry_length` leaves a field that still decodes as length 0. */
  method StoredPrevLenIsNotVisible(len: u32) returns (decoded: (u32, u32))
    ensures decoded == (1, 0)
    ensures len != 0 ==> decoded != (PrevEntryLengthSize(len), len)
  {
    var buf := new u8[5](_ => 0);
    var n := StorePrevEntryLength(buf, len);
    decoded := DecodePrevLen(buf[..]);
  }

  /** A store that writes the field into the caller's buffer, as the format intends:
      the same width as the dry run, exactly that many bytes changed. */
  method StorePrevEntryLengthFixed(data: array?<u8>, len: u32) returns (n: u32)
    requires data != null ==> data.Length >= PrevEntryLengthSize(len)
    modifies data
    ensures n == PrevEntryLengthSize(len)
    ensures data != null ==> data[..] == EncodePrevLen(len) + old(data[..])[n..]
  {
    n := PrevEntryLengthSize(len);
    if data != null {
      var field := EncodePrevLen(len);
      forall i | 0 <= i < n {
        data[i] := field[i];
      }
    }
  }
}
