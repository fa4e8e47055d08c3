/** The entry header: a tag byte whose two top bits tell a string from an integer,
    followed for strings by the rest of a 6-, 14- or 32-bit length
    (src/ziplist/lib.rs:27-83, 211-253). */
module ZiplistHeader {
  import opened ZiplistConstants
  import opened Bytes
  import opened ZiplistNumber

  /** `b & ZIP_STR_MASK`: the two top bits of a byte. */
  function MaskStr(b: u8): u8 {
    b / 0x40 * 0x40
  }

  /** `is_string`: the tag's two top bits are not both set. */
  predicate IsString(encoding: u8)
    ensures IsString(encoding) <==> encoding < ZIP_STR_MASK
  {
    MaskStr(encoding) < ZIP_STR_MASK
  }

  /** `entry_encoding`: the tag of the header at ptr, with a string's length bits cleared. */
  function EntryEncoding(ptr: seq<u8>): (r: u8)
    requires |ptr| >= 1
    ensures IsString(ptr[0]) ==> r in {ZIP_STR_06B, ZIP_STR_14B, ZIP_STR_32B}
    ensures !IsString(ptr[0]) ==> r == ptr[0]
  {
    var encoding := ptr[0];
    if encoding < ZIP_STR_MASK then MaskStr(encoding) else encoding
  }

  /** The tags an entry header may carry: the three string forms (length bits cleared),
      the five integer widths and the immediates. */
  predicate KnownTag(encoding: u8) {
    || encoding in {ZIP_STR_06B, ZIP_STR_14B, ZIP_STR_32B}
    || encoding in {ZIP_INT_8B, ZIP_INT_16B, ZIP_INT_24B, ZIP_INT_32B, ZIP_INT_64B}
    || ZIP_INT_IMM_MIN <= encoding <= ZIP_INT_IMM_MAX
  }

  /** `decode_length`: header size and content length of an entry whose tag is encoding;
      (0, 0) marks a tag with no meaning. */
  function DecodeLength(ptr: seq<u8>, encoding: u8): (r: (u32, u32))
    requires encoding == ZIP_STR_06B ==> |ptr| >= 1
    requires encoding == ZIP_STR_14B ==> |ptr| >= 2
    requires encoding == ZIP_STR_32B ==> |ptr| >= 5
    ensures encoding == ZIP_STR_06B ==> r.0 == 1 && r.1 <= 0x3f
    ensures encoding == ZIP_STR_14B ==> r.0 == 2 && r.1 <= 0x3fff
    ensures encoding == ZIP_STR_32B ==> r == (5, LeValue(ptr[1..5]))
    ensures !IsString(encoding) && r.0 != 0 ==> r == (1, IntSizeFixed(encoding))
    ensures encoding in {ZIP_INT_8B, ZIP_INT_16B, ZIP_INT_24B, ZIP_INT_32B, ZIP_INT_64B} ==>
      r.0 == 1 && r.1 in {1, 2, 3, 4, 8}
    ensures ZIP_INT_IMM_MIN <= encoding <= ZIP_INT_IMM_MAX ==> r == (1, 0)
    ensures r.0 == 0 <==> !KnownTag(encoding)
    ensures r.0 == 0 ==> r.1 == 0
  {
    if encoding < ZIP_STR_MASK then
      if encoding == ZIP_STR_06B then (1, ptr[0] % 0x40)
      else if encoding == ZIP_STR_14B then (2, (ptr[0] as int) % 0x40 * 0x100 + ptr[1])
      else if encoding == ZIP_STR_32B then
        assert Pow256(4) == 0x1_0000_0000;
        (5, LeValue(ptr[1..5]))
      else (0, 0)
    else
      if encoding == ZIP_INT_8B then (1, 1)
      else if encoding == ZIP_INT_16B then (1, 2)
      else if encoding == ZIP_INT_24B then (1, 3)
      else if encoding == ZIP_INT_32B then (1, 4)
      else if encoding == ZIP_INT_64B then (1, 8)
      else if ZIP_INT_IMM_MIN <= encoding <= ZIP_INT_IMM_MAX then (1, 0)
      else (0, 0)
  }

  /** `encoding_len_size`: the header size alone, ZIP_ENCODING_SIZE_INVALID for a tag with no meaning. */
  function EncodingLenSize(encoding: u8): (r: u32)
    ensures r in {1, 2, 5, ZIP_ENCODING_SIZE_INVALID as u32}
  {
    if encoding in {ZIP_INT_8B, ZIP_INT_16B, ZIP_INT_24B, ZIP_INT_32B, ZIP_INT_64B} then 1
    else if ZIP_INT_IMM_MIN <= encoding <= ZIP_INT_IMM_MAX then 1
    else if encoding == ZIP_STR_06B then 1
    else if encoding == ZIP_STR_14B then 2
    else if encoding == ZIP_STR_32B then 5
    else ZIP_ENCODING_SIZE_INVALID as u32
  }

  /** The header size `store_entry_encoding` reports (with or without a destination):
      the smallest string header whose length field holds rawLen, or 1 for an integer tag. */
  function EntryEncodingSize(encoding: u8, rawLen: u32): (r: u32)
    ensures r in {1, 2, 5}
    ensures !IsString(encoding) ==> r == 1
    ensures IsString(encoding) ==> (r == 1 <==> rawLen <= 0x3f) && (r == 2 <==> 0x3f < rawLen <= 0x3fff)
  {
    if IsString(encoding) then
      if rawLen <= 0x3f then 1 else if rawLen <= 0x3fff then 2 else 5
    else 1
  }

  /** The header bytes `store_entry_encoding` writes. The 32-bit length goes out
      most significant byte first. */
  function EntryEncodingBytes(encoding: u8, rawLen: u32): (r: seq<u8>)
    ensures |r| == EntryEncodingSize(encoding, rawLen)
  {
    if IsString(encoding) then
      if rawLen <= 0x3f then [ZIP_STR_06B + rawLen]
      else if rawLen <= 0x3fff then [ZIP_STR_14B + rawLen / 0x100 % 0x40, rawLen % 0x100]
      else [ZIP_STR_32B, rawLen / 0x100_0000 % 0x100, rawLen / 0x1_0000 % 0x100, rawLen / 0x100 % 0x100, rawLen % 0x100]
    else [encoding]
  }

  /** `store_entry_encoding`: with no destination (null) only the header size is computed;
      with one, the header is assembled in a 5-byte scratch buffer and its first len
      bytes are copied to the front of data. Either way the same size is returned. */
  method StoreEntryEncoding(data: array?<u8>, encoding: u8, rawLen: u32) returns (len: u32)
    requires data != null ==> data.Length >= EntryEncodingSize(encoding, rawLen)
    modifies data
    ensures len == EntryEncodingSize(encoding, rawLen)
    ensures data != null ==> data[..] == EntryEncodingBytes(encoding, rawLen) + old(data[..])[len..]
  {
    len := 1;
    var buf := new u8[5](_ => 0);

    if IsString(encoding) {
      if rawLen <= 0x3f {
        if data == null {
          return;
        }
        buf[0] := ZIP_STR_06B + rawLen;
      } else if rawLen <= 0x3fff {
        len := len + 1;
        if data == null {
          return;
        }
        buf[0] := ZIP_STR_14B + rawLen / 0x100 % 0x40;
        buf[1] := rawLen % 0x100;
      } else {
        len := len + 4;
        if data == null {
          return;
        }
        buf[0] := ZIP_STR_32B;
        buf[1] := rawLen / 0x100_0000 % 0x100;
        buf[2] := rawLen / 0x1_0000 % 0x100;
        buf[3] := rawLen / 0x100 % 0x100;
        buf[4] := rawLen % 0x100;
      }
    } else {
      if data == null {
        return;
      }
      buf[0] := encoding;
    }
    assert buf[..len] == EntryEncodingBytes(encoding, rawLen);
    forall i | 0 <= i < len {
      data[i] := buf[i];
    }
  }

  // ---------------------------------------------------------------------------
  // Properties

  /** `encoding_len_size` agrees with the header size `decode_length` finds, and both
      reject the same tags. */
  lemma EncodingLenSizeAgrees(ptr: seq<u8>, encoding: u8)
    requires encoding == ZIP_STR_06B ==> |ptr| >= 1
    requires encoding == ZIP_STR_14B ==> |ptr| >= 2
    requires encoding == ZIP_STR_32B ==> |ptr| >= 5
    ensures DecodeLength(ptr, encoding).0 == 0 <==> EncodingLenSize(encoding) == ZIP_ENCODING_SIZE_INVALID as u32
    ensures DecodeLength(ptr, encoding).0 != 0 ==> EncodingLenSize(encoding) == DecodeLength(ptr, encoding).0
  {
  }

  /** The tag read off any string header is one `decode_length` understands. */
  lemma StringHeaderAlwaysDecodes(ptr: seq<u8>)
    requires |ptr| >= 5 && IsString(ptr[0])
    ensures DecodeLength(ptr, EntryEncoding(ptr)).0 in {1, 2, 5}
  {
  }

  /** A string header of 1 or 2 bytes reads back as the length it was written for. */
  lemma StringHeaderRoundTrip(encoding: u8, rawLen: u32, rest: seq<u8>)
    requires IsString(encoding) && rawLen <= 0x3fff
    ensures var d := EntryEncodingBytes(encoding, rawLen) + rest;
      DecodeLength(d, EntryEncoding(d)) == (EntryEncodingSize(encoding, rawLen), rawLen)
  {
    var d := EntryEncodingBytes(encoding, rawLen) + rest;
    if rawLen > 0x3f {
      assert d[0] == ZIP_STR_14B + rawLen / 0x100 && d[1] == rawLen % 0x100;
      assert MaskStr(d[0]) == ZIP_STR_14B;
    }
  }

  /** An integer header is its tag byte; `decode_length` reads back its payload width. */
  lemma IntegerHeaderRoundTrip(encoding: u8, rest: seq<u8>)
    requires !IsString(encoding)
    ensures var d := EntryEncodingBytes(encoding, 0) + rest;
      && EntryEncoding(d) == encoding
      && DecodeLength(d, encoding) ==
           if EncodingLenSize(encoding) == ZIP_ENCODING_SIZE_INVALID as u32 then (0, 0)
           else (1, IntSizeFixed(encoding))
  {
  }

  /** The value of the 4 bytes after a 32-bit string tag, most significant first,
      as the Redis format lays them out. */
  function BeValue32(ptr: seq<u8>): u32
    requires |ptr| >= 5
  {
    (ptr[1] as int) * 0x100_0000 + (ptr[2] as int) * 0x1_0000 + (ptr[3] as int) * 0x100 + ptr[4]
  }

  /** The four bytes `store_entry_encoding` writes for a 32-bit length, read most
      significant first, give the length back. */
  lemma BeBytesRoundTrip(x: u32)
    ensures BeValue32([ZIP_STR_32B, x / 0x100_0000 % 0x100, x / 0x1_0000 % 0x100, x / 0x100 % 0x100, x % 0x100]) == x
  {
  }

  /** A 5-byte string header as written: decoding reads the length with its bytes
      reversed, so lengths from 0x4000 up do not come back. */
  lemma LargeStringHeaderSwapsBytes(encoding: u8, rawLen: u32, rest: seq<u8>)
    requires IsString(encoding) && rawLen > 0x3fff
    ensures var d := EntryEncodingBytes(encoding, rawLen) + rest;
      DecodeLength(d, EntryEncoding(d)) == (5, LeValue(EntryEncodingBytes(encoding, rawLen)[1..5]))
    ensures rawLen == 0x4000 ==>
      var d := EntryEncodingBytes(encoding, rawLen) + rest;
      DecodeLength(d, EntryEncoding(d)) == (5, 0x40_0000)
  {
    var d := EntryEncodingBytes(encoding, rawLen) + rest;
    assert d[1..5] == EntryEncodingBytes(encoding, rawLen)[1..5];
    assert EntryEncoding(d) == ZIP_STR_32B;
    assert DecodeLength(d, ZIP_STR_32B) == (5, LeValue(d[1..5]));
    if rawLen == 0x4000 {
      assert d[1..5] == [0, 0, 0x40, 0];
      assert LeValue([0, 0, 0x40, 0]) == 0x40_0000 by {
        assert [0, 0, 0x40, 0][1..] == [0, 0x40, 0];
        assert [0, 0x40, 0][1..] == [0x40, 0];
        assert [0x40, 0][1..] == [0];
        assert [0][1..] == [];
      }
    }
  }

  /** `decode_length` with the 32-bit string length read most significant byte first,
      matching what `store_entry_encoding` writes. */
  function DecodeLengthFixed(ptr: seq<u8>, encoding: u8): (r: (u32, u32))
    requires encoding == ZIP_STR_06B ==> |ptr| >= 1
    requires encoding == ZIP_STR_14B ==> |ptr| >= 2
    requires encoding == ZIP_STR_32B ==> |ptr| >= 5
    ensures r.0 == 0 <==> !KnownTag(encoding)
    ensures encoding == ZIP_STR_32B ==> r.0 == 5 && r.1 == BeValue32(ptr)
  {
    if encoding == ZIP_STR_32B then (5, BeValue32(ptr)) else DecodeLength(ptr, encoding)
  }

  /** With the length read in the order it is written, every string header reads back
      as the length it was written for and the size the dry run reported. */
  lemma StringHeaderRoundTripFixed(encoding: u8, rawLen: u32, rest: seq<u8>)
    requires IsString(encoding)
    ensures var d := EntryEncodingBytes(encoding, rawLen) + rest;
      DecodeLengthFixed(d, EntryEncoding(d)) == (EntryEncodingSize(encoding, rawLen), rawLen)
  {
    if rawLen <= 0x3fff {
      StringHeaderRoundTrip(encoding, rawLen, rest);
    } else {
      var d := EntryEncodingBytes(encoding, rawLen) + rest;
      assert d[..5] == EntryEncodingBytes(encoding, rawLen);
      assert EntryEncoding(d) == ZIP_STR_32B;
      BeBytesRoundTrip(rawLen);
    }
  }
}
