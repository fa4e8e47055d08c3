/** The integer payload writer `save_integer` and the element counter `incr_length`
    (src/ziplist/lib.rs:260-293). Both write into a caller-owned buffer. */
module ZiplistPayload {
  import opened ZiplistConstants
  import opened Bytes
  import opened DecimalText
  import opened ZiplistNumber

  /** The n-byte two's-complement image of value, least significant byte first
      (`(value as iN).to_le_bytes()`). */
  function Payload(value: int, n: nat): (r: seq<u8>)
    ensures |r| == n
  {
    LeBytes(value % Pow256(n), n)
  }

  /** Reading an integer payload back: the bytes as a signed little-endian number. */
  function LoadInteger(bytes: seq<u8>): int
    requires |bytes| >= 1
  {
    Signed(LeValue(bytes), |bytes|)
  }

  /** `copy_from_slice` into the front of dst. */
  method CopyFromSlice(dst: array<u8>, src: seq<u8>)
    requires |src| <= dst.Length
    modifies dst
    ensures dst[..] == src + old(dst[..])[|src|..]
  {
    forall i | 0 <= i < |src| {
      dst[i] := src[i];
    }
  }

  /** The tags on which `save_integer` returns instead of panicking. */
  predicate SaveIntegerCompletes(encoding: u8) {
    || encoding in {ZIP_INT_8B, ZIP_INT_16B, ZIP_STR_32B, ZIP_INT_64B}
    || ZIP_INT_IMM_MIN <= encoding <= ZIP_INT_IMM_MAX
  }

  /** How many bytes `save_integer` writes for a tag on which it completes. */
  function SavedWidth(encoding: u8): nat {
    if encoding == ZIP_INT_8B then 1
    else if encoding == ZIP_INT_16B then 2
    else if encoding == ZIP_STR_32B then 4
    else if encoding == ZIP_INT_64B then 8
    else 0
  }

  /** `save_integer`. Its 4-byte arm matches ZIP_STR_32B rather than ZIP_INT_32B, so
      ZIP_INT_32B falls through to the panic; its 24-bit arm copies a 7-byte slice into
      3 bytes, which panics. A panicking call writes nothing. */
  method SaveInteger(ptr: array<u8>, value: i64, encoding: u8) returns (panicked: bool)
    requires ptr.Length >= SavedWidth(encoding)
    modifies ptr
    ensures panicked <==> !SaveIntegerCompletes(encoding)
    ensures panicked ==> ptr[..] == old(ptr[..])
    ensures !panicked ==>
      ptr[..] == Payload(value, SavedWidth(encoding)) + old(ptr[..])[SavedWidth(encoding)..]
  {
    panicked := false;
    if encoding == ZIP_INT_8B {
      ptr[0] := value % 0x100;
      assert Payload(value, 1) == [value % 0x100];
      assert ptr[..] == [ptr[0]] + old(ptr[..])[1..];
    } else if encoding == ZIP_INT_16B {
      CopyFromSlice(ptr, Payload(value, 2));
    } else if encoding == ZIP_INT_24B {
      var shifted := LeBytes(value % Pow256(8) * 0x100 % Pow256(8), 8);
      // copying shifted[1..] (7 bytes) into ptr[..3]
      panicked := |shifted[1..]| != 3;
    } else if encoding == ZIP_STR_32B {
      CopyFromSlice(ptr, Payload(value, 4));
    } else if encoding == ZIP_INT_64B {
      CopyFromSlice(ptr, Payload(value, 8));
    } else if ZIP_INT_IMM_MIN <= encoding <= ZIP_INT_IMM_MAX {
      // the value lives in the tag: no payload
    } else {
      panicked := true;
    }
  }

  /** `save_integer` as the format intends: every integer tag writes the value's low
      `int_size` bytes, least significant first; an immediate tag writes nothing. */
  method SaveIntegerFixed(ptr: array<u8>, value: i64, encoding: u8)
    requires IntSizeFixed(encoding) != 0 || ZIP_INT_IMM_MIN <= encoding <= ZIP_INT_IMM_MAX
    requires ptr.Length >= IntSizeFixed(encoding)
    modifies ptr
    ensures ptr[..] == Payload(value, IntSizeFixed(encoding)) + old(ptr[..])[IntSizeFixed(encoding)..]
  {
    CopyFromSlice(ptr, Payload(value, IntSizeFixed(encoding)));
  }

  /** A value written in a width that holds it reads back unchanged. */
  lemma PayloadRoundTrip(value: int, n: nat)
    requires 1 <= n && FitsSigned(value, n)
    ensures LoadInteger(Payload(value, n)) == value
  {
    LeValueOfLeBytes(value % Pow256(n), n);
    TwosComplementRoundTrip(value, n);
  }

  /** Every 64-bit integer but i64::MIN survives the trip decimal text, `try_encoding`,
      payload bytes and back: an immediate tag holds the value itself, any other tag's
      payload reads back as the value. */
  lemma IntegerRoundTrip(v: i64)
    requires v != I64_MIN
    ensures var r := TryEncoding(DecimalString(v));
      && r.Returns? && r.value.Some? && r.value.value.0 == v
      && var t := r.value.value.1;
      && (ZIP_INT_IMM_MIN <= t <= ZIP_INT_IMM_MAX ==> t - ZIP_INT_IMM_MIN == v)
      && (!(ZIP_INT_IMM_MIN <= t <= ZIP_INT_IMM_MAX) ==>
            IntSizeFixed(t) >= 1 && LoadInteger(Payload(v, IntSizeFixed(t))) == v)
  {
    TryEncodingRoundTrip(v);
    TryEncodingMinimalWidth(DecimalString(v));
    var t := TryEncoding(DecimalString(v)).value.value.1;
    if !(ZIP_INT_IMM_MIN <= t <= ZIP_INT_IMM_MAX) {
      PayloadRoundTrip(v, IntSizeFixed(t));
    }
  }

  /** `try_encoding` hands `save_integer` a tag on which it panics (ZIP_INT_24B or
      ZIP_INT_32B) exactly for the values outside the 16-bit range that fit 32 bits,
      2^15 and 2^23 among them. */
  lemma TryEncodingReachesSaveIntegerPanics(v: i64)
    requires v != I64_MIN
    ensures var r := TryEncoding(DecimalString(v));
      && r.Returns? && r.value.Some? && r.value.value.0 == v
      && (!SaveIntegerCompletes(r.value.value.1) <==>
            !(-0x8000 <= v <= 0x7fff) && -0x8000_0000 <= v <= 0x7fff_ffff)
  {
    TryEncodingRoundTrip(v);
  }

  // ---------------------------------------------------------------------------
  // The element counter

  /** The 16-bit little-endian element count in the list header. */
  function StoredCount(ptr: seq<u8>): u16
    requires |ptr| >= ZIPLIST_LENGTH_OFFSET + 2
  {
    assert Pow256(2) == 0x1_0000;
    LeValue(ptr[ZIPLIST_LENGTH_OFFSET..ZIPLIST_LENGTH_OFFSET + 2])
  }

  /** `incr_length`. Only the saturated path completes: below u16::MAX the source copies
      the 8 bytes of a usize into the 2-byte field, which panics before writing. The
      buffer is therefore never changed (no modifies clause). */
  method IncrLength(ptr: array<u8>, incr: u64) returns (panicked: bool)
    requires ptr.Length >= ZIPLIST_LENGTH_OFFSET + 2
    ensures panicked <==> StoredCount(ptr[..]) < U16_MAX
  {
    var len := LeValue(ptr[ZIPLIST_LENGTH_OFFSET..ZIPLIST_LENGTH_OFFSET + 2]);
    panicked := false;
    if len < U16_MAX {
      var bytes := LeBytes((len + incr) % Pow256(8), 8);
      // copying bytes into ptr[ZIPLIST_LENGTH_OFFSET..ZIPLIST_LENGTH_OFFSET + 2]
      panicked := |bytes| != 2;
    }
  }

  /** The count `incr_length` intends to leave: unchanged once it reads u16::MAX,
      otherwise the sum cut to 16 bits. */
  function NextCount(count: u16, incr: nat): u16 {
    if count < U16_MAX then (count + incr) % 0x1_0000 else count
  }

  /** `incr_length` with the sum written back as 2 bytes. */
  method IncrLengthFixed(ptr: array<u8>, incr: u64)
    requires ptr.Length >= ZIPLIST_LENGTH_OFFSET + 2
    modifies ptr
    ensures StoredCount(ptr[..]) == NextCount(old(StoredCount(ptr[..])), incr)
    ensures forall i :: 0 <= i < ptr.Length && !(ZIPLIST_LENGTH_OFFSET <= i < ZIPLIST_LENGTH_OFFSET + 2) ==>
      ptr[i] == old(ptr[i])
  {
    var len := LeValue(ptr[ZIPLIST_LENGTH_OFFSET..ZIPLIST_LENGTH_OFFSET + 2]);
    if len < U16_MAX {
      var bytes := LeBytes((len + incr) % 0x1_0000, 2);
      ptr[ZIPLIST_LENGTH_OFFSET], ptr[ZIPLIST_LENGTH_OFFSET + 1] := bytes[0], bytes[1];
      assert ptr[ZIPLIST_LENGTH_OFFSET..ZIPLIST_LENGTH_OFFSET + 2] == bytes;
      LeValueOfLeBytes((len + incr) % 0x1_0000, 2);
    }
  }

  /** The stored count is exact while the true count n is below u16::MAX and reads
      u16::MAX from then on; adding an increment that does not jump past u16::MAX
      keeps it so. */
  predicate CountAccurate(stored: u16, n: nat) {
    if n < U16_MAX then stored == n else stored == U16_MAX
  }

  lemma NextCountKeepsAccuracy(stored: u16, n: nat, incr: nat)
    requires CountAccurate(stored, n)
    requires n >= U16_MAX || n + incr <= U16_MAX
    ensures CountAccurate(NextCount(stored, incr), n + incr)
  {
  }
}
