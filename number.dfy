/** Integer conversion: the exact decimal parser `string_to_number`, the width
    policy `try_encoding` and the payload-width lookup `int_size`
    (src/ziplist/lib.rs:85-184). Input strings are their UTF-8 bytes. */
module ZiplistNumber {
  import opened ZiplistConstants
  import opened Bytes
  import opened DecimalText

  /** The digit loop of `string_to_number` run from index i with accumulator v:
      each later byte must be a digit, and v * 10 + digit must stay within u64. */
  function Accumulate(b: seq<u8>, i: nat, v: u64): (r: Result<u64>)
    requires i <= |b|
    ensures r.Ok? ==> r.value >= v
    ensures r.Err? ==> r.error in {InvalidChar, OverFlowMul, OverFlowAdd}
    decreases |b| - i
  {
    if i == |b| then Ok(v)
    else
      var ch := b[i];
      if ch < DIGIT_0 || ch > DIGIT_9 then Err(InvalidChar)
      else
        var digit := ch - DIGIT_0;
        if v > U64_MAX / 10 then Err(OverFlowMul)
        else if v * 10 > U64_MAX - digit then Err(OverFlowAdd)
        else Accumulate(b, i + 1, v * 10 + digit)
  }

  /** The outcome of `string_to_number` on the bytes b. Two inputs panic: "-", whose
      first-digit check indexes past the end, and the magnitude 2^63 with a sign,
      whose negation overflows i64 (a panic in debug builds). */
  function ParseNumber(b: seq<u8>): (r: Outcome<Result<i64>>)
    ensures r == Panics ==> 1 <= |b| < LONG_STR_SIZE && b[0] == MINUS
    ensures r.Returns? && r.value.Ok? ==> 1 <= |b| < LONG_STR_SIZE
    ensures r.Returns? && r.value.Ok? && r.value.value < 0 ==> b[0] == MINUS
    ensures r.Returns? && r.value.Ok? && b[0] == MINUS ==> r.value.value < 0
    ensures r == Returns(Err(OverFlowNegative)) ==> |b| >= 1 && b[0] == MINUS
    ensures r == Returns(Err(OverFlowPositive)) ==> |b| >= 1 && b[0] != MINUS
  {
    if |b| == 0 || |b| >= LONG_STR_SIZE then Returns(Err(InValidString))
    else if |b| == 1 && b[0] == DIGIT_0 then Returns(Ok(0))
    else
      var negative := b[0] == MINUS;
      var p := if negative then 1 else 0;
      if p >= |b| then Panics
      else if !(DIGIT_1 <= b[p] <= DIGIT_9) then Returns(Err(InvalidFirstDigit))
      else
        match Accumulate(b, p + 1, b[p] - DIGIT_0)
        case Err(e) => Returns(Err(e))
        case Ok(v) =>
          if negative then
            if v > -(I64_MIN + 1) + 1 then Returns(Err(OverFlowNegative))
            else if v == -I64_MIN then Panics
            else Returns(Ok(-(v as int)))
          else if v > I64_MAX then Returns(Err(OverFlowPositive))
          else Returns(Ok(v))
  }

  /** `string_to_number`. */
  method StringToNumber(b: seq<u8>) returns (r: Outcome<Result<i64>>)
    ensures r == ParseNumber(b)
  {
    var sLen := |b|;
    var negative := false;
    var v: u64 := 0;

    if sLen == 0 || sLen >= LONG_STR_SIZE {
      return Returns(Err(InValidString));
    }
    if sLen == 1 && b[0] == DIGIT_0 {
      return Returns(Ok(0));
    }

    var pLen := 0;
    if b[pLen] == MINUS {
      negative := true;
      pLen := pLen + 1;
    }
    if pLen >= sLen {
      // `b[p_len]` is out of bounds: the input was "-"
      return Panics;
    }
    if DIGIT_1 <= b[pLen] <= DIGIT_9 {
      v := b[pLen] - DIGIT_0;
      pLen := pLen + 1;
    } else {
      return Returns(Err(InvalidFirstDigit));
    }

    ghost var start := pLen;
    while pLen < sLen
      invariant start <= pLen <= sLen
      invariant Accumulate(b, pLen, v) == Accumulate(b, start, b[start - 1] - DIGIT_0)
    {
      var ch := b[pLen];
      if ch < DIGIT_0 || ch > DIGIT_9 {
        return Returns(Err(InvalidChar));
      }
      var digit := ch - DIGIT_0;
      if v > U64_MAX / 10 {
        return Returns(Err(OverFlowMul));
      }
      if v * 10 > U64_MAX - digit {
        return Returns(Err(OverFlowAdd));
      }
      v := v * 10 + digit;
      pLen := pLen + 1;
    }

    if negative {
      if v > -(I64_MIN + 1) + 1 {
        return Returns(Err(OverFlowNegative));
      }
      if v == -I64_MIN {
        // `-(v as i64)` negates i64::MIN
        return Panics;
      }
      r := Returns(Ok(-(v as int)));
    } else {
      if v > I64_MAX {
        return Returns(Err(OverFlowPositive));
      }
      r := Returns(Ok(v));
    }
  }

  /** `try_encoding`: the value of a canonical decimal string and the tag that stores it
      most compactly, or None when the string is to be stored as a string. */
  function TryEncoding(entry: seq<u8>): (r: Outcome<Option<(i64, u8)>>)
    ensures r.Returns? && r.value.Some? ==> ParseNumber(entry) == Returns(Ok(r.value.value.0))
    ensures r == Panics <==> ParseNumber(entry) == Panics
  {
    if |entry| == 0 || |entry| >= 32 then Returns(None)
    else
      match ParseNumber(entry)
      case Panics => Panics
      case Returns(Err(_)) => Returns(None)
      case Returns(Ok(value)) =>
        Returns(Some((value, IntegerTag(value))))
  }

  /** The tag `try_encoding` gives a parsed value: an immediate for 0..11, otherwise the
      first of the 1/2/3/4/8-byte forms whose range holds it. */
  function IntegerTag(value: i64): (r: u8)
    ensures 0 <= value < 12 <==> ZIP_INT_IMM_MIN <= r <= ZIP_INT_IMM_MAX
    ensures 0 <= value < 12 ==> r - ZIP_INT_IMM_MIN == value
    ensures !(0 <= value < 12) ==> IntSizeFixed(r) in {1, 2, 3, 4, 8}
  {
    if 0 <= value < 12 then ZIP_INT_IMM_MIN + value
    else if -0x80 <= value <= 0x7f then ZIP_INT_8B
    else if -0x8000 <= value <= 0x7fff then ZIP_INT_16B
    else if INT_24_MIN <= value <= INT_24_MAX then ZIP_INT_24B
    else if -0x8000_0000 <= value <= 0x7fff_ffff then ZIP_INT_32B
    else ZIP_INT_64B
  }

  /** Payload bytes of an integer tag, as `int_size`'s match computes them. */
  function IntSizeFixed(encoding: u8): (r: u32)
    ensures r in {0, 1, 2, 3, 4, 8}
    ensures r != 0 <==> encoding in {ZIP_INT_8B, ZIP_INT_16B, ZIP_INT_24B, ZIP_INT_32B, ZIP_INT_64B}
  {
    if encoding == ZIP_INT_8B then 1
    else if encoding == ZIP_INT_16B then 2
    else if encoding == ZIP_INT_24B then 3
    else if encoding == ZIP_INT_32B then 4
    else if encoding == ZIP_INT_64B then 8
    else 0
  }

  /** `int_size` as written: the match's value is discarded by the `;` after it,
      so every tag gets 0. */
  function IntSize(encoding: u8): (r: u32)
    ensures r == 0
    ensures encoding == ZIP_INT_8B ==> r != IntSizeFixed(encoding)
  {
    var _ := IntSizeFixed(encoding);
    if ZIP_INT_IMM_MIN <= encoding <= ZIP_INT_IMM_MAX then 0 else 0
  }

  // ---------------------------------------------------------------------------
  // The digit loop against the value of the digit run

  lemma DigitsValueSingle(c: u8)
    requires IsDigit(c)
    ensures DigitsValue([c]) == c - DIGIT_0
  {
    assert [c][..0] == [];
  }

  /** With v the value of b[s..i], the loop returns the value of the whole run b[s..]
      when it fits in u64 and reports a u64 overflow otherwise. */
  lemma {:induction false} AccumulateDigits(b: seq<u8>, s: nat, i: nat, v: u64)
    requires s <= i <= |b| && AllDigits(b[s..])
    requires v == DigitsValue(b[s..i])
    ensures DigitsValue(b[s..]) <= U64_MAX ==> Accumulate(b, i, v) == Ok(DigitsValue(b[s..]))
    ensures DigitsValue(b[s..]) > U64_MAX ==>
      Accumulate(b, i, v) == Err(OverFlowMul) || Accumulate(b, i, v) == Err(OverFlowAdd)
    decreases |b| - i
  {
    if i == |b| {
      assert b[s..i] == b[s..];
    } else {
      assert b[s..][i - s] == b[i];
      var digit := b[i] - DIGIT_0;
      var t := b[s..i + 1];
      assert t[..|t| - 1] == b[s..i];
      assert DigitsValue(t) == v * 10 + digit;
      assert b[s..][..i + 1 - s] == t;
      DigitsValuePrefix(b[s..], i + 1 - s);
      if v <= U64_MAX / 10 && v * 10 <= U64_MAX - digit {
        AccumulateDigits(b, s, i + 1, v * 10 + digit);
      }
    }
  }

  /** The loop only succeeds on a run of digits. */
  lemma {:induction false} AccumulateOnlyDigits(b: seq<u8>, i: nat, v: u64)
    requires i <= |b| && Accumulate(b, i, v).Ok?
    ensures AllDigits(b[i..])
    decreases |b| - i
  {
    if i < |b| {
      var digit := b[i] - DIGIT_0;
      AccumulateOnlyDigits(b, i + 1, v * 10 + digit);
      assert forall j :: 0 <= j < |b[i..]| ==> b[i..][j] == if j == 0 then b[i] else b[i + 1..][j - 1];
    }
  }

  lemma AllDigitsCons(b: seq<u8>, p: nat)
    requires p < |b| && IsDigit(b[p]) && AllDigits(b[p + 1..])
    ensures AllDigits(b[p..])
  {
    forall j | 0 <= j < |b[p..]|
      ensures IsDigit(b[p..][j])
    {
      if j > 0 {
        assert b[p..][j] == b[p + 1..][j - 1];
      }
    }
  }

  /** Starting the loop after a first digit: the accumulator is the value of the run so far. */
  lemma AccumulateFromFirstDigit(b: seq<u8>, p: nat)
    requires p < |b| && AllDigits(b[p..])
    ensures DigitsValue(b[p..]) <= U64_MAX ==> Accumulate(b, p + 1, b[p] - DIGIT_0) == Ok(DigitsValue(b[p..]))
    ensures DigitsValue(b[p..]) > U64_MAX ==>
      Accumulate(b, p + 1, b[p] - DIGIT_0) in {Err(OverFlowMul), Err(OverFlowAdd)}
  {
    assert b[p..][0] == b[p];
    assert b[p..p + 1] == [b[p]];
    DigitsValueSingle(b[p]);
    AccumulateDigits(b, p, p + 1, b[p] - DIGIT_0);
  }

  // ---------------------------------------------------------------------------
  // The parser against the canonical decimal rendering

  /** On an optional '-' followed by a digit run with no leading zero, shorter than
      LONG_STR_SIZE bytes, the parser's answer is decided by the run's value m alone:
      a u64 overflow above u64::MAX, OverFlowNegative / OverFlowPositive outside the
      i64 range, the panic at m = 2^63 with a sign, and the signed value otherwise. */
  lemma ParseNumberOfDigitRun(b: seq<u8>)
    requires 1 <= |b| < LONG_STR_SIZE
    requires var p := if b[0] == MINUS then 1 else 0;
      p < |b| && AllDigits(b[p..]) && b[p] != DIGIT_0
    ensures var negative := b[0] == MINUS;
      var m := DigitsValue(b[if negative then 1 else 0..]);
      && (m > U64_MAX ==> ParseNumber(b) in {Returns(Err(OverFlowMul)), Returns(Err(OverFlowAdd))})
      && (negative && -I64_MIN < m <= U64_MAX ==> ParseNumber(b) == Returns(Err(OverFlowNegative)))
      && (negative && m == -I64_MIN ==> ParseNumber(b) == Panics)
      && (negative && m < -I64_MIN ==> ParseNumber(b) == Returns(Ok(-(m as int))))
      && (!negative && I64_MAX < m <= U64_MAX ==> ParseNumber(b) == Returns(Err(OverFlowPositive)))
      && (!negative && m <= I64_MAX ==> ParseNumber(b) == Returns(Ok(m)))
  {
    var p := if b[0] == MINUS then 1 else 0;
    assert b[p..][0] == b[p];
    AccumulateFromFirstDigit(b, p);
  }

  /** An optional '-' and a digit run with no leading zero is the canonical rendering
      of the signed value of the run. */
  lemma CanonicalFromRun(b: seq<u8>, p: nat)
    requires p <= 1 && p < |b| && (p == 1 <==> b[0] == MINUS)
    requires AllDigits(b[p..]) && b[p] != DIGIT_0
    ensures b == DecimalString(if p == 1 then -(DigitsValue(b[p..]) as int) else DigitsValue(b[p..]))
  {
    assert b[p..][0] == b[p];
    CanonicalDigits(b[p..]);
    if p == 1 {
      assert b == [MINUS] + b[1..];
    } else {
      assert b == b[0..];
    }
  }

  /** When the digit loop succeeds with m after a nonzero first digit at p, the text is
      the canonical rendering of the signed value m. */
  lemma CanonicalFromAccumulate(b: seq<u8>, p: nat, m: u64)
    requires p <= 1 && p < |b| && (p == 1 <==> b[0] == MINUS)
    requires DIGIT_1 <= b[p] <= DIGIT_9 && Accumulate(b, p + 1, b[p] - DIGIT_0) == Ok(m)
    ensures b == DecimalString(if p == 1 then -(m as int) else m)
  {
    assert AllDigits(b[p + 1..]) by {
      AccumulateOnlyDigits(b, p + 1, b[p] - DIGIT_0);
    }
    assert AllDigits(b[p..]) by {
      AllDigitsCons(b, p);
    }
    assert DigitsValue(b[p..]) == m by {
      AccumulateFromFirstDigit(b, p);
    }
    CanonicalFromRun(b, p);
  }

  /** A successful parse accepted exactly the canonical rendering of its value:
      no leading zero, no "+", no "-0", nothing around the digits. */
  lemma ParseNumberCanonical(b: seq<u8>, v: int)
    requires ParseNumber(b) == Returns(Ok(v))
    ensures b == DecimalString(v)
  {
    if |b| == 1 && b[0] == DIGIT_0 {
      assert b == [DIGIT_0];
    } else {
      var p := if b[0] == MINUS then 1 else 0;
      var m := Accumulate(b, p + 1, b[p] - DIGIT_0).value;
      CanonicalFromAccumulate(b, p, m);
    }
  }

  /** The parser on the rendering of a positive magnitude m of at most 20 digits:
      the value up to i64::MAX, OverFlowPositive up to u64::MAX, a u64 overflow above. */
  lemma ParseNumberOfPositive(m: nat)
    requires 0 < m < Pow10(20)
    ensures m <= I64_MAX ==> ParseNumber(NatDigits(m)) == Returns(Ok(m))
    ensures I64_MAX < m <= U64_MAX ==> ParseNumber(NatDigits(m)) == Returns(Err(OverFlowPositive))
    ensures U64_MAX < m ==>
      ParseNumber(NatDigits(m)) in {Returns(Err(OverFlowMul)), Returns(Err(OverFlowAdd))}
  {
    var b := NatDigits(m);
    assert |b| < LONG_STR_SIZE by {
      NatDigitsLength(m, 20);
    }
    assert IsDigit(b[0]) && b[0] != MINUS && b[0..] == b;
    ParseNumberOfDigitRun(b);
  }

  /** The parser on the rendering of a negative number -m whose magnitude has at most 19
      digits (longer text is InValidString): the value above i64::MIN, the panic at
      i64::MIN, OverFlowNegative below. */
  lemma ParseNumberOfNegative(m: nat)
    requires 0 < m < Pow10(19)
    ensures m < -I64_MIN ==> ParseNumber([MINUS] + NatDigits(m)) == Returns(Ok(-(m as int)))
    ensures m == -I64_MIN ==> ParseNumber([MINUS] + NatDigits(m)) == Panics
    ensures m > -I64_MIN ==> ParseNumber([MINUS] + NatDigits(m)) == Returns(Err(OverFlowNegative))
  {
    var digits := NatDigits(m);
    var b := [MINUS] + digits;
    assert |b| < LONG_STR_SIZE by {
      NatDigitsLength(m, 19);
    }
    assert b[0] == MINUS && b[1..] == digits && b[1] == digits[0] != DIGIT_0;
    assert DigitsValue(b[1..]) == m;
    Pow10Of19();
    ParseNumberOfDigitRun(b);
  }

  /** Every 64-bit integer except i64::MIN is parsed back from its decimal rendering. */
  lemma ParseNumberRoundTrip(v: i64)
    requires v != I64_MIN
    ensures ParseNumber(DecimalString(v)) == Returns(Ok(v))
  {
    Pow10Of20();
    if v > 0 {
      ParseNumberOfPositive(v);
    } else if v < 0 {
      ParseNumberOfNegative(-v);
    }
  }

  /** The parser panics on exactly two inputs: "-" and the rendering of i64::MIN. */
  lemma ParseNumberPanics(b: seq<u8>)
    ensures ParseNumber(b) == Panics <==> b == [MINUS] || b == DecimalString(I64_MIN)
  {
    var minText := DecimalString(I64_MIN);
    if b == minText {
      ParseNumberPanicsOnMin();
    } else if b != [MINUS] {
      if ParseNumber(b) == Panics {
        ParseNumberPanicsOnlyOnMin(b);
        assert false;
      }
    }
  }

  lemma ParseNumberPanicsOnMin()
    ensures ParseNumber(DecimalString(I64_MIN)) == Panics
  {
    Pow10Of19();
    ParseNumberOfNegative(-I64_MIN);
  }

  lemma ParseNumberPanicsOnlyOnMin(b: seq<u8>)
    requires ParseNumber(b) == Panics && b != [MINUS]
    ensures b == DecimalString(I64_MIN)
  {
    assert b[0] == MINUS && |b| >= 2 && DIGIT_1 <= b[1] <= DIGIT_9;
    assert Accumulate(b, 2, b[1] - DIGIT_0) == Ok(-I64_MIN);
    CanonicalFromAccumulate(b, 1, -I64_MIN);
  }

  /** A digit run that is not all digits ends the loop with InvalidChar when the
      accumulator and the bytes left together have at most 20 digits: no overflow
      check can fire before the bad byte is reached. */
  lemma {:induction false} AccumulateInvalidChar(b: seq<u8>, i: nat, v: u64, k: nat)
    requires i <= |b| && v < Pow10(k) && k + (|b| - i) <= 20
    requires !AllDigits(b[i..])
    ensures Accumulate(b, i, v) == Err(InvalidChar)
    decreases |b| - i
  {
    if IsDigit(b[i]) {
      if AllDigits(b[i + 1..]) {
        AllDigitsCons(b, i);
        assert false;
      }
      assert i + 1 < |b|;
      Pow10Monotone(k, 18);
      Pow10Of19();
      var digit := b[i] - DIGIT_0;
      assert v * 10 + digit < Pow10(k + 1);
      AccumulateInvalidChar(b, i + 1, v * 10 + digit, k + 1);
    }
  }

  /** A non-digit after the first digit is reported as InvalidChar, and InvalidChar is
      reported only then. */
  lemma ParseNumberInvalidChar(b: seq<u8>)
    requires 1 <= |b| < LONG_STR_SIZE && b != [DIGIT_0]
    requires var p := if b[0] == MINUS then 1 else 0;
      p < |b| && DIGIT_1 <= b[p] <= DIGIT_9
    ensures var p := if b[0] == MINUS then 1 else 0;
      ParseNumber(b) == Returns(Err(InvalidChar)) <==> !AllDigits(b[p..])
  {
    var p := if b[0] == MINUS then 1 else 0;
    if !AllDigits(b[p..]) {
      if AllDigits(b[p + 1..]) {
        AllDigitsCons(b, p);
        assert false;
      }
      AccumulateInvalidChar(b, p + 1, b[p] - DIGIT_0, 1);
    } else {
      assert b[p..][0] == b[p];
      ParseNumberOfDigitRun(b);
    }
  }

  /** Past the length guard and the single "0", a first digit (after an optional '-')
      outside '1'..'9' is rejected as InvalidFirstDigit, and only then. */
  lemma ParseNumberInvalidFirstDigit(b: seq<u8>)
    requires 1 <= |b| < LONG_STR_SIZE && b != [DIGIT_0] && b != [MINUS]
    ensures var p := if b[0] == MINUS then 1 else 0;
      ParseNumber(b) == Returns(Err(InvalidFirstDigit)) <==> !(DIGIT_1 <= b[p] <= DIGIT_9)
  {
  }

  /** Rejections of malformed text, each with its error kind. */
  lemma ParseNumberRejections()
    ensures ParseNumber([]) == Returns(Err(InValidString))
    ensures ParseNumber([DIGIT_0]) == Returns(Ok(0))
    ensures ParseNumber([DIGIT_0, DIGIT_0]) == Returns(Err(InvalidFirstDigit))
    ensures ParseNumber([MINUS, DIGIT_0]) == Returns(Err(InvalidFirstDigit))
    ensures ParseNumber(['+' as u8, DIGIT_1]) == Returns(Err(InvalidFirstDigit))
    ensures ParseNumber(['a' as u8, 'b' as u8, 'c' as u8]) == Returns(Err(InvalidFirstDigit))
  {
  }

  /** Text of LONG_STR_SIZE bytes or more is rejected before any digit is read. */
  lemma ParseNumberTooLong(b: seq<u8>)
    requires |b| >= LONG_STR_SIZE
    ensures ParseNumber(b) == Returns(Err(InValidString))
  {
  }

  /** `string_to_number` as the format intends it: "-" is rejected as a missing first
      digit and the rendering of i64::MIN is accepted, the other inputs unchanged. */
  function ParseNumberFixed(b: seq<u8>): (r: Result<i64>)
    ensures r.Ok? ==> b == DecimalString(r.value)
  {
    if b == [MINUS] then Err(InvalidFirstDigit)
    else
      match ParseNumber(b)
      case Panics =>
        ParseNumberPanicsOnlyOnMin(b);
        Ok(I64_MIN)
      case Returns(res) =>
        if res.Ok? then
          ParseNumberCanonical(b, res.value);
          res
        else res
  }

  /** The corrected parser accepts exactly the canonical renderings of 64-bit integers,
      each as its own value. */
  lemma ParseNumberFixedIsCanonical(b: seq<u8>, v: i64)
    ensures ParseNumberFixed(b) == Ok(v) <==> b == DecimalString(v)
  {
    if b == DecimalString(v) {
      if v == I64_MIN {
        ParseNumberPanicsOnMin();
      } else {
        ParseNumberRoundTrip(v);
      }
    }
  }

  // ---------------------------------------------------------------------------
  // The width policy

  /** The tag `try_encoding` picks is the most compact one: an immediate for 0..11,
      otherwise the narrowest of the 1/2/3/4/8-byte forms that holds the value. */
  lemma TryEncodingMinimalWidth(entry: seq<u8>)
    requires TryEncoding(entry).Returns? && TryEncoding(entry).value.Some?
    ensures var (v, t) := TryEncoding(entry).value.value;
      && (0 <= v < 12 ==> t == ZIP_INT_IMM_MIN + v)
      && (0 <= v < 12 <==> ZIP_INT_IMM_MIN <= t <= ZIP_INT_IMM_MAX)
      && (!(0 <= v < 12) ==>
            && IntSizeFixed(t) in {1, 2, 3, 4, 8}
            && FitsSigned(v, IntSizeFixed(t))
            && forall w :: w in {1, 2, 3, 4, 8} && w < IntSizeFixed(t) ==> !FitsSigned(v, w))
  {
    assert Pow256(1) == 0x100 && Pow256(2) == 0x1_0000 && Pow256(3) == 0x100_0000;
    assert Pow256(4) == 0x1_0000_0000 && Pow256(8) == 0x1_0000_0000_0000_0000;
  }

  /** Only canonical decimal strings are stored as integers. */
  lemma TryEncodingOnlyCanonical(entry: seq<u8>)
    requires TryEncoding(entry).Returns? && TryEncoding(entry).value.Some?
    ensures entry == DecimalString(TryEncoding(entry).value.value.0)
  {
    ParseNumberCanonical(entry, TryEncoding(entry).value.value.0);
  }

  /** `try_encoding` declines exactly the text the parser rejects: its own guard on empty
      text and text of 32 bytes or more never decides anything, since the parser already
      refuses text of LONG_STR_SIZE bytes or more. */
  lemma TryEncodingNone(entry: seq<u8>)
    ensures TryEncoding(entry) == Returns(None) <==> ParseNumber(entry).Returns? && ParseNumber(entry).value.Err?
    ensures ParseNumber(entry) == Panics <==> TryEncoding(entry) == Panics
  {
    if |entry| >= 32 {
      ParseNumberTooLong(entry);
    }
  }

  /** The decimal rendering of every 64-bit integer but i64::MIN is stored as that integer. */
  lemma TryEncodingRoundTrip(v: i64)
    requires v != I64_MIN
    ensures TryEncoding(DecimalString(v)) == Returns(Some((v, IntegerTag(v))))
  {
    ParseNumberRoundTrip(v);
  }
}
