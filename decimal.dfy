/** Decimal text as ASCII bytes: the reference against which the codec's integer
    parser is specified (the canonical rendering of a 64-bit integer, as Rust's
    `to_string` produces it). */
module DecimalText {
  import opened ZiplistConstants

  const MINUS: u8 := 0x2d       // '-'
  const DIGIT_0: u8 := 0x30     // '0'
  const DIGIT_1: u8 := 0x31     // '1'
  const DIGIT_9: u8 := 0x39     // '9'

  predicate IsDigit(c: u8) {
    DIGIT_0 <= c <= DIGIT_9
  }

  predicate AllDigits(s: seq<u8>) {
    forall i :: 0 <= i < |s| ==> IsDigit(s[i])
  }

  function Pow10(k: nat): (r: nat)
    ensures r >= 1
  {
    if k == 0 then 1 else 10 * Pow10(k - 1)
  }

  lemma Pow10Of19()
    ensures Pow10(19) == 10_000_000_000_000_000_000
  {
    assert Pow10(4) == 10_000;
    assert Pow10(8) == 10_000 * 10_000 by {
      assert Pow10(8) == 10_000 * Pow10(4);
    }
  }

  lemma Pow10Of20()
    ensures Pow10(20) == 100_000_000_000_000_000_000
  {
    Pow10Of19();
  }

  lemma {:induction false} Pow10Monotone(j: nat, k: nat)
    requires j <= k
    ensures Pow10(j) <= Pow10(k)
    decreases k
  {
    if j < k {
      Pow10Monotone(j, k - 1);
    }
  }

  /** The number a run of decimal digits denotes, most significant digit first. */
  function DigitsValue(s: seq<u8>): nat
    requires AllDigits(s)
  {
    if s == [] then 0 else DigitsValue(s[..|s| - 1]) * 10 + (s[|s| - 1] - DIGIT_0)
  }

  /** The shortest digit run for n: no leading zero, except "0" itself. */
  function NatDigits(n: nat): (s: seq<u8>)
    ensures |s| >= 1 && AllDigits(s) && DigitsValue(s) == n
    ensures s[0] == DIGIT_0 <==> n == 0
  {
    if n < 10 then [DIGIT_0 + n]
    else
      var init := NatDigits(n / 10);
      var s := init + [DIGIT_0 + n % 10];
      assert s[..|s| - 1] == init;
      s
  }

  /** The canonical decimal rendering of an integer: an optional '-' and then its shortest digit run. */
  function DecimalString(v: int): seq<u8> {
    if v < 0 then [MINUS] + NatDigits(-v) else NatDigits(v)
  }

  /** A number below 10^k needs at most k digits. */
  lemma {:induction false} NatDigitsLength(n: nat, k: nat)
    requires 1 <= k && n < Pow10(k)
    ensures |NatDigits(n)| <= k
  {
    if n >= 10 {
      assert k >= 2;
      NatDigitsLength(n / 10, k - 1);
    }
  }

  /** The value of a prefix of a digit run never exceeds the value of the whole run. */
  lemma {:induction false} DigitsValuePrefix(s: seq<u8>, i: nat)
    requires AllDigits(s) && i <= |s|
    ensures DigitsValue(s[..i]) <= DigitsValue(s)
  {
    if i < |s| {
      var t := s[..|s| - 1];
      assert s[..i] == t[..i];
      DigitsValuePrefix(t, i);
      assert DigitsValue(s) == DigitsValue(t) * 10 + (s[|s| - 1] - DIGIT_0);
    } else {
      assert s[..i] == s;
    }
  }

  /** A digit run without a leading zero is the canonical rendering of its own value. */
  lemma {:induction false} CanonicalDigits(s: seq<u8>)
    requires |s| >= 1 && AllDigits(s) && s[0] != DIGIT_0
    ensures NatDigits(DigitsValue(s)) == s
  {
    var n := DigitsValue(s);
    if |s| > 1 {
      var t := s[..|s| - 1];
      DigitsValuePrefix(t, 1);
      assert t[..1] == [s[0]];
      assert DigitsValue([s[0]]) == s[0] - DIGIT_0 by {
        assert [s[0]][..0] == [];
      }
      CanonicalDigits(t);
      assert n / 10 == DigitsValue(t) && n % 10 == s[|s| - 1] - DIGIT_0;
      assert s == t + [s[|s| - 1]];
    } else {
      assert s[..0] == [];
    }
  }
}
