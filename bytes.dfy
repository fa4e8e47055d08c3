/** Little-endian byte strings and two's-complement widths, the vocabulary in which
    the ziplist codec lays out its multi-byte fields. */
module Bytes {
  import opened ZiplistConstants

  /** 256 to the power n: the number of values an n-byte field can hold. */
  function Pow256(n: nat): (r: nat)
    ensures r >= 1
  {
    if n == 0 then 1 else 256 * Pow256(n - 1)
  }

  /** The low n bytes of x, least significant first (Rust's `to_le_bytes` on an n-byte integer). */
  function LeBytes(x: nat, n: nat): (r: seq<u8>)
    ensures |r| == n
  {
    if n == 0 then [] else [x % 0x100] + LeBytes(x / 0x100, n - 1)
  }

  /** The unsigned value of a little-endian byte string (Rust's `from_le_bytes`). */
  function LeValue(bs: seq<u8>): (r: nat)
    ensures r < Pow256(|bs|)
  {
    if bs == [] then 0 else bs[0] + 0x100 * LeValue(bs[1..])
  }

  /** An n-byte two's-complement field read as a signed number. */
  function Signed(u: nat, n: nat): int
    requires 1 <= n
  {
    if u >= Pow256(n) / 2 then u - Pow256(n) else u
  }

  /** v is representable as an n-byte signed integer. */
  predicate FitsSigned(v: int, n: nat)
  {
    -(Pow256(n) / 2) <= v < Pow256(n) / 2
  }

  /** Reading back the bytes of a value that fits gives the value. */
  lemma {:induction false} LeValueOfLeBytes(x: nat, n: nat)
    requires x < Pow256(n)
    ensures LeValue(LeBytes(x, n)) == x
  {
    if n > 0 {
      LeValueOfLeBytes(x / 0x100, n - 1);
      assert LeBytes(x, n)[1..] == LeBytes(x / 0x100, n - 1);
    }
  }

  lemma MulAtLeast(d: int, p: int)
    requires d >= 1 && p > 0
    ensures d * p >= p
  {
  }

  /** The Euclidean remainder of a value already in [0, p) is the value itself. */
  lemma ModSmall(a: int, p: int)
    requires 0 <= a < p
    ensures a % p == a
  {
    var d, m := a / p, a % p;
    assert a == d * p + m;
    if d >= 1 {
      MulAtLeast(d, p);
    } else if d <= -1 {
      MulAtLeast(-d, p);
    }
  }

  /** The Euclidean remainder of a value in [-p, 0) is the value plus p. */
  lemma ModNegative(a: int, p: int)
    requires -p <= a < 0
    ensures a % p == a + p
  {
    var d, m := a / p, a % p;
    assert a == d * p + m;
    if d <= -2 {
      MulAtLeast(-d - 1, p);
    }
  }

  /** Truncating a fitting value to n bytes (an `as` cast) and reading it back as signed is the identity. */
  lemma TwosComplementRoundTrip(v: int, n: nat)
    requires 1 <= n && FitsSigned(v, n)
    ensures Signed(v % Pow256(n), n) == v
  {
    var p := Pow256(n);
    assert p == 256 * Pow256(n - 1);
    if v < 0 {
      ModNegative(v, p);
    } else {
      ModSmall(v, p);
    }
  }
}
