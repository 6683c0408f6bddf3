/** Bytes, and 32-bit numbers as four of them, least significant first. */
module Bytes {

  type byte = x: int | 0 <= x < 256

  const U32_LIMIT: nat := 0x1_0000_0000

  function ToLe32(n: nat): (r: seq<byte>)
    requires n < U32_LIMIT
    ensures |r| == 4
  {
    var (a, b, c) := (n / 256, n / 256 / 256, n / 256 / 256 / 256);
    [n % 256, a % 256, b % 256, c]
  }

  function FromLe32(s: seq<byte>): (n: nat)
    requires |s| == 4
    ensures n < U32_LIMIT
  {
    var a: int, b: int, c: int, d: int := s[0], s[1], s[2], s[3];
    a + 256 * b + 65536 * c + 16777216 * d
  }

  lemma Le32RoundTrip(n: nat)
    requires n < U32_LIMIT
    ensures FromLe32(ToLe32(n)) == n
  {
    var a := n / 256;
    var b := a / 256;
    assert n == 256 * a + n % 256 && a == 256 * b + a % 256 && b == 256 * (b / 256) + b % 256;
  }

  /** Least significant byte first. */
  lemma Le32Example()
    ensures ToLe32(0x04030201) == [1, 2, 3, 4] && FromLe32([1, 2, 3, 4]) == 0x04030201
  {
  }
}
