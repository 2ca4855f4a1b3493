/** Bytes, and 32-bit integers as four of them. */
module Bytes {

  type byte = x: int | 0 <= x < 256

  const MAX_INT32: int := 0x7fff_ffff
  const TWO_32: int := 0x1_0000_0000

  /** Network order: the most significant byte first. */
  function Be32(n: int): (b: seq<byte>)
    requires 0 <= n < TWO_32
    ensures |b| == 4
  {
    [n / 0x100_0000, n / 0x1_0000 % 256, n / 0x100 % 256, n % 256]
  }

  function Be32Value(b: seq<byte>): (n: int)
    requires |b| == 4
    ensures 0 <= n < TWO_32
  {
    b[0] as int * 0x100_0000 + b[1] as int * 0x1_0000 + b[2] as int * 0x100 + b[3] as int
  }

  /** The int32 a 32-bit pattern stands for. */
  function Signed32(n: int): (i: int)
    requires 0 <= n < TWO_32
    ensures -MAX_INT32 - 1 <= i <= MAX_INT32
  {
    if n <= MAX_INT32 then n else n - TWO_32
  }

  function Unsigned32(i: int): (n: int)
    requires -MAX_INT32 - 1 <= i <= MAX_INT32
    ensures 0 <= n < TWO_32 && Signed32(n) == i
  {
    if i >= 0 then i else i + TWO_32
  }

  lemma Be32RoundTrip(n: int)
    requires 0 <= n < TWO_32
    ensures Be32Value(Be32(n)) == n
  {
    var hi, lo := n / 0x1_0000, n % 0x1_0000;
    assert n / 0x100_0000 == hi / 0x100 && n / 0x100 % 256 == lo / 0x100;
    assert hi == hi / 0x100 * 0x100 + hi % 256;
    assert lo == lo / 0x100 * 0x100 + lo % 256 && n % 256 == lo % 256;
  }

  lemma Be32Unique(b: seq<byte>)
    requires |b| == 4
    ensures Be32(Be32Value(b)) == b
  {
    var n := Be32Value(b);
    assert n / 0x100_0000 == b[0];
    assert n / 0x1_0000 == b[0] as int * 256 + b[1] as int;
    assert n / 0x100 == (b[0] as int * 256 + b[1] as int) * 256 + b[2] as int;
  }

  /** The weight of a byte with k bytes behind it. */
  function Weight(k: nat): (w: nat)
    ensures w > 0
  {
    if k == 0 then 1 else 256 * Weight(k - 1)
  }

  lemma Weights()
    ensures Weight(0) == 1 && Weight(1) == 0x100 && Weight(2) == 0x1_0000 && Weight(3) == 0x100_0000
    ensures Weight(4) == TWO_32 && Weight(5) == 0x100_0000_0000 && Weight(6) == 0x1_0000_0000_0000
    ensures Weight(7) == 0x100_0000_0000_0000
  {
    assert Weight(3) == 256 * Weight(2);
    assert Weight(5) == 256 * Weight(4);
    assert Weight(7) == 256 * Weight(6);
  }

  /** Digit by digit in base 256, the most significant first. */
  lemma Be32Digits(n: int, i: nat)
    requires 0 <= n < TWO_32 && i < 4
    ensures Be32(n)[i] as int == n / Weight(3 - i) % 256
  {
    Weights();
  }

  lemma SameDigit(q: int, m: int)
    ensures (q + 256 * m) % 256 == q % 256
  {
  }

  lemma Wraps32(n: int, i: nat)
    requires i < 4
    ensures (n + TWO_32) / Weight(3 - i) == n / Weight(3 - i) + 256 * Weight(i)
  {
    Weights();
    assert (n + TWO_32) / 0x100_0000 == n / 0x100_0000 + 0x100;
    assert (n + TWO_32) / 0x1_0000 == n / 0x1_0000 + 0x1_0000;
    assert (n + TWO_32) / 0x100 == n / 0x100 + 0x100_0000;
  }

  /** The same digits of a negative number, rounding down: two's complement. */
  lemma SignedDigits(n: int, i: nat)
    requires -MAX_INT32 - 1 <= n <= MAX_INT32 && i < 4
    ensures Be32(Unsigned32(n))[i] as int == n / Weight(3 - i) % 256
  {
    Be32Digits(Unsigned32(n), i);
    Wraps32(n, i);
    SameDigit(n / Weight(3 - i), Weight(i));
  }
}
