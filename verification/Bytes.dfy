/** Bytes, their big-endian groupings, and decimal numerals written in ASCII. */
module Bytes {
  type byte = b: int | 0 <= b < 256

  type Int64 = v: int | -0x8000_0000_0000_0000 <= v < 0x8000_0000_0000_0000

  /** A 64-bit pattern: an unsigned integer, or a double as it is stored. */
  type Word64 = u: int | 0 <= u < 0x1_0000_0000_0000_0000

  /** A value stored in a 32-bit int. */
  function Wrap32(i: int): (w: int)
    ensures -0x8000_0000 <= w < 0x8000_0000
  {
    (i + 0x8000_0000) % 0x1_0000_0000 - 0x8000_0000
  }

  function Pow256(n: nat): (p: nat)
    ensures p > 0
  {
    if n == 0 then 1 else 256 * Pow256(n - 1)
  }

  /** The low n bytes of u, most significant first. */
  function BigEndian(u: nat, n: nat): (s: seq<byte>)
    ensures |s| == n
  {
    if n == 0 then [] else BigEndian(u / 256, n - 1) + [u % 256]
  }

  function FromBigEndian(s: seq<byte>): (u: nat)
    ensures u < Pow256(|s|)
  {
    if |s| == 0 then 0 else 256 * FromBigEndian(s[..|s| - 1]) + s[|s| - 1]
  }

  lemma {:induction false} BigEndianRoundTrip(u: nat, n: nat)
    requires u < Pow256(n)
    ensures FromBigEndian(BigEndian(u, n)) == u
  {
    if n > 0 {
      BigEndianRoundTrip(u / 256, n - 1);
      assert BigEndian(u, n)[..n - 1] == BigEndian(u / 256, n - 1);
    }
  }

  predicate Digit(b: byte) {
    48 <= b <= 57
  }

  /** What "%d" prints for a number that is not negative. */
  function Decimal(n: nat): (s: seq<byte>)
    ensures |s| > 0 && forall i | 0 <= i < |s| :: Digit(s[i])
  {
    if n < 10 then [48 + n] else Decimal(n / 10) + [48 + n % 10]
  }

  function DecimalValue(s: seq<byte>): int {
    if |s| == 0 then 0 else 10 * DecimalValue(s[..|s| - 1]) + (s[|s| - 1] as int - 48)
  }

  lemma {:induction false} DecimalRoundTrip(n: nat)
    ensures DecimalValue(Decimal(n)) == n
  {
    if n >= 10 {
      DecimalRoundTrip(n / 10);
      assert Decimal(n)[..|Decimal(n)| - 1] == Decimal(n / 10);
    } else {
      assert DecimalValue([]) == 0;
    }
  }

  /** Numerals grow no faster than the powers of ten. */
  lemma {:induction false} DecimalLength(n: nat, k: nat, bound: nat)
    requires n < bound && bound == Pow10(k) && k > 0
    ensures |Decimal(n)| <= k
  {
    assert Pow10(1) == 10 * Pow10(0);
    if n >= 10 && k > 1 {
      DecimalLength(n / 10, k - 1, Pow10(k - 1));
    }
  }

  function Pow10(k: nat): nat {
    if k == 0 then 1 else 10 * Pow10(k - 1)
  }

  /** How many digits s starts with. */
  function DigitRun(s: seq<byte>): (k: nat)
    ensures k <= |s| && forall i | 0 <= i < k :: Digit(s[i])
    ensures k < |s| ==> !Digit(s[k])
  {
    if |s| == 0 || !Digit(s[0]) then 0 else 1 + DigitRun(s[1..])
  }

  lemma {:induction false} DigitRunIs(s: seq<byte>, k: nat)
    requires k < |s| && !Digit(s[k]) && forall i | 0 <= i < k :: Digit(s[i])
    ensures DigitRun(s) == k
  {
  }

  /** Every q doubled, as CSV and SQL write a quote inside quotes. */
  function Doubled(s: seq<byte>, q: byte): seq<byte> {
    if |s| == 0 then [] else (if s[0] == q then [q, q] else [s[0]]) + Doubled(s[1..], q)
  }

  lemma DoubledStep(s: seq<byte>, q: byte)
    requires |s| > 0
    ensures Doubled(s, q) == (if s[0] == q then [q, q] else [s[0]]) + Doubled(s[1..], q)
  {
  }

  lemma Regroup<T>(a: seq<T>, b: seq<T>, c: seq<T>)
    ensures (a + b) + c == a + (b + c)
  {
  }
}
