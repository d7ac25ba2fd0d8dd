/** Sponge, padding and the SHA-3 functions of FIPS 202 (sections 4, 5.1 and 6.1), on bit strings. */
module Sha3Spec {
  import opened Bytes
  import opened Fips202
  import opened RoundConstants

  /** A byte string as bits, least significant bit of each byte first (appendix B.1). */
  function BitsOf(m: seq<byte>): (p: Bits)
    ensures |p| == 8 * |m|
  {
    seq(8 * |m|, i requires 0 <= i < 8 * |m| => BitOf(m[i / 8], i % 8))
  }

  /** The 1600-bit string of a state array, and back (sections 3.1.2 and 3.1.3). */
  function StateBits(A: State): (S: Bits)
    ensures |S| == 1600
  {
    seq(1600, i requires 0 <= i < 1600 => A[i / 64][i % 64])
  }

  function StateOf(S: Bits): (A: State)
    requires |S| == 1600
  {
    seq(25, k requires 0 <= k < 25 => S[64 * k..64 * k + 64])
  }

  function KeccakBits(S: Bits): (T: Bits)
    requires |S| == 1600
    ensures |T| == 1600
  {
    StateBits(KeccakF(StateOf(S)))
  }

  /** S with the bits of B added to its front. */
  function XorBlock(S: Bits, B: Bits): (T: Bits)
    requires |S| == 1600 && |B| <= 1600
    ensures |T| == 1600
  {
    seq(1600, i requires 0 <= i < 1600 => if i < |B| then S[i] != B[i] else S[i])
  }

  /** Absorb every complete r-bit block of P. */
  function Absorb(S: Bits, P: Bits, r: nat): (T: Bits)
    requires |S| == 1600 && 0 < r <= 1600
    ensures |T| == 1600
    decreases |P|
  {
    if |P| < r then S else Absorb(KeccakBits(XorBlock(S, P[..r])), P[r..], r)
  }

  function ZeroBits(n: nat): (S: Bits)
    ensures |S| == n
  {
    seq(n, _ => false)
  }

  /** pad10*1(x, m): a one, as many zeros as needed, a one. */
  function Pad101(x: nat, m: nat): Bits
    requires x > 0
  {
    var short: int := 0 - m - 2;
    [true] + ZeroBits(short % x) + [true]
  }

  /** Keccak[c](N, d) for d no longer than one block. */
  function Sponge(N: Bits, r: nat, d: nat): Bits
    requires 0 < r <= 1600 && d <= r
  {
    Absorb(ZeroBits(1600), N + Pad101(r, |N|), r)[..d]
  }

  /** SHA3-d(M) = Keccak[2d](M || 01, d). */
  function Sha3(M: Bits, d: nat): Bits
    requires 3 * d <= 1600 && 2 * d < 1600
  {
    Sponge(M + [false, true], 1600 - 2 * d, d)
  }

  /** Absorbing one more block after n complete ones. */
  lemma {:induction false} AbsorbBlock(S: Bits, P: Bits, B: Bits, r: nat, n: nat)
    requires |S| == 1600 && 0 < r <= 1600 && |P| == n * r && |B| == r
    ensures Absorb(S, P + B, r) == KeccakBits(XorBlock(Absorb(S, P, r), B))
    decreases n
  {
    hide KeccakBits, XorBlock;
    if n == 0 {
      assert P + B == B && B[..r] == B && B[r..] == [];
    } else {
      assert n * r == (n - 1) * r + r;
      assert (n - 1) * r >= 0;
      assert (P + B)[..r] == P[..r] && (P + B)[r..] == P[r..] + B;
      AbsorbBlock(KeccakBits(XorBlock(S, P[..r])), P[r..], B, r, n - 1);
    }
  }

  lemma AtLeastFactor(r: nat, d: int)
    requires d >= 1
    ensures r * d >= r
  {
  }

  lemma RemainderIs(n: int, r: nat, q: int, k: nat)
    requires k < r && n == r * q + k
    ensures n % r == k
  {
    var q', k' := n / r, n % r;
    assert n == r * q' + k';
    assert r * (q - q') == r * q - r * q' == k' - k;
    if q > q' {
      AtLeastFactor(r, q - q');
    } else if q < q' {
      assert r * (q' - q) == -(r * (q - q'));
      AtLeastFactor(r, q' - q);
    }
  }

  lemma BitsOfConcat(m: seq<byte>, n: seq<byte>)
    ensures BitsOf(m + n) == BitsOf(m) + BitsOf(n)
  {
  }

  lemma StateRoundTrip(A: State)
    ensures StateOf(StateBits(A)) == A
  {
    var S := StateBits(A);
    forall k | 0 <= k < 25 ensures StateOf(S)[k] == A[k] {
      forall z | 0 <= z < 64 ensures S[64 * k..64 * k + 64][z] == A[k][z] {
        assert (64 * k + z) / 64 == k && (64 * k + z) % 64 == z;
      }
    }
  }
}
