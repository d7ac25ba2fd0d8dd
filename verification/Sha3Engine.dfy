/**
 The incremental hash of shell.c. The union of 25 words and their bytes is modelled by the words plus the
 machine's byte order: on a big-endian machine memory byte m of a word is byte 7 - m of its value.
 */
module Sha3Engine {
  import opened Bytes
  import opened Fips202
  import opened LaneRound
  import opened RoundConstants
  import opened KeccakStep
  import opened Sha3Spec

  /** What the preprocessor settled on: SHA3_BYTEORDER 1234, 4321 or 0. */
  datatype ByteOrder = Little | Big | AtRunTime

  /** i ^ mask for the two masks in use, 0 and 7. */
  function Masked(i: nat, mask: nat): (m: nat)
    requires mask == 0 || mask == 7
    ensures m / 8 == i / 8
  {
    if mask == 0 then i else i - i % 8 + (7 - i % 8)
  }

  /** Which byte of its word's value memory byte m is. */
  function Significance(big: bool, m: nat): (j: nat)
    ensures j < 8
  {
    if big then 7 - m % 8 else m % 8
  }

  /** A word with byte j of its value changed by ^= b. */
  function XorByte(l: Lane, j: nat, b: byte): Lane
    requires j < 8
  {
    seq(64, z requires 0 <= z < 64 => if z / 8 == j then l[z] != BitOf(b, z % 8) else l[z])
  }

  /** u.x[m] ^= b */
  function XorMemory(s: State, big: bool, m: nat, b: byte): State
    requires m < 200
  {
    s[m / 8 := XorByte(s[m / 8], Significance(big, m), b)]
  }

  lemma MemoryByteIn(s: State, big: bool, m: nat, b: byte)
    requires m < 200
    ensures XorMemory(s, big, m, b) == s[m / 8 := XorByte(s[m / 8], Significance(big, m), b)]
  {
  }

  /** The value whose binary digits are B, least significant first. */
  function ValueOf(B: Bits): (n: nat) {
    if |B| == 0 then 0 else Unit(B[0]) + 2 * ValueOf(B[1..])
  }

  lemma {:induction false} ValueBits(B: Bits, k: nat)
    requires k < |B|
    ensures BitOf(ValueOf(B), k) == B[k]
  {
    LowBit(B[0], ValueOf(B[1..]), k);
    if k > 0 {
      ValueBits(B[1..], k - 1);
    }
    hide BitOf;
  }

  lemma LowBit(b: bool, n: nat, k: nat)
    ensures BitOf(Unit(b) + 2 * n, k) == if k == 0 then b else BitOf(n, k - 1)
  {
    assert (Unit(b) + 2 * n) / 2 == n;
  }

  lemma {:induction false} ValueBound(B: Bits)
    ensures ValueOf(B) < Pow2(|B|)
  {
    if |B| > 0 {
      ValueBound(B[1..]);
    }
  }

  /** u.x[m] */
  function ReadMemory(s: State, big: bool, m: nat): (b: byte)
    requires m < 200
  {
    var j := Significance(big, m);
    var B := s[m / 8][8 * j..8 * j + 8];
    ValueBound(B);
    assert Pow2(8) == 256;
    ValueOf(B)
  }

  /** *(u64*)&a[0] on a little-endian machine. */
  function LoadWord(a: seq<byte>): Lane
    requires |a| == 8
  {
    BitsOf(a)
  }

  /** Message bytes XORed into the front of the state bits: what a partly filled block looks like. */
  lemma XorOneByte(s: State, big: bool, S: Bits, part: seq<byte>, b: byte)
    requires |S| == 1600 && |part| < 200 && StateBits(s) == XorBlock(S, BitsOf(part))
    ensures var m := Masked(|part|, if big then 7 else 0);
      m < 200 && StateBits(XorMemory(s, big, m, b)) == XorBlock(S, BitsOf(part + [b]))
  {
    hide BitOf;
    var n := |part|;
    var m := Masked(n, if big then 7 else 0);
    assert m / 8 == n / 8 && Significance(big, m) == n % 8;
    var t := XorMemory(s, big, m, b);
    forall i | 0 <= i < 1600 ensures StateBits(t)[i] == XorBlock(S, BitsOf(part + [b]))[i] {
      assert StateBits(s)[i] == s[i / 64][i % 64];
      assert i % 64 / 8 == i / 8 - 8 * (i / 64) && i % 64 % 8 == i % 8;
      assert (i / 64 == n / 8 && i % 64 / 8 == n % 8) <==> i / 8 == n;
    }
  }

  lemma XorOneWord(s: State, S: Bits, part: seq<byte>, a: seq<byte>)
    requires |S| == 1600 && |part| % 8 == 0 && |part| + 8 <= 200 && |a| == 8
    requires StateBits(s) == XorBlock(S, BitsOf(part))
    ensures StateBits(s[|part| / 8 := Xor(s[|part| / 8], LoadWord(a))]) == XorBlock(S, BitsOf(part + a))
  {
    hide BitOf;
    var k := |part| / 8;
    var t := s[k := Xor(s[k], LoadWord(a))];
    BitsOfConcat(part, a);
    forall i | 0 <= i < 1600 ensures StateBits(t)[i] == XorBlock(S, BitsOf(part + a))[i] {
      assert StateBits(s)[i] == s[i / 64][i % 64];
    }
  }

  /** Zero bytes change nothing. */
  lemma XorZeros(S: Bits, part: seq<byte>, n: nat)
    requires |S| == 1600 && |part| + n <= 200
    ensures XorBlock(S, BitsOf(part + ZeroBytes(n))) == XorBlock(S, BitsOf(part))
  {
    BitsOfConcat(part, ZeroBytes(n));
    ZeroByteBits(n);
  }

  lemma XorNothing(S: Bits)
    requires |S| == 1600
    ensures XorBlock(S, BitsOf([])) == S
  {
  }

  /** The state bits after the first n complete blocks of a message and the rest of it, still loading. */
  ghost predicate Holds(s: State, msg: seq<byte>, rate: nat, n: nat, loaded: nat)
    requires 0 < rate <= 200
  {
    && |msg| == n * rate + loaded && loaded < rate && n * rate <= |msg|
    && StateBits(s) == XorBlock(Absorb(ZeroBits(1600), BitsOf(msg[..n * rate]), 8 * rate), BitsOf(msg[n * rate..]))
  }

  lemma HoldsNothing(s: State, rate: nat)
    requires 0 < rate <= 200 && s == seq(25, _ => ZeroBits(64))
    ensures Holds(s, [], rate, 0, 0)
  {
    var S := ZeroBits(1600);
    assert StateBits(s) == S;
    XorNothing(S);
  }

  /** Appending bytes that do not yet complete the block. */
  lemma HoldsMore(s: State, t: State, msg: seq<byte>, a: seq<byte>, rate: nat, n: nat, loaded: nat)
    requires 0 < rate <= 200 && Holds(s, msg, rate, n, loaded) && loaded + |a| < rate
    requires StateBits(t)
      == XorBlock(Absorb(ZeroBits(1600), BitsOf(msg[..n * rate]), 8 * rate), BitsOf(msg[n * rate..] + a))
    ensures Holds(t, msg + a, rate, n, loaded + |a|)
  {
    var w := n * rate;
    assert (msg + a)[..w] == msg[..w] && (msg + a)[w..] == msg[w..] + a;
  }

  /** Appending bytes that complete the block, and permuting. */
  lemma HoldsBlock(s: State, t: State, msg: seq<byte>, a: seq<byte>, rate: nat, n: nat, loaded: nat)
    requires 0 < rate <= 200 && Holds(s, msg, rate, n, loaded) && loaded + |a| == rate
    requires StateBits(t)
      == XorBlock(Absorb(ZeroBits(1600), BitsOf(msg[..n * rate]), 8 * rate), BitsOf(msg[n * rate..] + a))
    ensures Holds(KeccakF(t), msg + a, rate, n + 1, 0)
  {
    hide KeccakF, BitOf;
    var w := n * rate;
    var full, block := msg[..w], msg[w..] + a;
    assert (n + 1) * rate == w + rate == |msg + a|;
    assert msg + a == full + block && (msg + a)[..w + rate] == full + block && (msg + a)[w + rate..] == [];
    assert |BitsOf(full)| == n * (8 * rate);
    AbsorbBlock(ZeroBits(1600), BitsOf(full), BitsOf(block), 8 * rate, n);
    BitsOfConcat(full, block);
    StateRoundTrip(t);
    XorNothing(StateBits(KeccakF(t)));
  }

  /** One byte into the block, permuting when that completes it. */
  lemma LoadByte(s: State, big: bool, msg: seq<byte>, b: byte, rate: nat, n: nat, loaded: nat)
    requires 0 < rate <= 200 && Holds(s, msg, rate, n, loaded)
    ensures loaded < 200 && Masked(loaded, if big then 7 else 0) < 200
    ensures var t := XorMemory(s, big, Masked(loaded, if big then 7 else 0), b);
      if loaded + 1 == rate then Holds(KeccakF(t), msg + [b], rate, n + 1, 0)
      else Holds(t, msg + [b], rate, n, loaded + 1)
  {
    hide KeccakF, BitOf, Absorb, XorBlock, BitsOf, XorMemory;
    var w := n * rate;
    XorOneByte(s, big, Absorb(ZeroBits(1600), BitsOf(msg[..w]), 8 * rate), msg[w..], b);
    var t := XorMemory(s, big, Masked(loaded, if big then 7 else 0), b);
    if loaded + 1 == rate {
      HoldsBlock(s, t, msg, [b], rate, n, loaded);
    } else {
      HoldsMore(s, t, msg, [b], rate, n, loaded);
    }
  }

  /** Eight bytes into the block as one word. */
  lemma LoadEight(s: State, msg: seq<byte>, a: seq<byte>, rate: nat, n: nat, loaded: nat)
    requires 0 < rate <= 200 && rate % 8 == 0 && Holds(s, msg, rate, n, loaded) && loaded % 8 == 0 && |a| == 8
    ensures loaded + 8 <= rate
    ensures var t := s[loaded / 8 := Xor(s[loaded / 8], LoadWord(a))];
      if loaded + 8 >= rate then Holds(KeccakF(t), msg + a, rate, n + 1, 0)
      else Holds(t, msg + a, rate, n, loaded + 8)
  {
    hide KeccakF, BitOf, Absorb, XorBlock, BitsOf, Xor, LoadWord;
    assert loaded + 8 <= rate;
    var w := n * rate;
    XorOneWord(s, Absorb(ZeroBits(1600), BitsOf(msg[..w]), 8 * rate), msg[w..], a);
    var t := s[loaded / 8 := Xor(s[loaded / 8], LoadWord(a))];
    if loaded + 8 == rate {
      HoldsBlock(s, t, msg, a, rate, n, loaded);
    } else {
      HoldsMore(s, t, msg, a, rate, n, loaded);
    }
  }

  /** Moving the load position over n bytes without touching them is absorbing n zero bytes. */
  lemma HoldsZeros(s: State, msg: seq<byte>, rate: nat, n: nat, loaded: nat, more: nat)
    requires 0 < rate <= 200 && Holds(s, msg, rate, n, loaded) && loaded + more < rate
    ensures Holds(s, msg + ZeroBytes(more), rate, n, loaded + more)
  {
    hide Absorb, BitsOf, XorBlock;
    var w := n * rate;
    XorZeros(Absorb(ZeroBits(1600), BitsOf(msg[..w]), 8 * rate), msg[w..], more);
    HoldsMore(s, s, msg, ZeroBytes(more), rate, n, loaded);
  }

  /** What SHA3Final appends: domain bits 01, a one, zeros, and a one in the last place. */
  function PadBytes(q: nat): (a: seq<byte>)
    requires q > 0
    ensures |a| == q
  {
    if q == 1 then [0x86] else [0x06] + ZeroBytes(q - 2) + [0x80]
  }

  function ZeroBytes(n: nat): (a: seq<byte>)
    ensures |a| == n
  {
    seq(n, _ => 0)
  }

  lemma ZeroByteBits(n: nat)
    ensures BitsOf(ZeroBytes(n)) == ZeroBits(8 * n)
  {
    forall i | 0 <= i < 8 * n ensures !BitsOf(ZeroBytes(n))[i] {
      ZeroBit(i % 8);
    }
  }

  lemma OneByte(b: byte, B: Bits)
    requires |B| == 8 && forall k | 0 <= k < 8 :: BitOf(b, k) == B[k]
    ensures BitsOf([b]) == B
  {
  }

  lemma PadByteBits()
    ensures BitsOf([0x86]) == [false, true, true, false, false, false, false, true]
    ensures BitsOf([0x06]) == [false, true, true, false, false, false, false, false]
    ensures BitsOf([0x80]) == [false, false, false, false, false, false, false, true]
  {
    assert !BitOf(0x86, 0) && BitOf(0x86, 1) && BitOf(0x86, 2) && !BitOf(0x86, 3)
      && !BitOf(0x86, 4) && !BitOf(0x86, 5) && !BitOf(0x86, 6) && BitOf(0x86, 7);
    assert !BitOf(0x06, 0) && BitOf(0x06, 1) && BitOf(0x06, 2) && !BitOf(0x06, 3)
      && !BitOf(0x06, 4) && !BitOf(0x06, 5) && !BitOf(0x06, 6) && !BitOf(0x06, 7);
    assert !BitOf(0x80, 0) && !BitOf(0x80, 1) && !BitOf(0x80, 2) && !BitOf(0x80, 3)
      && !BitOf(0x80, 4) && !BitOf(0x80, 5) && !BitOf(0x80, 6) && BitOf(0x80, 7);
    hide BitOf, BitsOf;
    OneByte(0x86, [false, true, true, false, false, false, false, true]);
    OneByte(0x06, [false, true, true, false, false, false, false, false]);
    OneByte(0x80, [false, false, false, false, false, false, false, true]);
  }

  lemma PadBits(q: nat)
    requires q > 0
    ensures BitsOf(PadBytes(q)) == [false, true] + ([true] + ZeroBits(8 * q - 4) + [true])
  {
    hide BitOf, BitsOf;
    PadByteBits();
    if q > 1 {
      ZeroByteBits(q - 2);
      BitsOfConcat([0x06], ZeroBytes(q - 2));
      BitsOfConcat([0x06] + ZeroBytes(q - 2), [0x80]);
    }
  }

  /** The padded byte string is the padded bit string of the standard. */
  lemma PaddingIsPad101(msg: seq<byte>, rate: nat, n: nat, loaded: nat)
    requires 0 < rate <= 200 && |msg| == n * rate + loaded && loaded < rate
    ensures var N := BitsOf(msg) + [false, true];
      BitsOf(msg + PadBytes(rate - loaded)) == N + Pad101(8 * rate, |N|)
  {
    hide BitsOf, BitOf, PadBytes;
    var q := rate - loaded;
    BitsOfConcat(msg, PadBytes(q));
    PadBits(q);
    var short: int := 0 - (8 * |msg| + 2) - 2;
    assert short == 8 * rate * -(n + 1) + (8 * q - 4) by {
      assert 8 * rate * -(n + 1) == -(8 * (n * rate)) - 8 * rate;
    }
    RemainderIs(short, 8 * rate, -(n + 1), 8 * q - 4);
    var M, a, b := BitsOf(msg), [false, true], Pad101(8 * rate, 8 * |msg| + 2);
    assert M + (a + b) == (M + a) + b;
  }

  /** Bit k of memory byte i, read through the index mask. */
  lemma ReadBit(s: State, big: bool, i: nat, k: nat)
    requires i < 200 && k < 8
    ensures BitOf(ReadMemory(s, big, Masked(i, if big then 7 else 0)), k) == s[i / 8][8 * (i % 8) + k]
  {
    hide BitOf, Pow2, ValueOf;
    var m := Masked(i, if big then 7 else 0);
    var j := Significance(big, m);
    assert j == i % 8;
    ValueBits(s[i / 8][8 * j..8 * j + 8], k);
  }

  lemma BitPlace(i: nat)
    ensures 8 * (i / 8 % 8) + i % 8 == i % 64 && i / 8 / 8 == i / 64
  {
  }

  /** The output bytes are the front of the state bits. */
  lemma ReadBits(s: State, big: bool, out: seq<byte>)
    requires |out| <= 200
    requires forall i | 0 <= i < |out| :: out[i] == ReadMemory(s, big, Masked(i, if big then 7 else 0))
    ensures BitsOf(out) == StateBits(s)[..8 * |out|]
  {
    hide BitOf, ReadMemory, Masked;
    forall i | 0 <= i < 8 * |out| ensures BitsOf(out)[i] == StateBits(s)[i] {
      ReadBit(s, big, i / 8, i % 8);
      BitPlace(i);
    }
  }

  /** A padded message, absorbed to the last block, is the sponge's final state. */
  lemma HoldsSponge(s: State, msg: seq<byte>, rate: nat, n: nat, loaded: nat, d: nat)
    requires 0 < rate <= 200 && |msg| == n * rate + loaded && loaded < rate
    requires Holds(s, msg + PadBytes(rate - loaded), rate, n + 1, 0)
    requires 8 * rate == 1600 - 2 * d && d <= 8 * rate && 3 * d <= 1600
    ensures StateBits(s)[..d] == Sha3(BitsOf(msg), d)
  {
    hide BitsOf, BitOf, PadBytes, Absorb, Pad101, XorBlock;
    var all := msg + PadBytes(rate - loaded);
    assert (n + 1) * rate == |all|;
    assert all[..(n + 1) * rate] == all && all[(n + 1) * rate..] == [];
    XorNothing(Absorb(ZeroBits(1600), BitsOf(all), 8 * rate));
    PaddingIsPad101(msg, rate, n, loaded);
  }

  /** The front of the final state begins with the digest, whatever its size. */
  lemma DigestBegins(s: State, msg: seq<byte>, rate: nat, n: nat, loaded: nat, out: Bits)
    requires 0 < rate <= 200 && |msg| == n * rate + loaded && loaded < rate
    requires Holds(s, msg + PadBytes(rate - loaded), rate, n + 1, 0) && out == StateBits(s)[..8 * rate]
    ensures forall d: nat | 3 * d <= 1600 && 8 * rate == 1600 - 2 * d :: out[..d] == Sha3(BitsOf(msg), d)
  {
    forall d: nat | 3 * d <= 1600 && 8 * rate == 1600 - 2 * d
      ensures out[..d] == Sha3(BitsOf(msg), d)
    {
      hide *;
      HoldsSponge(s, msg, rate, n, loaded, d);
      assert StateBits(s)[..8 * rate][..d] == StateBits(s)[..d];
    }
  }

  /** Blocks and load position are determined by the message length. */
  lemma PlaceIs(s: State, msg: seq<byte>, rate: nat, n: nat, loaded: nat, n': nat, loaded': nat)
    requires 0 < rate <= 200 && Holds(s, msg, rate, n, loaded)
    requires |msg| == n' * rate + loaded' && loaded' < rate
    ensures n == n' && loaded == loaded'
  {
    RemainderIs(|msg|, rate, n, loaded);
    RemainderIs(|msg|, rate, n', loaded');
    assert n * rate == n' * rate;
    if n < n' {
      AtLeastFactor(rate, n' - n);
    } else if n' < n {
      AtLeastFactor(rate, n - n');
    }
  }

  lemma HoldsLength(s: State, msg: seq<byte>, rate: nat, n: nat, loaded: nat)
    requires 0 < rate <= 200 && Holds(s, msg, rate, n, loaded)
    ensures |msg| == n * rate + loaded && loaded < rate
  {
  }

  lemma PadOne()
    ensures PadBytes(1) == [0x86]
  {
  }

  lemma PadAssembled(msg: seq<byte>, q: nat)
    requires q >= 2
    ensures msg + [0x06] + ZeroBytes(q - 2) + [0x80] == msg + PadBytes(q)
  {
  }

  class SHA3Context {
    const big: bool
    const s: array<Lane>
    var nRate: nat
    var nLoaded: nat
    var ixMask: nat
    ghost var Msg: seq<byte>
    ghost var Blocks: nat

    ghost predicate Valid()
      reads this, s
    {
      && s.Length == 25
      && 0 < nRate <= 200 && nRate % 8 == 0 && nLoaded < nRate
      && ixMask == (if big then 7 else 0)
      && Holds(s[..], Msg, nRate, Blocks, nLoaded)
    }

    /** SHA3Init: the rate for a digest of iSize bits; sizes out of range mean 256. */
    constructor (iSize: int, order: ByteOrder, bigEndian: bool)
      requires order == Little ==> !bigEndian
      requires order == Big ==> bigEndian
      ensures Valid() && fresh(s) && Msg == [] && big == bigEndian
      ensures nRate == RateFor(iSize)
    {
      big := bigEndian;
      s := new Lane[25](_ => ZeroBits(64));
      nLoaded := 0;
      nRate := if 128 <= iSize <= 512 then (1600 - ((iSize + 31) / 32 * 32) * 2) / 8 else (1600 - 2 * 256) / 8;
      ixMask := if order == Big then 7 else if order == AtRunTime && bigEndian then 7 else 0;
      Msg := [];
      Blocks := 0;
      new;
      HoldsNothing(s[..], nRate);
    }

    /** One iteration of the byte loop of SHA3Update. */
    method AbsorbByte(b: byte, order: ByteOrder)
      requires Valid() && (order == Little ==> !big) && (order == Big ==> big)
      modifies this, s
      ensures Valid() && Msg == old(Msg) + [b] && nRate == old(nRate)
    {
      hide KeccakF, XorMemory, XorByte, Holds;
      LoadByte(s[..], big, Msg, b, nRate, Blocks, nLoaded);
      var m := Masked(nLoaded, if order == Little then 0 else if order == Big then 7 else ixMask);
      s[m / 8] := XorByte(s[m / 8], Significance(big, m), b);
      MemoryByteIn(old(s[..]), big, m, b);
      assert s[..] == XorMemory(old(s[..]), big, m, b);
      if nLoaded + 1 == nRate {
        KeccakF1600Step(s);
        nLoaded := 0;
        Blocks := Blocks + 1;
      } else {
        nLoaded := nLoaded + 1;
      }
      Msg := Msg + [b];
    }

    /** One iteration of the aligned word loop of SHA3Update. */
    method AbsorbWord(a: seq<byte>)
      requires Valid() && !big && nLoaded % 8 == 0 && |a| == 8
      modifies this, s
      ensures Valid() && Msg == old(Msg) + a && nRate == old(nRate) && nLoaded % 8 == 0
    {
      hide KeccakF, Xor, LoadWord, Holds;
      LoadEight(s[..], Msg, a, nRate, Blocks, nLoaded);
      s[nLoaded / 8] := Xor(s[nLoaded / 8], LoadWord(a));
      assert s[..] == old(s[..][nLoaded / 8 := Xor(s[nLoaded / 8], LoadWord(a))]);
      if nLoaded + 8 >= nRate {
        KeccakF1600Step(s);
        nLoaded := 0;
        Blocks := Blocks + 1;
      } else {
        nLoaded := nLoaded + 8;
      }
      Msg := Msg + a;
    }

    /** SHA3Update: eight bytes at a time while the fast path applies, then byte by byte. */
    method Update(aData: seq<byte>, aligned: bool, order: ByteOrder)
      requires Valid() && (order == Little ==> !big) && (order == Big ==> big)
      modifies this, s
      ensures Valid() && Msg == old(Msg) + aData && nRate == old(nRate)
    {
      hide *;
      var i := 0;
      assert aData[..0] == [];
      if order == Little && nLoaded % 8 == 0 && aligned {
        while i + 7 < |aData|
          invariant 0 <= i <= |aData| && Valid() && nLoaded % 8 == 0
          invariant Msg == old(Msg) + aData[..i] && nRate == old(nRate)
        {
          AbsorbWord(aData[i..i + 8]);
          assert aData[..i] + aData[i..i + 8] == aData[..i + 8];
          i := i + 8;
        }
      }
      while i < |aData|
        invariant 0 <= i <= |aData| && Valid()
        invariant Msg == old(Msg) + aData[..i] && nRate == old(nRate)
      {
        AbsorbByte(aData[i], order);
        assert aData[..i] + [aData[i]] == aData[..i + 1];
        i := i + 1;
      }
      assert aData[..i] == aData;
    }

    /** The padding steps of SHA3Final: the last block is permuted with the padded message in it. */
    method Pad(order: ByteOrder, aligned: bool)
      requires Valid() && (order == Little ==> !big) && (order == Big ==> big)
      modifies this, s
      ensures Valid() && nRate == old(nRate)
      ensures nLoaded == 0 && Blocks == old(Blocks) + 1 && Msg == old(Msg + PadBytes(nRate - nLoaded))
      ensures Holds(s[..], Msg, nRate, Blocks, 0)
    {
      hide Holds, PadBytes, ZeroBytes;
      ghost var m, n, loaded, q := Msg, Blocks, nLoaded, nRate - nLoaded;
      HoldsLength(s[..], Msg, nRate, n, loaded);
      assert (n + 1) * nRate == n * nRate + nRate;
      if nLoaded == nRate - 1 {
        Update([0x86], aligned, order);
        assert PadBytes(1) == [0x86] by { PadOne(); }
      } else {
        Update([0x06], aligned, order);
        SkipZeros(n, loaded + 1);
        Update([0x80], aligned, order);
        PadAssembled(m, q);
      }
      assert Msg == m + PadBytes(q);
      PlaceIs(s[..], Msg, nRate, Blocks, nLoaded, n + 1, 0);
    }

    /** p->nLoaded = p->nRate - 1 */
    method SkipZeros(ghost n: nat, ghost loaded: nat)
      requires Valid() && |Msg| == n * nRate + loaded && loaded < nRate
      modifies this, s
      ensures Valid() && nRate == old(nRate)
      ensures Msg == old(Msg) + ZeroBytes(nRate - 1 - loaded)
    {
      hide Absorb, BitsOf, XorBlock, StateBits;
      PlaceIs(s[..], Msg, nRate, Blocks, nLoaded, n, loaded);
      HoldsZeros(s[..], Msg, nRate, n, loaded, nRate - 1 - loaded);
      nLoaded := nRate - 1;
      Msg := Msg + ZeroBytes(nRate - 1 - loaded);
    }

    /** SHA3Final: pad, then copy the output bytes in message order. */
    method Final(order: ByteOrder, aligned: bool) returns (digest: array<byte>)
      requires Valid() && (order == Little ==> !big) && (order == Big ==> big)
      modifies this, s
      ensures digest.Length == nRate == old(nRate)
      ensures forall d: nat | 3 * d <= 1600 && 8 * nRate == 1600 - 2 * d ::
        BitsOf(digest[..])[..d] == Sha3(BitsOf(old(Msg)), d)
    {
      ghost var msg, n, loaded := Msg, Blocks, nLoaded;
      HoldsLength(s[..], msg, nRate, n, loaded);
      hide *;
      Pad(order, aligned);
      digest := CopyOut();
      DigestBegins(s[..], msg, nRate, n, loaded, BitsOf(digest[..]));
    }

    /** The copy loop at the end of SHA3Final. */
    method CopyOut() returns (digest: array<byte>)
      requires Valid()
      ensures fresh(digest) && digest.Length == nRate && BitsOf(digest[..]) == StateBits(s[..])[..8 * nRate]
    {
      hide BitsOf, StateBits, ReadMemory, Holds, Masked;
      digest := new byte[nRate](_ => 0);
      for i := 0 to nRate
        invariant forall k | 0 <= k < i :: digest[k] == ReadMemory(s[..], big, Masked(k, if big then 7 else 0))
      {
        digest[i] := ReadMemory(s[..], big, Masked(i, ixMask));
      }
      ReadBits(s[..], big, digest[..]);
    }
  }

  /** Bytes accepted per permutation for a digest of iSize bits. */
  function RateFor(iSize: int): (rate: nat)
    ensures 0 < rate <= 200 && rate % 8 == 0
  {
    if 128 <= iSize <= 512 then 200 - 8 * ((iSize + 31) / 32) else 136
  }

  function Flatten(chunks: seq<seq<byte>>): seq<byte> {
    if |chunks| == 0 then [] else Flatten(chunks[..|chunks| - 1]) + chunks[|chunks| - 1]
  }

  /** A whole hash, its message fed in any number of pieces, each at any address. */
  method HashChunks(iSize: int, order: ByteOrder, bigEndian: bool, chunks: seq<seq<byte>>, aligned: seq<bool>)
    returns (digest: array<byte>)
    requires (order == Little ==> !bigEndian) && (order == Big ==> bigEndian) && |aligned| == |chunks|
    ensures digest.Length == 200 - (if 128 <= iSize <= 512 then (iSize + 31) / 32 * 8 else 64)
    ensures 128 <= iSize <= 512 ==>
      var d := (iSize + 31) / 32 * 32; BitsOf(digest[..])[..d] == Sha3(BitsOf(Flatten(chunks)), d)
    ensures !(128 <= iSize <= 512) ==> BitsOf(digest[..])[..256] == Sha3(BitsOf(Flatten(chunks)), 256)
  {
    hide BitsOf, Sha3, Holds;
    var p := new SHA3Context(iSize, order, bigEndian);
    for i := 0 to |chunks|
      invariant fresh(p) && fresh(p.s) && p.Valid() && p.big == bigEndian && p.nRate == RateFor(iSize)
      invariant p.Msg == Flatten(chunks[..i])
    {
      p.Update(chunks[i], aligned[i], order);
      assert chunks[..i + 1][..i] == chunks[..i];
    }
    assert chunks[..|chunks|] == chunks;
    digest := p.Final(order, false);
  }
}
