/** What the CRC is, apart from its own definitions: its generator and a published checksum. */
module CrcKnown {
  import opened Words
  import opened Crc32

  // ----- bits of a number, four at a time -----

  function Shifted(n: nat, k: nat): nat {
    if k == 0 then n else Shifted(n / 16, k - 1)
  }

  lemma FirstBits(n: nat, len: nat)
    requires len >= 4
    ensures BitsOf(n, len)[0] == (n % 2 == 1) && BitsOf(n, len)[1] == (n / 2 % 2 == 1)
    ensures BitsOf(n, len)[2] == (n / 4 % 2 == 1) && BitsOf(n, len)[3] == (n / 8 % 2 == 1)
    ensures forall i :: 4 <= i < len ==> BitsOf(n, len)[i] == BitsOf(n / 16, len - 4)[i - 4]
  {
    var a, b, c, d := BitsOf(n, len), BitsOf(n / 2, len - 1), BitsOf(n / 4, len - 2), BitsOf(n / 8, len - 3);
    Halved(n, len);
    Halved(n / 2, len - 1);
    Halved(n / 4, len - 2);
    Halved(n / 8, len - 3);
    hide BitsOf;
    forall i | 4 <= i < len ensures a[i] == BitsOf(n / 16, len - 4)[i - 4] {
      assert a[i] == b[i - 1] && b[i - 1] == c[i - 2] && c[i - 2] == d[i - 3];
    }
  }

  lemma Halved(n: nat, len: nat)
    requires len > 0
    ensures BitsOf(n, len)[0] == (n % 2 == 1)
    ensures forall i :: 1 <= i < len ==> BitsOf(n, len)[i] == BitsOf(n / 2, len - 1)[i - 1]
  {
  }

  /** The bits of the k-th hexadecimal digit. */
  lemma {:induction false} NibbleAt(n: nat, len: nat, k: nat)
    requires 4 * k + 4 <= len
    ensures var d, s := Shifted(n, k), BitsOf(n, len);
            && s[4 * k] == (d % 2 == 1) && s[4 * k + 1] == (d / 2 % 2 == 1)
            && s[4 * k + 2] == (d / 4 % 2 == 1) && s[4 * k + 3] == (d / 8 % 2 == 1)
    decreases k
  {
    FirstBits(n, len);
    hide BitsOf;
    if k > 0 {
      NibbleAt(n / 16, len - 4, k - 1);
    }
  }

  /**
   The coefficients of x^26 + x^23 + x^22 + x^16 + x^12 + x^11 + x^10 + x^8 + x^7 + x^5 + x^4 + x^2 + x + 1,
   from that of x^31 down.
   */
  lemma Generator()
    ensures POLY == [false, false, false, false, false, true, false, false,
                 true, true, false, false, false, false, false, true,
                 false, false, false, true, true, true, false, true,
                 true, false, true, true, false, true, true, true]
  {
    hide BitsOf;
    NibbleAt(0xedb88320, 32, 0);
    assert Shifted(0xedb88320, 0) == 0xedb88320;
    NibbleAt(0xedb88320, 32, 1);
    assert Shifted(0xedb88320, 1) == 0xedb8832;
    NibbleAt(0xedb88320, 32, 2);
    assert Shifted(0xedb88320, 2) == 0xedb883;
    NibbleAt(0xedb88320, 32, 3);
    assert Shifted(0xedb88320, 3) == 0xedb88;
    NibbleAt(0xedb88320, 32, 4);
    assert Shifted(0xedb88320, 4) == 0xedb8;
    NibbleAt(0xedb88320, 32, 5);
    assert Shifted(0xedb88320, 5) == 0xedb;
    NibbleAt(0xedb88320, 32, 6);
    assert Shifted(0xedb88320, 6) == 0xed;
    NibbleAt(0xedb88320, 32, 7);
    assert Shifted(0xedb88320, 7) == 0xe;
  }

  lemma Published()
    ensures BitsOf(0x12477cdf, 32) == [true, true, true, true, true, false, true, true,
                 false, false, true, true, true, true, true, false,
                 true, true, true, false, false, false, true, false,
                 false, true, false, false, true, false, false, false]
  {
    hide BitsOf;
    NibbleAt(0x12477cdf, 32, 0);
    assert Shifted(0x12477cdf, 0) == 0x12477cdf;
    NibbleAt(0x12477cdf, 32, 1);
    assert Shifted(0x12477cdf, 1) == 0x12477cd;
    NibbleAt(0x12477cdf, 32, 2);
    assert Shifted(0x12477cdf, 2) == 0x12477c;
    NibbleAt(0x12477cdf, 32, 3);
    assert Shifted(0x12477cdf, 3) == 0x12477;
    NibbleAt(0x12477cdf, 32, 4);
    assert Shifted(0x12477cdf, 4) == 0x1247;
    NibbleAt(0x12477cdf, 32, 5);
    assert Shifted(0x12477cdf, 5) == 0x124;
    NibbleAt(0x12477cdf, 32, 6);
    assert Shifted(0x12477cdf, 6) == 0x12;
    NibbleAt(0x12477cdf, 32, 7);
    assert Shifted(0x12477cdf, 7) == 0x1;
  }

  // ----- a published checksum -----

  /** The register with just the bits from `a` up to `b` set. */
  function Ones(a: nat, b: nat): Reg {
    seq(32, i => a <= i < b)
  }

  lemma {:induction false} LowZeros(h: Reg, k: nat)
    requires k <= 32 && forall i :: 0 <= i < k ==> !h[i]
    ensures BitSteps(h, k) == Shr(h, k)
  {
    hide Xor;
    if k == 0 {
      assert Shr(h, 0) == h;
    } else {
      LowZeros(h, k - 1);
      assert !Shr(h, k - 1)[0];
      assert Shr(Shr(h, k - 1), 1) == Shr(h, k);
    }
  }

  lemma Bytes()
    ensures Widen(0xff) == Ones(0, 8) && Widen(0x7f) == Ones(0, 7)
  {
    hide BitsOf;
    NibbleAt(0xff, 32, 0);
    NibbleAt(0xff, 32, 1);
    NibbleAt(0x7f, 32, 0);
    NibbleAt(0x7f, 32, 1);
    assert Shifted(0xff, 1) == 0xf && Shifted(0x7f, 1) == 0x7 && Shifted(0xff, 0) == 0xff && Shifted(0x7f, 0) == 0x7f;
    assert Pow2(8) == 256;
    forall i | 8 <= i < 32 ensures !BitsOf(0xff, 32)[i] && !BitsOf(0x7f, 32)[i] {
      SmallBits(0xff, 8, 32, i);
      SmallBits(0x7f, 8, 32, i);
    }
  }

  /** A byte of ones takes eight ones from the low end. */
  lemma FeedOnes(start: Reg, data: seq<Byte>, n: nat)
    requires 8 <= n <= 32 && Feed(start, data) == Ones(0, n)
    ensures Feed(start, data + [0xff]) == Ones(0, n - 8)
  {
    hide BitSteps, Widen;
    assert (data + [0xff])[..|data|] == data;
    Bytes();
    assert Xor(Ones(0, n), Ones(0, 8)) == Ones(8, n);
    LowZeros(Ones(8, n), 8);
    assert Shr(Ones(8, n), 8) == Ones(0, n - 8);
  }

  /** A single bit that leaves the register brings in the generator. */
  lemma BitLeaves()
    ensures BitSteps(Ones(7, 8), 8) == POLY
  {
    hide BitsOf;
    LowZeros(Ones(7, 8), 7);
    assert Shr(Ones(7, 8), 7) == Ones(0, 1);
    LastStep(Ones(7, 8), 7);
    hide BitSteps;
    assert Xor(POLY, Shr(Ones(0, 1), 1)) == POLY;
  }

  lemma LastStep(c: Reg, n: nat)
    ensures BitSteps(c, n + 1) == BitStep(BitSteps(c, n))
  {
    hide BitStep;
  }

  lemma FeedLast(start: Reg, data: seq<Byte>)
    requires Feed(start, data) == Ones(0, 8)
    ensures Feed(start, data + [0x7f]) == POLY
  {
    hide BitSteps, Widen, BitsOf;
    assert (data + [0x7f])[..|data|] == data;
    Bytes();
    assert Xor(Ones(0, 8), Ones(0, 7)) == Ones(7, 8);
    BitLeaves();
  }

  /** The checksum of the bytes ff ff ff 7f is 0x12477cdf. */
  lemma KnownChecksum()
    ensures Checksum(BitsOf(0, 32), [0xff, 0xff, 0xff, 0x7f]) == BitsOf(0x1247_7cdf, 32)
  {
    hide BitsOf, BitSteps, Widen, Xor;
    var start := Not(BitsOf(0, 32));
    forall i | 0 <= i < 32 ensures start[i] {
      ZeroBits(32, i);
    }
    assert Feed(start, []) == Ones(0, 32);
    hide Feed;
    FeedOnes(start, [], 32);
    FeedOnes(start, [] + [0xff], 24);
    FeedOnes(start, [] + [0xff] + [0xff], 16);
    FeedLast(start, [] + [0xff] + [0xff] + [0xff]);
    assert [] + [0xff] + [0xff] + [0xff] + [0x7f] == [0xff, 0xff, 0xff, 0x7f];
    Generator();
    Published();
  }
}
