/**
 The encoder's checksums are the standards': its reflected register is the mirror image of polynomial division,
 its Adler-32 the weighted sum of the bytes (Tools/TerminalImageAlphaProbe.cpp:135-162).
 */
module ChecksumsAgree {
  import opened Bytes
  import opened Division
  import opened Checksums
  import Png
  import opened PngReader

  // ---- constants as bits ----

  lemma {:induction false} BitOf(n: nat, k: nat, i: nat)
    requires i < k
    ensures Bits(n, k)[i] <==> n / Pow2(i) % 2 == 1
  {
    if i > 0 {
      BitOf(n / 2, k - 1, i - 1);
      HalvedQuotient(n, Pow2(i - 1));
    }
  }

  lemma HalvedQuotient(n: nat, p: nat)
    requires p > 0
    ensures n / 2 / p == n / (2 * p)
  {
    var q, r := n / 2 / p, n / 2 % p;
    assert n / 2 == p * q + r;
    assert n == 2 * p * q + (2 * r + n % 2);
    assert 2 * r + n % 2 < 2 * p;
    QuotientAndRest(n, 2 * p, q, 2 * r + n % 2);
  }

  lemma {:induction false} OnesAreTrue(k: nat, i: nat)
    requires i < k
    ensures Bits(Pow2(k) - 1, k)[i]
  {
    if i > 0 {
      OnesAreTrue(k - 1, i - 1);
    }
    assert (Pow2(k) - 1) / 2 == Pow2(k - 1) - 1;
  }

  lemma AllOnesAreTrue(i: nat)
    requires i < 32
    ensures AllOnes()[i]
  {
    Powers();
    OnesAreTrue(32, i);
  }

  lemma Powers()
    ensures Pow2(8) == 256 && Pow2(16) == 0x1_0000 && Pow2(32) == 0x1_0000_0000
  {
    assert Pow2(4) == 16;
    assert Pow2(8) == 256;
    assert Pow2(12) == 4096;
    assert Pow2(16) == 0x1_0000;
    assert Pow2(20) == 0x10_0000;
    assert Pow2(24) == 0x100_0000;
    assert Pow2(28) == 0x1000_0000;
  }

  lemma {:induction false} BitsAbove(n: nat, k: nat, low: nat, i: nat)
    requires low + i < k
    ensures Bits(n, k)[low + i] == Bits(n / Pow2(low), k - low)[i]
  {
    if low > 0 {
      BitsAbove(n / 2, k - 1, low - 1, i);
      HalvedQuotient(n, Pow2(low - 1));
    }
  }

  /** 0xedb88320 is the polynomial's terms, that of x^31 the lowest bit. */
  lemma PolynomialHasTerms(i: nat)
    requires i < 32
    ensures Polynomial()[i] <==> IsTerm(31 - i)
  {
    NumberHasTerms(0xedb8_8320, i);
  }

  lemma NumberHasTerms(n: nat, i: nat)
    requires n == 0xedb8_8320 && i < 32
    ensures Bits(n, 32)[i] <==> IsTerm(31 - i)
  {
    if i < 16 {
      BitOf(n, 32, i);
      LowTerms(n, i, Pow2(i));
    } else {
      UpperHalf(n, i - 16);
      HighBits(n / 0x1_0000, i - 16);
    }
  }

  lemma HighBits(n: nat, i: nat)
    requires n == 0xedb8 && i < 16
    ensures Bits(n, 16)[i] <==> IsTerm(15 - i)
  {
    BitOf(n, 16, i);
    HighTerms(n, i, Pow2(i));
  }

  lemma UpperHalf(n: nat, i: nat)
    requires i < 16
    ensures Bits(n, 32)[16 + i] == Bits(n / 0x1_0000, 16)[i]
  {
    Powers();
    BitsAbove(n, 32, 16, i);
  }

  lemma LowTerms(n: nat, i: nat, p: nat)
    requires n == 0xedb8_8320 && i < 16 && p == Pow2(i)
    ensures n / p % 2 == 1 <==> IsTerm(31 - i)
  {
    match i
    case 0 => assert p == 1;
    case 1 => assert p == 2;
    case 2 => assert p == 4;
    case 3 => assert p == 8;
    case 4 => assert p == 16;
    case 5 => assert p == 32;
    case 6 => assert p == 64;
    case 7 => assert p == 128;
    case 8 => assert p == 256;
    case 9 => assert p == 512;
    case 10 => assert p == 1024;
    case 11 => assert p == 2048;
    case 12 => assert p == 4096;
    case 13 => assert p == 8192;
    case 14 => assert p == 16384;
    case 15 => assert p == 32768;
  }

  lemma HighTerms(n: nat, i: nat, p: nat)
    requires n == 0xedb8 && i < 16 && p == Pow2(i)
    ensures n / p % 2 == 1 <==> IsTerm(15 - i)
  {
    match i
    case 0 => assert p == 1;
    case 1 => assert p == 2;
    case 2 => assert p == 4;
    case 3 => assert p == 8;
    case 4 => assert p == 16;
    case 5 => assert p == 32;
    case 6 => assert p == 64;
    case 7 => assert p == 128;
    case 8 => assert p == 256;
    case 9 => assert p == 512;
    case 10 => assert p == 1024;
    case 11 => assert p == 2048;
    case 12 => assert p == 4096;
    case 13 => assert p == 8192;
    case 14 => assert p == 16384;
    case 15 => assert p == 32768;
  }

  // ---- the register and the remainder ----

  /** The register holds the remainder's coefficients from that of x^31 down. */
  function Mirror(w: Word): Remainder {
    seq(32, e requires 0 <= e < 32 => w[31 - e])
  }

  lemma FeedingDivides(w: Word, bit: bool)
    ensures Mirror(FeedBit(w, bit)) == Divide(Mirror(w), bit)
  {
    var fed, divided := Mirror(FeedBit(w, bit)), Divide(Mirror(w), bit);
    forall e | 0 <= e < 32 ensures fed[e] == divided[e] {
      DividesAt(w, bit, e);
    }
  }

  lemma DividesAt(w: Word, bit: bool, e: nat)
    requires e < 32
    ensures Mirror(FeedBit(w, bit))[e] == Divide(Mirror(w), bit)[e]
  {
    var i := 31 - e;
    PolynomialHasTerms(i);
    FeedBitAt(w, bit, i);
    assert Mirror(w)[31] == w[0] && (e > 0 ==> Mirror(w)[e - 1] == w[i + 1]);
  }

  lemma FeedBitAt(w: Word, bit: bool, i: nat)
    requires i < 32
    ensures FeedBit(w, bit)[i] == ((i < 31 && w[i + 1]) != (w[0] != bit && Polynomial()[i]))
  {
  }

  lemma {:induction false} FeedingByte(w: Word, b: nat, n: nat)
    ensures Mirror(FeedBits(w, Bits(b, n))) == DivideByte(Mirror(w), b, n)
    decreases n
  {
    if n > 0 {
      FeedingDivides(w, b % 2 == 1);
      FeedingByte(FeedBit(w, b % 2 == 1), b / 2, n - 1);
      assert Bits(b, n)[1..] == Bits(b / 2, n - 1);
    }
  }

  lemma {:induction false} FeedingAll(w: Word, data: seq<Byte>)
    ensures Mirror(BitwiseCrc(w, data)) == DivideAll(Mirror(w), data)
    decreases |data|
  {
    if data != [] {
      FeedingByte(w, data[0], BYTE_BITS);
      FeedingAll(FeedBits(w, Bits(data[0], BYTE_BITS)), data[1..]);
      FirstByte(w, data[0], data[1..]);
      assert data == [data[0]] + data[1..];
    }
  }

  lemma FirstByte(w: Word, b: Byte, rest: seq<Byte>)
    ensures BitwiseCrc(w, [b] + rest) == BitwiseCrc(FeedBits(w, Bits(b, BYTE_BITS)), rest)
  {
    CrcContinues(w, [b], rest);
    OneByte(w, b);
  }

  lemma OneByte(w: Word, b: Byte)
    ensures BitwiseCrc(w, [b]) == FeedBits(w, Bits(b, BYTE_BITS))
  {
    assert [b][..0] == [];
  }

  lemma {:induction false} MirroredNumber(low: seq<bool>, mirrored: seq<bool>)
    requires |low| == |mirrored| && forall i :: 0 <= i < |low| ==> low[i] == !mirrored[|low| - 1 - i]
    ensures Inverted(mirrored) == Number(low)
  {
    if low != [] {
      MirroredNumber(low[1..], mirrored[..|low| - 1]);
    }
  }

  /** The CRC the encoder writes is the specification's. */
  lemma CrcsAgree(data: seq<Byte>)
    ensures Number(Xor(BitwiseCrc(AllOnes(), data), AllOnes())) == Crc(data)
  {
    var ones: Remainder := seq(32, _ => true);
    assert Mirror(AllOnes()) == ones by {
      forall e | 0 <= e < 32 ensures Mirror(AllOnes())[e] {
        AllOnesAreTrue(31 - e);
      }
    }
    FeedingAll(AllOnes(), data);
    var w := BitwiseCrc(AllOnes(), data);
    forall i | 0 <= i < 32 ensures Xor(w, AllOnes())[i] == !Mirror(w)[31 - i] {
      AllOnesAreTrue(i);
    }
    MirroredNumber(Xor(w, AllOnes()), Mirror(w));
  }

  // ---- Adler-32 ----

  lemma {:induction false} SumIsTotal(data: seq<Byte>)
    ensures ByteSum(data) == 1 + Total(data)
  {
    if data != [] {
      SumIsTotal(data[1..]);
      FirstInSum(data[0], data[1..]);
      assert data == [data[0]] + data[1..];
    }
  }

  lemma {:induction false} FirstInSum(b: Byte, rest: seq<Byte>)
    ensures ByteSum([b] + rest) == b + ByteSum(rest)
  {
    if rest == [] {
      assert ([b] + rest)[..0] == [];
    } else {
      FirstInSum(b, rest[..|rest| - 1]);
      assert ([b] + rest)[..|rest|] == [b] + rest[..|rest| - 1];
    }
  }

  lemma {:induction false} FirstInSums(b: Byte, rest: seq<Byte>)
    ensures SumOfSums([b] + rest) == (|rest| + 1) * b + 1 + SumOfSums(rest)
  {
    FirstInSum(b, rest);
    if rest == [] {
      assert ([b] + rest)[..0] == [];
    } else {
      FirstInSums(b, rest[..|rest| - 1]);
      assert ([b] + rest)[..|rest|] == [b] + rest[..|rest| - 1];
    }
  }

  lemma {:induction false} SumsAreWeighted(data: seq<Byte>)
    ensures SumOfSums(data) == |data| + Weighted(data)
  {
    if data != [] {
      SumsAreWeighted(data[1..]);
      FirstInSums(data[0], data[1..]);
      assert data == [data[0]] + data[1..];
    }
  }

  /** So is the Adler-32. */
  lemma AdlersAgree(data: seq<Byte>)
    ensures AdlerValue(data) == Adler(data)
  {
    SumIsTotal(data);
    SumsAreWeighted(data);
  }
}
