/**
 The one checksum that is the same in every file, worked out: the last chunk has no data, and its CRC is 0xae426082
 (Tools/TerminalImageAlphaProbe.cpp:135-152, 171-178, 219).
 */
module IendChunk {
  import opened Bytes
  import opened Checksums
  import opened PngReader
  import opened ChecksumsAgree
  import opened Png

  /** Bit `i` of a machine word. */
  predicate Has(v: bv32, i: nat) {
    match i
    case 0 => v & 0x1 != 0
    case 1 => v & 0x2 != 0
    case 2 => v & 0x4 != 0
    case 3 => v & 0x8 != 0
    case 4 => v & 0x10 != 0
    case 5 => v & 0x20 != 0
    case 6 => v & 0x40 != 0
    case 7 => v & 0x80 != 0
    case 8 => v & 0x100 != 0
    case 9 => v & 0x200 != 0
    case 10 => v & 0x400 != 0
    case 11 => v & 0x800 != 0
    case 12 => v & 0x1000 != 0
    case 13 => v & 0x2000 != 0
    case 14 => v & 0x4000 != 0
    case 15 => v & 0x8000 != 0
    case 16 => v & 0x10000 != 0
    case 17 => v & 0x20000 != 0
    case 18 => v & 0x40000 != 0
    case 19 => v & 0x80000 != 0
    case 20 => v & 0x100000 != 0
    case 21 => v & 0x200000 != 0
    case 22 => v & 0x400000 != 0
    case 23 => v & 0x800000 != 0
    case 24 => v & 0x1000000 != 0
    case 25 => v & 0x2000000 != 0
    case 26 => v & 0x4000000 != 0
    case 27 => v & 0x8000000 != 0
    case 28 => v & 0x10000000 != 0
    case 29 => v & 0x20000000 != 0
    case 30 => v & 0x40000000 != 0
    case _ => v & 0x80000000 != 0
  }

  function Vector(v: bv32): Word {
    seq(32, i requires 0 <= i < 32 => Has(v, i))
  }

  function Step(v: bv32, bit: bool): bv32 {
    if (v & 1 != 0) != bit then (v / 2) ^ 0xedb8_8320 else v / 2
  }

  /** Halving moves every bit down by one. */
  lemma HalfAt(v: bv32, i: nat)
    requires i < 32
    ensures Has(v / 2, i) == (i < 31 && Has(v, i + 1))
  {
    match i
    case 0 =>
    case 1 =>
    case 2 =>
    case 3 =>
    case 4 =>
    case 5 =>
    case 6 =>
    case 7 =>
    case 8 =>
    case 9 =>
    case 10 =>
    case 11 =>
    case 12 =>
    case 13 =>
    case 14 =>
    case 15 =>
    case 16 =>
    case 17 =>
    case 18 =>
    case 19 =>
    case 20 =>
    case 21 =>
    case 22 =>
    case 23 =>
    case 24 =>
    case 25 =>
    case 26 =>
    case 27 =>
    case 28 =>
    case 29 =>
    case 30 =>
    case _ =>
  }

  /** The constant has the bits of the polynomial's terms. */
  lemma ConstantAt(v: bv32, i: nat)
    requires i < 32
    ensures Has(v ^ 0xedb8_8320, i) == (Has(v, i) != IsTerm(31 - i))
  {
    match i
    case 0 =>
    case 1 =>
    case 2 =>
    case 3 =>
    case 4 =>
    case 5 =>
    case 6 =>
    case 7 =>
    case 8 =>
    case 9 =>
    case 10 =>
    case 11 =>
    case 12 =>
    case 13 =>
    case 14 =>
    case 15 =>
    case 16 =>
    case 17 =>
    case 18 =>
    case 19 =>
    case 20 =>
    case 21 =>
    case 22 =>
    case 23 =>
    case 24 =>
    case 25 =>
    case 26 =>
    case 27 =>
    case 28 =>
    case 29 =>
    case 30 =>
    case _ =>
  }

  lemma StepAt(v: bv32, next: bv32, over: bool, i: nat)
    requires i < 32 && next == if over then (v / 2) ^ 0xedb8_8320 else v / 2
    ensures Has(next, i) == ((i < 31 && Has(v, i + 1)) != (over && IsTerm(31 - i)))
  {
    HalfAt(v, i);
    ConstantAt(v / 2, i);
  }

  lemma FeedVector(v: bv32, bit: bool)
    ensures FeedBit(Vector(v), bit) == Vector(Step(v, bit))
  {
    var fed, stepped := FeedBit(Vector(v), bit), Vector(Step(v, bit));
    forall i | 0 <= i < 32 ensures fed[i] == stepped[i] {
      FeedVectorAt(v, bit, i);
    }
  }

  lemma FeedVectorAt(v: bv32, bit: bool, i: nat)
    requires i < 32
    ensures FeedBit(Vector(v), bit)[i] == Vector(Step(v, bit))[i]
  {
    FeedBitAt(Vector(v), bit, i);
    PolynomialHasTerms(i);
    StepAt(v, Step(v, bit), (v & 1 != 0) != bit, i);
  }

  function Steps(v: bv32, b: nat, n: nat): bv32
    decreases n
  {
    if n == 0 then v else Steps(Step(v, b % 2 == 1), b / 2, n - 1)
  }

  lemma {:induction false} FeedVectors(v: bv32, b: nat, n: nat)
    ensures FeedBits(Vector(v), Bits(b, n)) == Vector(Steps(v, b, n))
    decreases n
  {
    if n > 0 {
      FeedVector(v, b % 2 == 1);
      FeedVectors(Step(v, b % 2 == 1), b / 2, n - 1);
      assert Bits(b, n)[1..] == Bits(b / 2, n - 1);
    }
  }

  lemma {:induction false} StepsSplit(v: bv32, b: nat, high: nat, m: nat, n: nat)
    requires high == b / Pow2(m)
    ensures Steps(v, b, m + n) == Steps(Steps(v, b, m), high, n)
    decreases m
  {
    if m > 0 {
      HalvedQuotient(b, Pow2(m - 1));
      StepsSplit(Step(v, b % 2 == 1), b / 2, high, m - 1, n);
    }
  }

  // ---- the four bytes of the type ----

  lemma LetterI()
    ensures Steps(0xffff_ffff, 0x49, 8) == 0x22fd_e946
  {
    StepsSplit(0xffff_ffff, 0x49, 0x4, 4, 4);
    assert Steps(0xffff_ffff, 0x49, 4) == 0x424d_9ea7;
    assert Steps(0x424d_9ea7, 0x4, 4) == 0x22fd_e946;
  }

  lemma LetterE()
    ensures Steps(0x22fd_e946, 0x45, 8) == 0x992b_ac53
  {
    StepsSplit(0x22fd_e946, 0x45, 0x4, 4, 4);
    assert Steps(0x22fd_e946, 0x45, 4) == 0x24f6_ee38;
    assert Steps(0x24f6_ee38, 0x4, 4) == 0x992b_ac53;
  }

  lemma LetterN()
    ensures Steps(0x992b_ac53, 0x4e, 8) == 0x639f_4775
  {
    StepsSplit(0x992b_ac53, 0x4e, 0x4, 4, 4);
    assert Steps(0x992b_ac53, 0x4e, 4) == 0x8f41_6811;
    assert Steps(0x8f41_6811, 0x4, 4) == 0x639f_4775;
  }

  lemma LetterD()
    ensures Steps(0x639f_4775, 0x44, 8) == 0x51bd_9f7d
  {
    StepsSplit(0x639f_4775, 0x44, 0x4, 4, 4);
    assert Steps(0x639f_4775, 0x44, 4) == 0x1b8e_e413;
    assert Steps(0x1b8e_e413, 0x4, 4) == 0x51bd_9f7d;
  }

  lemma AllOnesVector()
    ensures AllOnes() == Vector(0xffff_ffff)
  {
    forall i | 0 <= i < 32 ensures AllOnes()[i] == Vector(0xffff_ffff)[i] {
      AllOnesAreTrue(i);
      AllBits(0xffff_ffff, i);
    }
  }

  lemma AllBits(v: bv32, i: nat)
    requires v == 0xffff_ffff && i < 32
    ensures Has(v, i)
  {
  }

  lemma {:induction false} LastByte(register: Word, data: seq<Byte>, b: Byte)
    ensures BitwiseCrc(register, data + [b]) == FeedBits(BitwiseCrc(register, data), Bits(b, BYTE_BITS))
  {
    assert (data + [b])[..|data|] == data;
  }

  lemma OneLetter(before: seq<Byte>, b: Byte, v: bv32, next: bv32, after: seq<Byte>)
    requires BitwiseCrc(AllOnes(), before) == Vector(v) && Steps(v, b, 8) == next && after == before + [b]
    ensures BitwiseCrc(AllOnes(), after) == Vector(next)
  {
    LastByte(AllOnes(), before, b);
    FeedVectors(v, b, BYTE_BITS);
  }

  lemma AfterI()
    ensures BitwiseCrc(AllOnes(), [0x49]) == Vector(0x22fd_e946)
  {
    AllOnesVector();
    LetterI();
    OneLetter([], 0x49, 0xffff_ffff, 0x22fd_e946, [0x49]);
  }

  lemma AfterE()
    ensures BitwiseCrc(AllOnes(), [0x49, 0x45]) == Vector(0x992b_ac53)
  {
    AfterI();
    LetterE();
    OneLetter([0x49], 0x45, 0x22fd_e946, 0x992b_ac53, [0x49, 0x45]);
  }

  lemma AfterN()
    ensures BitwiseCrc(AllOnes(), [0x49, 0x45, 0x4e]) == Vector(0x639f_4775)
  {
    AfterE();
    LetterN();
    OneLetter([0x49, 0x45], 0x4e, 0x992b_ac53, 0x639f_4775, [0x49, 0x45, 0x4e]);
  }

  lemma AfterD()
    ensures BitwiseCrc(AllOnes(), [0x49, 0x45, 0x4e, 0x44]) == Vector(0x51bd_9f7d)
  {
    AfterN();
    LetterD();
    OneLetter([0x49, 0x45, 0x4e], 0x44, 0x639f_4775, 0x51bd_9f7d, [0x49, 0x45, 0x4e, 0x44]);
  }

  // ---- the checksum as bytes ----

  lemma {:induction false} NumberSplits(low: seq<bool>, high: seq<bool>)
    ensures Number(low + high) == Number(low) + Pow2(|low|) * Number(high)
  {
    if low == [] {
      assert low + high == high;
    } else {
      NumberSplits(low[1..], high);
      assert (low + high)[0] == low[0] && (low + high)[1..] == low[1..] + high;
      Doubled(Pow2(|low| - 1), Number(high));
    }
  }

  lemma Doubled(p: nat, n: nat)
    ensures 2 * p * n == 2 * (p * n)
  {
  }

  lemma NumberOfByte(w: seq<bool>, b: nat)
    requires |w| == 8
    requires b == One(w[0]) + 2 * One(w[1]) + 4 * One(w[2]) + 8 * One(w[3])
      + 16 * One(w[4]) + 32 * One(w[5]) + 64 * One(w[6]) + 128 * One(w[7])
    ensures Number(w) == b
  {
    NumberOfHalves(w, w[..4], w[4..]);
  }

  lemma NumberOfHalves(w: seq<bool>, low: seq<bool>, high: seq<bool>)
    requires |low| == |high| == 4 && w == low + high
    ensures Number(w) == One(low[0]) + 2 * One(low[1]) + 4 * One(low[2]) + 8 * One(low[3])
      + 16 * One(high[0]) + 32 * One(high[1]) + 64 * One(high[2]) + 128 * One(high[3])
  {
    NumberOfNibble(low);
    NumberOfNibble(high);
    NumberSplits(low, high);
    FourthPower(|low|);
  }

  lemma FourthPower(n: nat)
    requires n == 4
    ensures Pow2(n) == 16
  {
    assert Pow2(n - 1) == 2 * Pow2(n - 2);
  }

  function One(b: bool): nat {
    if b then 1 else 0
  }

  lemma NumberOfNibble(w: seq<bool>)
    requires |w| == 4
    ensures Number(w) == One(w[0]) + 2 * One(w[1]) + 4 * One(w[2]) + 8 * One(w[3])
  {
    NumberStep(w);
    NumberStep(w[1..]);
    NumberStep(w[2..]);
    NumberStep(w[3..]);
    assert w[1..][1..] == w[2..] && w[2..][1..] == w[3..] && w[3..][1..] == [];
  }

  lemma NumberStep(w: seq<bool>)
    requires w != []
    ensures Number(w) == One(w[0]) + 2 * Number(w[1..])
  {
  }

  lemma NumberOfWord(w: Word, a: Byte, b: Byte, c: Byte, d: Byte)
    requires Number(w[..8]) == d && Number(w[8..16]) == c && Number(w[16..24]) == b && Number(w[24..]) == a
    ensures Be32(Number(w)) == [a, b, c, d]
  {
    NumberSplits(w[..8], w[8..]);
    NumberSplits(w[8..16], w[16..]);
    NumberSplits(w[16..24], w[24..]);
    FourParts(w);
    assert Pow2(8) == 256;
    BytesOfNumber(Number(w), a, b, c, d);
  }

  lemma FourParts(w: seq<bool>)
    requires |w| == 32
    ensures w == w[..8] + w[8..] && w[8..] == w[8..16] + w[16..] && w[16..] == w[16..24] + w[24..]
  {
  }

  lemma BytesOfNumber(n: nat, a: Byte, b: Byte, c: Byte, d: Byte)
    requires n == d + 256 * (c + 256 * (b + 256 * a))
    ensures Be32(n) == [a, b, c, d]
  {
    assert n / 0x100 == c + 256 * (b + 256 * a);
    assert n / 0x1_0000 == b + 256 * a;
    assert n / 0x100_0000 == a;
  }

  lemma WordsOfChecksum(w: Word)
    requires w == Vector(0xae42_6082)
    ensures Be32(Number(w)) == [0xae, 0x42, 0x60, 0x82]
  {
    NumberOfByte(w[..8], 0x82);
    NumberOfByte(w[8..16], 0x60);
    NumberOfByte(w[16..24], 0x42);
    NumberOfByte(w[24..], 0xae);
    NumberOfWord(w, 0xae, 0x42, 0x60, 0x82);
  }

  lemma Complement(v: bv32, not: bv32)
    requires v == 0x51bd_9f7d && not == 0xae42_6082
    ensures Xor(Vector(v), AllOnes()) == Vector(not)
  {
    forall i | 0 <= i < 32 ensures Xor(Vector(v), AllOnes())[i] == Vector(not)[i] {
      AllOnesAreTrue(i);
      ComplementAt(v, not, i);
    }
  }

  lemma ComplementAt(v: bv32, not: bv32, i: nat)
    requires v == 0x51bd_9f7d && not == 0xae42_6082 && i < 32
    ensures Has(not, i) == !Has(v, i)
  {
  }

  /** Every file ends with the same twelve bytes. */
  lemma IendBytes(kind: seq<Byte>)
    requires kind == IEND
    ensures ChunkBytes(kind, []) == [0x00, 0x00, 0x00, 0x00, 0x49, 0x45, 0x4e, 0x44, 0xae, 0x42, 0x60, 0x82]
  {
    IendCrc(kind);
    EmptyChunk(kind, CrcBytes(kind), ChunkBytes(kind, []));
  }

  lemma EmptyChunk(kind: seq<Byte>, crc: seq<Byte>, all: seq<Byte>)
    requires |kind| == 4 == |crc| && crc == CrcBytes(kind) && all == ChunkBytes(kind, [])
    ensures all == [0, 0, 0, 0, kind[0], kind[1], kind[2], kind[3], crc[0], crc[1], crc[2], crc[3]]
  {
    assert kind + [] == kind;
    Twelve(Be32(0), kind, crc);
    assert Be32(0) == [0, 0, 0, 0];
  }

  lemma Twelve(a: seq<Byte>, b: seq<Byte>, c: seq<Byte>)
    requires |a| == 4 == |b| == |c|
    ensures a + b + c == [a[0], a[1], a[2], a[3], b[0], b[1], b[2], b[3], c[0], c[1], c[2], c[3]]
  {
  }

  lemma IendCrc(kind: seq<Byte>)
    requires kind == [0x49, 0x45, 0x4e, 0x44]
    ensures CrcBytes(kind) == [0xae, 0x42, 0x60, 0x82]
  {
    AfterD();
    Complement(0x51bd_9f7d, 0xae42_6082);
    WordsOfChecksum(Vector(0xae42_6082));
  }

  /** And begins with the same eight. */
  lemma FileIsFramed(img: Image)
    requires img.Valid()
    ensures var b := PngBytes(img);
      && |b| >= 20 && b[..8] == [0x89, 0x50, 0x4e, 0x47, 0x0d, 0x0a, 0x1a, 0x0a]
      && b[|b| - 12..] == [0x00, 0x00, 0x00, 0x00, 0x49, 0x45, 0x4e, 0x44, 0xae, 0x42, 0x60, 0x82]
  {
    IendBytes(IEND);
    Framed(SIGNATURE, ChunkBytes(IHDR, Header(img.w, img.h)), ChunkBytes(IDAT, Zlib(Rows(img.px, 4 * img.w, img.h))),
           ChunkBytes(IEND, []));
  }

  lemma Framed(first: seq<Byte>, a: seq<Byte>, b: seq<Byte>, last: seq<Byte>)
    ensures var all := first + a + b + last;
      |all| >= |first| + |last| && all[..|first|] == first && all[|all| - |last|..] == last
  {
  }
}
