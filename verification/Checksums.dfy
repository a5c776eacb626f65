/**
 CRC-32 by table and Adler-32 by running sums (Tools/TerminalImageAlphaProbe.cpp:135-162), against the
 bit-by-bit polynomial division of the PNG specification (section 5.5 and annex D) and the plain sums of
 RFC 1950 (section 2.2).
 */
module Checksums {
  import opened Bytes

  // ---- 32-bit words as their bits, least significant first ----

  type Word = w: seq<bool> | |w| == 32 witness seq(32, _ => false)

  /** The low `k` bits of `n`. */
  function Bits(n: nat, k: nat): (w: seq<bool>)
    ensures |w| == k
  {
    if k == 0 then [] else [n % 2 == 1] + Bits(n / 2, k - 1)
  }

  function Number(w: seq<bool>): nat {
    if w == [] then 0 else (if w[0] then 1 else 0) + 2 * Number(w[1..])
  }

  function Pow2(k: nat): (p: nat)
    ensures p > 0
  {
    if k == 0 then 1 else 2 * Pow2(k - 1)
  }

  lemma {:induction false} BitsOfNumber(w: seq<bool>)
    ensures Number(w) < Pow2(|w|) && Bits(Number(w), |w|) == w
  {
    if w != [] {
      BitsOfNumber(w[1..]);
      assert Number(w) / 2 == Number(w[1..]);
    }
  }

  function Xor(a: Word, b: Word): Word {
    seq(32, i requires 0 <= i < 32 => a[i] != b[i])
  }

  /** `w >> n`. */
  function ShiftRight(w: Word, n: nat): Word
    requires n <= 32
  {
    w[n..] + seq(n, _ => false)
  }

  /** `w & 0xff`, still a word. */
  function LowByte(w: Word): Word {
    w[..8] + seq(24, _ => false)
  }

  function ByteWord(b: Byte): Word {
    Bits(b, BYTE_BITS) + seq(24, _ => false)
  }

  /** 0xedb88320 */
  function Polynomial(): Word {
    Bits(0xedb8_8320, WORD_BITS)
  }

  /** 0xffffffff */
  function AllOnes(): Word {
    Bits(0xffff_ffff, WORD_BITS)
  }

  // ---- the reference: one message bit at a time ----

  /** One step of the division: the register shifts, and the polynomial is subtracted when a one falls out. */
  function FeedBit(register: Word, bit: bool): Word {
    if register[0] != bit then Xor(Polynomial(), ShiftRight(register, 1)) else ShiftRight(register, 1)
  }

  function FeedBits(register: Word, bits: seq<bool>): Word
    decreases |bits|
  {
    if bits == [] then register else FeedBits(FeedBit(register, bits[0]), bits[1..])
  }

  /** The bytes of a message in order, each by its bits, least significant first. */
  function BitwiseCrc(register: Word, data: seq<Byte>): Word {
    if data == [] then register
    else FeedBits(BitwiseCrc(register, data[..|data| - 1]), Bits(data[|data| - 1], BYTE_BITS))
  }

  // ---- the table form ----

  function Shift(c: Word): Word {
    if c[0] then Xor(Polynomial(), ShiftRight(c, 1)) else ShiftRight(c, 1)
  }

  function Shifts(c: Word, n: nat): Word
    decreases n
  {
    if n == 0 then c else Shifts(Shift(c), n - 1)
  }

  lemma XorAssociates(a: Word, b: Word, c: Word)
    ensures Xor(a, Xor(b, c)) == Xor(Xor(a, b), c)
  {
  }

  lemma XorOfShifts(a: Word, b: Word)
    ensures ShiftRight(Xor(a, b), 1) == Xor(ShiftRight(a, 1), ShiftRight(b, 1))
  {
  }

  lemma XorZero(a: Word, zero: Word)
    requires forall i :: 0 <= i < 32 ==> !zero[i]
    ensures Xor(a, zero) == a
  {
  }

  lemma ShiftAgain(w: Word, n: nat)
    requires n < 32
    ensures ShiftRight(ShiftRight(w, 1), n) == ShiftRight(w, n + 1)
  {
  }

  /** Feeding a bit is shifting the register with the bits folded in beforehand. */
  lemma FeedingIsShifting(register: Word, bits: Word)
    ensures Xor(FeedBit(register, bits[0]), ShiftRight(bits, 1)) == Shift(Xor(register, bits))
  {
    XorOfShifts(register, bits);
    XorAssociates(Polynomial(), ShiftRight(register, 1), ShiftRight(bits, 1));
  }

  lemma {:induction false} FeedingCommutes(register: Word, bits: Word, n: nat)
    requires n <= 32
    ensures Xor(FeedBits(register, bits[..n]), ShiftRight(bits, n)) == Shifts(Xor(register, bits), n)
    decreases n
  {
    if n > 0 {
      var next := ShiftRight(bits, 1);
      FeedingIsShifting(register, bits);
      FeedingCommutes(FeedBit(register, bits[0]), next, n - 1);
      assert bits[..n][1..] == next[..n - 1];
      ShiftAgain(bits, n - 1);
    } else {
      assert bits[..0] == [] && ShiftRight(bits, 0) == bits;
    }
  }

  /** Bits above the lowest fall straight through a shift. */
  lemma ShiftIsLinear(low: Word, high: Word)
    requires !high[0]
    ensures Shift(Xor(low, high)) == Xor(Shift(low), ShiftRight(high, 1))
  {
    XorOfShifts(low, high);
    XorAssociates(Polynomial(), ShiftRight(low, 1), ShiftRight(high, 1));
  }

  lemma {:induction false} ShiftsSplit(low: Word, high: Word, n: nat)
    requires n <= 32 && forall k :: 0 <= k < n ==> !high[k]
    ensures Shifts(Xor(low, high), n) == Xor(Shifts(low, n), ShiftRight(high, n))
    decreases n
  {
    if n > 0 {
      ShiftIsLinear(low, high);
      ShiftsSplit(Shift(low), ShiftRight(high, 1), n - 1);
      ShiftAgain(high, n - 1);
    } else {
      assert ShiftRight(high, 0) == high;
    }
  }

  const BYTE_BITS: nat := 8
  const WORD_BITS: nat := 32

  function TableEntry(c: Word): Word {
    Shifts(c, BYTE_BITS)
  }

  /** Eight shifts only look at the lowest byte. */
  lemma TableEntryOfWord(w: Word, eight: nat)
    requires eight == 8
    ensures Shifts(w, eight) == Xor(Shifts(LowByte(w), eight), ShiftRight(w, eight))
  {
    var high: Word := seq(8, _ => false) + w[8..];
    assert w == Xor(LowByte(w), high);
    ShiftsSplit(LowByte(w), high, eight);
    assert ShiftRight(high, eight) == ShiftRight(w, eight);
  }

  /** One table lookup is eight steps of the division. */
  lemma LookupIsEightBits(register: Word, b: Byte, eight: nat)
    requires eight == 8
    ensures var folded := Xor(register, ByteWord(b));
            Xor(Shifts(LowByte(folded), eight), ShiftRight(register, eight)) == FeedBits(register, Bits(b, BYTE_BITS))
  {
    var bits := ByteWord(b);
    FeedingCommutes(register, bits, eight);
    assert bits[..eight] == Bits(b, BYTE_BITS);
    XorZero(FeedBits(register, Bits(b, BYTE_BITS)), ShiftRight(bits, eight));
    TableEntryOfWord(Xor(register, bits), eight);
    HighBytesStay(register, bits, eight);
  }

  lemma HighBytesStay(register: Word, bits: Word, eight: nat)
    requires eight == 8 && forall i :: 8 <= i < 32 ==> !bits[i]
    ensures ShiftRight(Xor(register, bits), eight) == ShiftRight(register, eight)
  {
  }

  /** Continuing from a partial CRC is the CRC of the concatenation. */
  lemma {:induction false} CrcContinues(register: Word, first: seq<Byte>, second: seq<Byte>)
    ensures BitwiseCrc(BitwiseCrc(register, first), second) == BitwiseCrc(register, first + second)
  {
    if second == [] {
      assert first + second == first;
    } else {
      CrcContinues(register, first, second[..|second| - 1]);
      assert (first + second)[..|first + second| - 1] == first + second[..|second| - 1];
    }
  }

  /** The function-local static table, filled on the first call. */
  class CrcTable {
    var built: bool
    const table: array<Word>

    ghost predicate Valid()
      reads this, table
    {
      table.Length == 256 && (built ==> FilledTo(256))
    }

    ghost predicate FilledTo(n: nat)
      requires table.Length == 256 && n <= 256
      reads table
    {
      forall i :: 0 <= i < n ==> table[i] == TableEntry(ByteWord(i))
    }

    constructor ()
      ensures Valid() && fresh(table)
    {
      built := false;
      table := new Word[256];
    }

    method Build()
      requires Valid()
      modifies this, table
      ensures Valid() && built
    {
      for i := 0 to 256
        invariant FilledTo(i)
      {
        table[i] := MakeEntry(ByteWord(i));
      }
      built := true;
    }

    static method MakeEntry(start: Word) returns (c: Word)
      ensures c == TableEntry(start)
    {
      c := EntryByShifting(start, BYTE_BITS);
    }

    static method EntryByShifting(start: Word, steps: nat) returns (c: Word)
      ensures c == Shifts(start, steps)
    {
      c := start;
      for k := 0 to steps
        invariant Shifts(c, steps - k) == Shifts(start, steps)
      {
        c := if c[0] then Xor(Polynomial(), ShiftRight(c, 1)) else ShiftRight(c, 1);
      }
    }

    method Crc32(data: seq<Byte>, start: Word) returns (crc: Word)
      requires Valid()
      modifies this, table
      ensures Valid() && built
      ensures crc == BitwiseCrc(start, data)
    {
      if !built {
        Build();
      }
      crc := start;
      for i := 0 to |data|
        invariant Valid() && built
        invariant crc == BitwiseCrc(start, data[..i])
      {
        assert data[..i + 1][..i] == data[..i];
        crc := Lookup(crc, data[i]);
      }
      assert data[..|data|] == data;
    }

    method Lookup(crc: Word, b: Byte) returns (next: Word)
      requires Valid() && built
      ensures next == FeedBits(crc, Bits(b, BYTE_BITS))
    {
      var low := Xor(crc, ByteWord(b))[..8];
      BitsOfNumber(low);
      assert ByteWord(Number(low)) == LowByte(Xor(crc, ByteWord(b)));
      LookupIsEightBits(crc, b, BYTE_BITS);
      next := Xor(table[Number(low)], ShiftRight(crc, BYTE_BITS));
    }
  }

  // ---- Adler-32 ----

  const ADLER_MODULUS: nat := 65521

  /** RFC 1950's s1 and s2, summed without reduction. */
  function ByteSum(data: seq<Byte>): nat {
    if data == [] then 1 else ByteSum(data[..|data| - 1]) + data[|data| - 1]
  }

  function SumOfSums(data: seq<Byte>): nat {
    if data == [] then 0 else SumOfSums(data[..|data| - 1]) + ByteSum(data)
  }

  function AdlerValue(data: seq<Byte>): (v: nat)
    ensures v < TWO_32
  {
    SumOfSums(data) % ADLER_MODULUS * 0x1_0000 + ByteSum(data) % ADLER_MODULUS
  }

  /** Reducing a sum early does not change its residue. */
  lemma ReduceOnTheWay(sum: nat, term: nat)
    ensures (sum % ADLER_MODULUS + term) % ADLER_MODULUS == (sum + term) % ADLER_MODULUS
    ensures (term + sum % ADLER_MODULUS) % ADLER_MODULUS == (sum + term) % ADLER_MODULUS
  {
    assert sum + term == sum / ADLER_MODULUS * ADLER_MODULUS + (sum % ADLER_MODULUS + term);
  }

  method Adler32(data: seq<Byte>) returns (v: nat)
    ensures v == AdlerValue(data)
  {
    var a, b := 1, 0;
    for i := 0 to |data|
      invariant a == ByteSum(data[..i]) % ADLER_MODULUS
      invariant b == SumOfSums(data[..i]) % ADLER_MODULUS
    {
      assert data[..i + 1][..i] == data[..i];
      ghost var s1, s2 := ByteSum(data[..i]), SumOfSums(data[..i]);
      ReduceOnTheWay(s1, data[i]);
      ReduceOnTheWay(s2, (s1 + data[i]) % ADLER_MODULUS);
      ReduceOnTheWay(s1 + data[i], s2);
      a := (a + data[i]) % ADLER_MODULUS;
      b := (b + a) % ADLER_MODULUS;
    }
    assert data[..|data|] == data;
    v := b * 0x1_0000 + a;
  }
}
