/** Bytes, growing byte vectors, and big-endian 32-bit words. */
module Bytes {
  type Byte = x: int | 0 <= x < 256

  const TWO_32: nat := 0x1_0000_0000

  /** The low 32 bits of `v`, most significant byte first. */
  function Be32(v: nat): (r: seq<Byte>)
    ensures |r| == 4
  {
    [v / 0x100_0000 % 256, v / 0x1_0000 % 256, v / 0x100 % 256, v % 256]
  }

  function ReadBe32(b: seq<Byte>): nat
    requires |b| >= 4
  {
    b[0] as int * 0x100_0000 + b[1] as int * 0x1_0000 + b[2] as int * 0x100 + b[3]
  }

  lemma Be32ReadsBack(v: nat, rest: seq<Byte>)
    requires v < TWO_32
    ensures ReadBe32(Be32(v)) == v && ReadBe32(Be32(v) + rest) == v
  {
    var b := Be32(v);
    assert v == v / 0x100 * 0x100 + b[3];
    assert v / 0x100 == v / 0x1_0000 * 0x100 + b[2];
    assert v / 0x1_0000 == v / 0x100_0000 * 0x100 + b[1];
    assert v / 0x100_0000 == b[0];
  }

  /** The program's `std::vector<uint8_t>&`: appended to in place. */
  class ByteVector {
    var bytes: seq<Byte>

    constructor (bytes: seq<Byte>)
      ensures this.bytes == bytes
    {
      this.bytes := bytes;
    }

    method Push(b: Byte)
      modifies this
      ensures bytes == old(bytes) + [b]
    {
      bytes := bytes + [b];
    }

    method Append(more: seq<Byte>)
      modifies this
      ensures bytes == old(bytes) + more
    {
      bytes := bytes + more;
    }

    /** Four pushes, each narrowing a shifted word to its low byte. */
    method PushBe32(v: nat)
      modifies this
      ensures bytes == old(bytes) + Be32(v)
    {
      Push(v / 0x100_0000 % 256);
      Push(v / 0x1_0000 % 256);
      Push(v / 0x100 % 256);
      Push(v % 256);
    }
  }
}
