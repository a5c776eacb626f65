/**
 The probe's PNG encoder (Tools/TerminalImageAlphaProbe.cpp:164-221): RGBA8, filter type 0, one IDAT
 holding a zlib stream of stored deflate blocks.
 */
module Png {
  import opened Common
  import opened Bytes
  import opened Checksums

  /** `px` holds `h` rows of `w` pixels of four bytes. */
  datatype Image = Image(w: nat, h: nat, px: seq<Byte>) {
    predicate Valid() {
      |px| == 4 * w * h
    }
  }

  const SIGNATURE: seq<Byte> := [0x89, 0x50, 0x4e, 0x47, 0x0d, 0x0a, 0x1a, 0x0a]
  const IHDR: seq<Byte> := [0x49, 0x48, 0x44, 0x52]
  const IDAT: seq<Byte> := [0x49, 0x44, 0x41, 0x54]
  const IEND: seq<Byte> := [0x49, 0x45, 0x4e, 0x44]
  const MAX_STORED: nat := 65535

  // ---- what the encoder writes ----

  /** Each row behind a filter byte. */
  function Rows(px: seq<Byte>, stride: nat, h: nat): (raw: seq<Byte>)
    requires |px| == stride * h
    ensures |raw| == (stride + 1) * h
    decreases h
  {
    if h == 0 then [] else
      assert stride * h == stride + stride * (h - 1);
      [0] + px[..stride] + Rows(px[stride..], stride, h - 1)
  }

  /** One stored block: the final flag, the length and its complement, least significant byte first. */
  function StoredBlock(last: bool, data: seq<Byte>): seq<Byte>
    requires |data| <= MAX_STORED
  {
    [if last then 1 else 0, |data| % 256, |data| / 256, 255 - |data| % 256, 255 - |data| / 256] + data
  }

  function Blocks(raw: seq<Byte>): seq<Byte>
    decreases |raw|
  {
    if raw == [] then []
    else if |raw| <= MAX_STORED then StoredBlock(true, raw)
    else StoredBlock(false, raw[..MAX_STORED]) + Blocks(raw[MAX_STORED..])
  }

  function Zlib(raw: seq<Byte>): seq<Byte> {
    [0x78, 0x01] + Blocks(raw) + Be32(AdlerValue(raw))
  }

  function CrcBytes(covered: seq<Byte>): seq<Byte> {
    Be32(Number(Xor(BitwiseCrc(AllOnes(), covered), AllOnes())))
  }

  function ChunkBytes(kind: seq<Byte>, data: seq<Byte>): seq<Byte> {
    Be32(|data|) + (kind + data) + CrcBytes(kind + data)
  }

  function Header(w: nat, h: nat): (r: seq<Byte>)
    ensures |r| == 13
  {
    Be32(w) + Be32(h) + [8, 6, 0, 0, 0]
  }

  function PngBytes(img: Image): seq<Byte>
    requires img.Valid()
  {
    SIGNATURE + ChunkBytes(IHDR, Header(img.w, img.h)) + ChunkBytes(IDAT, Zlib(Rows(img.px, 4 * img.w, img.h)))
      + ChunkBytes(IEND, [])
  }

  // ---- the program ----

  method PushChunk(out: ByteVector, crcs: CrcTable, kind: seq<Byte>, data: seq<Byte>)
    requires crcs.Valid()
    modifies out, crcs, crcs.table
    ensures crcs.Valid()
    ensures out.bytes == old(out.bytes) + ChunkBytes(kind, data)
  {
    out.PushBe32(|data|);
    var crcStart := |out.bytes|;
    out.Append(kind);
    out.Append(data);
    Appended(old(out.bytes) + Be32(|data|), kind, data);
    var crc := crcs.Crc32(out.bytes[crcStart..], AllOnes());
    out.PushBe32(Number(Xor(crc, AllOnes())));
    Nested(old(out.bytes), Be32(|data|), kind + data, CrcBytes(kind + data));
  }

  lemma Appended(before: seq<Byte>, a: seq<Byte>, b: seq<Byte>)
    ensures before + a + b == before + (a + b) && (before + a + b)[|before|..] == a + b
  {
  }

  lemma Nested(before: seq<Byte>, a: seq<Byte>, b: seq<Byte>, c: seq<Byte>)
    ensures before + a + b + c == before + (a + b + c)
  {
  }

  method CollectRows(img: Image) returns (raw: seq<Byte>)
    requires img.Valid()
    ensures raw == Rows(img.px, 4 * img.w, img.h)
  {
    raw := RowsOf(img.px, 4 * img.w, img.h);
  }

  method RowsOf(px: seq<Byte>, stride: nat, h: nat) returns (raw: seq<Byte>)
    requires |px| == stride * h
    ensures raw == Rows(px, stride, h)
  {
    raw := [];
    var at: nat := 0;
    assert px[0..] == px;
    for y := 0 to h
      invariant Collected(raw, px, stride, h, at, h - y)
    {
      CollectedStep(raw, px, stride, h, at, h - y);
      raw := raw + ([0] + px[at..at + stride]);
      at := at + stride;
    }
  }

  /** The rows from byte `at` on, so many, are still to come. */
  ghost predicate Collected(raw: seq<Byte>, px: seq<Byte>, stride: nat, h: nat, at: nat, left: nat) {
    && |px| == stride * h && at + stride * left == |px|
    && raw + Rows(px[at..], stride, left) == Rows(px, stride, h)
  }

  lemma NextRow(stride: nat, y: nat)
    ensures stride * (y + 1) == stride * y + stride
  {
  }

  lemma CollectedStep(raw: seq<Byte>, px: seq<Byte>, stride: nat, h: nat, at: nat, left: nat)
    requires Collected(raw, px, stride, h, at, left) && left > 0
    ensures at + stride <= |px|
    ensures Collected(raw + ([0] + px[at..at + stride]), px, stride, h, at + stride, left - 1)
  {
    NextRow(stride, left - 1);
    var rest := px[at..];
    assert rest[..stride] == px[at..at + stride] && rest[stride..] == px[at + stride..];
    Regroup(raw, [0] + px[at..at + stride], Rows(px[at + stride..], stride, left - 1));
  }

  lemma Regroup(a: seq<Byte>, b: seq<Byte>, c: seq<Byte>)
    ensures a + (b + c) == (a + b) + c
  {
  }

  method StoreRaw(raw: seq<Byte>) returns (z: ByteVector)
    ensures fresh(z) && z.bytes == Zlib(raw)
  {
    z := new ByteVector([]);
    z.Push(0x78);
    z.Push(0x01);
    var offset := 0;
    assert raw[0..] == raw;
    while offset < |raw|
      invariant offset <= |raw|
      invariant z.bytes + Blocks(raw[offset..]) == [0x78, 0x01] + Blocks(raw)
    {
      var block := if |raw| - offset > MAX_STORED then MAX_STORED else |raw| - offset;
      var last := offset + block >= |raw|;
      var data := raw[offset..offset + block];
      NextBlock(raw, offset, block, z.bytes);
      PushStored(z, last, data);
      offset := offset + block;
    }
    var adler := Adler32(raw);
    z.PushBe32(adler);
  }

  method PushStored(z: ByteVector, last: bool, data: seq<Byte>)
    requires |data| <= MAX_STORED
    modifies z
    ensures z.bytes == old(z.bytes) + StoredBlock(last, data)
  {
    var block := |data|;
    z.Push(if last then 1 else 0);
    z.Push(block % 256);
    z.Push(block / 256);
    z.Push(255 - block % 256);
    z.Push(255 - block / 256);
    z.Append(data);
    assert z.bytes == old(z.bytes) + StoredBlock(last, data);
  }

  lemma NextBlock(raw: seq<Byte>, offset: nat, block: nat, before: seq<Byte>)
    requires offset < |raw| && block == if |raw| - offset > MAX_STORED then MAX_STORED else |raw| - offset
    ensures (before + StoredBlock(offset + block >= |raw|, raw[offset..offset + block])) + Blocks(raw[offset + block..])
         == before + Blocks(raw[offset..])
  {
    var rest := raw[offset..];
    assert rest[..block] == raw[offset..offset + block] && rest[block..] == raw[offset + block..];
  }

  method MakeHeader(w: nat, h: nat) returns (ihdr: ByteVector)
    ensures fresh(ihdr) && ihdr.bytes == Header(w, h)
  {
    ihdr := new ByteVector([]);
    ihdr.PushBe32(w);
    ihdr.PushBe32(h);
    ihdr.Push(8);
    ihdr.Push(6);
    ihdr.Push(0);
    ihdr.Push(0);
    ihdr.Push(0);
    assert ihdr.bytes == Header(w, h);
  }

  method EncodePng(img: Image, crcs: CrcTable) returns (png: ByteVector)
    requires img.Valid() && crcs.Valid()
    modifies crcs, crcs.table
    ensures crcs.Valid()
    ensures fresh(png) && png.bytes == PngBytes(img)
  {
    var raw := CollectRows(img);
    var z := StoreRaw(raw);
    png := new ByteVector(SIGNATURE);
    var ihdr := MakeHeader(img.w, img.h);
    PushChunk(png, crcs, IHDR, ihdr.bytes);
    PushChunk(png, crcs, IDAT, z.bytes);
    PushChunk(png, crcs, IEND, []);
  }
}
