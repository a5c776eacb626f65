/**
 The reference decoder reads back what the encoder writes (Tools/TerminalImageAlphaProbe.cpp:164-221).
 */
module PngRoundTrip {
  import opened Common
  import opened Bytes
  import opened Checksums
  import opened Png
  import opened PngReader
  import opened ChecksumsAgree

  lemma ChunkParts(length: seq<Byte>, covered: seq<Byte>, crc: seq<Byte>, rest: seq<Byte>)
    requires |length| == 4 && |covered| >= 4 && |crc| == 4
    ensures var b, end := length + covered + crc + rest, |covered| + 4;
      && b == length + (covered + crc + rest)
      && b[4..end] == covered && b[4..8] == covered[..4] && b[8..end] == covered[4..]
      && b[end..] == crc + rest && b[end + 4..] == rest
  {
  }

  lemma ChunkReadsBack(kind: seq<Byte>, data: seq<Byte>, rest: seq<Byte>)
    requires |kind| == 4 && |data| <= MAX_LENGTH
    ensures ReadChunk(ChunkBytes(kind, data) + rest) == Some((Chunk(kind, data), rest))
  {
    var covered := kind + data;
    var crc := CrcBytes(covered);
    ChunkParts(Be32(|data|), covered, crc, rest);
    Be32ReadsBack(|data|, covered + crc + rest);
    CrcReadsBack(covered, rest);
    assert covered[..4] == kind && covered[4..] == data;
  }

  lemma CrcReadsBack(covered: seq<Byte>, rest: seq<Byte>)
    ensures ReadBe32(CrcBytes(covered) + rest) == Crc(covered)
  {
    var w := Xor(BitwiseCrc(AllOnes(), covered), AllOnes());
    BitsOfNumber(w);
    Powers();
    CrcsAgree(covered);
    Be32ReadsBack(Number(w), rest);
  }

  /** `c` reads as `chunk` whatever follows it. */
  ghost predicate Encodes(c: seq<Byte>, chunk: Chunk) {
    c != [] && forall rest :: ReadChunk(c + rest) == Some((chunk, rest))
  }

  lemma ChunkEncodes(kind: seq<Byte>, data: seq<Byte>)
    requires |kind| == 4 && |data| <= MAX_LENGTH
    ensures Encodes(ChunkBytes(kind, data), Chunk(kind, data))
  {
    forall rest ensures ReadChunk(ChunkBytes(kind, data) + rest) == Some((Chunk(kind, data), rest)) {
      ChunkReadsBack(kind, data, rest);
    }
  }

  function Flatten(parts: seq<seq<Byte>>): seq<Byte> {
    if parts == [] then [] else parts[0] + Flatten(parts[1..])
  }

  /** Encoded chunks one after another read back as those chunks. */
  lemma {:induction false} AllEncoded(parts: seq<seq<Byte>>, chunks: seq<Chunk>)
    requires |parts| == |chunks| && forall i :: 0 <= i < |parts| ==> Encodes(parts[i], chunks[i])
    ensures ReadChunks(Flatten(parts)) == Some(chunks)
  {
    if parts != [] {
      AllEncoded(parts[1..], chunks[1..]);
      OneEncoded(parts[0], chunks[0], Flatten(parts[1..]), chunks[1..]);
      assert chunks == [chunks[0]] + chunks[1..];
    }
  }

  lemma OneEncoded(c: seq<Byte>, chunk: Chunk, rest: seq<Byte>, more: seq<Chunk>)
    requires Encodes(c, chunk) && ReadChunks(rest) == Some(more)
    ensures ReadChunks(c + rest) == Some([chunk] + more)
  {
    assert ReadChunk(c + rest) == Some((chunk, rest));
  }

  lemma StoredBlockReadsBack(last: bool, data: seq<Byte>, rest: seq<Byte>)
    requires |data| <= MAX_STORED
    ensures ReadStored(StoredBlock(last, data) + rest) ==
            if last then Some((data, rest))
            else match ReadStored(rest) case None => None case Some((more, after)) => Some((data + more, after))
  {
    var b := StoredBlock(last, data) + rest;
    assert b[5..5 + |data|] == data && b[5 + |data|..] == rest;
  }

  /** The blocks hold the whole of `raw`, and only the last of them is marked final. */
  lemma {:induction false} BlocksReadBack(raw: seq<Byte>, rest: seq<Byte>)
    requires raw != []
    ensures ReadStored(Blocks(raw) + rest) == Some((raw, rest))
    decreases |raw|
  {
    if |raw| <= MAX_STORED {
      StoredBlockReadsBack(true, raw, rest);
    } else {
      var first, more := raw[..MAX_STORED], raw[MAX_STORED..];
      BlocksReadBack(more, rest);
      StoredBlockReadsBack(false, first, Blocks(more) + rest);
      Regroup(StoredBlock(false, first), Blocks(more), rest);
      assert first + more == raw;
    }
  }

  lemma ZlibFrame(blocks: seq<Byte>, raw: seq<Byte>)
    requires ReadStored(blocks + Be32(AdlerValue(raw))) == Some((raw, Be32(AdlerValue(raw))))
    ensures ReadZlib([0x78, 0x01] + blocks + Be32(AdlerValue(raw))) == Some(raw)
  {
    AdlersAgree(raw);
    Be32ReadsBack(AdlerValue(raw), []);
    Behind([0x78, 0x01], blocks, Be32(AdlerValue(raw)));
  }

  lemma Behind(head: seq<Byte>, blocks: seq<Byte>, check: seq<Byte>)
    ensures (head + blocks + check)[|head|..] == blocks + check && (head + blocks + check)[..|head|] == head
  {
  }

  lemma ZlibReadsBack(raw: seq<Byte>)
    requires raw != []
    ensures ReadZlib(Zlib(raw)) == Some(raw)
  {
    BlocksReadBack(raw, Be32(AdlerValue(raw)));
    ZlibFrame(Blocks(raw), raw);
  }

  lemma {:induction false} RowsReadBack(px: seq<Byte>, stride: nat, h: nat)
    requires |px| == stride * h
    ensures ReadRows(Rows(px, stride, h), stride, h) == Some(px)
    decreases h
  {
    if h > 0 {
      assert stride * h == stride + stride * (h - 1);
      RowsReadBack(px[stride..], stride, h - 1);
      FirstRow(px[..stride], Rows(px[stride..], stride, h - 1));
      assert px == px[..stride] + px[stride..];
    } else {
      assert px == [];
    }
  }

  lemma FirstRow(row: seq<Byte>, more: seq<Byte>)
    ensures var raw := [0] + row + more; raw[1..|row| + 1] == row && raw[|row| + 1..] == more
  {
  }

  lemma HeaderReadsBack(w: nat, h: nat)
    requires w < TWO_32 && h < TWO_32
    ensures ReadBe32(Header(w, h)) == w && ReadBe32(Header(w, h)[4..]) == h
    ensures ValidHeader(Header(w, h)) <==> 0 < w <= MAX_LENGTH && 0 < h <= MAX_LENGTH
  {
    Be32ReadsBack(w, Be32(h) + [8, 6, 0, 0, 0]);
    assert Header(w, h) == Be32(w) + (Be32(h) + [8, 6, 0, 0, 0]);
    Be32ReadsBack(h, [8, 6, 0, 0, 0]);
    assert Header(w, h)[4..] == Be32(h) + [8, 6, 0, 0, 0];
    assert Header(w, h)[8..] == [8, 6, 0, 0, 0];
  }

  /**
   The main result: as long as the compressed data fits in one chunk, a decoder that follows the
   standards reads the image back exactly when the image is not empty -- an empty one is not a PNG.
   */
  lemma PngReadsBack(img: Image)
    requires img.Valid() && img.w <= MAX_LENGTH && img.h <= MAX_LENGTH
    requires |Zlib(Rows(img.px, 4 * img.w, img.h))| <= MAX_LENGTH
    ensures DecodePng(PngBytes(img)) == Some(img) <==> img.w >= 1 && img.h >= 1
    ensures DecodePng(PngBytes(img)).Some? ==> DecodePng(PngBytes(img)) == Some(img)
  {
    ChunksOfPng(img);
    ChunksDecode(img);
  }

  lemma ChunksDecode(img: Image)
    requires img.Valid() && img.w <= MAX_LENGTH && img.h <= MAX_LENGTH
    ensures DecodeChunks(ChunksFor(img)) == if img.w >= 1 && img.h >= 1 then Some(img) else None
  {
    HeaderReadsBack(img.w, img.h);
    ThreeChunksDecode(Header(img.w, img.h), Zlib(Rows(img.px, 4 * img.w, img.h)));
    if img.w >= 1 && img.h >= 1 {
      PixelsDecode(img);
    }
  }

  lemma PixelsDecode(img: Image)
    requires img.Valid() && img.h >= 1
    ensures DecodePixels(Zlib(Rows(img.px, 4 * img.w, img.h)), img.w, img.h) == Some(img)
  {
    RowsNotEmpty(img);
    ZlibReadsBack(Rows(img.px, 4 * img.w, img.h));
    RowsReadBack(img.px, 4 * img.w, img.h);
  }

  lemma ThreeChunksDecode(header: seq<Byte>, z: seq<Byte>)
    ensures DecodeChunks([Chunk(IHDR, header), Chunk(IDAT, z), Chunk(IEND, [])]) ==
            if ValidHeader(header) then DecodePixels(z, ReadBe32(header), ReadBe32(header[4..])) else None
  {
    OneIdat(z);
    assert [Chunk(IHDR, header), Chunk(IDAT, z), Chunk(IEND, [])][1..2] == [Chunk(IDAT, z)];
  }

  function ChunksFor(img: Image): seq<Chunk>
    requires img.Valid()
  {
    [Chunk(IHDR, Header(img.w, img.h)), Chunk(IDAT, Zlib(Rows(img.px, 4 * img.w, img.h))), Chunk(IEND, [])]
  }

  lemma RowsNotEmpty(img: Image)
    requires img.Valid() && img.h >= 1
    ensures Rows(img.px, 4 * img.w, img.h) != []
  {
    assert (4 * img.w + 1) * img.h >= 1;
  }

  lemma OneIdat(z: seq<Byte>)
    ensures JoinIdat([Chunk(IDAT, z)]) == Some(z)
  {
    assert [Chunk(IDAT, z)][1..] == [];
    assert z + [] == z;
  }

  lemma ChunksOfPng(img: Image)
    requires img.Valid()
    requires |Zlib(Rows(img.px, 4 * img.w, img.h))| <= MAX_LENGTH
    ensures var b := PngBytes(img); |b| >= 8 && b[..8] == SIGNATURE && ReadChunks(b[8..]) == Some(ChunksFor(img))
  {
    var header, z := Header(img.w, img.h), Zlib(Rows(img.px, 4 * img.w, img.h));
    ChunkEncodes(IHDR, header);
    ChunkEncodes(IDAT, z);
    ChunkEncodes(IEND, []);
    FileReadsBack(ChunkBytes(IHDR, header), ChunkBytes(IDAT, z), ChunkBytes(IEND, []),
                  Chunk(IHDR, header), Chunk(IDAT, z), Chunk(IEND, []));
  }

  lemma FileReadsBack(a: seq<Byte>, b: seq<Byte>, c: seq<Byte>, x: Chunk, y: Chunk, z: Chunk)
    requires Encodes(a, x) && Encodes(b, y) && Encodes(c, z)
    ensures var all := SIGNATURE + a + b + c;
      |all| >= 8 && all[..8] == SIGNATURE && ReadChunks(all[8..]) == Some([x, y, z])
  {
    AllEncoded([a, b, c], [x, y, z]);
    AfterSignature(a, b, c);
  }

  lemma AfterSignature(a: seq<Byte>, b: seq<Byte>, c: seq<Byte>)
    ensures var all := SIGNATURE + a + b + c; |all| >= 8 && all[..8] == SIGNATURE && all[8..] == Flatten([a, b, c])
  {
    assert [a, b, c][1..] == [b, c] && [b, c][1..] == [c] && [c][1..] == [];
    assert Flatten([c]) == c && Flatten([b, c]) == b + c && Flatten([a, b, c]) == a + (b + c);
  }
}
