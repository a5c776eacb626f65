/**
 A reference decoder for PNG files of one kind (8-bit truecolour with alpha, stored blocks, filter type 0), written
 from the PNG specification, RFC 1950 and RFC 1951 alone: it shares no constant and no checksum with the encoder.
 */
module PngReader {
  import opened Common
  import opened Bytes
  import Png

  // ---- the CRC of section 5.5 of the PNG specification ----

  /** The polynomial's terms below x^32. */
  predicate IsTerm(e: nat) {
    e == 26 || e == 23 || e == 22 || e == 16 || e == 12 || e == 11 || e == 10 || e == 8 || e == 7 || e == 5 || e == 4
    || e <= 2
  }

  /** The remainder so far, by its coefficients from that of x^0 to that of x^31. */
  type Remainder = r: seq<bool> | |r| == 32 witness seq(32, _ => false)

  /** One more bit of the message: times x, and without the polynomial where x^32 comes up. */
  function Divide(r: Remainder, bit: bool): Remainder {
    var overflow := r[31] != bit;
    seq(32, e requires 0 <= e < 32 => (e > 0 && r[e - 1]) != (overflow && IsTerm(e)))
  }

  /** The low `n` bits of a byte, the lowest first. */
  function DivideByte(r: Remainder, b: nat, n: nat): Remainder
    decreases n
  {
    if n == 0 then r else DivideByte(Divide(r, b % 2 == 1), b / 2, n - 1)
  }

  const OCTET: nat := 8

  function DivideAll(r: Remainder, data: seq<Byte>): Remainder
    decreases |data|
  {
    if data == [] then r else DivideAll(DivideByte(r, data[0], OCTET), data[1..])
  }

  /** The inverted coefficients as a number, that of x^0 the most significant bit. */
  function Inverted(r: seq<bool>): nat {
    if r == [] then 0 else 2 * Inverted(r[..|r| - 1]) + if r[|r| - 1] then 0 else 1
  }

  function Crc(data: seq<Byte>): nat {
    Inverted(DivideAll(seq(32, _ => true), data))
  }

  // ---- the checksum of section 2.2 of RFC 1950 ----

  function Total(data: seq<Byte>): nat {
    if data == [] then 0 else data[0] + Total(data[1..])
  }

  /** Each byte as often as there are bytes from it to the end. */
  function Weighted(data: seq<Byte>): nat {
    if data == [] then 0 else |data| * data[0] + Weighted(data[1..])
  }

  function Adler(data: seq<Byte>): nat {
    (|data| + Weighted(data)) % 65521 * 65536 + (1 + Total(data)) % 65521
  }

  // ---- the file ----

  /** The characters of a chunk's type. */
  function Name(kind: seq<Byte>): string {
    seq(|kind|, i requires 0 <= i < |kind| => kind[i] as char)
  }

  datatype Chunk = Chunk(kind: seq<Byte>, data: seq<Byte>)

  const MAX_LENGTH: nat := 0x7fff_ffff

  /** Section 5.3 of the PNG specification: length, type, data, CRC of type and data. */
  function ReadChunk(b: seq<Byte>): Option<(Chunk, seq<Byte>)> {
    if |b| < 12 || ReadBe32(b) > MAX_LENGTH || |b| < 12 + ReadBe32(b) then None
    else
      var end := 8 + ReadBe32(b);
      if Crc(b[4..end]) == ReadBe32(b[end..]) then Some((Chunk(b[4..8], b[8..end]), b[end + 4..])) else None
  }

  function ReadChunks(b: seq<Byte>): Option<seq<Chunk>>
    decreases |b|
  {
    if b == [] then Some([])
    else
      match ReadChunk(b)
      case None => None
      case Some((chunk, rest)) =>
        if |rest| >= |b| then None
        else
          match ReadChunks(rest)
          case None => None
          case Some(more) => Some([chunk] + more)
  }

  /** Section 3.2.4 of RFC 1951: stored blocks up to and including the first marked final. */
  function ReadStored(b: seq<Byte>): Option<(seq<Byte>, seq<Byte>)>
    decreases |b|
  {
    if |b| < 5 || b[0] / 2 % 4 != 0 then None
    else
      var length, complement := b[1] as int + 256 * b[2] as int, b[3] as int + 256 * b[4] as int;
      if length + complement != 0xffff || |b| < 5 + length then None
      else if b[0] % 2 == 1 then Some((b[5..5 + length], b[5 + length..]))
      else
        match ReadStored(b[5 + length..])
        case None => None
        case Some((data, rest)) => Some((b[5..5 + length] + data, rest))
  }

  /** Section 2.2 of RFC 1950: header, compressed data, checksum, and nothing after it. */
  function ReadZlib(b: seq<Byte>): Option<seq<Byte>> {
    if |b| < 2 || b[0] % 16 != 8 || b[0] / 16 > 7 || (b[0] as int * 256 + b[1]) % 31 != 0
      || b[1] / 32 % 2 == 1 then None
    else
      match ReadStored(b[2..])
      case None => None
      case Some((data, rest)) => if |rest| == 4 && ReadBe32(rest) == Adler(data) then Some(data) else None
  }

  /** Rows of filter type 0, and nothing after them. */
  function ReadRows(raw: seq<Byte>, stride: nat, h: nat): Option<seq<Byte>>
    decreases h
  {
    if h == 0 then if raw == [] then Some([]) else None
    else if |raw| < stride + 1 || raw[0] != 0 then None
    else
      match ReadRows(raw[stride + 1..], stride, h - 1)
      case None => None
      case Some(px) => Some(raw[1..stride + 1] + px)
  }

  /** Section 11.2.2: dimensions from 1 to 2^31-1, 8-bit truecolour with alpha, no interlacing. */
  predicate ValidHeader(b: seq<Byte>) {
    |b| == 13 && 0 < ReadBe32(b) <= MAX_LENGTH && 0 < ReadBe32(b[4..]) <= MAX_LENGTH && b[8..] == [8, 6, 0, 0, 0]
  }

  function JoinIdat(chunks: seq<Chunk>): Option<seq<Byte>> {
    if chunks == [] then Some([])
    else if Name(chunks[0].kind) != "IDAT" then None
    else
      match JoinIdat(chunks[1..])
      case None => None
      case Some(more) => Some(chunks[0].data + more)
  }

  /** Sections 5.2 and 5.6: the signature, IHDR first, IEND last, the image data between them. */
  function DecodePng(b: seq<Byte>): Option<Png.Image> {
    if |b| < 8 || b[..8] != [137, 80, 78, 71, 13, 10, 26, 10] then None
    else
      match ReadChunks(b[8..])
      case None => None
      case Some(chunks) => DecodeChunks(chunks)
  }

  function DecodeChunks(chunks: seq<Chunk>): Option<Png.Image> {
    if |chunks| < 3 then None
    else if Name(chunks[0].kind) != "IHDR" || !ValidHeader(chunks[0].data) then None
    else if Name(chunks[|chunks| - 1].kind) != "IEND" || chunks[|chunks| - 1].data != [] then None
    else
      match JoinIdat(chunks[1..|chunks| - 1])
      case None => None
      case Some(z) => DecodePixels(z, ReadBe32(chunks[0].data), ReadBe32(chunks[0].data[4..]))
  }

  function DecodePixels(z: seq<Byte>, w: nat, h: nat): Option<Png.Image> {
    match ReadZlib(z)
    case None => None
    case Some(raw) =>
      match ReadRows(raw, 4 * w, h)
      case None => None
      case Some(px) => Some(Png.Image(w, h, px))
  }
}
