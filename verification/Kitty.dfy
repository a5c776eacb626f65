/**
 The kitty graphics emitter (Tools/TerminalImageAlphaProbe.cpp:248-265) and the terminal's side of it: raw
 pixels in base64, cut into escape codes of at most 4096 characters, of which all but the last announce more.
 */
module Kitty {
  import opened Common
  import opened Decimal
  import opened TextSearch
  import opened Bytes
  import opened Png
  import opened Base64

  const CHUNK: nat := 4096
  const ESC: char := 27 as char
  const OPEN: string := [ESC, '_', 'G']
  const CLOSE: string := [ESC, '\\']

  // ---- writing ----

  function Flag(more: bool): string {
    if more then "1" else "0"
  }

  function Escape(control: string, payload: string): string {
    OPEN + (control + (";" + (payload + CLOSE)))
  }

  /** Transmit and display 32-bit pixels of this size in this many cells. */
  function Placement(w: nat, h: nat, columns: nat, rows: nat): string {
    Fields(["a=T", "f=32", "s=" + Print(w), "v=" + Print(h), "c=" + Print(columns), "r=" + Print(rows)], "")
  }

  /** Fields with a comma behind each. */
  function Fields(fields: seq<string>, rest: string): string {
    if fields == [] then rest else fields[0] + ("," + Fields(fields[1..], rest))
  }

  function Chunks(lead: string, b64: string): string
    decreases |b64|
  {
    if b64 == "" then ""
    else
      var n := if |b64| > CHUNK then CHUNK else |b64|;
      Escape(lead + ("m=" + Flag(n < |b64|)), b64[..n]) + Chunks("", b64[n..])
  }

  method EmitKitty(img: Image, columns: nat, rows: nat) returns (out: string)
    ensures out == Chunks(Placement(img.w, img.h, columns, rows), Encode(img.px))
  {
    var b64 := ToBase64(img.px);
    out := EmitChunks(Placement(img.w, img.h, columns, rows), b64);
  }

  /** The placement goes with the first code only. */
  method EmitChunks(placement: string, b64: string) returns (out: string)
    ensures out == Chunks(placement, b64)
  {
    out := "";
    var offset := 0;
    assert b64[0..] == b64;
    while offset < |b64|
      invariant 0 <= offset <= |b64|
        && out + Chunks(if offset == 0 then placement else "", b64[offset..]) == Chunks(placement, b64)
    {
      var n := if |b64| - offset > CHUNK then CHUNK else |b64| - offset;
      var lead := if offset == 0 then placement else "";
      var code := Escape(lead + ("m=" + Flag(offset + n < |b64|)), b64[offset..offset + n]);
      NextChunk(out, lead, code, b64, offset, n);
      out := out + code;
      offset := offset + n;
    }
  }

  lemma NextChunk(before: string, lead: string, code: string, b64: string, offset: nat, n: nat)
    requires offset < |b64| && n == (if |b64| - offset > CHUNK then CHUNK else |b64| - offset)
    requires code == Escape(lead + ("m=" + Flag(offset + n < |b64|)), b64[offset..offset + n])
    ensures before + code + Chunks("", b64[offset + n..]) == before + Chunks(lead, b64[offset..])
  {
    var rest := b64[offset..];
    assert rest[..n] == b64[offset..offset + n] && rest[n..] == b64[offset + n..];
    assert Chunks(lead, rest) == code + Chunks("", rest[n..]);
  }

  // ---- reading ----

  datatype Code = Code(fields: seq<string>, payload: string)

  /** One escape code and what follows it. */
  function ReadCode(s: string): (r: Option<(Code, string)>)
    ensures r.Some? ==> |r.value.1| < |s|
  {
    if !("\U{1b}_G" <= s) then None
    else
      var body := s[3..];
      var semicolon :- Find(body, ";");
      var data := body[semicolon + 1..];
      var end :- Find(data, "\U{1b}\\");
      Some((Code(Split(body[..semicolon], ","), data[..end]), data[end + 2..]))
  }

  /** The number a key is given, if it is given one. */
  function Key(fields: seq<string>, key: char): Option<nat> {
    if fields == [] then None
    else if |fields[0]| > 2 && fields[0][..2] == [key, '='] && AllDigits(fields[0][2..]) then
      Some(Value(fields[0][2..]))
    else Key(fields[1..], key)
  }

  /** What one code may carry: 4096 characters, and whole groups of four if more are to come. */
  predicate Carried(payload: string, more: bool) {
    |payload| <= 4096 && (more ==> |payload| % 4 == 0)
  }

  /** Payloads one after another, as long as more is announced. */
  function Payloads(s: string): Option<string>
    decreases |s|
  {
    var (code, rest) :- ReadCode(s);
    var more :- Key(code.fields, 'm');
    if !Carried(code.payload, more != 0) then None
    else if more == 0 then if rest == "" then Some(code.payload) else None
    else
      var later :- Payloads(rest);
      Some(code.payload + later)
  }

  /** The first code asks to transmit and display, and to take four bytes for each pixel. */
  predicate ShowsPixels(fields: seq<string>) {
    "a=T" in fields && Key(fields, 'f') == Some(32)
  }

  datatype Placed = Placed(img: Image, columns: nat, rows: nat)

  /** What the terminal shows: an image of the size its first code gives, in so many cells, if so many pixels come. */
  function ReadImage(s: string): Option<Placed> {
    var (first, _) :- ReadCode(s);
    var w :- Key(first.fields, 's');
    var h :- Key(first.fields, 'v');
    var columns :- Key(first.fields, 'c');
    var rows :- Key(first.fields, 'r');
    var payload :- Payloads(s);
    var px :- Decode(payload);
    if ShowsPixels(first.fields) && Image(w, h, px).Valid() then Some(Placed(Image(w, h, px), columns, rows)) else None
  }

  // ---- reading undoes writing ----

  predicate Plain(s: string) {
    forall i :: 0 <= i < |s| ==> s[i] != ESC && s[i] != ';'
  }

  lemma {:induction false} EncodingIsPlain(data: seq<Byte>)
    ensures Plain(Encode(data))
  {
    if |data| > 3 {
      EncodingIsPlain(data[3..]);
    }
  }

  lemma CodeReads(control: string, payload: string, rest: string)
    requires Plain(control) && Plain(payload)
    ensures ReadCode(Escape(control, payload) + rest) == Some((Code(Split(control, ","), payload), rest))
  {
    var tail := payload + (CLOSE + rest);
    FindsFirst(control, ";", tail);
    FindsFirst(payload, CLOSE, rest);
    Opened(control, payload, rest);
    TextSearch.Cuts(control, ";", tail);
    TextSearch.Cuts(payload, CLOSE, rest);
  }

  lemma Opened(control: string, payload: string, rest: string)
    ensures OPEN <= Escape(control, payload) + rest
    ensures (Escape(control, payload) + rest)[|OPEN|..] == control + (";" + (payload + (CLOSE + rest)))
  {
    assert Escape(control, payload) + rest == OPEN + (control + (";" + (payload + (CLOSE + rest))));
  }

  /** The fields of a control: those of the lead, if there is one, and the announcement. */
  predicate Announces(control: string, more: bool) {
    Plain(control) && Key(Split(control, ","), 'm') == Some(if more then 1 else 0)
  }

  lemma {:induction false} ChunksRead(lead: string, b64: string)
    requires b64 != "" && Plain(b64)
    requires forall more: bool :: Announces(lead + ("m=" + Flag(more)), more)
    ensures Payloads(Chunks(lead, b64)) == Some(b64)
    decreases |b64|
  {
    if |b64| > CHUNK {
      BareAnnounces();
      ChunksRead("", b64[CHUNK..]);
      Cut(b64, CHUNK);
      ChunkReads(lead + ("m=" + Flag(true)), b64[..CHUNK], true, Chunks("", b64[CHUNK..]), b64[CHUNK..]);
    } else {
      Cut(b64, |b64|);
      ChunkReads(lead + ("m=" + Flag(false)), b64, false, "", "");
    }
  }

  lemma Cut(s: string, n: nat)
    requires n <= |s|
    ensures s[..n] + s[n..] == s && s[..|s|] == s
    ensures Plain(s) ==> Plain(s[..n]) && Plain(s[n..])
  {
  }

  lemma BareAnnounces()
    ensures forall more: bool :: Announces("" + ("m=" + Flag(more)), more)
  {
    forall more: bool ensures Announces("" + ("m=" + Flag(more)), more) {
      FlagAnnounces(more);
      assert "" + ("m=" + Flag(more)) == "m=" + Flag(more);
    }
  }

  lemma ChunkReads(control: string, payload: string, more: bool, rest: string, later: string)
    requires Plain(payload) && Announces(control, more) && Carried(payload, more)
    requires if more then Payloads(rest) == Some(later) else rest == ""
    ensures Payloads(Escape(control, payload) + rest) == Some(if more then payload + later else payload)
  {
    CodeReads(control, payload, rest);
  }

  lemma FlagAnnounces(more: bool)
    ensures Split("m=" + Flag(more), ",") == ["m=" + Flag(more)]
    ensures Key(["m=" + Flag(more)], 'm') == Some(if more then 1 else 0)
    ensures Announces("m=" + Flag(more), more)
  {
    var field := "m=" + Flag(more);
    SplitsNone(field, ',');
    assert field[2..] == Flag(more);
    assert Value(Flag(more)) == if more then 1 else 0 by {
      assert Flag(more)[..0] == "";
    }
  }

  lemma {:induction false} FieldsMove(fields: seq<string>, rest: string)
    ensures Fields(fields, "") + rest == Fields(fields, rest)
  {
    if fields != [] {
      FieldsMove(fields[1..], rest);
      var f, tail := fields[0], Fields(fields[1..], "");
      assert f + ("," + tail) + rest == f + ("," + (tail + rest));
    }
  }

  predicate IsField(s: string) {
    Plain(s) && ',' !in s
  }

  lemma {:induction false} FieldsSplit(fields: seq<string>, last: string)
    requires forall i :: 0 <= i < |fields| ==> IsField(fields[i])
    requires IsField(last)
    ensures Split(Fields(fields, last), ",") == fields + [last] && Plain(Fields(fields, last))
  {
    if fields == [] {
      SplitsNone(last, ',');
    } else {
      FieldsSplit(fields[1..], last);
      SplitsFirst(fields[0], ',', Fields(fields[1..], last));
      assert fields + [last] == [fields[0]] + (fields[1..] + [last]);
    }
  }

  function Numbered(key: char, n: nat): string {
    [key, '='] + Print(n)
  }

  lemma NumberedIsField(key: char, n: nat)
    requires key != ESC && key != ';' && key != ','
    ensures IsField(Numbered(key, n))
  {
    forall i | 0 <= i < |Print(n)| ensures IsDigit(Print(n)[i]) {}
  }

  lemma FieldReads(key: char, n: nat, rest: seq<string>)
    ensures Key([Numbered(key, n)] + rest, key) == Some(n)
  {
    var field := Numbered(key, n);
    assert field[2..] == Print(n);
    PrintHasValue(n);
    assert ([field] + rest)[0] == field;
  }

  lemma KeySkips(field: string, rest: seq<string>, key: char)
    requires field != "" && field[0] != key
    ensures Key([field] + rest, key) == Key(rest, key)
  {
    assert ([field] + rest)[1..] == rest;
  }

  /** The keys of a first code. */
  lemma PlacementReads(w: nat, h: nat, columns: nat, rows: nat, last: string, more: bool)
    requires last == "m=" + Flag(more)
    ensures var control := Placement(w, h, columns, rows) + last;
      && Announces(control, more)
      && Key(Split(control, ","), 's') == Some(w) && Key(Split(control, ","), 'v') == Some(h)
      && Key(Split(control, ","), 'c') == Some(columns) && Key(Split(control, ","), 'r') == Some(rows)
      && ShowsPixels(Split(control, ","))
  {
    var a, f, s, v, c, r := "a=T", "f=32", Numbered('s', w), Numbered('v', h), Numbered('c', columns),
      Numbered('r', rows);
    NumberedIsField('s', w);
    NumberedIsField('v', h);
    NumberedIsField('c', columns);
    NumberedIsField('r', rows);
    FieldsMove([a, f, s, v, c, r], last);
    FieldsSplit([a, f, s, v, c, r], last);
    KeysOf([a, f, s, v, c, r] + [last], w, h, columns, rows, more);
    FormatReads([s, v, c, r] + [last]);
    assert [a, f, s, v, c, r] + [last] == [a] + ([f] + ([s, v, c, r] + [last]));
  }

  lemma FormatReads(rest: seq<string>)
    ensures ShowsPixels(["a=T"] + (["f=32"] + rest))
  {
    KeySkips("a=T", ["f=32"] + rest, 'f');
    assert "f=32"[2..] == "32" && "32"[..1] == "3" && "3"[..0] == "";
    assert Value("3") == 3;
    assert Value("32") == 32;
    assert (["a=T"] + (["f=32"] + rest))[0] == "a=T";
  }

  lemma KeysOf(fields: seq<string>, w: nat, h: nat, columns: nat, rows: nat, more: bool)
    requires fields == ["a=T", "f=32", Numbered('s', w), Numbered('v', h), Numbered('c', columns), Numbered('r', rows),
      "m=" + Flag(more)]
    ensures Key(fields, 's') == Some(w) && Key(fields, 'v') == Some(h)
    ensures Key(fields, 'c') == Some(columns) && Key(fields, 'r') == Some(rows)
    ensures Key(fields, 'm') == Some(if more then 1 else 0)
  {
    FlagAnnounces(more);
    KeyAt(fields, 2, 's', w);
    KeyAt(fields, 3, 'v', h);
    KeyAt(fields, 4, 'c', columns);
    KeyAt(fields, 5, 'r', rows);
    KeySkipsTo(fields, 6, 'm');
    assert fields[6..] == ["m=" + Flag(more)];
  }

  lemma KeyAt(fields: seq<string>, k: nat, key: char, n: nat)
    requires k < |fields| && fields[k] == Numbered(key, n)
    requires forall i :: 0 <= i < k ==> fields[i] != "" && fields[i][0] != key
    ensures Key(fields, key) == Some(n)
  {
    KeySkipsTo(fields, k, key);
    FieldReads(key, n, fields[k + 1..]);
    assert fields[k..] == [Numbered(key, n)] + fields[k + 1..];
  }

  lemma {:induction false} KeySkipsTo(fields: seq<string>, k: nat, key: char)
    requires k <= |fields| && forall i :: 0 <= i < k ==> fields[i] != "" && fields[i][0] != key
    ensures Key(fields, key) == Key(fields[k..], key)
  {
    if k == 0 {
      assert fields[0..] == fields;
    } else {
      KeySkipsTo(fields[1..], k - 1, key);
      assert fields[1..][k - 1..] == fields[k..];
    }
  }

  /** A terminal shows every image as it is, however many codes it takes; without pixels nothing is sent. */
  lemma KittyReadsBack(img: Image, columns: nat, rows: nat)
    ensures ReadImage(Chunks(Placement(img.w, img.h, columns, rows), Encode(img.px))) ==
      if img.px != [] && img.Valid() then Some(Placed(img, columns, rows)) else None
  {
    if img.px != [] {
      PixelsReadBack(img, columns, rows);
    }
  }

  lemma PixelsReadBack(img: Image, columns: nat, rows: nat)
    requires img.px != []
    ensures ReadImage(Chunks(Placement(img.w, img.h, columns, rows), Encode(img.px))) ==
      if img.Valid() then Some(Placed(img, columns, rows)) else None
  {
    var lead, b64 := Placement(img.w, img.h, columns, rows), Encode(img.px);
    EncodingIsPlain(img.px);
    forall more: bool ensures Announces(lead + ("m=" + Flag(more)), more) {
      PlacementReads(img.w, img.h, columns, rows, "m=" + Flag(more), more);
    }
    ChunksRead(lead, b64);
    FirstCode(lead, b64);
    PlacementReads(img.w, img.h, columns, rows, "m=" + Flag(|b64| > CHUNK), |b64| > CHUNK);
    DecodeUndoesEncode(img.px);
  }

  /** A code carries 4096 characters, or all that are left; the codes behind it have the rest. */
  lemma FirstCode(lead: string, b64: string)
    requires b64 != "" && Plain(b64) && Plain(lead + ("m=" + Flag(|b64| > CHUNK)))
    ensures var read := ReadCode(Chunks(lead, b64));
      && read.Some? && read.value.0.fields == Split(lead + ("m=" + Flag(|b64| > CHUNK)), ",")
      && |read.value.0.payload| == (if |b64| > 4096 then 4096 else |b64|)
      && read.value.1 == Chunks("", b64[|read.value.0.payload|..])
  {
    var n := if |b64| > CHUNK then CHUNK else |b64|;
    CodeReads(lead + ("m=" + Flag(n < |b64|)), b64[..n], Chunks("", b64[n..]));
  }
}
