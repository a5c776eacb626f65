/** Base64 (section 4 of RFC 4648) as the probe writes it (Tools/TerminalImageAlphaProbe.cpp:223-239). */
module Base64 {
  import opened Common
  import opened Bytes

  function Digit(n: nat): (c: char)
    requires n < 64
    ensures c != '=' && c as int < 128 && c != ';'
  {
    if n < 26 then ('A' as int + n) as char
    else if n < 52 then ('a' as int + n - 26) as char
    else if n < 62 then ('0' as int + n - 52) as char
    else if n == 62 then '+' else '/'
  }

  function DigitValue(c: char): (r: Option<nat>)
    ensures r.Some? ==> r.value < 64
  {
    if 'A' <= c <= 'Z' then Some(c as int - 'A' as int)
    else if 'a' <= c <= 'z' then Some(c as int - 'a' as int + 26)
    else if '0' <= c <= '9' then Some(c as int - '0' as int + 52)
    else if c == '+' then Some(62) else if c == '/' then Some(63) else None
  }

  lemma DigitReads(n: nat)
    requires n < 64
    ensures DigitValue(Digit(n)) == Some(n)
  {
  }

  function Word(a: Byte, b: Byte, c: Byte): (v: nat)
    ensures v < 0x100_0000
  {
    a * 0x1_0000 + b * 0x100 + c
  }

  /** One to three bytes as four characters. */
  function Group(d: seq<Byte>): (s: string)
    requires 1 <= |d| <= 3
    ensures |s| == 4
  {
    var v := Word(d[0], if |d| > 1 then d[1] else 0, if |d| > 2 then d[2] else 0);
    [Digit(v / 0x4_0000), Digit(v / 0x1000 % 64),
     if |d| > 1 then Digit(v / 64 % 64) else '=', if |d| > 2 then Digit(v % 64) else '=']
  }

  function Encode(data: seq<Byte>): (s: string)
    ensures s == "" <==> data == []
  {
    if data == [] then "" else if |data| <= 3 then Group(data) else Group(data[..3]) + Encode(data[3..])
  }

  /** The bytes of four characters; padding says how many there are. */
  function ReadGroup(s: string): (r: Option<seq<Byte>>)
    requires |s| == 4
    ensures r.Some? ==> 1 <= |r.value| <= 3
  {
    var a :- DigitValue(s[0]);
    var b :- DigitValue(s[1]);
    var c :- if s[2] == '=' then Some(0) else DigitValue(s[2]);
    var d :- if s[3] == '=' then Some(0) else DigitValue(s[3]);
    var v := a * 0x4_0000 + b * 0x1000 + c * 64 + d;
    if s[2] == '=' then if s[3] == '=' then Some([v / 0x1_0000]) else None
    else if s[3] == '=' then Some([v / 0x1_0000, v / 0x100 % 0x100])
    else Some([v / 0x1_0000, v / 0x100 % 0x100, v % 0x100])
  }

  /** Only the last group may be padded. */
  function Decode(s: string): Option<seq<Byte>>
    decreases |s|
  {
    if s == "" then Some([])
    else if |s| < 4 then None
    else
      var first :- ReadGroup(s[..4]);
      var rest :- Decode(s[4..]);
      if |first| < 3 && s[4..] != "" then None else Some(first + rest)
  }

  // ---- the program ----

  method ToBase64(data: seq<Byte>) returns (out: string)
    ensures out == Encode(data)
  {
    out := "";
    var i := 0;
    assert data[0..] == data;
    while i < |data|
      invariant 0 <= i && (i <= |data| ==> out + Encode(data[i..]) == Encode(data))
      invariant i > |data| ==> out == Encode(data)
    {
      var group := ToGroup(data, i);
      ghost var before := out;
      out := out + group;
      EncodeStep(data, i);
      Appends(before, group, if i + 3 <= |data| then Encode(data[i + 3..]) else "");
      i := i + 3;
    }
  }

  /** Missing bytes count as zero and show as padding. */
  method ToGroup(data: seq<Byte>, i: nat) returns (group: string)
    requires i < |data|
    ensures group == GroupAt(data, i)
  {
    var a := data[i];
    var b: Byte := if i + 1 < |data| then data[i + 1] else 0;
    var c: Byte := if i + 2 < |data| then data[i + 2] else 0;
    var v := Word(a, b, c);
    group := [Digit(v / 0x4_0000), Digit(v / 0x1000 % 64),
              if i + 1 < |data| then Digit(v / 64 % 64) else '=', if i + 2 < |data| then Digit(v % 64) else '='];
  }

  lemma Appends(a: string, b: string, c: string)
    ensures a + (b + c) == a + b + c
  {
  }

  function GroupAt(data: seq<Byte>, i: nat): string
    requires i < |data|
  {
    Group(data[i..if i + 3 <= |data| then i + 3 else |data|])
  }

  lemma EncodeStep(data: seq<Byte>, i: nat)
    requires i < |data|
    ensures Encode(data[i..]) == GroupAt(data, i) + if i + 3 <= |data| then Encode(data[i + 3..]) else ""
  {
    var rest := data[i..];
    if |rest| > 3 {
      assert rest[..3] == data[i..i + 3] && rest[3..] == data[i + 3..];
    } else {
      assert rest == data[i..|data|];
      assert |rest| == 3 ==> data[i + 3..] == [];
    }
  }

  // ---- decoding undoes encoding ----

  lemma BytesOfWord(a: Byte, b: Byte, c: Byte)
    ensures var v := Word(a, b, c); v / 0x1_0000 == a && v / 0x100 % 0x100 == b && v % 0x100 == c
  {
    var v := Word(a, b, c);
    assert v / 0x100 == a * 0x100 + b;
  }

  lemma SextetsOfWord(v: nat)
    requires v < 0x100_0000
    ensures v / 0x4_0000 < 64
    ensures v == v / 0x4_0000 * 0x4_0000 + v / 0x1000 % 64 * 0x1000 + v / 64 % 64 * 64 + v % 64
  {
    var x := v / 64;
    var y := x / 64;
    assert y == v / 0x1000 && y / 64 == v / 0x4_0000;
    assert v == x * 64 + v % 64 && x == y * 64 + x % 64 && y == y / 64 * 64 + y % 64;
  }

  /** What padding stands for is zero. */
  lemma PaddingIsZero(a: Byte, b: Byte)
    ensures Word(a, b, 0) % 64 == 0 && Word(a, 0, 0) / 64 % 64 == 0
  {
    assert Word(a, 0, 0) / 64 == a * 1024;
  }

  function WordOf(d: seq<Byte>): (v: nat)
    requires 1 <= |d| <= 3
    ensures v < 0x100_0000
  {
    Word(d[0], if |d| > 1 then d[1] else 0, if |d| > 2 then d[2] else 0)
  }

  lemma GroupDigits(d: seq<Byte>)
    requires 1 <= |d| <= 3
    ensures var v, s := WordOf(d), Group(d);
      && v / 0x4_0000 < 64
      && DigitValue(s[0]) == Some(v / 0x4_0000) && DigitValue(s[1]) == Some(v / 0x1000 % 64)
      && (if s[2] == '=' then |d| == 1 else |d| > 1 && DigitValue(s[2]) == Some(v / 64 % 64))
      && (if s[3] == '=' then |d| < 3 else |d| == 3 && DigitValue(s[3]) == Some(v % 64))
  {
    var v := WordOf(d);
    SextetsOfWord(v);
    DigitReads(v / 0x4_0000);
    DigitReads(v / 0x1000 % 64);
    DigitReads(v / 64 % 64);
    DigitReads(v % 64);
  }

  lemma PaddedWord(d: seq<Byte>)
    requires 1 <= |d| <= 3
    ensures |d| < 3 ==> WordOf(d) % 64 == 0
    ensures |d| == 1 ==> WordOf(d) / 64 % 64 == 0
  {
    PaddingIsZero(d[0], 0);
    if |d| == 2 {
      PaddingIsZero(d[0], d[1]);
    }
  }

  lemma BytesOfGroup(d: seq<Byte>, padded2: bool, padded3: bool)
    requires 1 <= |d| <= 3 && padded2 == (|d| == 1) && padded3 == (|d| < 3)
    ensures var v := WordOf(d);
      d == if padded2 then [v / 0x1_0000] else if padded3 then [v / 0x1_0000, v / 0x100 % 0x100]
           else [v / 0x1_0000, v / 0x100 % 0x100, v % 0x100]
  {
    BytesOfWord(d[0], if |d| > 1 then d[1] else 0, if |d| > 2 then d[2] else 0);
  }

  lemma GroupReads(d: seq<Byte>, s: string)
    requires 1 <= |d| <= 3 && s == Group(d)
    ensures ReadGroup(s) == Some(d)
  {
    GroupDigits(d);
    PaddedWord(d);
    SextetsRead(WordOf(d), s);
    BytesOfGroup(d, s[2] == '=', s[3] == '=');
  }

  /** The word that a group's characters give back. */
  lemma SextetsRead(v: nat, s: string)
    requires v < 0x100_0000 && |s| == 4 && v / 0x4_0000 < 64
    requires DigitValue(s[0]) == Some(v / 0x4_0000) && DigitValue(s[1]) == Some(v / 0x1000 % 64)
    requires if s[2] == '=' then v / 64 % 64 == 0 else DigitValue(s[2]) == Some(v / 64 % 64)
    requires if s[3] == '=' then v % 64 == 0 else DigitValue(s[3]) == Some(v % 64)
    requires s[2] == '=' ==> s[3] == '='
    ensures ReadGroup(s) == Some(
      if s[2] == '=' then [v / 0x1_0000] else if s[3] == '=' then [v / 0x1_0000, v / 0x100 % 0x100]
      else [v / 0x1_0000, v / 0x100 % 0x100, v % 0x100])
  {
    SextetsOfWord(v);
    var a, b := DigitValue(s[0]).value, DigitValue(s[1]).value;
    var c := if s[2] == '=' then 0 else DigitValue(s[2]).value;
    var d := if s[3] == '=' then 0 else DigitValue(s[3]).value;
    assert c == v / 64 % 64 && d == v % 64;
    assert a * 0x4_0000 + b * 0x1000 + c * 64 + d == v;
  }

  /** For every byte string. */
  lemma {:induction false} DecodeUndoesEncode(data: seq<Byte>)
    ensures Decode(Encode(data)) == Some(data)
  {
    if data != [] {
      var first := if |data| <= 3 then data else data[..3];
      var rest := data[|first|..];
      GroupReads(first, Group(first));
      DecodeUndoesEncode(rest);
      var s := Encode(data);
      assert Encode(rest) == "" <==> rest == [];
      assert s == Group(first) + Encode(rest);
      assert s[..4] == Group(first) && s[4..] == Encode(rest);
      assert data == first + rest;
    }
  }
}
