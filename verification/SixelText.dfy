/**
 The sixel data stream (DEC VT330/VT340 Programmer Reference Manual, volume 2, chapter 14): how its items
 are written, how a terminal reads them back, and what they paint.
 */
module SixelText {
  import opened Common
  import opened Decimal

  /** A column of six dots, the topmost in the lowest bit. */
  type Dots = n: nat | n < 64

  datatype Item =
    | Define(index: nat, r: nat, g: nat, b: nat)
    | Select(index: nat)
    | Column(dots: Dots)
    | Return
    | NextBand

  const ESC: char := 27 as char

  // ---- writing ----

  function PrintParams(ns: seq<nat>): string
    requires ns != []
  {
    Print(ns[0]) + if |ns| == 1 then "" else ";" + PrintParams(ns[1..])
  }

  function DataChar(bits: Dots): (c: char)
    ensures 63 <= c as int <= 126 && c as int == 63 + bits
  {
    (63 + bits) as char
  }

  function PrintItem(item: Item): (s: string)
    ensures s != "" && !IsDigit(s[0]) && s[0] != ';' && s[0] != ESC
  {
    match item
    case Define(i, r, g, b) => "#" + PrintParams([i, 2, r, g, b])
    case Select(i) => "#" + PrintParams([i])
    case Column(bits) => [DataChar(bits)]
    case Return => "$"
    case NextBand => "-"
  }

  function PrintItems(items: seq<Item>): string
  {
    if items == [] then "" else PrintItem(items[0]) + PrintItems(items[1..])
  }

  lemma {:induction false} PrintAppends(a: seq<Item>, b: seq<Item>)
    ensures PrintItems(a + b) == PrintItems(a) + PrintItems(b)
  {
    if a == [] {
      assert a + b == b;
    } else {
      PrintAppends(a[1..], b);
      HeadAndTail(a, b);
      Regroup(PrintItem(a[0]), PrintItems(a[1..]), PrintItems(b));
    }
  }

  lemma HeadAndTail(a: seq<Item>, b: seq<Item>)
    requires a != []
    ensures (a + b)[0] == a[0] && (a + b)[1..] == a[1..] + b
  {
  }

  lemma Regroup(a: string, b: string, c: string)
    ensures a + b + c == a + (b + c)
  {
  }

  lemma PrintOne(item: Item)
    ensures PrintItems([item]) == PrintItem(item)
  {
    assert [item][1..] == [];
  }

  // ---- reading ----

  function TakeNumber(s: string): (r: (nat, string))
    ensures |r.1| <= |s|
  {
    (Value(s[..TakeDigits(s)]), s[TakeDigits(s)..])
  }

  /** Numbers between semicolons, and what follows them. */
  function TakeParams(s: string): (r: (seq<nat>, string))
    ensures r.0 != [] && |r.1| <= |s|
    decreases |s|
  {
    var (n, rest) := TakeNumber(s);
    if rest != "" && rest[0] == ';' then
      var (ns, after) := TakeParams(rest[1..]);
      ([n] + ns, after)
    else ([n], rest)
  }

  function ItemOf(ns: seq<nat>): Option<Item> {
    if |ns| == 1 then Some(Select(ns[0]))
    else if |ns| == 5 && ns[1] == 2 then Some(Define(ns[0], ns[2], ns[3], ns[4]))
    else None
  }

  function ReadItem(s: string): (r: Option<(Item, string)>)
    ensures r.Some? ==> |r.value.1| < |s|
  {
    if s == "" then None
    else if s[0] == '$' then Some((Return, s[1..]))
    else if s[0] == '-' then Some((NextBand, s[1..]))
    else if s[0] == '#' then
      var (ns, rest) := TakeParams(s[1..]);
      match ItemOf(ns) {
        case Some(item) => Some((item, rest))
        case None => None
      }
    else if 63 <= s[0] as int <= 126 then Some((Column(s[0] as int - 63), s[1..]))
    else None
  }

  const TERMINATOR: string := [ESC, '\\']

  function ReadItems(s: string): Option<seq<Item>>
    decreases |s|
  {
    if s == "\U{1b}\\" then Some([])
    else
      match ReadItem(s)
      case None => None
      case Some((item, rest)) =>
        match ReadItems(rest)
        case None => None
        case Some(items) => Some([item] + items)
  }

  /** Something that cannot be taken for more of a number list. */
  predicate Breaks(rest: string) {
    rest != "" && !IsDigit(rest[0]) && rest[0] != ';'
  }

  lemma NumberReads(n: nat, rest: string)
    requires rest == "" || !IsDigit(rest[0])
    ensures TakeNumber(Print(n) + rest) == (n, rest)
  {
    PrintHasValue(n);
    TakeDigitsExact(Print(n), rest);
    assert (Print(n) + rest)[..|Print(n)|] == Print(n);
  }

  lemma MoreParams(n: nat, more: string, rest: string)
    ensures TakeParams(Print(n) + (";" + more) + rest) ==
            ([n] + TakeParams(more + rest).0, TakeParams(more + rest).1)
  {
    var s := ";" + (more + rest);
    NumberReads(n, s);
    assert s[1..] == more + rest;
    assert Print(n) + (";" + more) + rest == Print(n) + s;
  }

  lemma {:induction false} ParamsRead(ns: seq<nat>, rest: string)
    requires ns != [] && Breaks(rest)
    ensures TakeParams(PrintParams(ns) + rest) == (ns, rest)
    decreases |ns|
  {
    if |ns| == 1 {
      NumberReads(ns[0], rest);
      assert PrintParams(ns) == Print(ns[0]);
      assert ns == [ns[0]];
    } else {
      ParamsRead(ns[1..], rest);
      MoreParams(ns[0], PrintParams(ns[1..]), rest);
      assert [ns[0]] + ns[1..] == ns;
    }
  }

  lemma Behind(a: string, b: string, c: string)
    ensures a <= a + b + c && (a + b + c)[|a|..] == b + c
  {
  }

  lemma HashReads(ns: seq<nat>, item: Item, rest: string)
    requires ns != [] && Breaks(rest) && ItemOf(ns) == Some(item)
    ensures ReadItem("#" + PrintParams(ns) + rest) == Some((item, rest))
  {
    var s := "#" + PrintParams(ns) + rest;
    ParamsRead(ns, rest);
    Behind("#", PrintParams(ns), rest);
  }

  lemma CharReads(c: char, rest: string)
    ensures c == '$' ==> ReadItem([c] + rest) == Some((Return, rest))
    ensures c == '-' ==> ReadItem([c] + rest) == Some((NextBand, rest))
    ensures 63 <= c as int <= 126 ==> ReadItem([c] + rest) == Some((Column(c as int - 63), rest))
  {
    assert ([c] + rest)[1..] == rest;
  }

  lemma ItemReads(item: Item, rest: string)
    requires Breaks(rest)
    ensures ReadItem(PrintItem(item) + rest) == Some((item, rest))
  {
    match item
    case Define(i, r, g, b) => HashReads([i, 2, r, g, b], item, rest);
    case Select(i) => HashReads([i], item, rest);
    case Column(bits) => CharReads(DataChar(bits), rest);
    case Return => CharReads('$', rest);
    case NextBand => CharReads('-', rest);
  }

  lemma Starts(items: seq<Item>)
    ensures Breaks(PrintItems(items) + TERMINATOR)
    ensures items != [] ==> (PrintItems(items) + TERMINATOR)[0] != ESC
  {
  }

  /** A terminal reads back the items that were written, whatever they are. */
  lemma {:induction false} ItemsReadBack(items: seq<Item>)
    ensures ReadItems(PrintItems(items) + TERMINATOR) == Some(items)
  {
    if items == [] {
      assert PrintItems(items) + TERMINATOR == TERMINATOR;
    } else {
      var rest := PrintItems(items[1..]) + TERMINATOR;
      Starts(items);
      Starts(items[1..]);
      ItemReads(items[0], rest);
      ItemsReadBack(items[1..]);
      Regroup(PrintItem(items[0]), PrintItems(items[1..]), TERMINATOR);
      assert [items[0]] + items[1..] == items;
    }
  }

  // ---- painting ----

  type Canvas = map<(nat, nat), nat>

  /** Where the terminal stands, the colours it knows, and what it has painted: (x, y) to a colour number. */
  datatype Pen = Pen(x: nat, band: nat, colour: nat, colours: map<nat, (nat, nat, nat)>, canvas: Canvas)

  function Weight(r: nat): (w: nat)
    requires r < 6
    ensures w > 0
  {
    match r
    case 0 => 1
    case 1 => 2
    case 2 => 4
    case 3 => 8
    case 4 => 16
    case _ => 32
  }

  /** Dot `r` from the top is painted. */
  predicate Bit(bits: Dots, r: nat)
    requires r < 6
  {
    match r
    case 0 => bits % 2 == 1
    case 1 => bits / 2 % 2 == 1
    case 2 => bits / 4 % 2 == 1
    case 3 => bits / 8 % 2 == 1
    case 4 => bits / 16 % 2 == 1
    case _ => bits / 32 == 1
  }

  /** The upper `n` of a column's six dots, painted where the bits are set. */
  function DotsUpTo(canvas: Canvas, x: nat, top: nat, bits: Dots, colour: nat, n: nat): Canvas
    requires n <= 6
  {
    if n == 0 then canvas
    else
      var above := DotsUpTo(canvas, x, top, bits, colour, n - 1);
      if Bit(bits, n - 1) then above[(x, top + n - 1) := colour] else above
  }

  function Apply(pen: Pen, item: Item): Pen {
    match item
    case Define(i, r, g, b) => pen.(colours := pen.colours[i := (r, g, b)])
    case Select(i) => pen.(colour := i)
    case Column(bits) => pen.(x := pen.x + 1, canvas := DotsUpTo(pen.canvas, pen.x, 6 * pen.band, bits, pen.colour, 6))
    case Return => pen.(x := 0)
    case NextBand => pen.(x := 0, band := pen.band + 1)
  }

  function Paint(pen: Pen, items: seq<Item>): Pen {
    if items == [] then pen else Apply(Paint(pen, items[..|items| - 1]), items[|items| - 1])
  }

  lemma {:induction false} PaintAppends(pen: Pen, a: seq<Item>, b: seq<Item>)
    ensures Paint(pen, a + b) == Paint(Paint(pen, a), b)
  {
    if b == [] {
      assert a + b == a;
    } else {
      PaintAppends(pen, a, b[..|b| - 1]);
      assert (a + b)[..|a + b| - 1] == a + b[..|b| - 1];
    }
  }

  lemma PaintOne(pen: Pen, item: Item)
    ensures Paint(pen, [item]) == Apply(pen, item)
  {
    assert [item][..0] == [];
  }

  /** A column touches the dots of its set bits and nothing else. */
  lemma {:induction false} DotsPaint(canvas: Canvas, x: nat, top: nat, bits: Dots, colour: nat, n: nat, p: (nat, nat))
    requires n <= 6
    ensures var hit := p.0 == x && top <= p.1 < top + n && Bit(bits, p.1 - top);
      var after := DotsUpTo(canvas, x, top, bits, colour, n);
      && (p in after <==> hit || p in canvas)
      && (p in after ==> after[p] == if hit then colour else canvas[p])
  {
    if n > 0 {
      DotsPaint(canvas, x, top, bits, colour, n - 1, p);
    }
  }
}
