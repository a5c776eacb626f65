/**
 The probe's message frames (Tools/lsp-capability-probe.py:209-215, 238-273): `Content-Length: N`, an empty
 line, N bytes. What arrives is cut into chunks anywhere.
 */
module LspFrames {
  import opened Common
  import opened Decimal
  import opened TextSearch

  const SEPARATOR: string := "\r\n\r\n"
  const NEWLINE: string := "\r\n"
  const FIELD: string := "content-length"

  // ---- writing ----

  function Head(n: nat): string {
    "Content-Length: " + Print(n)
  }

  function Frame(body: string): string {
    Head(|body|) + ("\r\n\r\n" + body)
  }

  function Stream(bodies: seq<string>): string {
    if bodies == [] then "" else Frame(bodies[0]) + Stream(bodies[1..])
  }

  // ---- the byte-string operations of the parser ----

  predicate NamesLength(line: string) {
    |line| >= |FIELD| && forall i :: 0 <= i < |FIELD| ==> Lower(line[i]) == FIELD[i]
  }

  /** The first header line that gives a length. */
  function LengthLine(lines: seq<string>): Option<string> {
    if lines == [] then None else if NamesLength(lines[0]) then Some(lines[0]) else LengthLine(lines[1..])
  }

  function Strip(s: string): string {
    if s != "" && IsSpace(s[0]) then Strip(s[1..])
    else if s != "" && IsSpace(s[|s| - 1]) then Strip(s[..|s| - 1])
    else s
  }

  /** Decimal digits, with single underscores between them. */
  predicate Grouped(s: string): (g: bool)
    ensures s != "" && AllDigits(s) ==> g
    ensures g ==> forall c <- s :: IsDigit(c) || c == '_'
    decreases |s|
  {
    s != "" && IsDigit(s[0]) && (|s| == 1 || if s[1] == '_' then Grouped(s[2..]) else Grouped(s[1..]))
  }

  function DigitsOf(s: string): (r: string)
    ensures AllDigits(r)
    ensures AllDigits(s) ==> r == s
  {
    if s == "" then "" else (if IsDigit(s[0]) then [s[0]] else "") + DigitsOf(s[1..])
  }

  /** Python's int() on decimal text; None where it raises. */
  function ParseInt(s: string): Option<int> {
    var t := Strip(s);
    var digits := if t != "" && (t[0] == '-' || t[0] == '+') then t[1..] else t;
    if !Grouped(digits) then None
    else
      var magnitude: int := Value(DigitsOf(digits));
      Some(if t[0] == '-' then -magnitude else magnitude)
  }

  /** Python's `s[:n]` and `s[n:]`. */
  function Cut(s: string, n: int): (r: nat)
    ensures r <= |s|
  {
    if n > |s| then |s| else if n >= 0 then n else if n + |s| >= 0 then n + |s| else 0
  }

  // ---- the parser ----

  /** What the front of the buffer is: too short, something that ends the reading, or a message. */
  datatype Front = Incomplete | Stop | Message(body: string, rest: string)

  function ReadFront(buffered: string): (r: Front)
    ensures r.Message? ==> |r.rest| < |buffered|
  {
    match Find(buffered, SEPARATOR)
    case None => Incomplete
    case Some(i) =>
      var rest := buffered[i + 4..];
      match DeclaredLength(buffered[..i]) {
        case None => Stop
        case Some(n) => if |rest| < n then Incomplete else Message(rest[..Cut(rest, n)], rest[Cut(rest, n)..])
      }
  }

  function DeclaredLength(head: string): Option<int> {
    var line :- LengthLine(Split(head, NEWLINE));
    var parts := Split(line, ":");
    if |parts| < 2 then None else ParseInt(parts[1])
  }

  /** What the reader has: the messages so far, the bytes not yet used, and whether it goes on. */
  datatype Reader = Reader(decoded: seq<string>, buffered: string, open: bool)

  function Drain(r: Reader): Reader
    decreases |r.buffered|
  {
    match ReadFront(r.buffered)
    case Incomplete => r
    case Stop => r.(open := false)
    case Message(body, rest) => Drain(Reader(r.decoded + [body], rest, r.open))
  }

  /** An empty chunk is the end of the pipe. */
  function Feed(r: Reader, chunk: string): Reader {
    if !r.open then r
    else if chunk == "" then r.(open := false)
    else Drain(r.(buffered := r.buffered + chunk))
  }

  function FeedAll(r: Reader, chunks: seq<string>): Reader {
    if chunks == [] then r else Feed(FeedAll(r, chunks[..|chunks| - 1]), chunks[|chunks| - 1])
  }

  const START: Reader := Reader([], "", true)

  /** The program: read what comes, take out every complete message, keep the rest. */
  method Collect(chunks: seq<string>) returns (decoded: seq<string>, buffered: string, open: bool)
    ensures Reader(decoded, buffered, open) == FeedAll(START, chunks)
  {
    decoded, buffered, open := [], "", true;
    for k := 0 to |chunks|
      invariant open && Reader(decoded, buffered, open) == FeedAll(START, chunks[..k])
    {
      assert chunks[..k + 1][..k] == chunks[..k];
      if chunks[k] == "" {
        StaysClosed(START, chunks, k + 1);
        return decoded, buffered, false;
      }
      buffered := buffered + chunks[k];
      ghost var goal := Drain(Reader(decoded, buffered, true));
      var front := ReadFront(buffered);
      while front.Message?
        invariant front == ReadFront(buffered) && Drain(Reader(decoded, buffered, true)) == goal
        decreases |buffered|
      {
        decoded, buffered := decoded + [front.body], front.rest;
        front := ReadFront(buffered);
      }
      if front.Stop? {
        StaysClosed(START, chunks, k + 1);
        return decoded, buffered, false;
      }
    }
    assert chunks[..|chunks|] == chunks;
  }

  lemma {:induction false} StaysClosed(r: Reader, chunks: seq<string>, k: nat)
    requires k <= |chunks| && !FeedAll(r, chunks[..k]).open
    ensures FeedAll(r, chunks) == FeedAll(r, chunks[..k])
    decreases |chunks|
  {
    if k == |chunks| {
      assert chunks[..k] == chunks;
    } else {
      assert chunks[..|chunks| - 1][..k] == chunks[..k];
      StaysClosed(r, chunks[..|chunks| - 1], k);
    }
  }

  // ---- one frame ----

  lemma DigitsAreNot(n: nat, c: char)
    requires !IsDigit(c)
    ensures c !in Print(n)
  {
    forall i | 0 <= i < |Print(n)| ensures Print(n)[i] != c {
      assert IsDigit(Print(n)[i]);
    }
  }

  lemma IntReads(n: nat)
    ensures ParseInt(" " + Print(n)) == Some(n)
  {
    var s := Print(n);
    assert (" " + s)[1..] == s;
    assert IsDigit(s[0]) && IsDigit(s[|s| - 1]);
    assert Strip(s) == s;
    PrintHasValue(n);
  }

  lemma LengthReads(n: nat)
    ensures DeclaredLength(Head(n)) == Some(n)
  {
    var head := Head(n);
    DigitsAreNot(n, '\r');
    FindsNone(head, NEWLINE, "");
    assert head + "" == head;
    assert NamesLength(head);
    assert LengthLine([head]) == Some(head);
    ColonSplits(n);
    IntReads(n);
  }

  lemma ColonSplits(n: nat)
    ensures Split(Head(n), ":") == ["Content-Length", " " + Print(n)]
  {
    var name, rest := "Content-Length", " " + Print(n);
    DigitsAreNot(n, ':');
    FindsFirst(name, ":", rest);
    FindsNone(rest, ":", "");
    assert rest + "" == rest;
    var head := name + (":" + rest);
    assert Head(n) == head;
    assert head[..|name|] == name && head[|name| + 1..] == rest;
  }

  /** A whole frame is one message, and leaves what follows it. */
  lemma FrameReads(body: string, rest: string)
    ensures ReadFront(Frame(body) + rest) == Message(body, rest)
  {
    HeadReads(body, body + rest);
    assert Frame(body) + rest == Head(|body|) + (SEPARATOR + (body + rest));
    assert (body + rest)[..|body|] == body && (body + rest)[|body|..] == rest;
  }

  lemma HeadReads(body: string, arrived: string)
    ensures ReadFront(Head(|body|) + (SEPARATOR + arrived)) ==
      if |arrived| < |body| then Incomplete else Message(arrived[..|body|], arrived[|body|..])
  {
    var head := Head(|body|);
    DigitsAreNot(|body|, '\r');
    FindsFirst(head, SEPARATOR, arrived);
    LengthReads(|body|);
    var s := head + (SEPARATOR + arrived);
    assert s[..|head|] == head && s[|head| + 4..] == arrived;
  }

  /** Less than a frame is no message yet. */
  lemma PartReads(body: string, part: string)
    requires part <= Frame(body) && part != Frame(body)
    ensures ReadFront(part) == Incomplete
  {
    var head := Head(|body|);
    if |part| < |head| + 4 {
      DigitsAreNot(|body|, '\r');
      PartOfHead(head, part, body);
    } else {
      var arrived := part[|head| + 4..];
      HeadReads(body, arrived);
      assert part == head + (SEPARATOR + arrived);
    }
  }

  lemma PartOfHead(head: string, part: string, after: string)
    requires '\r' !in head && part <= head + ("\r\n\r\n" + after) && |part| < |head| + 4
    ensures Find(part, SEPARATOR) == None
  {
    var cut := if |part| < |head| then |part| else |head|;
    assert part[..cut] <= head;
    FindsNone(part[..cut], SEPARATOR, part[cut..]);
    assert part[..cut] + part[cut..] == part;
  }

  // ---- any number of frames, in any chunks ----

  /** How many frames are complete within the first `n` bytes. */
  function Completed(bodies: seq<string>, n: nat): (k: nat)
    ensures k <= |bodies|
  {
    if bodies == [] || n < |Frame(bodies[0])| then 0 else 1 + Completed(bodies[1..], n - |Frame(bodies[0])|)
  }

  /** What has arrived beyond the complete frames: nothing, or a proper part of the next frame. */
  predicate PartOfNext(bodies: seq<string>, k: nat, left: string)
    requires k <= |bodies|
  {
    if k == |bodies| then left == "" else left <= Frame(bodies[k]) && left != Frame(bodies[k])
  }

  /** What has arrived begins with `k` frames; draining it decodes these and keeps the rest, part of the next. */
  predicate DrainsTo(decoded: seq<string>, bodies: seq<string>, arrived: string, k: nat) {
    && k <= |bodies| && Stream(bodies[..k]) <= arrived
    && PartOfNext(bodies, k, arrived[|Stream(bodies[..k])|..])
    && Drain(Reader(decoded, arrived, true)) == Reader(decoded + bodies[..k], arrived[|Stream(bodies[..k])|..], true)
  }

  lemma {:induction false} PrefixDrains(decoded: seq<string>, bodies: seq<string>, arrived: string)
    requires arrived <= Stream(bodies)
    ensures DrainsTo(decoded, bodies, arrived, Completed(bodies, |arrived|))
    decreases |bodies|
  {
    if bodies == [] {
      NothingDrains(decoded, arrived);
    } else if |arrived| < |Frame(bodies[0])| {
      PartDrains(decoded, bodies, arrived);
    } else {
      FrontFrame(bodies, arrived);
      PrefixDrains(decoded + [bodies[0]], bodies[1..], arrived[|Frame(bodies[0])|..]);
      NextDrains(decoded, bodies, arrived, Completed(bodies, |arrived|));
    }
  }

  lemma NothingDrains(decoded: seq<string>, arrived: string)
    requires arrived == ""
    ensures DrainsTo(decoded, [], arrived, 0)
  {
    assert Find("", SEPARATOR) == None;
  }

  lemma PartDrains(decoded: seq<string>, bodies: seq<string>, arrived: string)
    requires bodies != [] && arrived <= Stream(bodies) && |arrived| < |Frame(bodies[0])|
    ensures DrainsTo(decoded, bodies, arrived, 0)
  {
    assert bodies[..0] == [] && arrived[0..] == arrived && decoded + [] == decoded;
    assert arrived == Stream(bodies)[..|arrived|] == Frame(bodies[0])[..|arrived|];
    PartReads(bodies[0], arrived);
  }

  lemma NextDrains(decoded: seq<string>, bodies: seq<string>, arrived: string, k: nat)
    requires bodies != [] && k > 0 && Frame(bodies[0]) <= arrived
    requires ReadFront(arrived) == Message(bodies[0], arrived[|Frame(bodies[0])|..])
    requires DrainsTo(decoded + [bodies[0]], bodies[1..], arrived[|Frame(bodies[0])|..], k - 1)
    ensures DrainsTo(decoded, bodies, arrived, k)
  {
    Shifted(decoded, bodies, k, arrived);
  }

  /** Enough bytes of a stream start with its first frame. */
  lemma FrontFrame(bodies: seq<string>, arrived: string)
    requires arrived <= Stream(bodies) && bodies != [] && |arrived| >= |Frame(bodies[0])|
    ensures var rest := arrived[|Frame(bodies[0])|..];
      && arrived == Frame(bodies[0]) + rest && rest <= Stream(bodies[1..])
      && ReadFront(arrived) == Message(bodies[0], rest)
  {
    var frame, rest, after := Frame(bodies[0]), arrived[|Frame(bodies[0])|..], Stream(bodies[1..]);
    assert arrived == (frame + after)[..|arrived|];
    assert rest == after[..|rest|];
    assert arrived == frame + rest;
    FrameReads(bodies[0], rest);
  }

  lemma Shifted(decoded: seq<string>, bodies: seq<string>, k: nat, arrived: string)
    requires 0 < k <= |bodies| && Frame(bodies[0]) <= arrived
    requires Stream(bodies[1..][..k - 1]) <= arrived[|Frame(bodies[0])|..]
    ensures Stream(bodies[..k]) <= arrived
    ensures arrived[|Stream(bodies[..k])|..] == arrived[|Frame(bodies[0])|..][|Stream(bodies[1..][..k - 1])|..]
    ensures decoded + [bodies[0]] + bodies[1..][..k - 1] == decoded + bodies[..k]
    ensures k < |bodies| ==> bodies[1..][k - 1] == bodies[k]
  {
    assert bodies[..k][1..] == bodies[1..][..k - 1];
    var frame, more := Frame(bodies[0]), Stream(bodies[1..][..k - 1]);
    assert arrived == frame + arrived[|frame|..];
    assert Stream(bodies[..k]) == frame + more;
  }

  lemma {:induction false} StreamSplits(bodies: seq<string>, k: nat)
    requires k <= |bodies|
    ensures Stream(bodies) == Stream(bodies[..k]) + Stream(bodies[k..])
  {
    if k > 0 {
      StreamSplits(bodies[1..], k - 1);
      assert bodies[1..][k - 1..] == bodies[k..] && bodies[1..][..k - 1] == bodies[..k][1..];
    }
  }

  /** Counting frames can resume after any of them. */
  lemma {:induction false} CompletedResumes(bodies: seq<string>, k: nat, n: nat)
    requires k <= |bodies| && |Stream(bodies[..k])| <= n
    ensures Completed(bodies, n) == k + Completed(bodies[k..], n - |Stream(bodies[..k])|)
  {
    if k > 0 {
      FrontLength(bodies, k);
      CompletedResumes(bodies[1..], k - 1, n - |Frame(bodies[0])|);
      assert bodies[1..][k - 1..] == bodies[k..];
    }
  }

  lemma FrontLength(bodies: seq<string>, k: nat)
    requires 0 < k <= |bodies|
    ensures |Stream(bodies[..k])| == |Frame(bodies[0])| + |Stream(bodies[1..][..k - 1])|
  {
    assert bodies[..k][1..] == bodies[1..][..k - 1];
  }

  function Join(chunks: seq<string>): string {
    if chunks == [] then "" else Join(chunks[..|chunks| - 1]) + chunks[|chunks| - 1]
  }

  /** What the reader holds once the first bytes of a stream have arrived. */
  function Caught(bodies: seq<string>, arrived: string): Reader {
    var k := Completed(bodies, |arrived|);
    var used := |Stream(bodies[..k])|;
    Reader(bodies[..k], if used <= |arrived| then arrived[used..] else "", true)
  }

  lemma ChunkCaught(bodies: seq<string>, arrived: string, chunk: string)
    requires arrived + chunk <= Stream(bodies) && chunk != ""
    ensures Feed(Caught(bodies, arrived), chunk) == Caught(bodies, arrived + chunk)
  {
    var k := Completed(bodies, |arrived|);
    PrefixDrains([], bodies, arrived);
    PrefixDrains([], bodies, arrived + chunk);
    Resume(bodies, k, arrived, chunk);
    var left := (arrived + chunk)[|Stream(bodies[..k])|..];
    assert Feed(Caught(bodies, arrived), chunk) == Drain(Reader(bodies[..k], left, true));
    DrainsTheRest(bodies, k, arrived + chunk);
  }

  lemma DrainsTheRest(bodies: seq<string>, k: nat, arrived: string)
    requires k <= |bodies| && Stream(bodies[..k]) <= arrived
    requires |Stream(bodies[..Completed(bodies, |arrived|)])| <= |arrived|
    requires arrived[|Stream(bodies[..k])|..] <= Stream(bodies[k..])
    ensures Drain(Reader(bodies[..k], arrived[|Stream(bodies[..k])|..], true)) == Caught(bodies, arrived)
  {
    var left := arrived[|Stream(bodies[..k])|..];
    var j := Completed(bodies[k..], |left|);
    PrefixDrains(bodies[..k], bodies[k..], left);
    assert Drain(Reader(bodies[..k], left, true)) ==
      Reader(bodies[..k] + bodies[k..][..j], left[|Stream(bodies[k..][..j])|..], true);
    CaughtLater(bodies, k, j, arrived);
  }

  lemma CaughtLater(bodies: seq<string>, k: nat, j: nat, arrived: string)
    requires k <= |bodies| && Stream(bodies[..k]) <= arrived
    requires j == Completed(bodies[k..], |arrived| - |Stream(bodies[..k])|)
    requires |Stream(bodies[..Completed(bodies, |arrived|)])| <= |arrived|
    ensures |Stream(bodies[k..][..j])| <= |arrived[|Stream(bodies[..k])|..]|
    ensures Caught(bodies, arrived) ==
      Reader(bodies[..k] + bodies[k..][..j], arrived[|Stream(bodies[..k])|..][|Stream(bodies[k..][..j])|..], true)
  {
    CompletedResumes(bodies, k, |arrived|);
    assert Completed(bodies, |arrived|) == k + j;
    Rejoin(bodies, k, j, arrived);
  }

  lemma Resume(bodies: seq<string>, k: nat, arrived: string, chunk: string)
    requires k <= |bodies| && Stream(bodies[..k]) <= arrived && arrived + chunk <= Stream(bodies)
    ensures var left := arrived[|Stream(bodies[..k])|..] + chunk;
      left == (arrived + chunk)[|Stream(bodies[..k])|..] && left <= Stream(bodies[k..])
  {
    StreamSplits(bodies, k);
    var front, after := Stream(bodies[..k]), Stream(bodies[k..]);
    var rest := arrived[|front|..];
    assert arrived == front + rest;
    assert arrived + chunk == front + (rest + chunk);
    Cancel(front, rest + chunk, after);
  }

  lemma Cancel(front: string, a: string, b: string)
    requires front + a <= front + b
    ensures a <= b
  {
    assert a == (front + a)[|front|..] && b == (front + b)[|front|..];
    assert a == b[..|a|];
  }

  lemma Rejoin(bodies: seq<string>, k: nat, j: nat, arrived: string)
    requires k + j <= |bodies| && |Stream(bodies[..k + j])| <= |arrived|
    ensures bodies[..k] + bodies[k..][..j] == bodies[..k + j]
    ensures |Stream(bodies[..k])| + |Stream(bodies[k..][..j])| == |Stream(bodies[..k + j])|
    ensures arrived[|Stream(bodies[..k])|..][|Stream(bodies[k..][..j])|..] == arrived[|Stream(bodies[..k + j])|..]
  {
    StreamSplits(bodies[..k + j], k);
    assert bodies[..k + j][..k] == bodies[..k] && bodies[..k + j][k..] == bodies[k..][..j];
  }

  /**
   However a stream of frames is cut into chunks, and however much of it has arrived: the reader has exactly
   the bodies of the complete frames, in order, and keeps a proper part of the next.
   */
  lemma {:induction false} ChunksDoNotMatter(bodies: seq<string>, chunks: seq<string>)
    requires Join(chunks) <= Stream(bodies) && "" !in chunks
    ensures FeedAll(START, chunks) == Caught(bodies, Join(chunks))
    ensures var k := Completed(bodies, |Join(chunks)|);
      Stream(bodies[..k]) <= Join(chunks) && PartOfNext(bodies, k, FeedAll(START, chunks).buffered)
    decreases |chunks|
  {
    PrefixDrains([], bodies, Join(chunks));
    if chunks == [] {
      NothingCaught(bodies);
    } else {
      var before := chunks[..|chunks| - 1];
      assert Join(before) <= Stream(bodies);
      ChunksDoNotMatter(bodies, before);
      ChunkCaught(bodies, Join(before), chunks[|chunks| - 1]);
    }
  }

  lemma NothingCaught(bodies: seq<string>)
    ensures Caught(bodies, "") == START
  {
    assert bodies[..0] == [];
    assert bodies != [] ==> |Frame(bodies[0])| > 0;
  }

  /** Once everything has arrived, everything has been decoded. */
  lemma AllFramesDecoded(bodies: seq<string>, chunks: seq<string>)
    requires Join(chunks) == Stream(bodies) && "" !in chunks
    ensures FeedAll(START, chunks) == Reader(bodies, "", true)
  {
    ChunksDoNotMatter(bodies, chunks);
    CompletedResumes(bodies, |bodies|, |Stream(bodies)|) by {
      assert bodies[..|bodies|] == bodies;
    }
    assert bodies[..|bodies|] == bodies;
  }
}
