/**
 Message heads of any number of fields, which the probe's own frames are a case of, and what ends its reading
 (Tools/lsp-capability-probe.py:255-266).
 */
module LspHeads {
  import opened Common
  import opened Decimal
  import opened TextSearch
  import opened LspFrames

  /** A head of several lines. */
  function Lines(lines: seq<string>): string
    requires lines != []
  {
    if |lines| == 1 then lines[0] else lines[0] + ("\r\n" + Lines(lines[1..]))
  }

  predicate HeadLine(line: string) {
    line != "" && '\r' !in line
  }

  /** The line begins with the field's name, in any mixture of letter cases. */
  predicate Announces(line: string) {
    |line| >= 14 && forall i :: 0 <= i < 14 ==> line[i] == "content-length"[i] || line[i] == "CONTENT-LENGTH"[i]
  }

  /** None of the first `k` lines announces a length. */
  predicate SilentTo(lines: seq<string>, k: nat)
    requires k <= |lines|
  {
    forall i :: 0 <= i < k ==> !Announces(lines[i])
  }

  /** The first line that announces a length decides, whatever stands around it: the body is that many bytes. */
  lemma FirstLengthCounts(lines: seq<string>, k: nat, name: string, blank: string, n: nat, arrived: string)
    requires lines != [] && (forall line <- lines :: HeadLine(line))
    requires k < |lines| && SilentTo(lines, k) && Announces(lines[k])
    requires ':' !in name && (blank == "" || blank == " ") && lines[k] == name + (":" + (blank + Print(n)))
    ensures ReadFront(Lines(lines) + ("\r\n\r\n" + arrived)) ==
      if |arrived| < n then Incomplete else Message(arrived[..n], arrived[n..])
  {
    DigitsAreNot(n, ':');
    UnsignedReads(blank, n);
    HeadGives(lines, k, name, blank + Print(n), n, arrived);
  }

  /** A negative length counts from the end, as slices do: the body is all but that many bytes, and these are kept. */
  lemma NegativeLengthCounts(lines: seq<string>, k: nat, name: string, n: nat, arrived: string)
    requires lines != [] && (forall line <- lines :: HeadLine(line))
    requires k < |lines| && SilentTo(lines, k) && Announces(lines[k])
    requires ':' !in name && n > 0 && lines[k] == name + (":" + (" -" + Print(n)))
    ensures var cut := if n <= |arrived| then |arrived| - n else 0;
      ReadFront(Lines(lines) + ("\r\n\r\n" + arrived)) == Message(arrived[..cut], arrived[cut..])
  {
    SignedGives(lines, k, name, " -" + Print(n), n, arrived);
    GivesNegative(lines, arrived, n);
  }

  /** A head in which no line announces a length ends the reading. */
  lemma HeadWithoutLengthStops(lines: seq<string>, arrived: string)
    requires lines != [] && (forall line <- lines :: HeadLine(line)) && SilentTo(lines, |lines|)
    ensures ReadFront(Lines(lines) + ("\r\n\r\n" + arrived)) == Stop
  {
    HeadIsCut(lines, arrived);
    NoneAnnounced(lines);
  }

  /** A character no number has in it. */
  predicate NoPart(c: char) {
    !IsDigit(c) && !IsSpace(c) && c != '-' && c != '+' && c != '_'
  }

  /** A length that is no number ends it too. */
  lemma BadLengthStops(lines: seq<string>, k: nat, name: string, text: string, arrived: string)
    requires lines != [] && (forall line <- lines :: HeadLine(line))
    requires k < |lines| && SilentTo(lines, k) && Announces(lines[k])
    requires ':' !in name && ':' !in text && lines[k] == name + (":" + text)
    requires exists i :: 0 <= i < |text| && NoPart(text[i])
    ensures ReadFront(Lines(lines) + ("\r\n\r\n" + arrived)) == Stop
  {
    HeadIsCut(lines, arrived);
    FirstAnnounced(lines, k);
    ColonCuts(name, text);
    NoNumber(text);
  }

  /** What came before such a head has been decoded; nothing behind it is, and nothing that comes later. */
  lemma NothingAfterAStop(bodies: seq<string>, bad: string, later: seq<string>)
    requires ReadFront(bad) == Stop && bad != ""
    ensures FeedAll(START, [Stream(bodies) + bad] + later) == Reader(bodies, bad, false)
  {
    var first := [Stream(bodies) + bad];
    DrainsToStop([], bodies, bad);
    assert first[..0] == [] && [] + bodies == bodies && "" + first[0] == first[0];
    assert FeedAll(START, first) == Feed(START, first[0]);
    assert (first + later)[..1] == first;
    StaysClosed(START, first + later, 1);
  }

  /** Draining decodes `bodies` and stops at `bad`. */
  predicate StopsAt(decoded: seq<string>, bodies: seq<string>, arrived: string, bad: string) {
    Drain(Reader(decoded, arrived, true)) == Reader(decoded + bodies, bad, false)
  }

  lemma {:induction false} DrainsToStop(decoded: seq<string>, bodies: seq<string>, bad: string)
    requires ReadFront(bad) == Stop
    ensures StopsAt(decoded, bodies, Stream(bodies) + bad, bad)
    decreases |bodies|
  {
    if bodies == [] {
      assert Stream(bodies) + bad == bad;
      StopsHere(decoded, bad);
    } else {
      FirstOfStream(bodies, bad);
      DrainsToStop(decoded + [bodies[0]], bodies[1..], bad);
      StopsLater(decoded, bodies, Stream(bodies) + bad, Stream(bodies[1..]) + bad, bad);
    }
  }

  lemma StopsHere(decoded: seq<string>, bad: string)
    requires ReadFront(bad) == Stop
    ensures StopsAt(decoded, [], bad, bad)
  {
    assert decoded + [] == decoded;
  }

  lemma StopsLater(decoded: seq<string>, bodies: seq<string>, arrived: string, rest: string, bad: string)
    requires bodies != [] && ReadFront(arrived) == Message(bodies[0], rest)
    requires StopsAt(decoded + [bodies[0]], bodies[1..], rest, bad)
    ensures StopsAt(decoded, bodies, arrived, bad)
  {
    DrainsMessage(decoded, arrived, bodies[0], rest);
    OneMoved(decoded, bodies);
  }

  lemma OneMoved(decoded: seq<string>, bodies: seq<string>)
    requires bodies != []
    ensures decoded + [bodies[0]] + bodies[1..] == decoded + bodies
  {
  }

  lemma DrainsMessage(decoded: seq<string>, arrived: string, body: string, rest: string)
    requires ReadFront(arrived) == Message(body, rest)
    ensures Drain(Reader(decoded, arrived, true)) == Drain(Reader(decoded + [body], rest, true))
  {
  }

  lemma FirstOfStream(bodies: seq<string>, after: string)
    requires bodies != []
    ensures ReadFront(Stream(bodies) + after) == Message(bodies[0], Stream(bodies[1..]) + after)
  {
    StreamSplitsOff(bodies, after);
    FrameReads(bodies[0], Stream(bodies[1..]) + after);
  }

  lemma StreamSplitsOff(bodies: seq<string>, after: string)
    requires bodies != []
    ensures Stream(bodies) + after == Frame(bodies[0]) + (Stream(bodies[1..]) + after)
  {
  }

  /** The end of the pipe leaves what has been decoded, and closes. */
  lemma EndOfPipeCloses(bodies: seq<string>, chunks: seq<string>, later: seq<string>)
    requires Join(chunks) == Stream(bodies) && "" !in chunks
    ensures FeedAll(START, chunks + [""] + later) == Reader(bodies, "", false)
  {
    AllFramesDecoded(bodies, chunks);
    var ended := chunks + [""];
    assert ended[..|chunks|] == chunks;
    assert (ended + later)[..|ended|] == ended;
    StaysClosed(START, ended + later, |ended|);
  }

  // ---- the head's lines ----

  lemma HeadIsCut(lines: seq<string>, arrived: string)
    requires lines != [] && (forall line <- lines :: HeadLine(line))
    ensures var head := Lines(lines);
      && Find(head + ("\r\n\r\n" + arrived), SEPARATOR) == Some(|head|)
      && (head + ("\r\n\r\n" + arrived))[..|head|] == head && (head + ("\r\n\r\n" + arrived))[|head| + 4..] == arrived
      && Split(head, NEWLINE) == lines
  {
    HeadEnds(lines, arrived);
    LinesSplit(lines);
  }

  lemma {:induction false} HeadEnds(lines: seq<string>, arrived: string)
    requires lines != [] && (forall line <- lines :: HeadLine(line))
    ensures Find(Lines(lines) + ("\r\n\r\n" + arrived), SEPARATOR) == Some(|Lines(lines)|)
    decreases |lines|
  {
    assert HeadLine(lines[0]);
    if |lines| == 1 {
      FindsFirst(lines[0], SEPARATOR, arrived);
    } else {
      var rest := Lines(lines[1..]) + ("\r\n\r\n" + arrived);
      HeadEnds(lines[1..], arrived);
      assert HeadLine(lines[1]) && rest[0] == lines[1][0];
      OneNewline(rest);
      FindSkips(lines[0], "\r\n" + rest);
      assert Lines(lines) + ("\r\n\r\n" + arrived) == lines[0] + ("\r\n" + rest);
    }
  }

  /** A single line end is no separator. */
  lemma OneNewline(rest: string)
    requires rest != "" && rest[0] != '\r' && Find(rest, SEPARATOR).Some?
    ensures Find("\r\n" + rest, SEPARATOR) == Some(Find(rest, SEPARATOR).value + 2)
  {
    var s := "\r\n" + rest;
    assert s[2] == rest[0] && s[1..][0] == '\n' && s[1..][1..] == rest;
    assert Find(s[1..], SEPARATOR) == Some(Find(rest, SEPARATOR).value + 1);
  }

  lemma {:induction false} FindSkips(head: string, s: string)
    requires '\r' !in head && Find(s, SEPARATOR).Some?
    ensures Find(head + s, SEPARATOR) == Some(|head| + Find(s, SEPARATOR).value)
  {
    if head == "" {
      assert head + s == s;
    } else {
      assert (head + s)[1..] == head[1..] + s && (head + s)[0] == head[0];
      assert SEPARATOR[0] == '\r';
      FindSkips(head[1..], s);
    }
  }

  lemma {:induction false} LinesSplit(lines: seq<string>)
    requires lines != [] && (forall line <- lines :: HeadLine(line))
    ensures Split(Lines(lines), NEWLINE) == lines
    decreases |lines|
  {
    assert HeadLine(lines[0]);
    if |lines| == 1 {
      FindsNone(lines[0], NEWLINE, "");
      assert lines[0] + "" == lines[0];
    } else {
      FindsFirst(lines[0], NEWLINE, Lines(lines[1..]));
      Cuts(lines[0], NEWLINE, Lines(lines[1..]));
      LinesSplit(lines[1..]);
    }
  }

  // ---- the line that gives the length ----

  /** The head's length is `n`, whatever its sign. */
  ghost predicate Gives(lines: seq<string>, arrived: string, n: int)
    requires lines != []
  {
    ReadFront(Lines(lines) + ("\r\n\r\n" + arrived)) ==
      if |arrived| < n then Incomplete else Message(arrived[..Cut(arrived, n)], arrived[Cut(arrived, n)..])
  }

  lemma SignedGives(lines: seq<string>, k: nat, name: string, text: string, n: nat, arrived: string)
    requires lines != [] && (forall line <- lines :: HeadLine(line))
    requires k < |lines| && SilentTo(lines, k) && Announces(lines[k])
    requires ':' !in name && text == " -" + Print(n) && lines[k] == name + (":" + text)
    ensures Gives(lines, arrived, 0 - n)
  {
    SignedReads(n);
    HeadGives(lines, k, name, text, 0 - n, arrived);
  }

  lemma GivesNegative(lines: seq<string>, arrived: string, n: nat)
    requires lines != [] && n > 0 && Gives(lines, arrived, 0 - n)
    ensures var cut := if n <= |arrived| then |arrived| - n else 0;
      ReadFront(Lines(lines) + ("\r\n\r\n" + arrived)) == Message(arrived[..cut], arrived[cut..])
  {
  }

  lemma HeadGives(lines: seq<string>, k: nat, name: string, text: string, n: int, arrived: string)
    requires lines != [] && (forall line <- lines :: HeadLine(line))
    requires k < |lines| && SilentTo(lines, k) && Announces(lines[k])
    requires ':' !in name && ':' !in text && lines[k] == name + (":" + text) && ParseInt(text) == Some(n)
    ensures Gives(lines, arrived, n)
  {
    HeadIsCut(lines, arrived);
    FirstAnnounced(lines, k);
    ColonCuts(name, text);
  }

  lemma AnnouncedIs(line: string)
    ensures Announces(line) <==> NamesLength(line)
  {
  }

  lemma {:induction false} FirstAnnounced(lines: seq<string>, k: nat)
    requires k < |lines| && SilentTo(lines, k) && Announces(lines[k])
    ensures LengthLine(lines) == Some(lines[k])
  {
    AnnouncedIs(lines[0]);
    if k > 0 {
      FirstAnnounced(lines[1..], k - 1);
    }
  }

  lemma {:induction false} NoneAnnounced(lines: seq<string>)
    requires SilentTo(lines, |lines|)
    ensures LengthLine(lines) == None
  {
    if lines != [] {
      AnnouncedIs(lines[0]);
      NoneAnnounced(lines[1..]);
    }
  }

  /** A name and one colon cut the line in two. */
  lemma ColonCuts(name: string, text: string)
    requires ':' !in name && ':' !in text
    ensures Split(name + (":" + text), ":") == [name, text]
  {
    SplitsFirst(name, ':', text);
    SplitsNone(text, ':');
  }

  lemma UnsignedReads(blank: string, n: nat)
    requires blank == "" || blank == " "
    ensures ParseInt(blank + Print(n)) == Some(n)
  {
    IntReads(n);
    var s := Print(n);
    assert blank == "" ==> blank + s == s;
    assert (" " + s)[1..] == s && Strip(" " + s) == Strip(s);
  }

  lemma SignedReads(n: nat)
    ensures ParseInt(" -" + Print(n)) == Some(0 - n) && ':' !in " -" + Print(n)
  {
    DigitsAreNot(n, ':');
    var s := Print(n);
    var t := ['-'] + s;
    assert t[1..] == s && IsDigit(s[|s| - 1]) && t[|t| - 1] == s[|s| - 1];
    StripsBlank(t);
    assert " -" + s == " " + t;
    PrintHasValue(n);
  }

  lemma StripsBlank(t: string)
    requires t != "" && !IsSpace(t[0]) && !IsSpace(t[|t| - 1])
    ensures Strip(" " + t) == t
  {
    assert (" " + t)[1..] == t;
  }

  /** Stripping takes no other character away. */
  lemma {:induction false} StripKeeps(s: string, i: nat)
    requires i < |s| && !IsSpace(s[i])
    ensures s[i] in Strip(s)
    decreases |s|
  {
    if IsSpace(s[0]) {
      StripKeeps(s[1..], i - 1);
    } else if IsSpace(s[|s| - 1]) {
      StripKeeps(s[..|s| - 1], i);
    }
  }

  lemma NoNumber(s: string)
    requires exists i :: 0 <= i < |s| && NoPart(s[i])
    ensures ParseInt(s) == None
  {
    var i :| 0 <= i < |s| && NoPart(s[i]);
    StripKeeps(s, i);
    var t := Strip(s);
    var j :| 0 <= j < |t| && t[j] == s[i];
    assert t[0] == '-' || t[0] == '+' ==> t[1..][j - 1] == s[i];
  }
}
