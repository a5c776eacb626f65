/** Finding and splitting at a separator. */
module TextSearch {
  import opened Common

  /** Where `sep` first occurs. */
  function Find(s: string, sep: string): (r: Option<nat>)
    requires sep != ""
    ensures r.Some? ==> r.value + |sep| <= |s|
  {
    if |s| < |sep| then None
    else if sep <= s then Some(0)
    else
      var i :- Find(s[1..], sep);
      Some(i + 1)
  }

  function Split(s: string, sep: string): (r: seq<string>)
    requires sep != ""
    ensures r != []
    decreases |s|
  {
    match Find(s, sep)
    case None => [s]
    case Some(i) => [s[..i]] + Split(s[i + |sep|..], sep)
  }

  lemma {:induction false} FindsFirst(head: string, sep: string, rest: string)
    requires sep != "" && sep[0] !in head
    ensures Find(head + (sep + rest), sep) == Some(|head|)
  {
    if head == "" {
      assert head + (sep + rest) == sep + rest;
    } else {
      assert (head + (sep + rest))[1..] == head[1..] + (sep + rest);
      FindsFirst(head[1..], sep, rest);
    }
  }

  lemma {:induction false} FindsNone(head: string, sep: string, part: string)
    requires sep != "" && sep[0] !in head && |part| < |sep|
    ensures Find(head + part, sep) == None
  {
    if head == "" {
      assert head + part == part;
    } else {
      assert (head + part)[1..] == head[1..] + part;
      FindsNone(head[1..], sep, part);
    }
  }

  /** A piece without the separator, and what follows the first separator. */
  lemma SplitsFirst(head: string, sep: char, rest: string)
    requires sep !in head
    ensures Split(head + ([sep] + rest), [sep]) == [head] + Split(rest, [sep])
  {
    FindsFirst(head, [sep], rest);
    var s := head + ([sep] + rest);
    assert s[..|head|] == head && s[|head| + 1..] == rest;
  }

  lemma SplitsNone(head: string, sep: char)
    requires sep !in head
    ensures Split(head, [sep]) == [head]
  {
    FindsNone(head, [sep], "");
    assert head + "" == head;
  }

  lemma Cuts(a: string, sep: string, b: string)
    ensures (a + (sep + b))[..|a|] == a && (a + (sep + b))[|a| + |sep|..] == b
  {
  }
}
