/**
 Project-wide discovery: which calls of a name belong to the signature being changed
 (Source/Editor/ChangeSignature.cpp:318-444).
 */
module SignatureDiscovery {
  import opened Common
  import opened SignatureMapping
  import opened SignatureCalls
  import opened SignatureSites
  import opened Decimal

  datatype CallMarker = CallMarker(
    callee: Range,
    delimited: bool,
    arguments: seq<CallArgument>,
    arity: Range,
    functionValue: bool)

  datatype CallSite = CallSite(file: string, text: string, call: CallMarker) {
    predicate ByArity() { !call.arity.Empty() }
  }

  datatype SignatureSite = SignatureSite(file: string, text: string, signature: SignatureMarker)

  datatype FileScan = FileScan(signatures: seq<SignatureMarker>, calls: seq<CallMarker>) {
    /** What the language queries promise: their ranges lie in the text. */
    predicate Valid(text: string) {
      && (forall s :: s in signatures ==> s.callName.In(text))
      && (forall c :: c in calls ==> c.callee.In(text) && c.arity.In(text))
    }
  }

  /** Reading a candidate, and running the two language queries over it: the caller's hooks. */
  type SourceLookup = string -> Option<string>
  type FileScanner = (string, string) -> FileScan

  ghost predicate ScansInText(readText: SourceLookup, scanner: FileScanner, candidates: seq<string>) {
    forall c :: c in candidates && readText(c).Some? ==> scanner(c, readText(c).value).Valid(readText(c).value)
  }

  // ---- how many positional arguments a signature accepts ----

  datatype ArityRange = ArityRange(min: nat, max: Option<nat>)

  predicate Accepts(range: ArityRange, count: nat) {
    count >= range.min && (range.max.Some? ==> count <= range.max.value)
  }

  /** Parameters an argument may fill by place, and those that have to be filled. */
  function CountFillable(params: seq<SignatureParameter>): nat {
    if params == [] then 0
    else
      var last := params[|params| - 1];
      CountFillable(params[..|params| - 1]) + if !last.isKeyword && !last.isVariadic then 1 else 0
  }

  function CountRequired(params: seq<SignatureParameter>): nat {
    if params == [] then 0
    else
      var last := params[|params| - 1];
      CountRequired(params[..|params| - 1]) +
      if !last.isKeyword && !last.isVariadic && !last.hasDefaultValue && last.receiver == Ordinary then 1 else 0
  }

  predicate TakesAnyNumber(params: seq<SignatureParameter>) {
    exists i :: 0 <= i < |params| && !params[i].isKeyword && params[i].isVariadic
  }

  /** The number of arguments a signature takes by place, as a range. */
  function ArityOf(params: seq<SignatureParameter>): ArityRange {
    ArityRange(CountRequired(params), if TakesAnyNumber(params) then None else Some(CountFillable(params)))
  }

  method PositionalArity(params: seq<SignatureParameter>) returns (range: ArityRange)
    ensures range == ArityOf(params)
  {
    range := ArityRange(0, Some(0));
    for i := 0 to |params|
      invariant range == ArityOf(params[..i])
    {
      assert params[..i + 1][..i] == params[..i];
      assert TakesAnyNumber(params[..i + 1]) <==>
        TakesAnyNumber(params[..i]) || (!params[i].isKeyword && params[i].isVariadic);
      var p := params[i];
      if p.isKeyword {
        continue;
      }
      if p.isVariadic {
        range := range.(max := None);
        continue;
      }
      if range.max.Some? {
        range := range.(max := Some(range.max.value + 1));
      }
      if !p.hasDefaultValue && p.receiver == Ordinary {
        range := range.(min := range.min + 1);
      }
    }
    assert params[..|params|] == params;
  }

  predicate IsNamed(a: CallArgument) { a.name.end > a.name.start }

  /** A spread among a delimited call's arguments makes their number unknowable. */
  predicate Unknowable(call: CallMarker, upTo: nat)
    requires upTo <= |call.arguments|
  {
    call.delimited && exists i :: 0 <= i < upTo && !IsNamed(call.arguments[i]) && !call.arguments[i].positional
  }

  function CountUnnamed(args: seq<CallArgument>): nat {
    if args == [] then 0
    else CountUnnamed(args[..|args| - 1]) + if IsNamed(args[|args| - 1]) then 0 else 1
  }

  function PositionalCountOf(call: CallMarker): Option<nat> {
    if Unknowable(call, |call.arguments|) then None else Some(CountUnnamed(call.arguments))
  }

  method PositionalCount(call: CallMarker) returns (r: Option<nat>)
    ensures r == PositionalCountOf(call)
  {
    var count := 0;
    for i := 0 to |call.arguments|
      invariant !Unknowable(call, i)
      invariant count == CountUnnamed(call.arguments[..i])
    {
      assert call.arguments[..i + 1][..i] == call.arguments[..i];
      var a := call.arguments[i];
      if IsNamed(a) {
        continue;
      }
      if !a.positional && call.delimited {
        return None;
      }
      count := count + 1;
    }
    assert call.arguments[..|call.arguments|] == call.arguments;
    return Some(count);
  }

  // ---- which calls stay ----

  const WORD: nat := 0x1_0000_0000_0000_0000

  /** A reference's arity as the program reads it: decimal digits, in a 64-bit word. */
  function ReadArity(digits: string): (n: Option<nat>)
    ensures n.Some? <==> AllDigits(digits)
    ensures n.Some? ==> 0 <= n.value < WORD && (Value(digits) - n.value) % WORD == 0
  {
    if AllDigits(digits) then Some(Value(digits) % WORD) else None
  }

  predicate ReferenceStays(own: ArityRange, site: CallSite)
    requires site.call.arity.In(site.text)
  {
    var n := ReadArity(site.call.arity.Of(site.text));
    n.Some? && Accepts(own, n.value)
  }

  predicate CouldBe(range: ArityRange, call: CallMarker) {
    PositionalCountOf(call).None? || Accepts(range, PositionalCountOf(call).value)
  }

  predicate CouldBeAny(overloads: seq<ArityRange>, call: CallMarker) {
    PositionalCountOf(call).None? ||
    exists i :: 0 <= i < |overloads| && Accepts(overloads[i], PositionalCountOf(call).value)
  }

  /** What discovery decides of one found call. */
  datatype Verdict = RemovedReference | OtherOverload | Ours | Ambiguous

  function Judge(own: ArityRange, overloads: seq<ArityRange>, site: CallSite): Verdict
    requires site.call.arity.In(site.text)
  {
    if site.ByArity() then if ReferenceStays(own, site) then Ours else RemovedReference
    else if overloads == [] then Ours
    else if CouldBeAny(overloads, site.call) then if CouldBe(own, site.call) then Ambiguous else OtherOverload
    else Ours
  }

  predicate ValidSites(sites: seq<CallSite>) {
    forall i :: 0 <= i < |sites| ==> sites[i].call.arity.In(sites[i].text)
  }

  function Kept(own: ArityRange, overloads: seq<ArityRange>, sites: seq<CallSite>): (r: seq<CallSite>)
    requires ValidSites(sites)
    ensures forall s :: s in r <==> s in sites && Judge(own, overloads, s) in {Ours, Ambiguous}
  {
    if sites == [] then []
    else
      var front, last := sites[..|sites| - 1], sites[|sites| - 1];
      assert sites == front + [last];
      if Judge(own, overloads, last) in {Ours, Ambiguous}
      then Kept(own, overloads, front) + [last] else Kept(own, overloads, front)
  }

  function CountJudged(own: ArityRange, overloads: seq<ArityRange>, sites: seq<CallSite>, verdict: Verdict): nat
    requires ValidSites(sites)
  {
    if sites == [] then 0
    else
      CountJudged(own, overloads, sites[..|sites| - 1], verdict) +
      if Judge(own, overloads, sites[|sites| - 1]) == verdict then 1 else 0
  }

  // ---- what is found ----

  /** The calls of `name` among `calls`, as sites of one file. */
  function Called(name: string, file: string, text: string, calls: seq<CallMarker>): seq<CallSite>
    requires forall c :: c in calls ==> c.callee.In(text) && c.arity.In(text)
  {
    if calls == [] then []
    else
      var last := calls[|calls| - 1];
      if last.callee.Of(text) == name then Called(name, file, text, calls[..|calls| - 1]) + [CallSite(file, text, last)]
      else Called(name, file, text, calls[..|calls| - 1])
  }

  function Found(name: string, candidates: seq<string>, readText: SourceLookup,
                 scanner: FileScanner): (r: seq<CallSite>)
    requires ScansInText(readText, scanner, candidates)
    ensures ValidSites(r)
  {
    if candidates == [] then []
    else
      var c := candidates[|candidates| - 1];
      var before := Found(name, candidates[..|candidates| - 1], readText, scanner);
      if readText(c).None? then before
      else
        CalledValid(name, c, readText(c).value, scanner(c, readText(c).value).calls);
        before + Called(name, c, readText(c).value, scanner(c, readText(c).value).calls)
  }

  lemma {:induction false} CalledValid(name: string, file: string, text: string, calls: seq<CallMarker>)
    requires forall c :: c in calls ==> c.callee.In(text) && c.arity.In(text)
    ensures ValidSites(Called(name, file, text, calls))
  {
    if calls != [] {
      CalledValid(name, file, text, calls[..|calls| - 1]);
    }
  }

  /** A signature of the same name that takes a different number of parameters. */
  predicate IsOverload(name: string, targetArity: nat, text: string, s: SignatureMarker)
    requires s.callName.In(text)
  {
    !s.callName.Empty() && s.callName.Of(text) == name && s.kind != CurriedType && |s.parameters| != targetArity
  }

  function OverloadsIn(name: string, targetArity: nat, text: string, signatures: seq<SignatureMarker>): seq<ArityRange>
    requires forall s :: s in signatures ==> s.callName.In(text)
  {
    if signatures == [] then []
    else
      var last := signatures[|signatures| - 1];
      var before := OverloadsIn(name, targetArity, text, signatures[..|signatures| - 1]);
      if IsOverload(name, targetArity, text, last) then before + [ArityOf(last.parameters)] else before
  }

  function Overloads(name: string, targetArity: nat, candidates: seq<string>, readText: SourceLookup,
                     scanner: FileScanner): seq<ArityRange>
    requires ScansInText(readText, scanner, candidates)
  {
    if candidates == [] then []
    else
      var c := candidates[|candidates| - 1];
      var before := Overloads(name, targetArity, candidates[..|candidates| - 1], readText, scanner);
      if readText(c).None? then before
      else before + OverloadsIn(name, targetArity, readText(c).value, scanner(c, readText(c).value).signatures)
  }

  /** The signatures of the name that are not overloads: the places to rewrite. */
  function SitesIn(name: string, targetArity: nat, file: string, text: string,
                   signatures: seq<SignatureMarker>): seq<SignatureSite>
    requires forall s :: s in signatures ==> s.callName.In(text)
  {
    if signatures == [] then []
    else
      var last := signatures[|signatures| - 1];
      var before := SitesIn(name, targetArity, file, text, signatures[..|signatures| - 1]);
      if !last.callName.Empty() && last.callName.Of(text) == name && !IsOverload(name, targetArity, text, last)
      then before + [SignatureSite(file, text, last)] else before
  }

  function Sites(name: string, targetArity: nat, candidates: seq<string>, readText: SourceLookup,
                 scanner: FileScanner): seq<SignatureSite>
    requires ScansInText(readText, scanner, candidates)
  {
    if candidates == [] then []
    else
      var c := candidates[|candidates| - 1];
      var before := Sites(name, targetArity, candidates[..|candidates| - 1], readText, scanner);
      if readText(c).None? then before
      else before + SitesIn(name, targetArity, c, readText(c).value, scanner(c, readText(c).value).signatures)
  }

  /** How many candidates could not be read. */
  function Unread(candidates: seq<string>, readText: SourceLookup): nat {
    if candidates == [] then 0
    else
      var n := |candidates| - 1;
      Unread(candidates[..n], readText) + if readText(candidates[n]).None? then 1 else 0
  }

  // ---- the program ----

  datatype Discovery = Discovery(
    signatureSites: seq<SignatureSite>,
    callSites: seq<CallSite>,
    arityMismatches: nat,
    ambiguousCalls: nat,
    otherOverloadCalls: nat,
    filesSkipped: nat)

  method ScanSignatures(name: string, targetArity: nat, file: string, text: string, signatures: seq<SignatureMarker>)
    returns (sites: seq<SignatureSite>, overloads: seq<ArityRange>)
    requires forall s :: s in signatures ==> s.callName.In(text)
    ensures sites == SitesIn(name, targetArity, file, text, signatures)
    ensures overloads == OverloadsIn(name, targetArity, text, signatures)
  {
    sites, overloads := [], [];
    for i := 0 to |signatures|
      invariant sites == SitesIn(name, targetArity, file, text, signatures[..i])
      invariant overloads == OverloadsIn(name, targetArity, text, signatures[..i])
    {
      assert signatures[..i + 1][..i] == signatures[..i];
      var s := signatures[i];
      if s.callName.Empty() || s.callName.Of(text) != name {
        continue;
      }
      if s.kind != CurriedType && |s.parameters| != targetArity {
        var range := PositionalArity(s.parameters);
        overloads := overloads + [range];
        continue;
      }
      sites := sites + [SignatureSite(file, text, s)];
    }
    assert signatures[..|signatures|] == signatures;
  }

  method ScanCalls(name: string, file: string, text: string, calls: seq<CallMarker>) returns (sites: seq<CallSite>)
    requires forall c :: c in calls ==> c.callee.In(text) && c.arity.In(text)
    ensures sites == Called(name, file, text, calls)
  {
    sites := [];
    for i := 0 to |calls|
      invariant sites == Called(name, file, text, calls[..i])
    {
      assert calls[..i + 1][..i] == calls[..i];
      if calls[i].callee.Of(text) != name {
        continue;
      }
      sites := sites + [CallSite(file, text, calls[i])];
    }
    assert calls[..|calls|] == calls;
  }

  lemma WrapsOnTheWay(value: nat, digit: nat)
    ensures (value % WORD * 10 + digit) % WORD == (value * 10 + digit) % WORD
  {
    assert value * 10 + digit == value / WORD * 10 * WORD + (value % WORD * 10 + digit);
  }

  lemma PrintedArityReads(n: nat)
    requires n < WORD
    ensures ReadArity(Print(n)) == Some(n)
  {
    PrintHasValue(n);
  }

  /** The first erase: references by an arity the target does not accept. */
  method KeepsReference(own: ArityRange, site: CallSite) returns (keep: bool)
    requires site.call.arity.In(site.text)
    ensures keep <==> (site.ByArity() ==> ReferenceStays(own, site))
  {
    if !site.ByArity() {
      return true;
    }
    var digits := site.call.arity.Of(site.text);
    var arity := 0;
    for i := 0 to |digits|
      invariant AllDigits(digits[..i]) && arity == Value(digits[..i]) % WORD
    {
      assert digits[..i + 1][..i] == digits[..i];
      if !IsDigit(digits[i]) {
        return false;
      }
      WrapsOnTheWay(Value(digits[..i]), DigitValue(digits[i]));
      arity := (arity * 10 + DigitValue(digits[i])) % WORD;
    }
    assert digits[..|digits|] == digits;
    return Accepts(own, arity);
  }

  method EraseReferences(own: ArityRange, sites: seq<CallSite>) returns (kept: seq<CallSite>)
    requires ValidSites(sites)
    ensures kept == Kept(own, [], sites)
    ensures ValidSites(kept)
  {
    kept := [];
    for i := 0 to |sites|
      invariant kept == Kept(own, [], sites[..i])
      invariant ValidSites(kept)
    {
      assert sites[..i + 1][..i] == sites[..i];
      var keep := KeepsReference(own, sites[i]);
      if keep {
        kept := kept + [sites[i]];
      }
    }
    assert sites[..|sites|] == sites;
  }

  /** The second erase: calls only another overload accepts, with the ambiguous ones counted. */
  method EraseOverloadCalls(own: ArityRange, overloads: seq<ArityRange>, sites: seq<CallSite>)
    returns (kept: seq<CallSite>, ambiguous: nat, other: nat)
    requires ValidSites(sites) && overloads != []
    requires forall i :: 0 <= i < |sites| ==> Judge(own, overloads, sites[i]) != RemovedReference
    ensures kept == Kept(own, overloads, sites)
    ensures ambiguous == CountJudged(own, overloads, sites, Ambiguous)
    ensures other == CountJudged(own, overloads, sites, OtherOverload)
  {
    kept, ambiguous, other := [], 0, 0;
    for i := 0 to |sites|
      invariant kept == Kept(own, overloads, sites[..i])
      invariant ambiguous == CountJudged(own, overloads, sites[..i], Ambiguous)
      invariant other == CountJudged(own, overloads, sites[..i], OtherOverload)
    {
      assert sites[..i + 1][..i] == sites[..i];
      var site := sites[i];
      if site.ByArity() {
        kept := kept + [site];
        continue;
      }
      var count := PositionalCount(site.call);
      var ours := count.None? || Accepts(own, count.value);
      var theirs := count.None? || exists j :: 0 <= j < |overloads| && Accepts(overloads[j], count.value);
      if ours && theirs {
        ambiguous := ambiguous + 1;
      }
      if theirs && !ours {
        other := other + 1;
        continue;
      }
      kept := kept + [site];
    }
    assert sites[..|sites|] == sites;
  }

  /** Reads every candidate once, collecting the sites to rewrite, the overloads and the found calls. */
  method ScanCandidates(name: string, targetArity: nat, candidates: seq<string>, readText: SourceLookup,
                        scanner: FileScanner)
    returns (sites: seq<SignatureSite>, overloads: seq<ArityRange>, calls: seq<CallSite>, skipped: nat)
    requires ScansInText(readText, scanner, candidates)
    ensures sites == Sites(name, targetArity, candidates, readText, scanner)
    ensures overloads == Overloads(name, targetArity, candidates, readText, scanner)
    ensures calls == Found(name, candidates, readText, scanner)
    ensures skipped == Unread(candidates, readText)
  {
    sites, overloads, calls, skipped := [], [], [], 0;
    for i := 0 to |candidates|
      invariant sites == Sites(name, targetArity, candidates[..i], readText, scanner)
      invariant overloads == Overloads(name, targetArity, candidates[..i], readText, scanner)
      invariant calls == Found(name, candidates[..i], readText, scanner)
      invariant skipped == Unread(candidates[..i], readText)
    {
      assert candidates[..i + 1][..i] == candidates[..i];
      var text := readText(candidates[i]);
      if text.None? {
        skipped := skipped + 1;
        continue;
      }
      var scanned := scanner(candidates[i], text.value);
      var more, others := ScanSignatures(name, targetArity, candidates[i], text.value, scanned.signatures);
      var called := ScanCalls(name, candidates[i], text.value, scanned.calls);
      sites, overloads, calls := sites + more, overloads + others, calls + called;
    }
    assert candidates[..|candidates|] == candidates;
  }

  method DiscoverSignatureAndCallSites(name: string, target: SignatureMarker, candidates: seq<string>,
                                       readText: SourceLookup, scanner: FileScanner) returns (r: Discovery)
    requires ScansInText(readText, scanner, candidates)
    ensures r.signatureSites == Sites(name, |target.parameters|, candidates, readText, scanner)
    ensures
      var own, overloads := ArityOf(target.parameters),
        Overloads(name, |target.parameters|, candidates, readText, scanner);
      var found := Found(name, candidates, readText, scanner);
      && r.callSites == Kept(own, overloads, found)
      && r.arityMismatches == |overloads|
      && r.ambiguousCalls == CountJudged(own, overloads, found, Ambiguous)
      && r.otherOverloadCalls == CountJudged(own, overloads, found, OtherOverload)
      && r.filesSkipped == Unread(candidates, readText)
  {
    var sites, overloads, calls, skipped := ScanCandidates(name, |target.parameters|, candidates, readText, scanner);
    var own := PositionalArity(target.parameters);
    var kept := EraseReferences(own, calls);
    ErasesCompose(own, overloads, calls);
    if overloads == [] {
      NoOverloadsNoneCounted(own, calls);
      r := Discovery(sites, kept, 0, 0, 0, skipped);
    } else {
      var left, ambiguous, other := EraseOverloadCalls(own, overloads, kept);
      r := Discovery(sites, left, |overloads|, ambiguous, other, skipped);
    }
  }

  /** Erasing references and then other overloads' calls judges every found call once. */
  lemma {:induction false} ErasesCompose(own: ArityRange, overloads: seq<ArityRange>, sites: seq<CallSite>)
    requires ValidSites(sites)
    ensures var kept := Kept(own, [], sites);
      && ValidSites(kept)
      && (forall i :: 0 <= i < |kept| ==> Judge(own, overloads, kept[i]) != RemovedReference)
      && Kept(own, overloads, kept) == Kept(own, overloads, sites)
      && (forall v :: v != RemovedReference ==>
        CountJudged(own, overloads, kept, v) == CountJudged(own, overloads, sites, v))
  {
    if sites != [] {
      var front, last := sites[..|sites| - 1], sites[|sites| - 1];
      ErasesCompose(own, overloads, front);
      var kept := Kept(own, [], front);
      assert (kept + [last])[..|kept|] == kept;
    }
  }

  lemma {:induction false} NoOverloadsNoneCounted(own: ArityRange, sites: seq<CallSite>)
    requires ValidSites(sites)
    ensures CountJudged(own, [], sites, Ambiguous) == 0 == CountJudged(own, [], sites, OtherOverload)
  {
    if sites != [] {
      NoOverloadsNoneCounted(own, sites[..|sites| - 1]);
    }
  }

  // ---- what discovery guarantees ----

  /** No call of the target is lost: found calls are kept, another overload's, or references to another arity. */
  lemma {:induction false} EveryCallIsAccountedFor(own: ArityRange, overloads: seq<ArityRange>, found: seq<CallSite>)
    requires ValidSites(found)
    ensures |found| == |Kept(own, overloads, found)|
                       + CountJudged(own, overloads, found, OtherOverload)
                       + CountJudged(own, overloads, found, RemovedReference)
    ensures CountJudged(own, overloads, found, Ambiguous) + CountJudged(own, overloads, found, Ours)
            == |Kept(own, overloads, found)|
  {
    if found != [] {
      EveryCallIsAccountedFor(own, overloads, found[..|found| - 1]);
    }
  }

  /**
   A call is left out only when another overload accepts its argument count and the target does not; when
   both could be meant, or its count is unknowable, it is kept and counted ambiguous.
   */
  lemma LeftOutOnlyWhenNotOurs(own: ArityRange, overloads: seq<ArityRange>, found: seq<CallSite>, site: CallSite)
    requires ValidSites(found) && site in found && !site.ByArity()
    ensures site !in Kept(own, overloads, found) <==>
            && PositionalCountOf(site.call).Some?
            && !Accepts(own, PositionalCountOf(site.call).value)
            && exists i :: 0 <= i < |overloads| && Accepts(overloads[i], PositionalCountOf(site.call).value)
    ensures overloads != [] && CouldBe(own, site.call) && CouldBeAny(overloads, site.call) ==>
            site in Kept(own, overloads, found) && CountJudged(own, overloads, found, Ambiguous) > 0
  {
    JudgedIsCounted(own, overloads, found, site);
  }

  lemma {:induction false} JudgedIsCounted(own: ArityRange, overloads: seq<ArityRange>, found: seq<CallSite>,
                                           site: CallSite)
    requires ValidSites(found) && site in found
    ensures CountJudged(own, overloads, found, Judge(own, overloads, site)) > 0
  {
    var front, last := found[..|found| - 1], found[|found| - 1];
    assert found == front + [last];
    if last != site {
      JudgedIsCounted(own, overloads, front, site);
    }
  }

  /** A reference by arity is kept exactly when the target accepts the arity its digits name. */
  lemma ReferenceKeptByArity(own: ArityRange, overloads: seq<ArityRange>, found: seq<CallSite>, site: CallSite, n: nat)
    requires ValidSites(found) && site in found && site.ByArity() && n < WORD
    requires site.call.arity.Of(site.text) == Print(n)
    ensures site in Kept(own, overloads, found) <==> Accepts(own, n)
  {
    PrintedArityReads(n);
  }

  // ---- which counts a list accepts ----

  /** The places of the parameters an argument may fill by place. */
  function Fillable(params: seq<SignatureParameter>): set<nat> {
    set i: nat | i < |params| && !params[i].isKeyword && !params[i].isVariadic
  }

  /** Of these, the ones that neither have a default nor may be supplied by an object. */
  function Needed(params: seq<SignatureParameter>): set<nat> {
    set i: nat | i < |params| && !params[i].isKeyword && !params[i].isVariadic
      && !params[i].hasDefaultValue && params[i].receiver == Ordinary
  }

  lemma {:induction false} CountsAreSizes(params: seq<SignatureParameter>)
    ensures CountFillable(params) == |Fillable(params)| && CountRequired(params) == |Needed(params)|
  {
    if params == [] {
      assert Fillable(params) == {} && Needed(params) == {};
    } else {
      var n := |params| - 1;
      CountsAreSizes(params[..n]);
      LastPlace(params, n);
    }
  }

  lemma LastPlace(params: seq<SignatureParameter>, n: nat)
    requires n + 1 == |params|
    ensures n !in Fillable(params[..n]) && n !in Needed(params[..n])
    ensures Fillable(params) == Fillable(params[..n]) + if n in Fillable(params) then {n} else {}
    ensures Needed(params) == Needed(params[..n]) + if n in Needed(params) then {n} else {}
  {
  }

  /**
   A list accepts the counts from its needed parameters up to all that can be filled by place; a variadic one has
   no upper end.
   */
  lemma AcceptedCounts(params: seq<SignatureParameter>, count: nat)
    ensures Accepts(ArityOf(params), count) <==>
      |Needed(params)| <= count && ((exists p <- params :: !p.isKeyword && p.isVariadic) || count <= |Fillable(params)|)
  {
    CountsAreSizes(params);
    if p :| p in params && !p.isKeyword && p.isVariadic {
      var i :| 0 <= i < |params| && params[i] == p;
    }
  }

  /** `area(self, w, h = 1)`: from one to three, with the receiver passed or not. */
  lemma MethodCounts(self: SignatureParameter, w: SignatureParameter, h: SignatureParameter, count: nat)
    requires !self.isKeyword && !self.isVariadic && self.receiver == InstanceReceiver
    requires !w.isKeyword && !w.isVariadic && w.receiver == Ordinary && !w.hasDefaultValue
    requires !h.isKeyword && !h.isVariadic && h.receiver == Ordinary && h.hasDefaultValue
    ensures Accepts(ArityOf([self, w, h]), count) <==> 1 <= count <= 3
  {
    AcceptedCounts([self, w, h], count);
    assert Fillable([self, w, h]) == {0, 1, 2} && Needed([self, w, h]) == {1};
  }

  /** A call's count is that of its arguments without a name; a spread one between delimiters leaves it unknown. */
  lemma CountedArguments(call: CallMarker)
    ensures PositionalCountOf(call).None? <==>
      call.delimited && exists a <- call.arguments :: a.name.end <= a.name.start && !a.positional
    ensures PositionalCountOf(call).Some? ==>
      PositionalCountOf(call).value ==
        |set i | 0 <= i < |call.arguments| && call.arguments[i].name.end <= call.arguments[i].name.start|
  {
    UnnamedAreCounted(call.arguments);
    assert Unknowable(call, |call.arguments|) <==>
      call.delimited && exists a <- call.arguments :: a.name.end <= a.name.start && !a.positional by {
      if a :| a in call.arguments && a.name.end <= a.name.start && !a.positional {
        var i :| 0 <= i < |call.arguments| && call.arguments[i] == a;
        assert !IsNamed(call.arguments[i]);
      }
    }
  }

  lemma {:induction false} UnnamedAreCounted(args: seq<CallArgument>)
    ensures CountUnnamed(args) == |set i | 0 <= i < |args| && args[i].name.end <= args[i].name.start|
  {
    var all := set i | 0 <= i < |args| && args[i].name.end <= args[i].name.start;
    if args == [] {
      assert all == {};
    } else {
      var n := |args| - 1;
      var front := set i | 0 <= i < |args[..n]| && args[..n][i].name.end <= args[..n][i].name.start;
      UnnamedAreCounted(args[..n]);
      assert all == front + if args[n].name.end <= args[n].name.start then {n} else {};
    }
  }
}
