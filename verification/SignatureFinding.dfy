/**
 What discovery finds and what it decides of each call, on the candidates' own signatures and calls
 (Source/Editor/ChangeSignature.cpp:362-422).
 */
module SignatureFinding {
  import opened Common
  import opened Decimal
  import opened SignatureMapping
  import opened SignatureCalls
  import opened SignatureSites
  import opened SignatureDiscovery

  // ---- what is found ----

  /** `site` is a call of `name` in a candidate that can be read. */
  ghost predicate IsCallOf(name: string, candidates: seq<string>, readText: SourceLookup, scanner: FileScanner,
                           site: CallSite)
    requires ScansInText(readText, scanner, candidates)
  {
    && site.file in candidates && readText(site.file) == Some(site.text)
    && site.call in scanner(site.file, site.text).calls
    && site.text[site.call.callee.start..site.call.callee.end] == name
  }

  lemma {:induction false} CallsFound(name: string, candidates: seq<string>, readText: SourceLookup,
                                      scanner: FileScanner, site: CallSite)
    requires ScansInText(readText, scanner, candidates)
    ensures site in Found(name, candidates, readText, scanner) <==> IsCallOf(name, candidates, readText, scanner, site)
  {
    if candidates != [] {
      var n := |candidates| - 1;
      CallsFound(name, candidates[..n], readText, scanner, site);
      assert candidates == candidates[..n] + [candidates[n]];
      var text := readText(candidates[n]);
      if text.Some? {
        CallsIn(name, candidates[n], text.value, scanner(candidates[n], text.value).calls, site);
      }
    }
  }

  lemma {:induction false} CallsIn(name: string, file: string, text: string, calls: seq<CallMarker>, site: CallSite)
    requires forall c :: c in calls ==> c.callee.In(text) && c.arity.In(text)
    ensures site in Called(name, file, text, calls) <==>
      && site.file == file && site.text == text && site.call in calls
      && text[site.call.callee.start..site.call.callee.end] == name
  {
    if calls != [] {
      var n := |calls| - 1;
      CallsIn(name, file, text, calls[..n], site);
      assert calls == calls[..n] + [calls[n]];
    }
  }

  /** The marker is of a signature of `name`. */
  predicate Names(name: string, text: string, s: SignatureMarker)
    requires s.callName.In(text)
  {
    s.callName.start < s.callName.end && text[s.callName.start..s.callName.end] == name
  }

  /** A site to rewrite has the target's number of parameters, or spells them as one type. */
  ghost predicate IsSiteOf(name: string, arity: nat, candidates: seq<string>, readText: SourceLookup,
                           scanner: FileScanner, site: SignatureSite)
    requires ScansInText(readText, scanner, candidates)
  {
    && site.file in candidates && readText(site.file) == Some(site.text)
    && site.signature in scanner(site.file, site.text).signatures && Names(name, site.text, site.signature)
    && (site.signature.kind == CurriedType || |site.signature.parameters| == arity)
  }

  lemma {:induction false} SignaturesFound(name: string, arity: nat, candidates: seq<string>, readText: SourceLookup,
                                           scanner: FileScanner, site: SignatureSite)
    requires ScansInText(readText, scanner, candidates)
    ensures site in Sites(name, arity, candidates, readText, scanner) <==>
      IsSiteOf(name, arity, candidates, readText, scanner, site)
  {
    if candidates != [] {
      var n := |candidates| - 1;
      SignaturesFound(name, arity, candidates[..n], readText, scanner, site);
      assert candidates == candidates[..n] + [candidates[n]];
      var text := readText(candidates[n]);
      if text.Some? {
        SignaturesIn(name, arity, candidates[n], text.value, scanner(candidates[n], text.value).signatures, site);
      }
    }
  }

  lemma {:induction false} SignaturesIn(name: string, arity: nat, file: string, text: string,
                                        signatures: seq<SignatureMarker>, site: SignatureSite)
    requires forall s :: s in signatures ==> s.callName.In(text)
    ensures site in SitesIn(name, arity, file, text, signatures) <==>
      && site.file == file && site.text == text && site.signature in signatures && Names(name, text, site.signature)
      && (site.signature.kind == CurriedType || |site.signature.parameters| == arity)
  {
    if signatures != [] {
      var n := |signatures| - 1;
      SignaturesIn(name, arity, file, text, signatures[..n], site);
      assert signatures == signatures[..n] + [signatures[n]];
    }
  }

  /** The range is that of a signature of the name with another number of parameters. */
  ghost predicate IsOverloadOf(name: string, arity: nat, candidates: seq<string>, readText: SourceLookup,
                               scanner: FileScanner, range: ArityRange)
    requires ScansInText(readText, scanner, candidates)
  {
    exists file, s :: file in candidates && readText(file).Some? && s in scanner(file, readText(file).value).signatures
      && Names(name, readText(file).value, s) && s.kind != CurriedType && |s.parameters| != arity
      && range == ArityOf(s.parameters)
  }

  lemma {:induction false} OverloadsFound(name: string, arity: nat, candidates: seq<string>, readText: SourceLookup,
                                          scanner: FileScanner, range: ArityRange)
    requires ScansInText(readText, scanner, candidates)
    ensures range in Overloads(name, arity, candidates, readText, scanner) <==>
      IsOverloadOf(name, arity, candidates, readText, scanner, range)
  {
    if candidates != [] {
      var n := |candidates| - 1;
      OverloadsFound(name, arity, candidates[..n], readText, scanner, range);
      assert candidates == candidates[..n] + [candidates[n]];
      var text := readText(candidates[n]);
      if text.Some? {
        OverloadsInText(name, arity, text.value, scanner(candidates[n], text.value).signatures, range);
      }
    }
  }

  lemma {:induction false} OverloadsInText(name: string, arity: nat, text: string, signatures: seq<SignatureMarker>,
                                           range: ArityRange)
    requires forall s :: s in signatures ==> s.callName.In(text)
    ensures range in OverloadsIn(name, arity, text, signatures) <==>
      exists s :: s in signatures && Names(name, text, s) && s.kind != CurriedType && |s.parameters| != arity
        && range == ArityOf(s.parameters)
  {
    if signatures != [] {
      var n := |signatures| - 1;
      OverloadsInText(name, arity, text, signatures[..n], range);
      assert signatures == signatures[..n] + [signatures[n]];
    }
  }

  function CallsAt(name: string, text: string, calls: seq<CallMarker>): set<nat>
    requires forall c :: c in calls ==> c.callee.In(text)
  {
    set i: nat | i < |calls| && calls[i].callee.In(text)
      && text[calls[i].callee.start..calls[i].callee.end] == name
  }

  function NamedAt(name: string, text: string, signatures: seq<SignatureMarker>): set<nat>
    requires forall s :: s in signatures ==> s.callName.In(text)
  {
    set i: nat | i < |signatures| && signatures[i] in signatures && Names(name, text, signatures[i])
  }

  /** Every call of the name in a file is found once. */
  lemma {:induction false} FoundOnce(name: string, file: string, text: string, calls: seq<CallMarker>)
    requires forall c :: c in calls ==> c.callee.In(text) && c.arity.In(text)
    ensures |Called(name, file, text, calls)| == |CallsAt(name, text, calls)|
  {
    if calls == [] {
      assert CallsAt(name, text, calls) == {};
    } else {
      FoundOnce(name, file, text, calls[..|calls| - 1]);
      LastCall(name, text, calls, |calls| - 1);
    }
  }

  lemma LastCall(name: string, text: string, calls: seq<CallMarker>, n: nat)
    requires n + 1 == |calls| && forall c :: c in calls ==> c.callee.In(text)
    ensures n !in CallsAt(name, text, calls[..n])
    ensures CallsAt(name, text, calls) == CallsAt(name, text, calls[..n])
      + if text[calls[n].callee.start..calls[n].callee.end] == name then {n} else {}
  {
    assert forall i :: 0 <= i < n ==> calls[..n][i] == calls[i];
  }

  /** Every signature of the name in a file is a site or an overload, once. */
  lemma {:induction false} PlacedOnce(name: string, arity: nat, file: string, text: string,
                                      signatures: seq<SignatureMarker>)
    requires forall s :: s in signatures ==> s.callName.In(text)
    ensures |SitesIn(name, arity, file, text, signatures)| + |OverloadsIn(name, arity, text, signatures)| ==
      |NamedAt(name, text, signatures)|
  {
    if signatures == [] {
      assert NamedAt(name, text, signatures) == {};
    } else {
      PlacedOnce(name, arity, file, text, signatures[..|signatures| - 1]);
      LastSignature(name, text, signatures, |signatures| - 1);
    }
  }

  lemma LastSignature(name: string, text: string, signatures: seq<SignatureMarker>, n: nat)
    requires n + 1 == |signatures| && forall s :: s in signatures ==> s.callName.In(text)
    ensures n !in NamedAt(name, text, signatures[..n])
    ensures NamedAt(name, text, signatures) == NamedAt(name, text, signatures[..n])
      + if Names(name, text, signatures[n]) then {n} else {}
  {
    assert forall i :: 0 <= i < n ==> signatures[..n][i] == signatures[i];
  }

  // ---- what is decided ----

  /** The reference's text is decimal digits only, of an arity the target accepts. */
  predicate RefersToOurs(own: ArityRange, digits: string) {
    && (forall i :: 0 <= i < |digits| ==> '0' <= digits[i] <= '9')
    && AllDigits(digits) && Accepts(own, Value(digits) % 0x1_0000_0000_0000_0000)
  }

  /** The call's number of arguments is one this range accepts, or cannot be known. */
  predicate Suits(range: ArityRange, call: CallMarker) {
    PositionalCountOf(call).None? || Accepts(range, PositionalCountOf(call).value)
  }

  ghost predicate SuitsAny(overloads: seq<ArityRange>, call: CallMarker) {
    exists i :: 0 <= i < |overloads| && Suits(overloads[i], call)
  }

  /**
   A found call stays if and only if it is a reference to an arity the target accepts, or an ordinary call that the
   target suits or no overload does.
   */
  lemma CallStaysWhen(own: ArityRange, overloads: seq<ArityRange>, found: seq<CallSite>, site: CallSite)
    requires ValidSites(found) && site in found
    ensures site in SignatureDiscovery.Kept(own, overloads, found) <==>
      if site.call.arity.start < site.call.arity.end
      then RefersToOurs(own, site.text[site.call.arity.start..site.call.arity.end])
      else Suits(own, site.call) || !SuitsAny(overloads, site.call)
  {
    if overloads != [] {
      SuitsSome(overloads, site.call);
    }
  }

  lemma SuitsSome(overloads: seq<ArityRange>, call: CallMarker)
    requires overloads != []
    ensures CouldBeAny(overloads, call) <==> SuitsAny(overloads, call)
  {
    if CouldBeAny(overloads, call) && PositionalCountOf(call).None? {
      assert Suits(overloads[0], call);
    }
    if CouldBeAny(overloads, call) && PositionalCountOf(call).Some? {
      var i :| 0 <= i < |overloads| && Accepts(overloads[i], PositionalCountOf(call).value);
      assert Suits(overloads[i], call);
    }
  }

  /** An ordinary call that an overload suits, and that the target suits or does not. */
  ghost predicate Contested(own: ArityRange, overloads: seq<ArityRange>, site: CallSite, ours: bool) {
    && site.call.arity.start >= site.call.arity.end
    && SuitsAny(overloads, site.call) && Suits(own, site.call) == ours
  }

  /** The two numbers reported are those of the contested calls: ambiguous if the target suits them, left otherwise. */
  lemma CountsReported(own: ArityRange, overloads: seq<ArityRange>, found: seq<CallSite>)
    requires ValidSites(found)
    ensures CountJudged(own, overloads, found, Ambiguous) ==
      |set i: nat | i < |found| && Contested(own, overloads, found[i], true)|
    ensures CountJudged(own, overloads, found, OtherOverload) ==
      |set i: nat | i < |found| && Contested(own, overloads, found[i], false)|
  {
    JudgedAre(own, overloads, found, Ambiguous);
    JudgedAre(own, overloads, found, OtherOverload);
    forall i | 0 <= i < |found|
      ensures Judge(own, overloads, found[i]) == Ambiguous <==> Contested(own, overloads, found[i], true)
      ensures Judge(own, overloads, found[i]) == OtherOverload <==> Contested(own, overloads, found[i], false)
    {
      if overloads != [] {
        SuitsSome(overloads, found[i].call);
      }
    }
    assert Judged(own, overloads, found, Ambiguous) ==
      set i: nat | i < |found| && Contested(own, overloads, found[i], true);
    assert Judged(own, overloads, found, OtherOverload) ==
      set i: nat | i < |found| && Contested(own, overloads, found[i], false);
  }

  ghost function Judged(own: ArityRange, overloads: seq<ArityRange>, found: seq<CallSite>, verdict: Verdict): set<nat>
    requires ValidSites(found)
  {
    set i: nat | i < |found| && Judge(own, overloads, found[i]) == verdict
  }

  lemma {:induction false} JudgedAre(own: ArityRange, overloads: seq<ArityRange>, found: seq<CallSite>,
                                     verdict: Verdict)
    requires ValidSites(found)
    ensures CountJudged(own, overloads, found, verdict) == |Judged(own, overloads, found, verdict)|
  {
    if found == [] {
      assert Judged(own, overloads, found, verdict) == {};
    } else {
      JudgedAre(own, overloads, found[..|found| - 1], verdict);
      LastJudged(own, overloads, found, |found| - 1, verdict);
    }
  }

  lemma LastJudged(own: ArityRange, overloads: seq<ArityRange>, found: seq<CallSite>, n: nat, verdict: Verdict)
    requires ValidSites(found) && n + 1 == |found|
    ensures n !in Judged(own, overloads, found[..n], verdict)
    ensures Judged(own, overloads, found, verdict) == Judged(own, overloads, found[..n], verdict)
      + if Judge(own, overloads, found[n]) == verdict then {n} else {}
  {
    assert forall i :: 0 <= i < n ==> found[..n][i] == found[i];
  }
}
