/**
 Which changes of a signature, and which of its calls, are taken on, in the terms of their parameters and arguments
 (Source/Editor/ChangeSignature.cpp:51-162, 164-229).
 */
module SignatureAcceptance {
  import opened Common
  import opened SignatureMapping
  import opened SignatureCalls
  import opened SignatureMeaning

  /** `name` is that of exactly one old positional parameter. */
  ghost predicate NamesOne(oldList: NamedList, name: string)
    requires oldList.Valid()
  {
    exists j: nat :: OnlyAt(oldList.PositionalNames(), name, j)
  }

  /** A positional parameter is an old positional one by name, or new: then it is no old keyword, and has a default. */
  ghost predicate FitsByPlace(oldList: NamedList, name: string, p: SignatureParameter)
    requires oldList.Valid()
  {
    name !in oldList.KeywordNames() && (NamesOne(oldList, name) || p.hasDefaultValue)
  }

  /** A keyword-only one is an old keyword, or new: then it is no old positional one, and has a default. */
  ghost predicate FitsByName(oldList: NamedList, name: string, p: SignatureParameter)
    requires oldList.Valid()
  {
    name in oldList.KeywordNames() || (!NamesOne(oldList, name) && p.hasDefaultValue)
  }

  /**
   A change is mapped if and only if no parameter is variadic, the old receivers lead their list and the new one
   keeps them in front by name, no new name is used twice, and every new parameter fits.
   */
  lemma ChangeIsMappedWhen(oldList: NamedList, newList: NamedList)
    requires oldList.Valid() && newList.Valid()
    ensures var old', was := oldList.Positional(), oldList.PositionalNames(); |old'| == |was|
    ensures Mappable(oldList, newList) <==>
      && (forall p <- oldList.params + newList.params :: !p.isVariadic)
      && ReceiversKept(oldList, newList)
      && Distinct(newList.names)
      && (forall i :: 0 <= i < |newList.params| ==>
            if newList.params[i].isKeyword then FitsByName(oldList, newList.names[i], newList.params[i])
            else FitsByPlace(oldList, newList.names[i], newList.params[i]))
  {
    PickSameLength(oldList.names, oldList.params, oldList.params, false);
    VariadicIn(oldList.params, newList.params);
    ReceiversKeptAre(oldList, newList);
    AcceptedAre(oldList, newList);
  }

  /**
   A new parameter is declined for its name if that has been used before; else for changing how it is passed if it is
   known from the other kind; else for having no default if it is not known from its own kind and has none.
   */
  lemma DeclineMeans(oldList: NamedList, earlier: seq<string>, n: string, p: SignatureParameter)
    requires oldList.Valid()
    ensures
      var decline := ParameterDecline(oldList.PositionalNames(), oldList.KeywordNames(), earlier, n, p);
      var byName, byPlace := n in oldList.KeywordNames(), NamesOne(oldList, n);
      && (decline == Some(RepeatedName(n)) <==> n in earlier)
      && (decline == Some(ChangedPassing(n)) <==>
            n !in earlier && if p.isKeyword then byPlace && !byName else byName)
      && (decline == Some(NoDefault(n)) <==>
            n !in earlier && !p.hasDefaultValue && !byName && !byPlace)
  {
    assert NamesOne(oldList, n) <==> Unambiguous(oldList.PositionalNames(), n);
  }

  /** A list's names are the texts of its parameters' names, or of the whole of those that have none. */
  lemma ListIsNamed(text: string, params: seq<SignatureParameter>, i: nat)
    requires ValidParameters(text, params) && i < |params|
    ensures var p, n := params[i], Named(text, params).names[i];
      if p.name.start < p.name.end then n == text[p.name.start..p.name.end] else n == text[p.whole.start..p.whole.end]
  {
  }

  /** Some number of old positional parameters are receivers and the others are not; those head the new list. */
  ghost predicate ReceiversKept(oldList: NamedList, newList: NamedList)
    requires oldList.Valid() && newList.Valid() && |oldList.Positional()| == |oldList.PositionalNames()|
  {
    exists k: nat :: k <= |oldList.Positional()| && k <= |newList.params| && KeptTo(oldList, newList, k)
  }

  ghost predicate KeptTo(oldList: NamedList, newList: NamedList, k: nat)
    requires oldList.Valid() && newList.Valid() && |oldList.Positional()| == |oldList.PositionalNames()|
    requires k <= |oldList.Positional()| && k <= |newList.params|
  {
    && (forall i :: 0 <= i < |oldList.Positional()| ==> (oldList.Positional()[i].receiver != Ordinary <==> i < k))
    && (forall i :: 0 <= i < k ==> !newList.params[i].isKeyword && newList.names[i] == oldList.PositionalNames()[i])
  }

  lemma VariadicIn(a: seq<SignatureParameter>, b: seq<SignatureParameter>)
    ensures (forall p <- a + b :: !p.isVariadic) <==> !AnyVariadic(a) && !AnyVariadic(b)
  {
    assert forall p :: p in a + b <==> p in a || p in b;
  }

  lemma ReceiversKeptAre(oldList: NamedList, newList: NamedList)
    requires oldList.Valid() && newList.Valid() && |oldList.Positional()| == |oldList.PositionalNames()|
    ensures ReceiversKept(oldList, newList) <==> ReceiversStay(oldList, newList)
  {
    var ps := oldList.Positional();
    var k := LeadingReceivers(ps);
    if ReceiversStay(oldList, newList) {
      assert KeptTo(oldList, newList, k);
    }
    if j: nat :| j <= |ps| && j <= |newList.params| && KeptTo(oldList, newList, j) {
      LeadingAre(ps, j);
    }
  }

  lemma LeadingAre(ps: seq<SignatureParameter>, k: nat)
    requires k <= |ps| && forall i :: 0 <= i < |ps| ==> (ps[i].receiver != Ordinary <==> i < k)
    ensures LeadingReceivers(ps) == k
  {
    assert k < |ps| ==> ps[k].receiver == Ordinary;
  }

  lemma AcceptedAre(oldList: NamedList, newList: NamedList)
    requires oldList.Valid() && newList.Valid()
    ensures var was, keywords := oldList.PositionalNames(), oldList.KeywordNames();
      AllAccepted(was, keywords, newList.names, newList.params, |newList.params|) <==>
        && Distinct(newList.names)
        && (forall i :: 0 <= i < |newList.params| ==>
              if newList.params[i].isKeyword then FitsByName(oldList, newList.names[i], newList.params[i])
              else FitsByPlace(oldList, newList.names[i], newList.params[i]))
  {
    var names, params := newList.names, newList.params;
    var was, keywords := oldList.PositionalNames(), oldList.KeywordNames();
    forall i: nat | i < |params|
      ensures Accepted(was, keywords, names, params, i) <==>
        && names[i] !in names[..i]
        && (if params[i].isKeyword then FitsByName(oldList, names[i], params[i])
            else FitsByPlace(oldList, names[i], params[i]))
    {
      AcceptedIs(oldList, names[i], params[i], names[..i]);
    }
    FreshNames(names);
  }

  lemma AcceptedIs(oldList: NamedList, n: string, p: SignatureParameter, earlier: seq<string>)
    requires oldList.Valid()
    ensures ParameterDecline(oldList.PositionalNames(), oldList.KeywordNames(), earlier, n, p).None? <==>
      && n !in earlier
      && (if p.isKeyword then FitsByName(oldList, n, p) else FitsByPlace(oldList, n, p))
  {
    assert NamesOne(oldList, n) <==> Unambiguous(oldList.PositionalNames(), n);
  }

  lemma FreshNames(names: seq<string>)
    ensures Distinct(names) <==> forall i :: 0 <= i < |names| ==> names[i] !in names[..i]
  {
    if forall i :: 0 <= i < |names| ==> names[i] !in names[..i] {
      forall i, j | 0 <= i < j < |names| ensures names[i] != names[j] {
        assert names[..j][i] == names[i];
      }
    }
  }

  // ---- calls ----

  /** Every argument is one by place, or one by the name of an old keyword. */
  ghost predicate Understood(oldList: NamedList, text: string, args: seq<CallArgument>)
    requires oldList.Valid() && ValidArguments(text, args)
  {
    forall i :: 0 <= i < |args| && !args[i].positional ==>
      !args[i].name.Empty() && args[i].name.Of(text) in oldList.KeywordNames()
  }

  /** A call's own object is the first parameter of a function without receivers for it; that stays the first one. */
  ghost predicate FirstKept(oldList: NamedList, newList: NamedList)
    requires oldList.Valid() && newList.Valid()
  {
    && newList.PositionalNames() != [] && oldList.PositionalNames() != []
    && OnlyAt(oldList.PositionalNames(), newList.PositionalNames()[0], 0)
  }

  /**
   With the object supplying `k` parameters, a call is rewritten if and only if its arguments are understood, an
   object that is the first parameter stays that, it passes no more than the old list takes -- and no fewer where
   passing fewer is partial application -- and every parameter the new list keeps has its argument in the call.
   */
  lemma CallIsRewrittenWhen(oldList: NamedList, newList: NamedList, m: Mapping,
                            text: string, args: seq<CallArgument>, receiver: CallReceiver, curried: bool)
    requires oldList.Valid() && newList.Valid() && ValidArguments(text, args)
    requires Mappable(oldList, newList) && Maps(oldList, newList, m)
    ensures var k, passed := Implicit(m, receiver), |PositionalTexts(text, args)|;
      var was, now := oldList.PositionalNames(), newList.PositionalNames();
      Refusal(text, args, m, receiver, curried).None? <==>
        && Understood(oldList, text, args)
        && (receiver == FirstObject && SuppliedRun(m.receivers, receiver) == 0 ==> FirstKept(oldList, newList))
        && k + passed <= |was| && (curried ==> k + passed == |was|)
        && (forall i, j: nat :: k <= i < |now| && OnlyAt(was, now[i], j) ==> k <= j < k + passed)
  {
    KeywordsSplit(oldList, newList, m);
    RefusedNames(oldList, text, args, m);
    FirstKeptIs(oldList, newList, m);
    FitsMeans(oldList, newList, m, Implicit(m, receiver), |PositionalTexts(text, args)|);
  }

  /**
   Why a call is left: an argument that is not understood, else an object that is no longer the first parameter, else
   too many arguments, else too few to be all of them, else one that is needed and missing.
   */
  lemma CallIsLeftBecause(oldList: NamedList, newList: NamedList, m: Mapping,
                          text: string, args: seq<CallArgument>, receiver: CallReceiver, curried: bool)
    requires oldList.Valid() && newList.Valid() && ValidArguments(text, args)
    requires Mappable(oldList, newList) && Maps(oldList, newList, m)
    ensures var reason, k := Refusal(text, args, m, receiver, curried), Implicit(m, receiver);
      var passed, was := |PositionalTexts(text, args)|, oldList.PositionalNames();
      var moved := receiver == FirstObject && SuppliedRun(m.receivers, receiver) == 0 && !FirstKept(oldList, newList);
      if !Understood(oldList, text, args) then reason == Some(SpreadsArguments) || reason == Some(PassesByName)
      else if moved then reason == Some(FirstParameterMoved)
      else if k + passed > |was| then reason == Some(TooManyArguments)
      else if curried && k + passed < |was| then reason == Some(AppliedPartially)
      else reason == None || reason == Some(TooFewArguments)
  {
    KeywordsSplit(oldList, newList, m);
    RefusedNames(oldList, text, args, m);
    OnlyTwoReasons(text, args, m);
    FirstKeptIs(oldList, newList, m);
  }

  lemma {:induction false} OnlyTwoReasons(text: string, args: seq<CallArgument>, m: Mapping)
    requires ValidArguments(text, args)
    ensures NamedRefusal(text, args, m) in {None, Some(SpreadsArguments), Some(PassesByName)}
  {
    if args != [] {
      OnlyTwoReasons(text, args[..|args| - 1], m);
    }
  }

  lemma KeywordsSplit(oldList: NamedList, newList: NamedList, m: Mapping)
    requires oldList.Valid() && newList.Valid() && Mappable(oldList, newList) && Maps(oldList, newList, m)
    ensures forall n :: n in oldList.KeywordNames() <==> n in m.keptKeywords || n in m.droppedKeywords
  {
    forall n | n in oldList.KeywordNames() && n !in m.droppedKeywords ensures n in m.keptKeywords {
      var i :| 0 <= i < |newList.names| && newList.names[i] == n;
      assert Accepted(oldList.PositionalNames(), oldList.KeywordNames(), newList.names, newList.params, i);
      PickHas(newList.names, newList.params, i);
    }
  }

  lemma {:induction false} PickHas(xs: seq<string>, params: seq<SignatureParameter>, i: nat)
    requires |xs| == |params| && i < |xs|
    ensures xs[i] in Pick(xs, params, params[i].isKeyword)
  {
    var n := |xs| - 1;
    if i < n {
      PickHas(xs[..n], params[..n], i);
    }
  }

  lemma {:induction false} RefusedNames(oldList: NamedList, text: string, args: seq<CallArgument>, m: Mapping)
    requires oldList.Valid() && ValidArguments(text, args)
    requires forall n :: n in oldList.KeywordNames() <==> n in m.keptKeywords || n in m.droppedKeywords
    ensures NamedRefusal(text, args, m).None? <==> Understood(oldList, text, args)
  {
    if args != [] {
      var n := |args| - 1;
      RefusedNames(oldList, text, args[..n], m);
      assert forall i :: 0 <= i < n ==> args[..n][i] == args[i];
    }
  }

  lemma FirstKeptIs(oldList: NamedList, newList: NamedList, m: Mapping)
    requires oldList.Valid() && newList.Valid() && Maps(oldList, newList, m)
    ensures FirstStays(m) <==> FirstKept(oldList, newList)
  {
    var was, now := oldList.PositionalNames(), newList.PositionalNames();
    if now != [] {
      assert OriginOf(was, now[0], newList.Positional()[0], m.origins[0]);
    }
  }

  lemma FitsMeans(oldList: NamedList, newList: NamedList, m: Mapping, k: nat, passed: nat)
    requires oldList.Valid() && newList.Valid() && Maps(oldList, newList, m)
    ensures Fits(m.origins, k, passed) <==>
      var was, now := oldList.PositionalNames(), newList.PositionalNames();
      forall i, j: nat :: k <= i < |now| && OnlyAt(was, now[i], j) ==> k <= j < k + passed
  {
    var was, now, params := oldList.PositionalNames(), newList.PositionalNames(), newList.Positional();
    forall i, j: nat | k <= i < |now| && OnlyAt(was, now[i], j) ensures m.origins[i] == Kept(j) {
      KeptIsNamed(was, now[i], params[i], m.origins[i], j);
    }
    forall i | k <= i < |now| && m.origins[i].Kept? ensures OnlyAt(was, now[i], m.origins[i].oldIndex) {
      assert OriginOf(was, now[i], params[i], m.origins[i]);
    }
  }
}
