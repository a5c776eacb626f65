/**
 The first half of change-signature: matching an old and a new parameter list into a position
 mapping (Source/Editor/ChangeSignature.cpp:43-162).
 */
module SignatureMapping {
  import opened Common

  datatype ParameterReceiver = Ordinary | InstanceReceiver | AnyReceiver | AlwaysReceiver

  datatype SignatureParameter = SignatureParameter(
    whole: Range,
    name: Range,
    hasDefaultValue: bool,
    defaultValue: Range,
    isVariadic: bool,
    receiver: ParameterReceiver,
    isKeyword: bool,
    callLabel: Range)

  /** What the grammar promises of every range it reports: it lies in the text. */
  predicate ValidParameter(text: string, p: SignatureParameter) {
    p.whole.In(text) && p.name.In(text) && p.defaultValue.In(text) && p.callLabel.In(text)
  }

  predicate ValidParameters(text: string, params: seq<SignatureParameter>) {
    forall i :: 0 <= i < |params| ==> ValidParameter(text, params[i])
  }

  /** A parameter without a name (a pattern) is known by its whole text. */
  function Name(text: string, p: SignatureParameter): string
    requires ValidParameter(text, p)
  {
    if !p.name.Empty() then p.name.Of(text) else p.whole.Of(text)
  }

  function Names(text: string, params: seq<SignatureParameter>): (names: seq<string>)
    requires ValidParameters(text, params)
    ensures |names| == |params|
    ensures forall i :: 0 <= i < |names| ==> names[i] == Name(text, params[i])
  {
    seq(|params|, i requires 0 <= i < |params| => Name(text, params[i]))
  }

  /** The entries of `xs` standing where `params` has a keyword-only (or a positional) parameter. */
  function Pick<T>(xs: seq<T>, params: seq<SignatureParameter>, keyword: bool): (r: seq<T>)
    requires |xs| == |params|
    ensures |r| <= |xs|
  {
    if params == [] then []
    else
      var n := |params| - 1;
      if params[n].isKeyword == keyword
      then Pick(xs[..n], params[..n], keyword) + [xs[n]]
      else Pick(xs[..n], params[..n], keyword)
  }

  // ---- the declarative reading of a mapping ----

  datatype ParamOrigin = Kept(oldIndex: nat) | New(value: Range, callLabel: Range)

  datatype Mapping = Mapping(
    origins: seq<ParamOrigin>,
    oldArity: nat,
    receivers: seq<ParameterReceiver>,
    keptKeywords: seq<string>,
    droppedKeywords: seq<string>)

  datatype MappingDecline =
    | VariadicParameter
    | ReceiverMoved
    | RepeatedName(name: string)
    | ChangedPassing(name: string)
    | NoDefault(name: string)

  datatype MappingResult = Declined(reason: MappingDecline) | Mapped(mapping: Mapping)

  /** `n` stands at index `i` of `names` and nowhere else. */
  ghost predicate OnlyAt(names: seq<string>, n: string, i: nat) {
    i < |names| && names[i] == n && forall j :: 0 <= j < |names| && names[j] == n ==> j == i
  }

  /** `n` names exactly one entry, so a new parameter of that name can mean no other. */
  ghost predicate Unambiguous(names: seq<string>, n: string) {
    exists i: nat :: OnlyAt(names, n, i)
  }

  predicate AnyVariadic(params: seq<SignatureParameter>) {
    exists p :: p in params && p.isVariadic
  }

  /** How many positional parameters lead the list as receivers. */
  function LeadingReceivers(ps: seq<SignatureParameter>): (k: nat)
    ensures k <= |ps|
    ensures forall i :: 0 <= i < k ==> ps[i].receiver != Ordinary
    ensures k < |ps| ==> ps[k].receiver == Ordinary
  {
    if ps == [] || ps[0].receiver == Ordinary then 0 else 1 + LeadingReceivers(ps[1..])
  }

  function Receivers(ps: seq<SignatureParameter>): (rs: seq<ParameterReceiver>) {
    seq(LeadingReceivers(ps), i requires 0 <= i < LeadingReceivers(ps) => ps[i].receiver)
  }

  /** The first `k` old positional parameters are the receivers, and the new list keeps them first by name. */
  ghost predicate ReceiversFirst(oldNames: seq<string>, ps: seq<SignatureParameter>, k: nat,
                                 newNames: seq<string>, newParams: seq<SignatureParameter>)
    requires |oldNames| == |ps| && |newNames| == |newParams| && k <= |ps|
  {
    && (forall i :: k <= i < |ps| ==> ps[i].receiver == Ordinary)
    && k <= |newParams|
    && forall i :: 0 <= i < k ==> !newParams[i].isKeyword && oldNames[i] == newNames[i]
  }

  /** Why the new parameter `p` called `n` cannot be mapped, given the new names ahead of it. */
  ghost function ParameterDecline(oldNames: seq<string>, oldKeywords: seq<string>, earlier: seq<string>,
                                  n: string, p: SignatureParameter): Option<MappingDecline>
  {
    if n in earlier then Some(RepeatedName(n))
    else if p.isKeyword != (n in oldKeywords)
      && (n in oldKeywords || Unambiguous(oldNames, n)) then Some(ChangedPassing(n))
    else if !p.hasDefaultValue
      && (if p.isKeyword then n !in oldKeywords else !Unambiguous(oldNames, n)) then Some(NoDefault(n))
    else None
  }

  ghost predicate Accepted(oldNames: seq<string>, oldKeywords: seq<string>,
                           newNames: seq<string>, newParams: seq<SignatureParameter>, i: nat)
    requires |newNames| == |newParams| && i < |newParams|
  {
    ParameterDecline(oldNames, oldKeywords, newNames[..i], newNames[i], newParams[i]).None?
  }

  ghost predicate AllAccepted(oldNames: seq<string>, oldKeywords: seq<string>,
                              newNames: seq<string>, newParams: seq<SignatureParameter>, upTo: nat)
    requires |newNames| == |newParams| && upTo <= |newParams|
  {
    forall i: nat :: i < upTo ==> Accepted(oldNames, oldKeywords, newNames, newParams, i)
  }

  /** `reason` is the decline of the first new parameter that has one. */
  ghost predicate FirstDeclined(oldNames: seq<string>, oldKeywords: seq<string>,
                                newNames: seq<string>, newParams: seq<SignatureParameter>, reason: MappingDecline)
    requires |newNames| == |newParams|
  {
    exists i: nat ::
      && i < |newParams|
      && AllAccepted(oldNames, oldKeywords, newNames, newParams, i)
      && ParameterDecline(oldNames, oldKeywords, newNames[..i], newNames[i], newParams[i]) == Some(reason)
  }

  /** Where the value of the positional new parameter `p` called `n` comes from. */
  ghost predicate OriginOf(oldNames: seq<string>, n: string, p: SignatureParameter, origin: ParamOrigin) {
    match origin
    case Kept(i) => OnlyAt(oldNames, n, i)
    case New(value, callLabel) =>
      !Unambiguous(oldNames, n) && p.hasDefaultValue && value == p.defaultValue && callLabel == p.callLabel
  }

  ghost predicate OriginsOf(oldNames: seq<string>, newNames: seq<string>, newPositional: seq<SignatureParameter>,
                            origins: seq<ParamOrigin>)
  {
    && |origins| == |newNames| == |newPositional|
    && forall i :: 0 <= i < |origins| ==> OriginOf(oldNames, newNames[i], newPositional[i], origins[i])
  }

  /** The names of `xs` that are (or are not) among `ys`, in the order of `xs`. */
  function Select(xs: seq<string>, ys: seq<string>, among: bool): (r: seq<string>)
    ensures forall x :: x in r <==> x in xs && (x in ys) == among
  {
    if xs == [] then []
    else
      var front, last := xs[..|xs| - 1], xs[|xs| - 1];
      assert xs == front + [last];
      if (last in ys) == among then Select(front, ys, among) + [last] else Select(front, ys, among)
  }

  /** A parameter list by its names: what both lists come down to once their ranges are sliced. */
  datatype NamedList = NamedList(names: seq<string>, params: seq<SignatureParameter>) {
    predicate Valid() { |names| == |params| }

    function PositionalNames(): seq<string> requires Valid() { Pick(names, params, false) }

    function KeywordNames(): seq<string> requires Valid() { Pick(names, params, true) }

    function Positional(): seq<SignatureParameter> { Pick(params, params, false) }
  }

  function Named(text: string, params: seq<SignatureParameter>): (l: NamedList)
    requires ValidParameters(text, params)
    ensures l.Valid()
  {
    NamedList(Names(text, params), params)
  }

  /** When a change of parameter list can be mapped at all. */
  ghost predicate Mappable(oldList: NamedList, newList: NamedList)
    requires oldList.Valid() && newList.Valid()
  {
    && !AnyVariadic(oldList.params) && !AnyVariadic(newList.params)
    && ReceiversStay(oldList, newList)
    && AllAccepted(oldList.PositionalNames(), oldList.KeywordNames(), newList.names, newList.params, |newList.params|)
  }

  ghost predicate ReceiversStay(oldList: NamedList, newList: NamedList)
    requires oldList.Valid() && newList.Valid()
  {
    PickSameLength(oldList.names, oldList.params, oldList.params, false);
    ReceiversFirst(oldList.PositionalNames(), oldList.Positional(), LeadingReceivers(oldList.Positional()),
      newList.names, newList.params)
  }

  lemma PickSameLength<T, U>(xs: seq<T>, ys: seq<U>, params: seq<SignatureParameter>, keyword: bool)
    requires |xs| == |ys| == |params|
    ensures |Pick(xs, params, keyword)| == |Pick(ys, params, keyword)|
  {
    if params != [] {
      var n := |params| - 1;
      PickSameLength(xs[..n], ys[..n], params[..n], keyword);
    }
  }

  /** `m` is the mapping of the change from the old list to the new one. */
  ghost predicate Maps(oldList: NamedList, newList: NamedList, m: Mapping)
    requires oldList.Valid() && newList.Valid()
  {
    && OriginsOf(oldList.PositionalNames(), newList.PositionalNames(), newList.Positional(), m.origins)
    && m.oldArity == |oldList.PositionalNames()|
    && m.receivers == Receivers(oldList.Positional())
    && m.keptKeywords == Select(newList.KeywordNames(), oldList.KeywordNames(), true)
    && m.droppedKeywords == Select(oldList.KeywordNames(), newList.names, false)
  }

  // ---- the program ----

  /** The lookup table of the old positional names, each at its index, with the ambiguous ones left out. */
  method OldIndexByName(names: seq<string>) returns (index: map<string, nat>)
    ensures forall n :: n in index <==> Unambiguous(names, n)
    ensures forall n :: n in index ==> OnlyAt(names, n, index[n])
  {
    index := map[];
    var ambiguous: set<string> := {};
    for i := 0 to |names|
      invariant IndexedUpTo(names, i, index, ambiguous)
    {
      IndexStep(names, i, index, ambiguous);
      if names[i] in index {
        ambiguous := ambiguous + {names[i]};
      } else {
        index := index[names[i] := i];
      }
    }
    IndexIsExact(names, index, ambiguous);
    index := index - ambiguous;
  }

  /** Every name so far with its first place, and those that have another. */
  ghost predicate IndexedUpTo(names: seq<string>, i: nat, index: map<string, nat>, ambiguous: set<string>)
    requires i <= |names|
  {
    && (forall n :: n in index <==> n in names[..i])
    && (forall n :: n in index ==> index[n] < i && names[index[n]] == n)
    && (forall n :: n in index && n !in ambiguous ==> forall j :: 0 <= j < i && names[j] == n ==> j == index[n])
    && (forall n :: n in ambiguous ==> exists j, k :: 0 <= j < k < i && names[j] == n && names[k] == n)
  }

  lemma IndexStep(names: seq<string>, i: nat, index: map<string, nat>, ambiguous: set<string>)
    requires i < |names| && IndexedUpTo(names, i, index, ambiguous)
    ensures names[i] in index ==> IndexedUpTo(names, i + 1, index, ambiguous + {names[i]})
    ensures names[i] !in index ==> IndexedUpTo(names, i + 1, index[names[i] := i], ambiguous)
  {
    var n := names[i];
    assert names[..i + 1] == names[..i] + [n];
    if n in index {
      assert names[index[n]] == n;
    } else {
      assert n !in names[..i];
      assert forall j :: 0 <= j < i ==> names[j] in names[..i];
    }
  }

  lemma IndexIsExact(names: seq<string>, index: map<string, nat>, ambiguous: set<string>)
    requires IndexedUpTo(names, |names|, index, ambiguous)
    ensures forall n :: n in index - ambiguous <==> Unambiguous(names, n)
    ensures forall n :: n in index - ambiguous ==> OnlyAt(names, n, index[n])
  {
    assert names[..|names|] == names;
    forall n ensures n in index - ambiguous <==> Unambiguous(names, n) {
      if n in index && n !in ambiguous {
        assert OnlyAt(names, n, index[n]);
      }
    }
  }

  /** Sets the positional old parameters and the keyword-only names apart. */
  method SplitOld(l: NamedList) returns (positional: seq<SignatureParameter>, names: seq<string>, keywords: seq<string>)
    requires l.Valid()
    ensures positional == l.Positional() && names == l.PositionalNames() && keywords == l.KeywordNames()
    ensures |names| == |positional|
  {
    positional, names, keywords := [], [], [];
    for i := 0 to |l.params|
      invariant positional == Pick(l.params[..i], l.params[..i], false)
      invariant names == Pick(l.names[..i], l.params[..i], false)
      invariant keywords == Pick(l.names[..i], l.params[..i], true)
      invariant |names| == |positional|
    {
      PickStep(l.params, l.params, i);
      PickStep(l.names, l.params, i);
      if l.params[i].isKeyword {
        keywords := keywords + [l.names[i]];
      } else {
        positional, names := positional + [l.params[i]], names + [l.names[i]];
      }
    }
    assert l.params[..|l.params|] == l.params && l.names[..|l.params|] == l.names;
  }

  /** How one more parameter extends the positional and the keyword-only entries. */
  lemma PickStep<T>(xs: seq<T>, params: seq<SignatureParameter>, i: nat)
    requires |xs| == |params| && i < |params|
    ensures forall keyword ::
      Pick(xs[..i + 1], params[..i + 1], keyword) ==
      var before := Pick(xs[..i], params[..i], keyword);
      if params[i].isKeyword == keyword then before + [xs[i]] else before
  {
    assert params[..i + 1][..i] == params[..i] && xs[..i + 1][..i] == xs[..i];
  }

  method ReceiverMoves(oldNames: seq<string>, ps: seq<SignatureParameter>, receivers: nat,
                       newNames: seq<string>, newParams: seq<SignatureParameter>) returns (moved: bool)
    requires |oldNames| == |ps| && |newNames| == |newParams| && receivers <= |ps|
    ensures moved <==> !ReceiversFirst(oldNames, ps, receivers, newNames, newParams)
  {
    for i := receivers to |ps|
      invariant forall j :: receivers <= j < i ==> ps[j].receiver == Ordinary
    {
      if ps[i].receiver != Ordinary {
        return true;
      }
    }
    if |newParams| < receivers {
      return true;
    }
    for i := 0 to receivers
      invariant forall j :: 0 <= j < i ==> !newParams[j].isKeyword && oldNames[j] == newNames[j]
    {
      if newParams[i].isKeyword || oldNames[i] != newNames[i] {
        return true;
      }
    }
    return false;
  }

  method BuildPositionMapping(oldText: string, oldParams: seq<SignatureParameter>,
                              newText: string, newParams: seq<SignatureParameter>) returns (r: MappingResult)
    requires ValidParameters(oldText, oldParams) && ValidParameters(newText, newParams)
    ensures r.Mapped? <==> Mappable(Named(oldText, oldParams), Named(newText, newParams))
    ensures r.Mapped? ==> Maps(Named(oldText, oldParams), Named(newText, newParams), r.mapping)
    ensures r == Declined(VariadicParameter) <==> AnyVariadic(oldParams) || AnyVariadic(newParams)
    ensures r == Declined(ReceiverMoved) <==>
      && !AnyVariadic(oldParams) && !AnyVariadic(newParams)
      && !ReceiversStay(Named(oldText, oldParams), Named(newText, newParams))
    ensures r.Declined? && !r.reason.VariadicParameter? && !r.reason.ReceiverMoved? ==>
      var l := Named(oldText, oldParams);
      FirstDeclined(l.PositionalNames(), l.KeywordNames(), Names(newText, newParams), newParams, r.reason)
  {
    if AnyVariadic(oldParams) || AnyVariadic(newParams) {
      return Declined(VariadicParameter);
    }
    var oldPositional, oldNames, oldKeywords := SplitOld(Named(oldText, oldParams));
    var newNames := Names(newText, newParams);
    var receivers: seq<ParameterReceiver> := [];
    while |receivers| < |oldPositional| && oldPositional[|receivers|].receiver != Ordinary
      invariant |receivers| <= |oldPositional|
      invariant forall i :: 0 <= i < |receivers| ==> receivers[i] == oldPositional[i].receiver != Ordinary
    {
      receivers := receivers + [oldPositional[|receivers|].receiver];
    }
    assert receivers == Receivers(oldPositional);
    var moved := ReceiverMoves(oldNames, oldPositional, |receivers|, newNames, newParams);
    if moved {
      return Declined(ReceiverMoved);
    }
    r := MapParameters(oldNames, oldKeywords, newNames, newParams);
    if r.Mapped? {
      r := Mapped(r.mapping.(oldArity := |oldPositional|, receivers := receivers));
    }
  }

  /** What becomes of one new parameter: a decline, or for a positional one its origin. */
  method MapParameter(ghost oldNames: seq<string>, oldKeywords: seq<string>, index: map<string, nat>, seen: set<string>,
                      ghost earlier: seq<string>, n: string, p: SignatureParameter)
    returns (decline: Option<MappingDecline>, origin: Option<ParamOrigin>)
    requires forall m :: m in index <==> Unambiguous(oldNames, m)
    requires forall m :: m in index ==> OnlyAt(oldNames, m, index[m])
    requires forall m :: m in seen <==> m in earlier
    ensures decline == ParameterDecline(oldNames, oldKeywords, earlier, n, p)
    ensures decline.None? ==> origin.Some? == !p.isKeyword && (origin.Some? ==> OriginOf(oldNames, n, p, origin.value))
    ensures decline.Some? ==> !decline.value.VariadicParameter? && !decline.value.ReceiverMoved?
  {
    origin := None;
    if n in seen {
      return Some(RepeatedName(n)), None;
    }
    if p.isKeyword != (n in oldKeywords) && (n in oldKeywords || n in index) {
      return Some(ChangedPassing(n)), None;
    }
    if p.isKeyword {
      if n !in oldKeywords && !p.hasDefaultValue {
        return Some(NoDefault(n)), None;
      }
      return None, None;
    }
    if n in index {
      return None, Some(Kept(index[n]));
    }
    if !p.hasDefaultValue {
      return Some(NoDefault(n)), None;
    }
    return None, Some(New(p.defaultValue, p.callLabel));
  }

  /** The loop over the new parameters: their origins, and the keywords that stay and go. */
  method MapParameters(oldNames: seq<string>, oldKeywords: seq<string>, newNames: seq<string>,
                       newParams: seq<SignatureParameter>)
    returns (r: MappingResult)
    requires |newNames| == |newParams|
    ensures r.Mapped? <==> AllAccepted(oldNames, oldKeywords, newNames, newParams, |newParams|)
    ensures r.Mapped? ==>
      && OriginsOf(oldNames, Pick(newNames, newParams, false), Pick(newParams, newParams, false), r.mapping.origins)
      && r.mapping.keptKeywords == Select(Pick(newNames, newParams, true), oldKeywords, true)
      && r.mapping.droppedKeywords == Select(oldKeywords, newNames, false)
    ensures r.Declined? ==> FirstDeclined(oldNames, oldKeywords, newNames, newParams, r.reason)
    ensures r.Declined? ==> !r.reason.VariadicParameter? && !r.reason.ReceiverMoved?
  {
    var index := OldIndexByName(oldNames);
    var origins: seq<ParamOrigin>, kept: seq<string>, seen: set<string> := [], [], {};
    for i := 0 to |newParams|
      invariant forall n :: n in seen <==> n in newNames[..i]
      invariant MappedUpTo(oldNames, oldKeywords, newNames, newParams, i, origins, kept)
    {
      var decline: Option<MappingDecline>;
      decline, origins, kept := MapNext(oldNames, oldKeywords, index, seen, newNames, newParams, i, origins, kept);
      if decline.Some? {
        return Declined(decline.value);
      }
      SeenStep(seen, newNames, i);
      seen := seen + {newNames[i]};
    }
    assert newNames[..|newParams|] == newNames;
    AllMapped(oldNames, oldKeywords, newNames, newParams, origins, kept);
    var dropped := DroppedKeywords(oldKeywords, seen, newNames);
    return Mapped(Mapping(origins, 0, [], kept, dropped));
  }

  /** One new parameter after those before it. */
  method MapNext(ghost oldNames: seq<string>, oldKeywords: seq<string>, index: map<string, nat>, seen: set<string>,
                 newNames: seq<string>, newParams: seq<SignatureParameter>, i: nat,
                 origins: seq<ParamOrigin>, kept: seq<string>)
    returns (decline: Option<MappingDecline>, origins': seq<ParamOrigin>, kept': seq<string>)
    requires |newNames| == |newParams| && i < |newParams|
    requires forall m :: m in index <==> Unambiguous(oldNames, m)
    requires forall m :: m in index ==> OnlyAt(oldNames, m, index[m])
    requires forall m :: m in seen <==> m in newNames[..i]
    requires MappedUpTo(oldNames, oldKeywords, newNames, newParams, i, origins, kept)
    ensures decline.None? ==> MappedUpTo(oldNames, oldKeywords, newNames, newParams, i + 1, origins', kept')
    ensures decline.Some? ==>
      && !AllAccepted(oldNames, oldKeywords, newNames, newParams, |newParams|)
      && FirstDeclined(oldNames, oldKeywords, newNames, newParams, decline.value)
      && !decline.value.VariadicParameter? && !decline.value.ReceiverMoved?
  {
    var p, n := newParams[i], newNames[i];
    var origin: Option<ParamOrigin>;
    origins', kept' := origins, kept;
    decline, origin := MapParameter(oldNames, oldKeywords, index, seen, newNames[..i], n, p);
    if decline.Some? {
      DeclinedAt(oldNames, oldKeywords, newNames, newParams, i, decline.value);
      return;
    }
    MappedStep(oldNames, oldKeywords, newNames, newParams, i, origins, kept, origin);
    if !p.isKeyword {
      origins' := origins + [origin.value];
    } else if n in oldKeywords {
      kept' := kept + [n];
    }
  }

  lemma AllMapped(oldNames: seq<string>, oldKeywords: seq<string>, newNames: seq<string>,
                  newParams: seq<SignatureParameter>, origins: seq<ParamOrigin>, kept: seq<string>)
    requires |newNames| == |newParams|
    requires MappedUpTo(oldNames, oldKeywords, newNames, newParams, |newParams|, origins, kept)
    ensures AllAccepted(oldNames, oldKeywords, newNames, newParams, |newParams|)
    ensures OriginsOf(oldNames, Pick(newNames, newParams, false), Pick(newParams, newParams, false), origins)
    ensures kept == Select(Pick(newNames, newParams, true), oldKeywords, true)
  {
    assert newParams[..|newParams|] == newParams && newNames[..|newParams|] == newNames;
  }

  lemma DeclinedAt(oldNames: seq<string>, oldKeywords: seq<string>, newNames: seq<string>,
                   newParams: seq<SignatureParameter>, i: nat, reason: MappingDecline)
    requires |newNames| == |newParams| && i < |newParams| && AllAccepted(oldNames, oldKeywords, newNames, newParams, i)
    requires ParameterDecline(oldNames, oldKeywords, newNames[..i], newNames[i], newParams[i]) == Some(reason)
    ensures !AllAccepted(oldNames, oldKeywords, newNames, newParams, |newParams|)
    ensures FirstDeclined(oldNames, oldKeywords, newNames, newParams, reason)
  {
    assert !Accepted(oldNames, oldKeywords, newNames, newParams, i);
  }

  lemma SeenStep(seen: set<string>, names: seq<string>, i: nat)
    requires i < |names| && forall n :: n in seen <==> n in names[..i]
    ensures forall n :: n in seen + {names[i]} <==> n in names[..i + 1]
  {
    assert names[..i + 1] == names[..i] + [names[i]];
  }

  /** What the loop has established after `i` new parameters. */
  ghost predicate MappedUpTo(oldNames: seq<string>, oldKeywords: seq<string>, newNames: seq<string>,
                             newParams: seq<SignatureParameter>, i: nat, origins: seq<ParamOrigin>, kept: seq<string>)
    requires |newNames| == |newParams| && i <= |newParams|
  {
    && AllAccepted(oldNames, oldKeywords, newNames, newParams, i)
    && OriginsOf(oldNames, Pick(newNames[..i], newParams[..i], false), Pick(newParams[..i], newParams[..i], false),
      origins)
    && kept == Select(Pick(newNames[..i], newParams[..i], true), oldKeywords, true)
  }

  lemma MappedStep(oldNames: seq<string>, oldKeywords: seq<string>, newNames: seq<string>,
                   newParams: seq<SignatureParameter>,
                   i: nat, origins: seq<ParamOrigin>, kept: seq<string>, origin: Option<ParamOrigin>)
    requires |newNames| == |newParams| && i < |newParams|
    requires MappedUpTo(oldNames, oldKeywords, newNames, newParams, i, origins, kept)
    requires Accepted(oldNames, oldKeywords, newNames, newParams, i)
    requires origin.Some? == !newParams[i].isKeyword
    requires origin.Some? ==> OriginOf(oldNames, newNames[i], newParams[i], origin.value)
    ensures MappedUpTo(oldNames, oldKeywords, newNames, newParams, i + 1,
                       if newParams[i].isKeyword then origins else origins + [origin.value],
                       if newParams[i].isKeyword && newNames[i] in oldKeywords then kept + [newNames[i]] else kept)
  {
    PickStep(newNames, newParams, i);
    PickStep(newParams, newParams, i);
    SelectStep(Pick(newNames[..i], newParams[..i], true), newNames[i], oldKeywords, true);
  }

  lemma SelectStep(xs: seq<string>, x: string, ys: seq<string>, among: bool)
    ensures Select(xs + [x], ys, among) ==
      if (x in ys) == among then Select(xs, ys, among) + [x] else Select(xs, ys, among)
  {
    assert (xs + [x])[..|xs|] == xs;
  }

  method DroppedKeywords(oldKeywords: seq<string>, seen: set<string>,
                         ghost newNames: seq<string>) returns (dropped: seq<string>)
    requires forall n :: n in seen <==> n in newNames
    ensures dropped == Select(oldKeywords, newNames, false)
  {
    dropped := [];
    for i := 0 to |oldKeywords|
      invariant dropped == Select(oldKeywords[..i], newNames, false)
    {
      assert oldKeywords[..i + 1][..i] == oldKeywords[..i];
      if oldKeywords[i] !in seen {
        dropped := dropped + [oldKeywords[i]];
      }
    }
    assert oldKeywords[..|oldKeywords|] == oldKeywords;
  }

  // ---- what every mapping guarantees ----

  /** Everything RewriteArgumentList's unsigned index arithmetic rests on. */
  ghost predicate WellFormed(m: Mapping) {
    && |m.receivers| <= |m.origins| && |m.receivers| <= m.oldArity
    && (forall i :: 0 <= i < |m.origins| && m.origins[i].Kept? ==> m.origins[i].oldIndex < m.oldArity)
    && KeptDistinct(m.origins)
    && (forall i :: 0 <= i < |m.origins| && m.origins[i].Kept? && m.origins[i].oldIndex < |m.receivers| ==>
                      m.origins[i].oldIndex == i)
  }

  ghost predicate KeptDistinct(origins: seq<ParamOrigin>) {
    forall i, j :: 0 <= i < j < |origins| && origins[i].Kept? && origins[j].Kept? ==>
      origins[i].oldIndex != origins[j].oldIndex
  }

  /** A leading run of positional parameters stands at the same places in the positional list. */
  lemma {:induction false} PickKeepsPrefix(xs: seq<string>, params: seq<SignatureParameter>, k: nat)
    requires |xs| == |params| && k <= |params|
    requires forall i :: 0 <= i < k ==> !params[i].isKeyword
    ensures k <= |Pick(xs, params, false)| && Pick(xs, params, false)[..k] == xs[..k]
  {
    var n := |params|;
    if k < n {
      PickKeepsPrefix(xs[..n - 1], params[..n - 1], k);
    } else if n > 0 {
      PickKeepsPrefix(xs[..n - 1], params[..n - 1], n - 1);
      assert xs == xs[..n - 1] + [xs[n - 1]];
    }
  }

  lemma {:induction false} PickDistinct(names: seq<string>, params: seq<SignatureParameter>, keyword: bool)
    requires |names| == |params| && Distinct(names)
    ensures Distinct(Pick(names, params, keyword))
    ensures forall n :: n in Pick(names, params, keyword) ==> n in names
  {
    if params != [] {
      var n := |params| - 1;
      PickDistinct(names[..n], params[..n], keyword);
      assert names[n] !in names[..n];
      assert names[n] !in Pick(names[..n], params[..n], keyword);
    }
  }

  lemma NewNamesDistinct(oldList: NamedList, newList: NamedList)
    requires oldList.Valid() && newList.Valid() && Mappable(oldList, newList)
    ensures Distinct(newList.names) && Distinct(newList.PositionalNames()) && Distinct(newList.KeywordNames())
  {
    forall i, j | 0 <= i < j < |newList.names| ensures newList.names[i] != newList.names[j] {
      assert Accepted(oldList.PositionalNames(), oldList.KeywordNames(), newList.names, newList.params, j);
      assert newList.names[..j][i] == newList.names[i];
    }
    PickDistinct(newList.names, newList.params, false);
    PickDistinct(newList.names, newList.params, true);
  }

  /** Receivers lead the new positional list under the old names. */
  lemma ReceiversLead(oldList: NamedList, newList: NamedList, m: Mapping)
    requires oldList.Valid() && newList.Valid() && Mappable(oldList, newList) && Maps(oldList, newList, m)
    ensures |m.receivers| <= |oldList.PositionalNames()| && |m.receivers| <= |newList.PositionalNames()|
    ensures oldList.PositionalNames()[..|m.receivers|] == newList.PositionalNames()[..|m.receivers|]
  {
    PickSameLength(oldList.names, oldList.params, oldList.params, false);
    PickKeepsPrefix(newList.names, newList.params, |m.receivers|);
    var k, was, now := |m.receivers|, oldList.PositionalNames(), newList.PositionalNames();
    forall i | 0 <= i < k ensures was[i] == now[i] {
      assert now[i] == now[..k][i] == newList.names[..k][i];
    }
  }

  /** No old parameter is kept twice, and a receiver that is kept is kept in place. */
  lemma MappingIsWellFormed(oldList: NamedList, newList: NamedList, m: Mapping)
    requires oldList.Valid() && newList.Valid() && Mappable(oldList, newList) && Maps(oldList, newList, m)
    ensures WellFormed(m)
  {
    ReceiversLead(oldList, newList, m);
    NewNamesDistinct(oldList, newList);
    var was, now := oldList.PositionalNames(), newList.PositionalNames();
    forall i, j | 0 <= i < j < |m.origins| && m.origins[i].Kept? && m.origins[j].Kept?
      ensures m.origins[i].oldIndex != m.origins[j].oldIndex
    {
      assert was[m.origins[i].oldIndex] == now[i] != now[j] == was[m.origins[j].oldIndex];
    }
    forall i | 0 <= i < |m.origins| && m.origins[i].Kept? && m.origins[i].oldIndex < |m.receivers|
      ensures m.origins[i].oldIndex == i
    {
      var j := m.origins[i].oldIndex;
      assert now[j] == now[..|m.receivers|][j] == was[..|m.receivers|][j] == was[j] == now[i];
    }
  }

  /** The mapping of a change is a function of the two lists. */
  lemma MappingIsUnique(oldList: NamedList, newList: NamedList, m: Mapping, m': Mapping)
    requires oldList.Valid() && newList.Valid() && Maps(oldList, newList, m) && Maps(oldList, newList, m')
    ensures m == m'
  {
    forall i | 0 <= i < |m.origins| ensures m.origins[i] == m'.origins[i] {
      var n := newList.PositionalNames()[i];
      assert OriginOf(oldList.PositionalNames(), n, newList.Positional()[i], m.origins[i]);
      assert OriginOf(oldList.PositionalNames(), n, newList.Positional()[i], m'.origins[i]);
    }
  }
}
