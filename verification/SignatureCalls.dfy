/**
 The second half of change-signature: rewriting one call's argument list with a mapping
 (Source/Editor/ChangeSignature.cpp:164-253), and what that means for the call.
 */
module SignatureCalls {
  import opened Common
  import opened SignatureMapping

  datatype CallReceiver = NoObject | InstanceObject | TypeObject | ExplicitObject | FirstObject

  datatype CallArgument = CallArgument(whole: Range, positional: bool, name: Range)

  datatype CallDecline =
    | SpreadsArguments
    | PassesByName
    | FirstParameterMoved
    | TooManyArguments
    | AppliedPartially
    | TooFewArguments

  datatype ArgumentRewrite = Refused(reason: CallDecline) | Rewritten(text: string)

  predicate ValidArguments(text: string, args: seq<CallArgument>) {
    forall i :: 0 <= i < |args| ==> args[i].whole.In(text) && args[i].name.In(text)
  }

  predicate ValidOrigins(newText: string, origins: seq<ParamOrigin>) {
    forall i :: 0 <= i < |origins| && origins[i].New? ==>
      origins[i].value.In(newText) && origins[i].callLabel.In(newText)
  }

  // ---- a call as its argument texts ----

  /** The texts of the arguments that bind by place. */
  function PositionalTexts(text: string, args: seq<CallArgument>): (r: seq<string>)
    requires ValidArguments(text, args)
    ensures |r| <= |args|
  {
    if args == [] then []
    else
      var n := |args| - 1;
      if args[n].positional then PositionalTexts(text, args[..n]) + [args[n].whole.Of(text)]
      else PositionalTexts(text, args[..n])
  }

  /** An argument that binds by name: the name, and the whole text it was written with. */
  datatype NamedArgument = NamedArgument(name: string, text: string)

  function NamedArguments(text: string, args: seq<CallArgument>): (r: seq<NamedArgument>)
    requires ValidArguments(text, args)
  {
    if args == [] then []
    else
      var n := |args| - 1;
      var a := args[n];
      if a.positional then NamedArguments(text, args[..n])
      else NamedArguments(text, args[..n]) + [NamedArgument(a.name.Of(text), a.whole.Of(text))]
  }

  /** The named arguments whose parameter the new list still has, in the order written. */
  function Surviving(named: seq<NamedArgument>, dropped: seq<string>): (r: seq<NamedArgument>)
    ensures forall a :: a in r <==> a in named && a.name !in dropped
  {
    if named == [] then []
    else
      var front, last := named[..|named| - 1], named[|named| - 1];
      assert named == front + [last];
      if last.name in dropped then Surviving(front, dropped) else Surviving(front, dropped) + [last]
  }

  function Texts(named: seq<NamedArgument>): (r: seq<string>)
    ensures |r| == |named|
  {
    seq(|named|, i requires 0 <= i < |named| => named[i].text)
  }

  /** The texts of the surviving named arguments, which follow the positional ones. */
  function NamedPieces(text: string, args: seq<CallArgument>, dropped: seq<string>): seq<string>
    requires ValidArguments(text, args)
  {
    Texts(Surviving(NamedArguments(text, args), dropped))
  }

  // ---- which arguments the call's object supplies ----

  predicate Supplied(parameter: ParameterReceiver, receiver: CallReceiver) {
    || (parameter == AlwaysReceiver && receiver != ExplicitObject)
    || (parameter == InstanceReceiver && receiver == InstanceObject)
    || (parameter == AnyReceiver && receiver != NoObject && receiver != ExplicitObject)
  }

  /** The length of the leading run of receivers the call's object supplies. */
  function SuppliedRun(receivers: seq<ParameterReceiver>, receiver: CallReceiver): (k: nat)
    ensures k <= |receivers|
    ensures forall i :: 0 <= i < k ==> Supplied(receivers[i], receiver)
    ensures k < |receivers| ==> !Supplied(receivers[k], receiver)
  {
    if receivers == [] || !Supplied(receivers[0], receiver) then 0 else 1 + SuppliedRun(receivers[1..], receiver)
  }

  /** An object that fills the first parameter of a function that marks no receiver. */
  predicate FillsFirst(m: Mapping, receiver: CallReceiver) {
    receiver == FirstObject && SuppliedRun(m.receivers, receiver) == 0
  }

  predicate FirstStays(m: Mapping) {
    m.oldArity > 0 && m.origins != [] && m.origins[0] == Kept(0)
  }

  /** How many leading parameters the call's object supplies. */
  function Implicit(m: Mapping, receiver: CallReceiver): nat {
    if FillsFirst(m, receiver) then 1 else SuppliedRun(m.receivers, receiver)
  }

  // ---- the rewritten call ----

  /** What a new parameter's own default is written as at a call. */
  function DefaultText(newText: string, value: Range, callLabel: Range): string
    requires value.In(newText) && callLabel.In(newText)
  {
    if !callLabel.Empty() then callLabel.Of(newText) + ": " + value.Of(newText) else value.Of(newText)
  }

  /** Every kept parameter past the first `k` finds its argument. */
  predicate Fits(origins: seq<ParamOrigin>, k: nat, passed: nat) {
    forall i :: k <= i < |origins| && origins[i].Kept? ==> k <= origins[i].oldIndex < k + passed
  }

  /** The argument a parameter of the rewritten call is passed. */
  function Piece(newText: string, origin: ParamOrigin, k: nat, passed: seq<string>): string
    requires origin.Kept? ==> k <= origin.oldIndex < k + |passed|
    requires origin.New? ==> origin.value.In(newText) && origin.callLabel.In(newText)
  {
    match origin
    case Kept(oldIndex) => passed[oldIndex - k]
    case New(value, callLabel) => DefaultText(newText, value, callLabel)
  }

  /** The positional arguments of the rewritten call. */
  function NewArguments(newText: string, origins: seq<ParamOrigin>, k: nat, passed: seq<string>): (r: seq<string>)
    requires ValidOrigins(newText, origins) && k <= |origins| && Fits(origins, k, |passed|)
    ensures |r| == |origins| - k
  {
    seq(|origins| - k, i requires 0 <= i < |origins| - k => Piece(newText, origins[k + i], k, passed))
  }

  /** One piece joined onto the text so far. */
  function Append(soFar: string, separator: string, piece: string): string {
    (if soFar != "" then soFar + separator else soFar) + piece
  }

  function AppendAll(separator: string, pieces: seq<string>): string {
    if pieces == [] then "" else Append(AppendAll(separator, pieces[..|pieces| - 1]), separator, pieces[|pieces| - 1])
  }

  function ArgumentRefusal(text: string, a: CallArgument, m: Mapping): Option<CallDecline>
    requires a.name.In(text)
  {
    if a.positional then None
    else if a.name.Empty() then Some(SpreadsArguments)
    else if a.name.Of(text) in m.droppedKeywords || a.name.Of(text) in m.keptKeywords then None
    else Some(PassesByName)
  }

  /** Why the first argument that is not understood is not. */
  function NamedRefusal(text: string, args: seq<CallArgument>, m: Mapping): Option<CallDecline>
    requires ValidArguments(text, args)
  {
    if args == [] then None
    else
      var n := |args| - 1;
      var earlier := NamedRefusal(text, args[..n], m);
      if earlier.Some? then earlier else ArgumentRefusal(text, args[n], m)
  }

  /** Why a call is left as it is, if it is. */
  function Refusal(text: string, args: seq<CallArgument>, m: Mapping, receiver: CallReceiver,
                   curried: bool): Option<CallDecline>
    requires ValidArguments(text, args)
  {
    var k, passed := Implicit(m, receiver), |PositionalTexts(text, args)|;
    if NamedRefusal(text, args, m).Some? then NamedRefusal(text, args, m)
    else if FillsFirst(m, receiver) && !FirstStays(m) then Some(FirstParameterMoved)
    else if k + passed > m.oldArity then Some(TooManyArguments)
    else if curried && k + passed < m.oldArity then Some(AppliedPartially)
    else if !Fits(m.origins, k, passed) then Some(TooFewArguments)
    else None
  }

  // ---- the program ----

  function Wholes(text: string, args: seq<CallArgument>): (r: seq<string>)
    requires ValidArguments(text, args)
    ensures |r| == |args|
  {
    seq(|args|, i requires 0 <= i < |args| => args[i].whole.Of(text))
  }

  method SplitArguments(text: string, args: seq<CallArgument>, m: Mapping)
    returns (refusal: Option<CallDecline>, positional: seq<CallArgument>, named: seq<string>)
    requires ValidArguments(text, args)
    ensures refusal == NamedRefusal(text, args, m)
    ensures ValidArguments(text, positional)
    ensures refusal.None? ==>
      && Wholes(text, positional) == PositionalTexts(text, args)
      && named == NamedPieces(text, args, m.droppedKeywords)
  {
    positional, named := [], [];
    for i := 0 to |args|
      invariant NamedRefusal(text, args[..i], m).None?
      invariant ValidArguments(text, positional)
      invariant Wholes(text, positional) == PositionalTexts(text, args[..i])
      invariant named == NamedPieces(text, args[..i], m.droppedKeywords)
    {
      ArgumentStep(text, args, m, i);
      var a := args[i];
      if a.positional {
        WholesAppend(text, positional, a);
        positional := positional + [a];
        continue;
      }
      if a.name.Empty() {
        return Some(SpreadsArguments), [], [];
      }
      var name := a.name.Of(text);
      if name in m.droppedKeywords {
        continue;
      }
      if name !in m.keptKeywords {
        return Some(PassesByName), [], [];
      }
      named := named + [a.whole.Of(text)];
    }
    assert args[..|args|] == args;
    refusal := None;
  }

  lemma WholesAppend(text: string, args: seq<CallArgument>, a: CallArgument)
    requires ValidArguments(text, args) && a.whole.In(text) && a.name.In(text)
    ensures ValidArguments(text, args + [a]) && Wholes(text, args + [a]) == Wholes(text, args) + [a.whole.Of(text)]
  {
  }

  /** How one more argument extends the call's positional and named arguments, or refuses it. */
  lemma ArgumentStep(text: string, args: seq<CallArgument>, m: Mapping, i: nat)
    requires ValidArguments(text, args) && i < |args|
    ensures
      var a, before, after := args[i], args[..i], args[..i + 1];
      && PositionalTexts(text, after) ==
         (if a.positional then PositionalTexts(text, before) + [a.whole.Of(text)] else PositionalTexts(text, before))
      && NamedPieces(text, after, m.droppedKeywords) ==
         (if a.positional || a.name.Of(text) in m.droppedKeywords then NamedPieces(text, before, m.droppedKeywords)
          else NamedPieces(text, before, m.droppedKeywords) + [a.whole.Of(text)])
      && (NamedRefusal(text, before, m).None? ==>
            NamedRefusal(text, after, m) == ArgumentRefusal(text, a, m)
            && (ArgumentRefusal(text, a, m).Some? ==> NamedRefusal(text, args, m) == ArgumentRefusal(text, a, m)))
  {
    NamedStep(text, args, m.droppedKeywords, i);
    if NamedRefusal(text, args[..i], m).None? {
      RefusalStep(text, args, m, i);
    }
    assert args[..i + 1][..i] == args[..i];
  }

  lemma NamedStep(text: string, args: seq<CallArgument>, dropped: seq<string>, i: nat)
    requires ValidArguments(text, args) && i < |args|
    ensures
      var a, before := args[i], NamedPieces(text, args[..i], dropped);
      NamedPieces(text, args[..i + 1], dropped) ==
        if a.positional || a.name.Of(text) in dropped then before else before + [a.whole.Of(text)]
  {
    assert args[..i + 1][..i] == args[..i];
    var a := args[i];
    if !a.positional {
      SurvivingStep(NamedArguments(text, args[..i]), NamedArgument(a.name.Of(text), a.whole.Of(text)), dropped);
    }
  }

  lemma RefusalStep(text: string, args: seq<CallArgument>, m: Mapping, i: nat)
    requires ValidArguments(text, args) && i < |args| && NamedRefusal(text, args[..i], m).None?
    ensures NamedRefusal(text, args[..i + 1], m) == ArgumentRefusal(text, args[i], m)
    ensures ArgumentRefusal(text, args[i], m).Some? ==> NamedRefusal(text, args, m) == ArgumentRefusal(text, args[i], m)
  {
    assert args[..i + 1][..i] == args[..i];
    if NamedRefusal(text, args[..i + 1], m).Some? {
      RefusalStays(text, args, m, i + 1);
    }
  }

  lemma SurvivingStep(named: seq<NamedArgument>, a: NamedArgument, dropped: seq<string>)
    ensures Surviving(named + [a], dropped) ==
            if a.name in dropped then Surviving(named, dropped) else Surviving(named, dropped) + [a]
  {
    assert (named + [a])[..|named|] == named;
  }

  /** A call refused over its first `i` arguments is refused. */
  lemma {:induction false} RefusalStays(text: string, args: seq<CallArgument>, m: Mapping, i: nat)
    requires ValidArguments(text, args) && i <= |args| && NamedRefusal(text, args[..i], m).Some?
    ensures NamedRefusal(text, args, m) == NamedRefusal(text, args[..i], m)
    decreases |args|
  {
    if i < |args| {
      assert args[..|args| - 1][..i] == args[..i];
      RefusalStays(text, args[..|args| - 1], m, i);
    } else {
      assert args[..i] == args;
    }
  }

  method CountSupplied(receivers: seq<ParameterReceiver>, receiver: CallReceiver) returns (k: nat)
    ensures k == SuppliedRun(receivers, receiver)
  {
    k := 0;
    while k < |receivers| && Supplied(receivers[k], receiver)
      invariant k <= |receivers|
      invariant forall i :: 0 <= i < k ==> Supplied(receivers[i], receiver)
    {
      k := k + 1;
    }
  }

  method RewriteArgumentList(callText: string, oldArgs: seq<CallArgument>, newDefaultText: string, m: Mapping,
                             receiver: CallReceiver, separator: string, curried: bool) returns (r: ArgumentRewrite)
    requires ValidArguments(callText, oldArgs) && WellFormed(m) && ValidOrigins(newDefaultText, m.origins)
    ensures r.Refused? <==> Refusal(callText, oldArgs, m, receiver, curried).Some?
    ensures r.Refused? ==> r.reason == Refusal(callText, oldArgs, m, receiver, curried).value
    ensures r.Rewritten? ==>
      Implicit(m, receiver) <= |m.origins| &&
      r.text == AppendAll(separator,
        NewArguments(newDefaultText, m.origins, Implicit(m, receiver), PositionalTexts(callText, oldArgs))
        + NamedPieces(callText, oldArgs, m.droppedKeywords))
  {
    var refusal, positional, named := SplitArguments(callText, oldArgs, m);
    if refusal.Some? {
      return Refused(refusal.value);
    }
    var implicit := CountSupplied(m.receivers, receiver);
    if receiver == FirstObject && implicit == 0 {
      if m.oldArity == 0 || m.origins == [] || m.origins[0] != Kept(0) {
        return Refused(FirstParameterMoved);
      }
      implicit := 1;
    }
    ImplicitFits(m, receiver);
    if |positional| > m.oldArity - implicit {
      return Refused(TooManyArguments);
    }
    if curried && |positional| < m.oldArity - implicit {
      return Refused(AppliedPartially);
    }
    r := RealignArguments(callText, positional, newDefaultText, m.origins, implicit, separator);
    if r.Rewritten? {
      var text := AppendNamed(r.text, separator,
        NewArguments(newDefaultText, m.origins, implicit, PositionalTexts(callText, oldArgs)), named);
      r := Rewritten(text);
    }
  }

  method AppendNamed(soFar: string, separator: string, ghost pieces: seq<string>,
                     named: seq<string>) returns (text: string)
    requires soFar == AppendAll(separator, pieces)
    ensures text == AppendAll(separator, pieces + named)
  {
    text := soFar;
    assert pieces + named[..0] == pieces;
    for i := 0 to |named|
      invariant text == AppendAll(separator, pieces + named[..i])
    {
      AppendOne(separator, pieces + named[..i], named[i]);
      assert pieces + named[..i + 1] == pieces + named[..i] + [named[i]];
      text := Append(text, separator, named[i]);
    }
    assert named[..|named|] == named;
  }

  lemma AppendOne(separator: string, pieces: seq<string>, piece: string)
    ensures AppendAll(separator, pieces + [piece]) == Append(AppendAll(separator, pieces), separator, piece)
  {
    assert (pieces + [piece])[..|pieces|] == pieces;
  }

  /**
   No index underflows: the parameters the object supplies lead both lists, and every parameter kept
   after them was after them before.
   */
  lemma ImplicitFits(m: Mapping, receiver: CallReceiver)
    requires WellFormed(m) && (FillsFirst(m, receiver) ==> FirstStays(m))
    ensures var k := Implicit(m, receiver);
      && k <= m.oldArity && k <= |m.origins|
      && (forall i :: k <= i < |m.origins| && m.origins[i].Kept? ==> k <= m.origins[i].oldIndex)
      && (forall i :: 0 <= i < k && m.origins[i].Kept? ==> m.origins[i].oldIndex == i || k <= m.origins[i].oldIndex)
  {
  }

  /** The text one origin stands for in this call. */
  method PieceOf(callText: string, positional: seq<CallArgument>, newDefaultText: string, origin: ParamOrigin,
                 implicit: nat)
    returns (piece: string)
    requires ValidArguments(callText, positional)
    requires origin.Kept? ==> implicit <= origin.oldIndex < implicit + |positional|
    requires origin.New? ==> origin.value.In(newDefaultText) && origin.callLabel.In(newDefaultText)
    ensures piece == Piece(newDefaultText, origin, implicit, Wholes(callText, positional))
  {
    match origin
    case Kept(oldIndex) => piece := positional[oldIndex - implicit].whole.Of(callText);
    case New(value, callLabel) => piece := DefaultText(newDefaultText, value, callLabel);
  }

  /** The loop over the origins, `implicit` of them supplied by the object. */
  method RealignArguments(callText: string, positional: seq<CallArgument>, newDefaultText: string,
                          origins: seq<ParamOrigin>, implicit: nat, separator: string) returns (r: ArgumentRewrite)
    requires ValidArguments(callText, positional) && ValidOrigins(newDefaultText, origins) && implicit <= |origins|
    requires forall i :: implicit <= i < |origins| && origins[i].Kept? ==> implicit <= origins[i].oldIndex
    ensures r.Rewritten? <==> Fits(origins, implicit, |positional|)
    ensures r.Rewritten? ==>
      r.text == AppendAll(separator, NewArguments(newDefaultText, origins, implicit, Wholes(callText, positional)))
    ensures r.Refused? ==> r.reason == TooFewArguments
  {
    var text := "";
    ghost var passed := Wholes(callText, positional);
    for i := 0 to |origins|
      invariant ValidOrigins(newDefaultText, origins[..i]) && Fits(origins[..i], implicit, |passed|)
      invariant i <= implicit ==> text == ""
      invariant implicit <= i ==>
        text == AppendAll(separator, NewArguments(newDefaultText, origins[..i], implicit, passed))
    {
      var origin := origins[i];
      if i < implicit {
        continue;
      }
      if origin.Kept? && origin.oldIndex - implicit >= |positional| {
        return Refused(TooFewArguments);
      }
      NewArgumentsStep(newDefaultText, origins, implicit, passed, i);
      AppendOne(separator, NewArguments(newDefaultText, origins[..i], implicit, passed),
        Piece(newDefaultText, origin, implicit, passed));
      var piece := PieceOf(callText, positional, newDefaultText, origin, implicit);
      text := Append(text, separator, piece);
    }
    assert origins[..|origins|] == origins;
    return Rewritten(text);
  }

  lemma NewArgumentsStep(newText: string, origins: seq<ParamOrigin>, k: nat, passed: seq<string>, i: nat)
    requires ValidOrigins(newText, origins) && k <= i < |origins| && Fits(origins[..i], k, |passed|)
    requires origins[i].Kept? ==> k <= origins[i].oldIndex < k + |passed|
    ensures ValidOrigins(newText, origins[..i]) && ValidOrigins(newText, origins[..i + 1])
      && Fits(origins[..i + 1], k, |passed|)
    ensures NewArguments(newText, origins[..i + 1], k, passed) ==
            NewArguments(newText, origins[..i], k, passed) + [Piece(newText, origins[i], k, passed)]
  {
    assert forall j :: k <= j < i ==> origins[..i][j] == origins[j];
  }
}
