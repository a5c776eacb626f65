/**
 What a call's object supplies, on the kinds of receivers and objects (Source/Editor/ChangeSignature.cpp:192-211,
 Source/Editor/Mode.h:499-507, 584-595), and what that means for calls of a method.
 */
module SignatureReceivers {
  import opened Common
  import opened SignatureMapping
  import opened SignatureCalls
  import opened SignatureMeaning

  /** `k` is how many of the kinds listed lead the receivers. */
  predicate LeadsWith(receivers: seq<ParameterReceiver>, k: nat, kinds: set<ParameterReceiver>) {
    && k <= |receivers| && (forall i :: 0 <= i < k ==> receivers[i] in kinds)
    && (k < |receivers| ==> receivers[k] !in kinds)
  }

  /**
   Without an object only what is never passed is left out of the list; an instance supplies every receiver, a
   type all but an instance's, an explicit object none. A first object that supplies no receiver is the first
   parameter.
   */
  lemma ObjectSupplies(m: Mapping, receiver: CallReceiver)
    requires Ordinary !in m.receivers
    ensures var k, rs := Implicit(m, receiver), m.receivers;
      match receiver
      case NoObject => LeadsWith(rs, k, {AlwaysReceiver})
      case InstanceObject => k == |rs|
      case TypeObject => LeadsWith(rs, k, {AlwaysReceiver, AnyReceiver})
      case ExplicitObject => k == 0
      case FirstObject =>
        if rs == [] || rs[0] == InstanceReceiver then k == 1 else LeadsWith(rs, k, {AlwaysReceiver, AnyReceiver})
  {
    var rs := m.receivers;
    var run := SuppliedRun(rs, receiver);
    assert run < |rs| ==> rs[run] in rs;
  }

  /** Of one receiver: who supplies it. */
  lemma OneReceiver(m: Mapping, receiver: CallReceiver)
    requires |m.receivers| == 1
    ensures Implicit(m, receiver) == 0 || Implicit(m, receiver) == 1
    ensures m.receivers[0] == AlwaysReceiver ==> (Implicit(m, receiver) == 1 <==> receiver != ExplicitObject)
    ensures m.receivers[0] == InstanceReceiver ==>
      (Implicit(m, receiver) == 1 <==> receiver == InstanceObject || receiver == FirstObject)
    ensures m.receivers[0] == AnyReceiver ==>
      (Implicit(m, receiver) == 1 <==> receiver == InstanceObject || receiver == TypeObject || receiver == FirstObject)
  {
  }

  /**
   A method with an instance's receiver: called through an instance, its list passes the new parameters from the
   second on; called through its type, or with the receiver written out, it passes the receiver as before.
   */
  lemma MethodCalls(oldList: NamedList, newText: string, newParams: seq<SignatureParameter>, m: Mapping,
                    text: string, args: seq<CallArgument>, receiver: CallReceiver, curried: bool)
    requires oldList.Valid() && ValidParameters(newText, newParams) && ValidArguments(text, args)
    requires Mappable(oldList, Named(newText, newParams)) && Maps(oldList, Named(newText, newParams), m)
    requires Refusal(text, args, m, receiver, curried).None?
    requires m.receivers == [InstanceReceiver]
    ensures
      var k := if receiver == InstanceObject || receiver == FirstObject then 1 else 0;
      var passed, newList := PositionalTexts(text, args), Named(newText, newParams);
      var was, now, params := oldList.PositionalNames(), newList.PositionalNames(), newList.Positional();
      && k <= |m.origins| && ValidParameters(newText, params)
      && ValidOrigins(newText, m.origins) && Fits(m.origins, k, |passed|)
      && Passes(was, now, params, k, passed, newText, NewArguments(newText, m.origins, k, passed))
  {
    OneReceiver(m, receiver);
    PositionalMeaningPreserved(oldList, newText, newParams, m, text, args, receiver, curried);
  }

  const METHOD := Mapping([Kept(0), Kept(1)], 3, [InstanceReceiver], [], [])
  const NONE := Range(0, 0)
  const TWO := [CallArgument(Range(0, 1), true, NONE), CallArgument(Range(3, 4), true, NONE)]

  /** `shape.area(1, 2)` where `area(self, w, h)` becomes `area(self, w)`: the list left is `1`. */
  lemma InstanceCallDropsTheLast()
    ensures ValidArguments("1, 2", TWO) && WellFormed(METHOD) && ValidOrigins("", METHOD.origins)
    ensures Implicit(METHOD, InstanceObject) == 1 && Refusal("1, 2", TWO, METHOD, InstanceObject, false).None?
    ensures PositionalTexts("1, 2", TWO) == ["1", "2"] && Fits(METHOD.origins, 1, 2)
    ensures NewArguments("", METHOD.origins, 1, ["1", "2"]) == ["1"]
  {
    OneReceiver(METHOD, InstanceObject);
    TwoArguments("1, 2", TWO, METHOD);
    assert "1, 2"[0..1] == "1" && "1, 2"[3..4] == "2";
  }

  /** Through its type the receiver is in the list: of `Shape.area(s, 1)` both arguments stay. */
  lemma TypeCallKeepsTheReceiver(text: string, args: seq<CallArgument>)
    requires |args| == 2 && args[0].positional && args[1].positional && ValidArguments(text, args)
    ensures Implicit(METHOD, TypeObject) == 0 && Refusal(text, args, METHOD, TypeObject, false).None?
    ensures PositionalTexts(text, args) == [args[0].whole.Of(text), args[1].whole.Of(text)]
    ensures NewArguments("", METHOD.origins, 0, PositionalTexts(text, args)) == PositionalTexts(text, args)
  {
    OneReceiver(METHOD, TypeObject);
    TwoArguments(text, args, METHOD);
  }
}
