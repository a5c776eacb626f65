/**
 What a signature change means for the calls it rewrites: every parameter of the new list is passed
 what the old call passed the parameter of that name, or its own default.
 */
module SignatureMeaning {
  import opened Common
  import opened SignatureMapping
  import opened SignatureCalls

  lemma OriginsLieInNewText(oldList: NamedList, newText: string, newParams: seq<SignatureParameter>, m: Mapping)
    requires ValidParameters(newText, newParams) && oldList.Valid() && Maps(oldList, Named(newText, newParams), m)
    ensures ValidOrigins(newText, m.origins)
  {
    var ps := Named(newText, newParams).Positional();
    PickKeepsValid(newText, newParams, newParams);
    forall i | 0 <= i < |m.origins| && m.origins[i].New?
      ensures m.origins[i].value.In(newText) && m.origins[i].callLabel.In(newText)
    {
      assert ValidParameter(newText, ps[i]);
    }
  }

  lemma {:induction false} PickKeepsValid(text: string, xs: seq<SignatureParameter>, params: seq<SignatureParameter>)
    requires |xs| == |params| && ValidParameters(text, xs)
    ensures ValidParameters(text, Pick(xs, params, false))
  {
    if params != [] {
      PickKeepsValid(text, xs[..|xs| - 1], params[..|xs| - 1]);
    }
  }

  /**
   `rewritten` passes the new positional parameters past the first `k` what the old call's `passed` gave
   the old ones: one argument each, a parameter that names an old one its old argument, any other its
   own default.
   */
  ghost predicate Passes(was: seq<string>, now: seq<string>, params: seq<SignatureParameter>, k: nat,
                         passed: seq<string>, newText: string, rewritten: seq<string>)
    requires |params| == |now| && ValidParameters(newText, params)
  {
    && k <= |now| && |rewritten| == |now| - k
    && (forall i, j: nat :: k <= i < |now| && OnlyAt(was, now[i], j) ==>
          k <= j < k + |passed| && rewritten[i - k] == passed[j - k])
    && (forall i :: k <= i < |now| && !Unambiguous(was, now[i]) ==>
          params[i].hasDefaultValue && rewritten[i - k] == OwnDefault(newText, params[i]))
  }

  /** A parameter's default as its list spells it, behind its label if calls name it by one. */
  function OwnDefault(newText: string, p: SignatureParameter): string
    requires ValidParameter(newText, p)
  {
    (if p.callLabel.start < p.callLabel.end then newText[p.callLabel.start..p.callLabel.end] + ": " else "")
    + newText[p.defaultValue.start..p.defaultValue.end]
  }

  /**
   The main result. Take any change the mapping accepts and any call the rewrite accepts, with `k`
   leading parameters supplied by the call's object: the object supplies the same parameters before and
   after, and every other parameter is passed what it was passed before, or its own default.
   */
  lemma PositionalMeaningPreserved(oldList: NamedList, newText: string, newParams: seq<SignatureParameter>, m: Mapping,
                                   text: string, args: seq<CallArgument>, receiver: CallReceiver, curried: bool)
    requires oldList.Valid() && ValidParameters(newText, newParams) && ValidArguments(text, args)
    requires Mappable(oldList, Named(newText, newParams)) && Maps(oldList, Named(newText, newParams), m)
    requires Refusal(text, args, m, receiver, curried).None?
    ensures
      var k, passed, newList := Implicit(m, receiver), PositionalTexts(text, args), Named(newText, newParams);
      var was, now, params := oldList.PositionalNames(), newList.PositionalNames(), newList.Positional();
      && k <= |was| && k <= |now| == |params| && was[..k] == now[..k]
      && ValidOrigins(newText, m.origins) && ValidParameters(newText, params)
      && k <= |m.origins| && Fits(m.origins, k, |passed|)
      && Passes(was, now, params, k, passed, newText, NewArguments(newText, m.origins, k, passed))
  {
    var newList := Named(newText, newParams);
    MappingIsWellFormed(oldList, newList, m);
    OriginsLieInNewText(oldList, newText, newParams, m);
    PickKeepsValid(newText, newParams, newParams);
    ImplicitFits(m, receiver);
    SuppliedLead(oldList, newList, m, receiver);
    ArgumentsPassed(oldList.PositionalNames(), newList.PositionalNames(), newList.Positional(), m.origins,
                    Implicit(m, receiver), PositionalTexts(text, args), newText);
  }

  lemma ArgumentsPassed(was: seq<string>, now: seq<string>, params: seq<SignatureParameter>, origins: seq<ParamOrigin>,
                        k: nat, passed: seq<string>, newText: string)
    requires OriginsOf(was, now, params, origins)
    requires ValidParameters(newText, params) && ValidOrigins(newText, origins)
    requires k <= |origins| && Fits(origins, k, |passed|)
    ensures Passes(was, now, params, k, passed, newText, NewArguments(newText, origins, k, passed))
  {
    var rewritten := NewArguments(newText, origins, k, passed);
    forall i, j: nat | k <= i < |now| && OnlyAt(was, now[i], j)
      ensures k <= j < k + |passed| && rewritten[i - k] == passed[j - k]
    {
      KeptIsNamed(was, now[i], params[i], origins[i], j);
      ArgumentAt(newText, origins, k, passed, i);
    }
    forall i | k <= i < |now| && !Unambiguous(was, now[i])
      ensures params[i].hasDefaultValue && rewritten[i - k] == OwnDefault(newText, params[i])
    {
      NewIsUnnamed(was, now[i], params[i], origins[i]);
      ArgumentAt(newText, origins, k, passed, i);
    }
  }

  lemma ArgumentAt(newText: string, origins: seq<ParamOrigin>, k: nat, passed: seq<string>, i: nat)
    requires ValidOrigins(newText, origins) && k <= i < |origins| && Fits(origins, k, |passed|)
    ensures NewArguments(newText, origins, k, passed)[i - k] == Piece(newText, origins[i], k, passed)
  {
    assert origins[k + (i - k)] == origins[i];
  }

  lemma KeptIsNamed(was: seq<string>, n: string, p: SignatureParameter, origin: ParamOrigin, j: nat)
    requires OriginOf(was, n, p, origin) && OnlyAt(was, n, j)
    ensures origin == Kept(j)
  {
    assert Unambiguous(was, n);
  }

  lemma NewIsUnnamed(was: seq<string>, n: string, p: SignatureParameter, origin: ParamOrigin)
    requires OriginOf(was, n, p, origin) && !Unambiguous(was, n)
    ensures origin == New(p.defaultValue, p.callLabel) && p.hasDefaultValue
  {
  }

  /** The parameters the object supplies lead both lists under the same names. */
  lemma SuppliedLead(oldList: NamedList, newList: NamedList, m: Mapping, receiver: CallReceiver)
    requires oldList.Valid() && newList.Valid() && Mappable(oldList, newList) && Maps(oldList, newList, m)
    requires FillsFirst(m, receiver) ==> FirstStays(m)
    ensures var k, was, now := Implicit(m, receiver), oldList.PositionalNames(), newList.PositionalNames();
      k <= |was| && k <= |now| && was[..k] == now[..k]
  {
    ReceiversLead(oldList, newList, m);
    var k, was, now := Implicit(m, receiver), oldList.PositionalNames(), newList.PositionalNames();
    if FillsFirst(m, receiver) {
      assert OriginOf(was, now[0], newList.Positional()[0], m.origins[0]);
    } else {
      assert was[..k] == was[..|m.receivers|][..k] == now[..|m.receivers|][..k] == now[..k];
    }
  }

  /**
   Named arguments of an accepted call: one survives, as written and in order, exactly when the new list
   still has its keyword-only parameter, and one that goes names no parameter of the new list at all.
   */
  lemma KeywordMeaningPreserved(oldList: NamedList, newList: NamedList, m: Mapping,
                                text: string, args: seq<CallArgument>, receiver: CallReceiver, curried: bool)
    requires oldList.Valid() && newList.Valid() && ValidArguments(text, args)
    requires Mappable(oldList, newList) && Maps(oldList, newList, m)
    requires Refusal(text, args, m, receiver, curried).None?
    ensures var named := NamedArguments(text, args);
      && Subsequence(Surviving(named, m.droppedKeywords), named)
      && (forall a :: a in named ==> a.name in oldList.KeywordNames())
      && (forall a :: a in Surviving(named, m.droppedKeywords) <==> a in named && a.name in newList.KeywordNames())
      && (forall a :: a in named && a !in Surviving(named, m.droppedKeywords) ==> a.name !in newList.names)
  {
    NamedAreKeywords(text, args, m);
    SurvivingIsSubsequence(NamedArguments(text, args), m.droppedKeywords);
    NewNamesDistinct(oldList, newList);
    PickDistinct(newList.names, newList.params, true);
  }

  /** `xs` is `ys` with some entries left out. */
  predicate Subsequence<T(==)>(xs: seq<T>, ys: seq<T>) {
    if xs == [] then true
    else if ys == [] then false
    else
      var x, y := xs[|xs| - 1], ys[|ys| - 1];
      (x == y && Subsequence(xs[..|xs| - 1], ys[..|ys| - 1])) || Subsequence(xs, ys[..|ys| - 1])
  }

  lemma {:induction false} SurvivingIsSubsequence(named: seq<NamedArgument>, dropped: seq<string>)
    ensures Subsequence(Surviving(named, dropped), named)
  {
    if named != [] {
      var front, last := named[..|named| - 1], named[|named| - 1];
      SurvivingIsSubsequence(front, dropped);
      if last.name !in dropped {
        assert (Surviving(front, dropped) + [last])[..|Surviving(front, dropped)|] == Surviving(front, dropped);
      }
    }
  }

  lemma {:induction false} NamedAreKeywords(text: string, args: seq<CallArgument>, m: Mapping)
    requires ValidArguments(text, args) && NamedRefusal(text, args, m).None?
    ensures forall a :: a in NamedArguments(text, args) ==> a.name in m.keptKeywords || a.name in m.droppedKeywords
  {
    if args != [] {
      NamedAreKeywords(text, args[..|args| - 1], m);
    }
  }

  /**
   A pure reorder undone: when both changes only move parameters, the second one takes the argument list
   the first one wrote back to the original.
   */
  lemma UndoRestoresArguments(oldList: NamedList, newList: NamedList, m: Mapping, back: Mapping, k: nat,
                              newText: string, oldText: string, passed: seq<string>)
    requires oldList.Valid() && newList.Valid() && Maps(oldList, newList, m) && Maps(newList, oldList, back)
    requires AllKept(m.origins) && AllKept(back.origins)
    requires k <= |m.origins| == |back.origins| && |passed| == |m.origins| - k
    requires Fits(m.origins, k, |passed|) && Fits(back.origins, k, |passed|)
    ensures NewArguments(oldText, back.origins, k, NewArguments(newText, m.origins, k, passed)) == passed
  {
    var was, now := oldList.PositionalNames(), newList.PositionalNames();
    var there := NewArguments(newText, m.origins, k, passed);
    var again := NewArguments(oldText, back.origins, k, there);
    forall x | 0 <= x < |passed| ensures again[x] == passed[x] {
      KeptThereAndBack(was, now, oldList.Positional(), newList.Positional(), m.origins, back.origins, k + x);
      ArgumentComesBack(newText, oldText, m.origins, back.origins, k, passed, x);
    }
  }

  lemma ArgumentComesBack(newText: string, oldText: string, origins: seq<ParamOrigin>, back: seq<ParamOrigin>,
                          k: nat, passed: seq<string>, x: nat)
    requires ValidOrigins(newText, origins) && ValidOrigins(oldText, back)
    requires k <= |origins| == |back| && |passed| == |origins| - k && x < |passed|
    requires Fits(origins, k, |passed|) && Fits(back, k, |passed|)
    requires back[k + x].Kept? && back[k + x].oldIndex < |origins| && origins[back[k + x].oldIndex] == Kept(k + x)
    ensures NewArguments(oldText, back, k, NewArguments(newText, origins, k, passed))[x] == passed[x]
  {
    ArgumentAt(oldText, back, k, NewArguments(newText, origins, k, passed), k + x);
    ArgumentAt(newText, origins, k, passed, back[k + x].oldIndex);
  }

  lemma KeptThereAndBack(was: seq<string>, now: seq<string>, oldParams: seq<SignatureParameter>,
                         newParams: seq<SignatureParameter>,
                         there: seq<ParamOrigin>, back: seq<ParamOrigin>, i: nat)
    requires OriginsOf(was, now, newParams, there) && OriginsOf(now, was, oldParams, back)
    requires AllKept(there) && AllKept(back) && i < |back|
    ensures back[i].oldIndex < |there| && there[back[i].oldIndex] == Kept(i)
  {
    assert OriginOf(now, was[i], oldParams[i], back[i]);
    var j := back[i].oldIndex;
    assert OriginOf(was, now[j], newParams[j], there[j]);
  }

  ghost predicate AllKept(origins: seq<ParamOrigin>) {
    forall i :: 0 <= i < |origins| ==> origins[i].Kept?
  }

  // ---- the text of the rewritten list ----

  function Join(separator: string, pieces: seq<string>): string {
    if pieces == [] then ""
    else if |pieces| == 1 then pieces[0]
    else Join(separator, pieces[..|pieces| - 1]) + separator + pieces[|pieces| - 1]
  }

  /** Every argument a rewritten call writes, in order. */
  function WrittenPieces(text: string, args: seq<CallArgument>, newText: string, m: Mapping,
                         receiver: CallReceiver): seq<string>
    requires ValidArguments(text, args) && ValidOrigins(newText, m.origins)
    requires Implicit(m, receiver) <= |m.origins|
    requires Fits(m.origins, Implicit(m, receiver), |PositionalTexts(text, args)|)
  {
    NewArguments(newText, m.origins, Implicit(m, receiver), PositionalTexts(text, args))
    + NamedPieces(text, args, m.droppedKeywords)
  }

  /** The first argument to be written has no text: in the call, in the new list, or among the named ones. */
  predicate FirstIsEmpty(text: string, args: seq<CallArgument>, m: Mapping, k: nat)
    requires ValidArguments(text, args) && Fits(m.origins, k, |PositionalTexts(text, args)|)
  {
    if k < |m.origins| then
      match m.origins[k]
      case Kept(oldIndex) => PositionalTexts(text, args)[oldIndex - k] == ""
      case New(value, callLabel) => value.Empty() && callLabel.Empty()
    else
      var named := Surviving(NamedArguments(text, args), m.droppedKeywords);
      named != [] && named[0].text == ""
  }

  /**
   The list a rewritten call is given is its arguments with the separator between each two, if and only if
   there are not two of them or the first is not empty: an empty one in front loses its separator.
   */
  lemma RewriteIsJoined(text: string, args: seq<CallArgument>, newText: string, m: Mapping,
                        receiver: CallReceiver, curried: bool, separator: string)
    requires ValidArguments(text, args) && WellFormed(m) && ValidOrigins(newText, m.origins)
    requires Refusal(text, args, m, receiver, curried).None?
    ensures Implicit(m, receiver) <= |m.origins|
    ensures
      var k, pieces := Implicit(m, receiver), WrittenPieces(text, args, newText, m, receiver);
      && |pieces| == |m.origins| - k + |Surviving(NamedArguments(text, args), m.droppedKeywords)|
      && (AppendAll(separator, pieces) == Join(separator, pieces) <==>
          separator == "" || |pieces| <= 1 || !FirstIsEmpty(text, args, m, k))
  {
    ImplicitFits(m, receiver);
    var k, pieces := Implicit(m, receiver), WrittenPieces(text, args, newText, m, receiver);
    TextIsJoined(separator, pieces);
    if |pieces| > 1 {
      FirstPiece(text, args, newText, m, receiver);
    }
  }

  lemma FirstPiece(text: string, args: seq<CallArgument>, newText: string, m: Mapping, receiver: CallReceiver)
    requires ValidArguments(text, args) && ValidOrigins(newText, m.origins)
    requires Implicit(m, receiver) <= |m.origins|
    requires Fits(m.origins, Implicit(m, receiver), |PositionalTexts(text, args)|)
    requires WrittenPieces(text, args, newText, m, receiver) != []
    ensures WrittenPieces(text, args, newText, m, receiver)[0] == "" <==>
      FirstIsEmpty(text, args, m, Implicit(m, receiver))
  {
    var k, passed := Implicit(m, receiver), PositionalTexts(text, args);
    if k < |m.origins| {
      ArgumentAt(newText, m.origins, k, passed, k);
    } else {
      assert NewArguments(newText, m.origins, k, passed) == [];
    }
  }

  const NOTHING := Range(0, 0)
  const EMPTY_FIRST := [CallArgument(NOTHING, true, NOTHING), CallArgument(Range(2, 3), true, NOTHING)]
  const IN_PLACE := Mapping([Kept(0), Kept(1)], 2, [], [], [])

  /** A call `f(, x)` whose parameters stay where they were: its empty first argument is lost. */
  lemma EmptyArgumentIsLost()
    ensures ValidArguments(", x", EMPTY_FIRST) && WellFormed(IN_PLACE) && Fits(IN_PLACE.origins, 0, 2)
    ensures PositionalTexts(", x", EMPTY_FIRST) == ["", "x"]
      && Refusal(", x", EMPTY_FIRST, IN_PLACE, NoObject, false).None?
    ensures WrittenPieces(", x", EMPTY_FIRST, "", IN_PLACE, NoObject) == ["", "x"]
    ensures Join(", ", ["", "x"]) == ", x" && AppendAll(", ", ["", "x"]) == "x"
  {
    TwoArguments(", x", EMPTY_FIRST, IN_PLACE);
    assert ", x"[2..3] == "x";
    assert WrittenPieces(", x", EMPTY_FIRST, "", IN_PLACE, NoObject) == ["", "x"];
    TwoPieces(", ", "x");
  }

  lemma TwoArguments(text: string, args: seq<CallArgument>, m: Mapping)
    requires |args| == 2 && args[0].positional && args[1].positional && ValidArguments(text, args)
    ensures PositionalTexts(text, args) == [args[0].whole.Of(text), args[1].whole.Of(text)]
    ensures NamedArguments(text, args) == [] && NamedRefusal(text, args, m).None?
  {
    var one := args[..1];
    assert one[..0] == [] && one[0] == args[0];
    assert PositionalTexts(text, one) == [args[0].whole.Of(text)] && NamedArguments(text, one) == [];
    assert NamedRefusal(text, one, m).None?;
  }

  lemma TwoPieces(separator: string, piece: string)
    ensures Join(separator, ["", piece]) == separator + piece && AppendAll(separator, ["", piece]) == piece
  {
    EmptyPiece(separator);
    AppendOne(separator, [""], piece);
    JoinOne(separator, [""], piece);
    assert [""] + [piece] == ["", piece];
    assert "" + separator == separator;
  }

  lemma JoinOne(separator: string, pieces: seq<string>, piece: string)
    requires pieces != []
    ensures Join(separator, pieces + [piece]) == Join(separator, pieces) + separator + piece
  {
    assert (pieces + [piece])[..|pieces|] == pieces;
  }

  lemma EmptyPiece(separator: string)
    ensures AppendAll(separator, [""]) == "" && Join(separator, [""]) == ""
  {
    assert [""][..0] == [];
  }

  /** Of any pieces: the text is the joined list if and only if it has nothing to separate or a first piece. */
  lemma TextIsJoined(separator: string, pieces: seq<string>)
    ensures AppendAll(separator, pieces) == Join(separator, pieces) <==>
      separator == "" || |pieces| <= 1 || pieces[0] != ""
  {
    if |pieces| > 1 && pieces[0] == "" && separator != "" {
      LeadingEmptyLosesSeparator(separator, pieces);
    } else {
      TextJoins(separator, pieces);
    }
  }

  lemma {:induction false} TextJoins(separator: string, pieces: seq<string>)
    requires separator == "" || |pieces| <= 1 || pieces[0] != ""
    ensures AppendAll(separator, pieces) == Join(separator, pieces)
    ensures |pieces| > 0 && pieces[0] != "" ==> Join(separator, pieces) != ""
  {
    if |pieces| > 1 {
      TextJoins(separator, pieces[..|pieces| - 1]);
    } else if |pieces| == 1 {
      assert AppendAll(separator, pieces[..0]) == "";
    }
  }

  lemma {:induction false} LeadingEmptyLosesSeparator(separator: string, pieces: seq<string>)
    requires |pieces| > 1 && pieces[0] == ""
    ensures |AppendAll(separator, pieces)| + |separator| <= |Join(separator, pieces)|
  {
    var front := pieces[..|pieces| - 1];
    if |pieces| > 2 {
      LeadingEmptyLosesSeparator(separator, front);
    } else {
      assert AppendAll(separator, front[..0]) == "";
      assert AppendAll(separator, front) == "";
    }
  }
}
