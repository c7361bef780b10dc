/**
  The recursive members of `Masker.cs` exactly as they are written, with the
  two departures from the evidently intended behaviour (which `Masker`
  models): object members are cast to properties they are not, and the
  recursive call of `MaskProperty` does not pass its mask on.
 */
module MaskerAsWritten {
  import opened Options
  import opened Tokens
  import Engine
  import Redaction
  import EngineProperties
  import Masker

  /** The outcome of a call that may end in a `NullReferenceException`. */
  datatype Outcome<T> = Returned(value: T) | NullReferenceThrown

  /**
    `MaskProperty` as written: a scalar value under a listed name becomes the
    mask; any other value goes through `Mask`, which is called without the
    mask, so matches found deeper receive `***` whatever mask was asked for.
   */
  function MaskProperty(jProperty: Token, propertiesToMask: seq<string>, mask: Option<string> := Some(Masker.DefaultMask)): (r: Outcome<Token>)
    requires jProperty.Prop?
    decreases jProperty, 0
    ensures r.Returned? ==> r.value.Prop? && r.value.name == jProperty.name
    ensures jProperty.value.Leaf? ==> r == Returned(Masker.MaskProperty(jProperty, propertiesToMask, mask))
  {
    var value := jProperty.value;
    if value.Leaf? && Masker.ShouldBeMasked(jProperty.name, propertiesToMask) then
      Returned(Prop(jProperty.name, Leaf(Engine.MaskedScalar(mask))))
    else
      match Mask(value, propertiesToMask)
      case NullReferenceThrown => NullReferenceThrown
      case Returned(masked) => Returned(Prop(jProperty.name, masked))
  }

  /**
    `MaskObject` as written: enumerating the object yields key/value pairs,
    each value is cast with `as JProperty`, which gives null for every token
    that is not itself a property, and `MaskProperty` then reads the name of
    that null. Only a member whose value is a property gets through; it is
    masked as that property and stored under the member's key.
   */
  function MaskObject(jObject: seq<Member>, propertiesToMask: seq<string>): (r: Outcome<seq<Member>>)
    decreases jObject, 0
    ensures (exists i :: 0 <= i < |jObject| && !jObject[i].value.Prop?) ==> r.NullReferenceThrown?
    ensures (forall i :: 0 <= i < |jObject| ==> jObject[i].value.Prop? && jObject[i].value.value.Leaf?) ==> r.Returned?
    ensures r.Returned? ==> Keys(r.value) == Keys(jObject)
  {
    if |jObject| == 0 then Returned([])
    else if !jObject[0].value.Prop? then NullReferenceThrown
    else
      assert jObject[0] in jObject;
      assert forall i :: 1 <= i < |jObject| ==> jObject[i] == jObject[1..][i - 1];
      match MaskProperty(jObject[0].value, propertiesToMask)
      case NullReferenceThrown => NullReferenceThrown
      case Returned(head) =>
        match MaskObject(jObject[1..], propertiesToMask)
        case NullReferenceThrown => NullReferenceThrown
        case Returned(tail) =>
          assert Keys([Member(jObject[0].key, head)] + tail) == [jObject[0].key] + Keys(tail);
          assert Keys(jObject) == [jObject[0].key] + Keys(jObject[1..]);
          Returned([Member(jObject[0].key, head)] + tail)
  }

  /** `MaskArray` as written: element by element, in order; it throws when an element does. */
  function MaskArray(jArray: seq<Token>, propertiesToMask: seq<string>): (r: Outcome<seq<Token>>)
    decreases jArray, 0
    ensures r.Returned? ==> |r.value| == |jArray|
    ensures (forall i :: 0 <= i < |jArray| ==> jArray[i].Leaf?) ==> r == Returned(jArray)
  {
    if |jArray| == 0 then Returned([])
    else
      assert forall i :: 1 <= i < |jArray| ==> jArray[i] == jArray[1..][i - 1];
      match Mask(jArray[0], propertiesToMask)
      case NullReferenceThrown => NullReferenceThrown
      case Returned(head) =>
        match MaskArray(jArray[1..], propertiesToMask)
        case NullReferenceThrown => NullReferenceThrown
        case Returned(tail) =>
          assert jArray == [jArray[0]] + jArray[1..];
          Returned([head] + tail)
  }

  /** `Mask` as written: dispatches on the token kind; a property is masked with the default mask. */
  function Mask(jToken: Token, propertiesToMask: seq<string>): (r: Outcome<Token>)
    decreases jToken, 1
    ensures r.Returned? ==> SameKind(r.value, jToken)
    ensures jToken.Leaf? ==> r == Returned(jToken)
  {
    match jToken
    case Obj(members) =>
      (match MaskObject(members, propertiesToMask)
       case NullReferenceThrown => NullReferenceThrown
       case Returned(masked) => Returned(Obj(masked)))
    case Arr(items) =>
      (match MaskArray(items, propertiesToMask)
       case NullReferenceThrown => NullReferenceThrown
       case Returned(masked) => Returned(Arr(masked)))
    case Prop(_, _) => MaskProperty(jToken, propertiesToMask)
    case Leaf(_) => Returned(jToken)
  }

  /**
    The object of the test at MaskerUnitTests.cs lines 71-87: the code as
    written throws, while the intended version returns it unchanged.
   */
  lemma MaskObjectThrowsOnOrdinaryMembers()
    ensures var jObject := [Member("name", Leaf(Str("Sam"))), Member("age", Leaf(Num(80)))];
      && MaskObject(jObject, ["password"]).NullReferenceThrown?
      && Masker.MaskObject(jObject, ["password"]) == jObject
  {
    var jObject := [Member("name", Leaf(Str("Sam"))), Member("age", Leaf(Num(80)))];
    assert !jObject[0].value.Prop?;
    assert "name" !in ["password"] && "age" !in ["password"];
    var r := Masker.MaskObject(jObject, ["password"]);
    assert r == Engine.MaskObject(jObject, ["password"], Masker.Defaults);
    assert r[0] == jObject[0] && r[1] == jObject[1];
  }

  /**
    Whenever the code as written returns, its result is the intended one,
    except that the mask is honoured only for a property's own scalar value:
    below that, `***` is used.
   */
  lemma {:induction false} MaskAgreesWhenReturned(jToken: Token, propertiesToMask: seq<string>)
    decreases jToken, 1
    ensures Mask(jToken, propertiesToMask).Returned?
        ==> Mask(jToken, propertiesToMask).value == Masker.Mask(jToken, propertiesToMask)
  {
    match jToken
    case Obj(members) => MaskObjectAgreesWhenReturned(members, propertiesToMask);
    case Arr(items) => MaskArrayAgreesWhenReturned(items, propertiesToMask);
    case Prop(_, _) => MaskPropertyAgreesWhenReturned(jToken, propertiesToMask, Some(Masker.DefaultMask));
    case Leaf(_) =>
  }

  lemma {:induction false} MaskPropertyAgreesWhenReturned(jProperty: Token, propertiesToMask: seq<string>, mask: Option<string>)
    requires jProperty.Prop?
    decreases jProperty, 0
    ensures var r := MaskProperty(jProperty, propertiesToMask, mask);
      r.Returned? ==> r.value == Masker.MaskProperty(jProperty, propertiesToMask,
                                                     if jProperty.value.Leaf? then mask else Some(Masker.DefaultMask))
  {
    if !jProperty.value.Leaf? {
      MaskAgreesWhenReturned(jProperty.value, propertiesToMask);
    }
  }

  lemma {:induction false} MaskObjectAgreesWhenReturned(jObject: seq<Member>, propertiesToMask: seq<string>)
    decreases jObject, 0
    ensures MaskObject(jObject, propertiesToMask).Returned?
        ==> MaskObject(jObject, propertiesToMask).value == Masker.MaskObject(jObject, propertiesToMask)
  {
    if |jObject| != 0 && jObject[0].value.Prop? {
      assert jObject[0] in jObject;
      MaskPropertyAgreesWhenReturned(jObject[0].value, propertiesToMask, Some(Masker.DefaultMask));
      MaskObjectAgreesWhenReturned(jObject[1..], propertiesToMask);
      var intended := Engine.MaskObject(jObject, propertiesToMask, Masker.Defaults);
      assert intended == [intended[0]] + Engine.MaskObject(jObject[1..], propertiesToMask, Masker.Defaults);
    }
  }

  lemma {:induction false} MaskArrayAgreesWhenReturned(jArray: seq<Token>, propertiesToMask: seq<string>)
    decreases jArray, 0
    ensures MaskArray(jArray, propertiesToMask).Returned?
        ==> MaskArray(jArray, propertiesToMask).value == Masker.MaskArray(jArray, propertiesToMask)
  {
    if |jArray| != 0 {
      MaskAgreesWhenReturned(jArray[0], propertiesToMask);
      MaskArrayAgreesWhenReturned(jArray[1..], propertiesToMask);
      var intended := Engine.MaskArray(jArray, propertiesToMask, Masker.Defaults);
      assert intended == [intended[0]] + Engine.MaskArray(jArray[1..], propertiesToMask, Masker.Defaults);
    }
  }

  /**
    A token holding no property anywhere inside it. A parser builds every
    tree this way: a property can sit only directly inside an object, and
    enumerating an object yields the properties' values, not the properties.
   */
  predicate PropertyFree(t: Token)
    decreases t, 1
  {
    match t
    case Obj(members) => MembersPropertyFree(members)
    case Arr(items) => ItemsPropertyFree(items)
    case Prop(_, _) => false
    case Leaf(_) => true
  }

  predicate MembersPropertyFree(members: seq<Member>)
    decreases members, 0
  {
    |members| == 0 || (assert members[0] in members; PropertyFree(members[0].value) && MembersPropertyFree(members[1..]))
  }

  predicate ItemsPropertyFree(items: seq<Token>)
    decreases items, 0
  {
    |items| == 0 || (PropertyFree(items[0]) && ItemsPropertyFree(items[1..]))
  }

  /** No leaf of the list sits directly under a property. */
  predicate Bare(entries: seq<Redaction.Entry>) {
    forall i :: 0 <= i < |entries| ==> entries[i].context.None?
  }

  /**
    In a property-free container the code as written gets through only
    empty objects, so every leaf it gets past is an array element, with no
    property name to match.
   */
  lemma {:induction false} ReturnedLeavesAreBare(context: Option<string>, t: Token, propertiesToMask: seq<string>)
    requires PropertyFree(t) && IsContainer(t)
    decreases t, 1
    ensures Mask(t, propertiesToMask).Returned? ==> Bare(Redaction.LeavesIn(context, t))
  {
    if t.Obj? && |t.members| != 0 {
      assert MembersPropertyFree(t.members);
      assert PropertyFree(t.members[0].value);
    } else if t.Arr? {
      ItemsReturnedLeavesAreBare(t.items, propertiesToMask);
    }
  }

  lemma {:induction false} ItemsReturnedLeavesAreBare(items: seq<Token>, propertiesToMask: seq<string>)
    requires ItemsPropertyFree(items)
    decreases items, 0
    ensures MaskArray(items, propertiesToMask).Returned? ==> Bare(Redaction.ItemLeaves(items))
  {
    if |items| != 0 {
      if !items[0].Leaf? {
        ReturnedLeavesAreBare(None, items[0], propertiesToMask);
      }
      ItemsReturnedLeavesAreBare(items[1..], propertiesToMask);
    }
  }

  /**
    On every tree a parser produces, the defect at line 34 hides the one at
    line 21: when the code as written returns from a property at all, its
    result is the intended one for the mask asked for, and a property holding
    an object or array comes back unchanged.
   */
  lemma ParsedPropertyAgreesWhenReturned(jProperty: Token, propertiesToMask: seq<string>, mask: Option<string>)
    requires jProperty.Prop? && PropertyFree(jProperty.value)
    ensures var r := MaskProperty(jProperty, propertiesToMask, mask);
      && (r.Returned? ==> r.value == Masker.MaskProperty(jProperty, propertiesToMask, mask))
      && (r.Returned? && IsContainer(jProperty.value) ==> r.value == jProperty)
  {
    var value := jProperty.value;
    if IsContainer(value) && Mask(value, propertiesToMask).Returned? {
      MaskPropertyAgreesWhenReturned(jProperty, propertiesToMask, mask);
      ReturnedLeavesAreBare(Some(jProperty.name), value, propertiesToMask);
      var asked := Engine.Config(Masker.ExactMatch, mask);
      EngineProperties.MaskFixedPoint(jProperty, propertiesToMask, Masker.Defaults);
      EngineProperties.MaskFixedPoint(jProperty, propertiesToMask, asked);
    }
  }

  /**
    `MaskProperty` once line 34 is corrected but line 21 is not: the same
    member, recursing into the corrected `Masker.Mask`. It isolates what the
    missing mask argument does.
   */
  function MaskPropertyWithObjectsFixed(jProperty: Token, propertiesToMask: seq<string>, mask: Option<string> := Some(Masker.DefaultMask)): (r: Token)
    requires jProperty.Prop?
    ensures jProperty.value.Leaf? ==> r == Masker.MaskProperty(jProperty, propertiesToMask, mask)
    ensures !jProperty.value.Leaf? ==> r == Masker.MaskProperty(jProperty, propertiesToMask)
  {
    var value := jProperty.value;
    if value.Leaf? && Masker.ShouldBeMasked(jProperty.name, propertiesToMask) then
      Prop(jProperty.name, Leaf(Engine.MaskedScalar(mask)))
    else
      Prop(jProperty.name, Masker.Mask(value, propertiesToMask))
  }

  /**
    A password nested one level down, with the mask `---`. The code as
    written throws at line 34 before reaching it; with line 34 corrected,
    it receives `***`; the intended version gives `---`.
   */
  lemma MaskPropertyDropsNestedMask()
    ensures var jProperty := Prop("credentials", Obj([Member("password", Leaf(Str("x")))]));
      && MaskProperty(jProperty, ["password"], Some("---")).NullReferenceThrown?
      && MaskPropertyWithObjectsFixed(jProperty, ["password"], Some("---"))
         == Prop("credentials", Obj([Member("password", Leaf(Str("***")))]))
      && Masker.MaskProperty(jProperty, ["password"], Some("---"))
         == Prop("credentials", Obj([Member("password", Leaf(Str("---")))]))
  {
    var members := [Member("password", Leaf(Str("x")))];
    assert !members[0].value.Prop?;
    assert "password" in ["password"];
    var written := Engine.MaskObject(members, ["password"], Masker.Defaults);
    assert written[0] == Member("password", Leaf(Str("***")));
    var intended := Engine.MaskObject(members, ["password"], Engine.Config(Masker.ExactMatch, Some("---")));
    assert intended[0] == Member("password", Leaf(Str("---")));
  }

  /**
    Once line 34 is corrected, a property holding an object or array is
    masked as intended exactly when the requested mask is `***` or nothing
    inside matches.
   */
  lemma MaskPropertyAgreesExactly(jProperty: Token, propertiesToMask: seq<string>, mask: Option<string>)
    requires jProperty.Prop? && !jProperty.value.Leaf?
    ensures MaskPropertyWithObjectsFixed(jProperty, propertiesToMask, mask) == Masker.MaskProperty(jProperty, propertiesToMask, mask)
        <==> mask == Some(Masker.DefaultMask)
             || forall i :: 0 <= i < |Redaction.Leaves(jProperty)|
                  ==> !Redaction.Matches(Redaction.Leaves(jProperty)[i].context, propertiesToMask, Masker.ExactMatch)
  {
    var written := MaskPropertyWithObjectsFixed(jProperty, propertiesToMask, mask);
    var intended := Masker.MaskProperty(jProperty, propertiesToMask, mask);
    var es := Redaction.Leaves(jProperty);
    var stars := Masker.Defaults;
    var asked := Engine.Config(Masker.ExactMatch, mask);
    assert Redaction.IsRedactionOf(written, jProperty, propertiesToMask, stars);
    assert Redaction.IsRedactionOf(intended, jProperty, propertiesToMask, asked);
    if mask == Some(Masker.DefaultMask) {
    } else if forall i :: 0 <= i < |es| ==> !Redaction.Matches(es[i].context, propertiesToMask, Masker.ExactMatch) {
      assert Redaction.RedactAll(es, propertiesToMask, stars) == es;
      assert Redaction.RedactAll(es, propertiesToMask, asked) == es;
      assert Redaction.Leaves(written) + [] == Redaction.Leaves(intended) + [];
      Redaction.SkeletonAndLeavesDetermine(None, written, intended, [], []);
    } else {
      var i :| 0 <= i < |es| && Redaction.Matches(es[i].context, propertiesToMask, Masker.ExactMatch);
      assert Redaction.Leaves(written)[i].scalar == Str(Masker.DefaultMask);
      assert Redaction.Leaves(intended)[i].scalar == Engine.MaskedScalar(mask);
      assert Engine.MaskedScalar(mask) != Str(Masker.DefaultMask);
    }
  }
}
