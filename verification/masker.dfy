/**
  `Masker.cs`: the engine with exact (ordinal) name matching, as
  `List<string>.Contains` does, and `***` as the mask. The two defects
  modelled in `MaskerAsWritten` are corrected here: object members are masked
  as properties of their own name, and `MaskProperty` keeps its mask at every
  depth.
 */
module Masker {
  import opened Options
  import opened Tokens
  import NameMatching
  import Engine
  import Redaction
  import EngineProperties

  const DefaultMask: string := "***"

  /** `List<string>.Contains` uses the default string equality, which is ordinal. */
  const ExactMatch: NameMatching.StringComparison := NameMatching.Ordinal

  /** The settings every entry point of `Masker.cs` other than `MaskProperty` uses. */
  const Defaults: Engine.Config := Engine.Config(ExactMatch, Some(DefaultMask))

  /** A name is masked exactly when it is on the list, character for character. */
  function ShouldBeMasked(propertyName: string, propertiesToMask: seq<string>): (r: bool)
    ensures r <==> propertyName in propertiesToMask
  {
    NameMatching.ExactMatchIsMembership(propertyName, propertiesToMask, ExactMatch);
    NameMatching.ShouldBeMasked(propertyName, propertiesToMask, ExactMatch)
  }

  /**
    Masks a property with the given mask (`***` when none is passed). The
    name is kept; a scalar value under a listed name becomes the mask; any
    other value is searched, and matches found below are masked with the same
    mask.
   */
  function MaskProperty(jProperty: Token, propertiesToMask: seq<string>, mask: Option<string> := Some(DefaultMask)): (r: Token)
    requires jProperty.Prop?
    ensures r.Prop? && r.name == jProperty.name
    ensures jProperty.value.Leaf? && jProperty.name in propertiesToMask ==> r.value == Leaf(Engine.MaskedScalar(mask))
    ensures jProperty.value.Leaf? && jProperty.name !in propertiesToMask ==> r == jProperty
    ensures !jProperty.value.Leaf? ==> SameKind(r.value, jProperty.value)
    ensures Redaction.IsRedactionOf(r, jProperty, propertiesToMask, Engine.Config(ExactMatch, mask))
  {
    var cfg := Engine.Config(ExactMatch, mask);
    NameMatching.ExactMatchIsMembership(jProperty.name, propertiesToMask, ExactMatch);
    EngineProperties.MaskIsRedaction(jProperty, propertiesToMask, cfg);
    Engine.MaskProperty(jProperty.name, jProperty.value, propertiesToMask, cfg)
  }

  /** Rebuilds an object: same keys in the same order, each value masked under its key. */
  function MaskObject(jObject: seq<Member>, propertiesToMask: seq<string>): (r: seq<Member>)
    ensures Keys(r) == Keys(jObject)
    ensures Redaction.IsRedactionOf(Obj(r), Obj(jObject), propertiesToMask, Defaults)
  {
    EngineProperties.MaskIsRedaction(Obj(jObject), propertiesToMask, Defaults);
    Engine.MaskObject(jObject, propertiesToMask, Defaults)
  }

  /** Rebuilds an array: same length, element `i` of the result is element `i` masked. */
  function MaskArray(jArray: seq<Token>, propertiesToMask: seq<string>): (r: seq<Token>)
    ensures |r| == |jArray|
    ensures forall i :: 0 <= i < |jArray| ==> r[i] == Mask(jArray[i], propertiesToMask)
    ensures forall i :: 0 <= i < |jArray| && jArray[i].Leaf? ==> r[i] == jArray[i]
  {
    Engine.MaskArray(jArray, propertiesToMask, Defaults)
  }

  /** Dispatches on the token kind; the result has the input's kind and is its masked copy. */
  function Mask(jToken: Token, propertiesToMask: seq<string>): (r: Token)
    ensures SameKind(r, jToken)
    ensures jToken.Leaf? ==> r == jToken
    ensures Redaction.IsRedactionOf(r, jToken, propertiesToMask, Defaults)
  {
    EngineProperties.MaskIsRedaction(jToken, propertiesToMask, Defaults);
    Engine.Mask(jToken, propertiesToMask, Defaults)
  }
}
