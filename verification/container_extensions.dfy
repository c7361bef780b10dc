/**
  `JContainerExtensions.MaskValues`, the public entry point: guards against
  a null container and a null or empty name list, supplies the default
  comparison and mask, and hands everything else to the engine.
 */
module JContainerExtensions {
  import opened Options
  import opened Tokens
  import opened NameMatching
  import Engine
  import Redaction
  import EngineProperties
  import Masker

  /** The build target: the `NETSTANDARD2_0` build or any other. */
  datatype TargetFramework = NetStandard20 | OtherTarget

  /** The build this model describes; the other target differs only in its default comparison. */
  const Target: TargetFramework := OtherTarget

  /** The default comparison ignores case on every target; only the culture differs. */
  function DefaultComparison(target: TargetFramework): (c: StringComparison)
    ensures IgnoresCase(c)
    ensures target.NetStandard20? <==> c == InvariantCultureIgnoreCase
  {
    if target.NetStandard20? then InvariantCultureIgnoreCase else CurrentCultureIgnoreCase
  }

  /**
    Masks the values of the listed properties anywhere in a container. A null
    container gives null; a null or empty list gives the container itself;
    otherwise the result is the masked copy, of the same kind as the input.
   */
  function MaskValues(
    jContainer: Option<Token>,
    propsToMask: Option<seq<string>>,
    stringComparison: StringComparison := DefaultComparison(Target),
    mask: Option<string> := Some(Masker.DefaultMask)): (r: Option<Token>)
    requires jContainer.Some? ==> IsContainer(jContainer.value)
    ensures jContainer.None? <==> r.None?
    ensures propsToMask.None? || propsToMask.value == [] ==> r == jContainer
    ensures r.Some? ==> IsContainer(r.value) && SameKind(r.value, jContainer.value)
    ensures r.Some? ==> Redaction.IsRedactionOf(r.value, jContainer.value, propsToMask.GetOr([]),
                                                 Engine.Config(stringComparison, mask))
  {
    if jContainer.None? then None
    else
      var names := propsToMask.GetOr([]);
      var cfg := Engine.Config(stringComparison, mask);
      EngineProperties.MaskIsRedaction(jContainer.value, names, cfg);
      if propsToMask.None? || |propsToMask.value| == 0 then
        EngineProperties.MaskWithEmptyListIsIdentity(jContainer.value, cfg);
        jContainer
      else
        Some(Engine.Mask(jContainer.value, names, cfg))
  }

  /**
    The guards are shortcuts only: for every container, the entry point
    returns exactly what the engine computes, with a null list read as empty.
   */
  lemma MaskValuesIsEngine(jContainer: Token, propsToMask: Option<seq<string>>, stringComparison: StringComparison, mask: Option<string>)
    requires IsContainer(jContainer)
    ensures MaskValues(Some(jContainer), propsToMask, stringComparison, mask)
         == Some(Engine.Mask(jContainer, propsToMask.GetOr([]), Engine.Config(stringComparison, mask)))
  {
    var cfg := Engine.Config(stringComparison, mask);
    var r := MaskValues(Some(jContainer), propsToMask, stringComparison, mask);
    EngineProperties.MaskCharacterization(jContainer, r.value, propsToMask.GetOr([]), cfg);
  }

  /** With the defaults, on either target, `PASSWORD` is matched by the list entry `password`. */
  lemma DefaultComparisonIgnoresCase(target: TargetFramework)
    ensures ShouldBeMasked("PASSWORD", ["password"], DefaultComparison(target))
  {
    assert Fold("PASSWORD") == "password";
    assert Fold("password") == "password";
    assert NamesEqual(DefaultComparison(target), ["password"][0], "PASSWORD");
  }

  /**
    A listed property holding a scalar receives exactly the mask that was
    passed, including an empty or null one.
   */
  lemma MaskIsForwardedVerbatim(name: string, s: Scalar, propsToMask: seq<string>, stringComparison: StringComparison, mask: Option<string>)
    requires ShouldBeMasked(name, propsToMask, stringComparison)
    ensures MaskValues(Some(Prop(name, Leaf(s))), Some(propsToMask), stringComparison, mask)
         == Some(Prop(name, Leaf(Engine.MaskedScalar(mask))))
  {
  }
}
