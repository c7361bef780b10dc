/**
  The recursive masking engine: copies a token tree, replacing the scalar
  value of every property whose name is on the list by the mask. It is the
  engine of `Masker.cs` with the name comparison and the mask made
  parameters, which is how the public entry point drives it.
 */
module Engine {
  import opened Options
  import opened Tokens
  import opened NameMatching

  /** The two settings the engine carries unchanged through the whole recursion. */
  datatype Config = Config(comparison: StringComparison, mask: Option<string>)

  /** The scalar a redacted value becomes: the mask text, or a JSON null when the mask is null. */
  function MaskedScalar(mask: Option<string>): (r: Scalar)
    ensures r.Str? <==> mask.Some?
    ensures r.Str? ==> r.text == mask.value
    ensures !r.Str? ==> r == Null
  {
    match mask
    case Some(text) => Str(text)
    case None => Null
  }

  /**
    Masks one property. A scalar value under a listed name is replaced by the
    mask; any other value is masked recursively, so an object or array under a
    listed name is searched, never replaced. The name is kept in every case.
   */
  function MaskProperty(name: string, value: Token, names: seq<string>, cfg: Config): (r: Token)
    decreases value, 2
    ensures r.Prop? && r.name == name
    ensures value.Leaf? && ShouldBeMasked(name, names, cfg.comparison) ==> r.value == Leaf(MaskedScalar(cfg.mask))
    ensures value.Leaf? && !ShouldBeMasked(name, names, cfg.comparison) ==> r.value == value
    ensures !value.Leaf? ==> r.value == Mask(value, names, cfg) && SameKind(r.value, value)
  {
    if value.Leaf? && ShouldBeMasked(name, names, cfg.comparison) then
      Prop(name, Leaf(MaskedScalar(cfg.mask)))
    else
      Prop(name, Mask(value, names, cfg))
  }

  /** Rebuilds an object member by member, each member masked as a property of the same name. */
  function MaskObject(members: seq<Member>, names: seq<string>, cfg: Config): (r: seq<Member>)
    decreases members, 0
    ensures |r| == |members|
    ensures forall i :: 0 <= i < |members| ==>
      && r[i].key == members[i].key
      && r[i].value == MaskProperty(members[i].key, members[i].value, names, cfg).value
  {
    if |members| == 0 then []
    else
      assert members[0] in members;
      var masked := MaskProperty(members[0].key, members[0].value, names, cfg);
      [Member(members[0].key, masked.value)] + MaskObject(members[1..], names, cfg)
  }

  /** Rebuilds an array element by element, in order. */
  function MaskArray(items: seq<Token>, names: seq<string>, cfg: Config): (r: seq<Token>)
    decreases items, 0
    ensures |r| == |items|
    ensures forall i :: 0 <= i < |items| ==> r[i] == Mask(items[i], names, cfg)
  {
    if |items| == 0 then []
    else [Mask(items[0], names, cfg)] + MaskArray(items[1..], names, cfg)
  }

  /**
    Masks any token. The result is of the same kind; a bare scalar, which has
    no property name to match, is returned unchanged.
   */
  function Mask(t: Token, names: seq<string>, cfg: Config): (r: Token)
    decreases t, 1
    ensures SameKind(r, t)
    ensures t.Leaf? ==> r == t
    ensures t.Obj? ==> Keys(r.members) == Keys(t.members)
    ensures t.Arr? ==> |r.items| == |t.items|
    ensures t.Prop? ==> r.name == t.name
  {
    match t
    case Obj(members) => Obj(MaskObject(members, names, cfg))
    case Arr(items) => Arr(MaskArray(items, names, cfg))
    case Prop(name, value) => MaskProperty(name, value, names, cfg)
    case Leaf(_) => t
  }
}
