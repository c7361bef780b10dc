/**
  What the engine guarantees, proved against the independent description in
  `Redaction`: masking keeps the skeleton, redacts exactly the leaves under a
  matching name at every depth, and is therefore the unique masked copy. The
  identity, idempotence and composition laws follow from that.
 */
module EngineProperties {
  import opened Options
  import opened Tokens
  import opened NameMatching
  import opened Engine
  import opened Redaction

  /** Masking never changes the kinds, names, keys or lengths anywhere in the tree. */
  lemma {:induction false} MaskPreservesSkeleton(t: Token, names: seq<string>, cfg: Config)
    ensures Skeleton(Mask(t, names, cfg)) == Skeleton(t)
    decreases t, 1
  {
    match t
    case Obj(members) => MaskObjectPreservesSkeleton(members, names, cfg);
    case Arr(items) => MaskArrayPreservesSkeleton(items, names, cfg);
    case Prop(name, value) => MaskPropertyPreservesSkeleton(name, value, names, cfg);
    case Leaf(_) =>
  }

  lemma {:induction false} MaskPropertyPreservesSkeleton(name: string, value: Token, names: seq<string>, cfg: Config)
    ensures Skeleton(MaskProperty(name, value, names, cfg).value) == Skeleton(value)
    decreases value, 2
  {
    if !value.Leaf? {
      MaskPreservesSkeleton(value, names, cfg);
    }
  }

  lemma {:induction false} MaskObjectPreservesSkeleton(members: seq<Member>, names: seq<string>, cfg: Config)
    ensures SkeletonMembers(MaskObject(members, names, cfg)) == SkeletonMembers(members)
    decreases members, 0
  {
    if |members| != 0 {
      assert members[0] in members;
      var r := MaskObject(members, names, cfg);
      MaskPropertyPreservesSkeleton(members[0].key, members[0].value, names, cfg);
      MaskObjectPreservesSkeleton(members[1..], names, cfg);
      assert r[1..] == MaskObject(members[1..], names, cfg);
    }
  }

  lemma {:induction false} MaskArrayPreservesSkeleton(items: seq<Token>, names: seq<string>, cfg: Config)
    ensures SkeletonItems(MaskArray(items, names, cfg)) == SkeletonItems(items)
    decreases items, 0
  {
    if |items| != 0 {
      var r := MaskArray(items, names, cfg);
      MaskPreservesSkeleton(items[0], names, cfg);
      MaskArrayPreservesSkeleton(items[1..], names, cfg);
      assert r[1..] == MaskArray(items[1..], names, cfg);
    }
  }

  /**
    The leaves of a masked token are its original leaves with the matching
    ones redacted. A bare scalar is left alone by `Mask`, so it must not itself
    sit under a matching name.
   */
  lemma {:induction false} MaskRedactsLeavesIn(context: Option<string>, t: Token, names: seq<string>, cfg: Config)
    requires t.Leaf? ==> !Matches(context, names, cfg.comparison)
    ensures LeavesIn(context, Mask(t, names, cfg)) == RedactAll(LeavesIn(context, t), names, cfg)
    decreases t, 1
  {
    match t
    case Obj(members) => MaskObjectRedactsLeaves(members, names, cfg);
    case Arr(items) => MaskArrayRedactsLeaves(items, names, cfg);
    case Prop(name, value) => MaskPropertyRedactsLeaves(name, value, names, cfg);
    case Leaf(_) =>
  }

  /** The leaves under a masked property are the original ones, redacted under the property's own name. */
  lemma {:induction false} MaskPropertyRedactsLeaves(name: string, value: Token, names: seq<string>, cfg: Config)
    ensures LeavesIn(Some(name), MaskProperty(name, value, names, cfg).value)
         == RedactAll(LeavesIn(Some(name), value), names, cfg)
    decreases value, 2
  {
    if !value.Leaf? {
      MaskRedactsLeavesIn(Some(name), value, names, cfg);
    }
  }

  lemma {:induction false} MaskObjectRedactsLeaves(members: seq<Member>, names: seq<string>, cfg: Config)
    ensures MemberLeaves(MaskObject(members, names, cfg)) == RedactAll(MemberLeaves(members), names, cfg)
    decreases members, 0
  {
    if |members| != 0 {
      assert members[0] in members;
      var key, value := members[0].key, members[0].value;
      var r := MaskObject(members, names, cfg);
      MaskPropertyRedactsLeaves(key, value, names, cfg);
      MaskObjectRedactsLeaves(members[1..], names, cfg);
      assert r[1..] == MaskObject(members[1..], names, cfg);
      RedactAllAppend(LeavesIn(Some(key), value), MemberLeaves(members[1..]), names, cfg);
    }
  }

  lemma {:induction false} MaskArrayRedactsLeaves(items: seq<Token>, names: seq<string>, cfg: Config)
    ensures ItemLeaves(MaskArray(items, names, cfg)) == RedactAll(ItemLeaves(items), names, cfg)
    decreases items, 0
  {
    if |items| != 0 {
      var r := MaskArray(items, names, cfg);
      MaskRedactsLeavesIn(None, items[0], names, cfg);
      MaskArrayRedactsLeaves(items[1..], names, cfg);
      assert r[1..] == MaskArray(items[1..], names, cfg);
      RedactAllAppend(LeavesIn(None, items[0]), ItemLeaves(items[1..]), names, cfg);
    }
  }

  /** The engine's result is a masked copy of its input in the sense of `Redaction`. */
  lemma MaskIsRedaction(t: Token, names: seq<string>, cfg: Config)
    ensures IsRedactionOf(Mask(t, names, cfg), t, names, cfg)
  {
    MaskPreservesSkeleton(t, names, cfg);
    MaskRedactsLeavesIn(None, t, names, cfg);
  }

  /** A tree is the engine's result exactly when it is a masked copy of the input. */
  lemma MaskCharacterization(t: Token, u: Token, names: seq<string>, cfg: Config)
    ensures u == Mask(t, names, cfg) <==> IsRedactionOf(u, t, names, cfg)
  {
    MaskIsRedaction(t, names, cfg);
    if IsRedactionOf(u, t, names, cfg) {
      RedactionIsUnique(u, Mask(t, names, cfg), t, names, cfg);
    }
  }

  /**
    Masking returns its input unchanged exactly when every leaf under a
    matching name already holds the mask.
   */
  lemma MaskFixedPoint(t: Token, names: seq<string>, cfg: Config)
    ensures Mask(t, names, cfg) == t
        <==> forall i :: 0 <= i < |Leaves(t)| && Matches(Leaves(t)[i].context, names, cfg.comparison)
               ==> Leaves(t)[i].scalar == MaskedScalar(cfg.mask)
  {
    MaskCharacterization(t, t, names, cfg);
    var es := Leaves(t);
    if forall i :: 0 <= i < |es| && Matches(es[i].context, names, cfg.comparison)
                   ==> es[i].scalar == MaskedScalar(cfg.mask) {
      assert RedactAll(es, names, cfg) == es;
    } else {
      var i :| 0 <= i < |es| && Matches(es[i].context, names, cfg.comparison)
               && es[i].scalar != MaskedScalar(cfg.mask);
      assert RedactAll(es, names, cfg)[i] != es[i];
    }
  }

  /** An empty name list masks nothing. */
  lemma {:induction false} MaskWithEmptyListIsIdentity(t: Token, cfg: Config)
    ensures Mask(t, [], cfg) == t
  {
    MaskFixedPoint(t, [], cfg);
  }

  /** Masking twice with the same settings is masking once. */
  lemma {:induction false} MaskIdempotent(t: Token, names: seq<string>, cfg: Config)
    ensures Mask(Mask(t, names, cfg), names, cfg) == Mask(t, names, cfg)
  {
    var once := Mask(t, names, cfg);
    MaskIsRedaction(t, names, cfg);
    MaskIsRedaction(once, names, cfg);
    assert RedactAll(RedactAll(Leaves(t), names, cfg), names, cfg) == RedactAll(Leaves(t), names, cfg);
    MaskCharacterization(t, Mask(once, names, cfg), names, cfg);
  }

  /**
    Masking with one list and then with another, under the same comparison
    and mask, is masking once with both lists together. The lists need not be
    disjoint: a leaf that both match receives the same mask either way.
   */
  lemma MaskComposes(t: Token, first: seq<string>, second: seq<string>, cfg: Config)
    ensures Mask(Mask(t, first, cfg), second, cfg) == Mask(t, first + second, cfg)
  {
    var once := Mask(t, first, cfg);
    var es := Leaves(t);
    MaskIsRedaction(t, first, cfg);
    MaskIsRedaction(once, second, cfg);
    forall i | 0 <= i < |es|
      ensures Redact(Redact(es[i], first, cfg), second, cfg) == Redact(es[i], first + second, cfg)
    {
      if es[i].context.Some? {
        ShouldBeMaskedAppend(es[i].context.value, first, second, cfg.comparison);
      }
    }
    assert RedactAll(RedactAll(es, first, cfg), second, cfg) == RedactAll(es, first + second, cfg);
    MaskCharacterization(t, Mask(once, second, cfg), first + second, cfg);
  }
}
