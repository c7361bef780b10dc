/**
  An independent description of what masking should produce, stated without
  the engine's recursion: a tree is a masked copy of another when the two have
  the same skeleton (kinds, names, keys, lengths) and the in-order list of
  scalar leaves of the copy is the original list with every leaf whose
  enclosing property name matches replaced by the mask.
 */
module Redaction {
  import opened Options
  import opened Tokens
  import opened NameMatching
  import opened Engine

  /** The tree with every scalar blanked out: what masking must never change. */
  function Skeleton(t: Token): Token
    decreases t, 1
  {
    match t
    case Obj(members) => Obj(SkeletonMembers(members))
    case Arr(items) => Arr(SkeletonItems(items))
    case Prop(name, value) => Prop(name, Skeleton(value))
    case Leaf(_) => Leaf(Null)
  }

  function SkeletonMembers(members: seq<Member>): seq<Member>
    decreases members, 0
  {
    if |members| == 0 then []
    else
      assert members[0] in members;
      [Member(members[0].key, Skeleton(members[0].value))] + SkeletonMembers(members[1..])
  }

  function SkeletonItems(items: seq<Token>): seq<Token>
    decreases items, 0
  {
    if |items| == 0 then [] else [Skeleton(items[0])] + SkeletonItems(items[1..])
  }

  /** A scalar leaf together with the name of the property that directly holds it, if any. */
  datatype Entry = Entry(context: Option<string>, scalar: Scalar)

  /**
    The scalar leaves of `t` in document order. `context` is the name of the
    property holding `t` itself; an array element has no enclosing name.
   */
  function LeavesIn(context: Option<string>, t: Token): seq<Entry>
    decreases t, 1
  {
    match t
    case Obj(members) => MemberLeaves(members)
    case Arr(items) => ItemLeaves(items)
    case Prop(name, value) => LeavesIn(Some(name), value)
    case Leaf(s) => [Entry(context, s)]
  }

  function MemberLeaves(members: seq<Member>): seq<Entry>
    decreases members, 0
  {
    if |members| == 0 then []
    else
      assert members[0] in members;
      LeavesIn(Some(members[0].key), members[0].value) + MemberLeaves(members[1..])
  }

  function ItemLeaves(items: seq<Token>): seq<Entry>
    decreases items, 0
  {
    if |items| == 0 then [] else LeavesIn(None, items[0]) + ItemLeaves(items[1..])
  }

  /** The leaves of a whole document: the root has no enclosing property. */
  function Leaves(t: Token): seq<Entry> {
    LeavesIn(None, t)
  }

  /** The leaf sits directly under a property whose name is on the list. */
  predicate Matches(context: Option<string>, names: seq<string>, comparison: StringComparison) {
    context.Some? && ShouldBeMasked(context.value, names, comparison)
  }

  /** The redaction rule for one leaf. */
  function Redact(e: Entry, names: seq<string>, cfg: Config): Entry {
    if Matches(e.context, names, cfg.comparison) then Entry(e.context, MaskedScalar(cfg.mask)) else e
  }

  function RedactAll(es: seq<Entry>, names: seq<string>, cfg: Config): seq<Entry> {
    seq(|es|, i requires 0 <= i < |es| => Redact(es[i], names, cfg))
  }

  /** `u` is `t` with exactly the matching leaves redacted and nothing else changed. */
  predicate IsRedactionOf(u: Token, t: Token, names: seq<string>, cfg: Config) {
    && Skeleton(u) == Skeleton(t)
    && Leaves(u) == RedactAll(Leaves(t), names, cfg)
  }

  lemma RedactAllAppend(a: seq<Entry>, b: seq<Entry>, names: seq<string>, cfg: Config)
    ensures RedactAll(a + b, names, cfg) == RedactAll(a, names, cfg) + RedactAll(b, names, cfg)
  {
    var lhs, rhs := RedactAll(a + b, names, cfg), RedactAll(a, names, cfg) + RedactAll(b, names, cfg);
    assert |lhs| == |rhs|;
    forall i | 0 <= i < |lhs|
      ensures lhs[i] == rhs[i]
    {
      if i < |a| {
        assert (a + b)[i] == a[i];
      } else {
        assert (a + b)[i] == b[i - |a|];
      }
    }
  }

  /**
    A token is determined by its skeleton and its leaves: two tokens with the
    same skeleton whose leaf lists agree (followed by anything that also
    agrees) are equal.
   */
  lemma {:induction false} SkeletonAndLeavesDetermine(
    context: Option<string>, a: Token, b: Token, restA: seq<Entry>, restB: seq<Entry>)
    requires Skeleton(a) == Skeleton(b)
    requires LeavesIn(context, a) + restA == LeavesIn(context, b) + restB
    ensures a == b && restA == restB
    decreases a, 1
  {
    match a
    case Leaf(s) =>
      assert b.Leaf?;
      assert (LeavesIn(context, a) + restA)[0] == Entry(context, s);
      assert (LeavesIn(context, b) + restB)[0] == Entry(context, b.scalar);
      assert restA == (LeavesIn(context, a) + restA)[1..];
      assert restB == (LeavesIn(context, b) + restB)[1..];
    case Prop(name, value) =>
      SkeletonAndLeavesDetermine(Some(name), value, b.value, restA, restB);
    case Obj(members) =>
      MembersDetermined(members, b.members, restA, restB);
    case Arr(items) =>
      ItemsDetermined(items, b.items, restA, restB);
  }

  lemma {:induction false} MembersDetermined(a: seq<Member>, b: seq<Member>, restA: seq<Entry>, restB: seq<Entry>)
    requires SkeletonMembers(a) == SkeletonMembers(b)
    requires MemberLeaves(a) + restA == MemberLeaves(b) + restB
    ensures a == b && restA == restB
    decreases a, 0
  {
    if |a| == 0 {
      assert MemberLeaves(a) + restA == restA;
      assert MemberLeaves(b) + restB == restB;
    } else {
      assert |b| != 0;
      assert a[0] in a;
      assert SkeletonMembers(a)[0] == SkeletonMembers(b)[0];
      var key := a[0].key;
      assert b[0].key == key;
      assert SkeletonMembers(a)[1..] == SkeletonMembers(a[1..]);
      assert SkeletonMembers(b)[1..] == SkeletonMembers(b[1..]);
      var tailA, tailB := MemberLeaves(a[1..]) + restA, MemberLeaves(b[1..]) + restB;
      assert MemberLeaves(a) + restA == LeavesIn(Some(key), a[0].value) + tailA;
      assert MemberLeaves(b) + restB == LeavesIn(Some(key), b[0].value) + tailB;
      SkeletonAndLeavesDetermine(Some(key), a[0].value, b[0].value, tailA, tailB);
      MembersDetermined(a[1..], b[1..], restA, restB);
      assert a == [a[0]] + a[1..];
      assert b == [b[0]] + b[1..];
    }
  }

  lemma {:induction false} ItemsDetermined(a: seq<Token>, b: seq<Token>, restA: seq<Entry>, restB: seq<Entry>)
    requires SkeletonItems(a) == SkeletonItems(b)
    requires ItemLeaves(a) + restA == ItemLeaves(b) + restB
    ensures a == b && restA == restB
    decreases a, 0
  {
    if |a| == 0 {
      assert ItemLeaves(a) + restA == restA;
      assert ItemLeaves(b) + restB == restB;
    } else {
      assert |b| != 0;
      assert SkeletonItems(a)[0] == SkeletonItems(b)[0];
      assert SkeletonItems(a)[1..] == SkeletonItems(a[1..]);
      assert SkeletonItems(b)[1..] == SkeletonItems(b[1..]);
      var tailA, tailB := ItemLeaves(a[1..]) + restA, ItemLeaves(b[1..]) + restB;
      assert ItemLeaves(a) + restA == LeavesIn(None, a[0]) + tailA;
      assert ItemLeaves(b) + restB == LeavesIn(None, b[0]) + tailB;
      SkeletonAndLeavesDetermine(None, a[0], b[0], tailA, tailB);
      ItemsDetermined(a[1..], b[1..], restA, restB);
      assert a == [a[0]] + a[1..];
      assert b == [b[0]] + b[1..];
    }
  }

  /** At most one tree is a masked copy of a given tree. */
  lemma RedactionIsUnique(u: Token, v: Token, t: Token, names: seq<string>, cfg: Config)
    requires IsRedactionOf(u, t, names, cfg) && IsRedactionOf(v, t, names, cfg)
    ensures u == v
  {
    assert Leaves(u) + [] == Leaves(v) + [];
    SkeletonAndLeavesDetermine(None, u, v, [], []);
  }
}
