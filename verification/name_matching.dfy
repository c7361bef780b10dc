/**
  How a property name is matched against the list of names to mask: a scan of
  the list under a `StringComparison` policy. Case-insensitive policies compare
  case-folded names; the fold here maps the ASCII letters only.
 */
module NameMatching {

  /** The .NET `StringComparison` values a caller can pass. */
  datatype StringComparison =
    | CurrentCulture
    | CurrentCultureIgnoreCase
    | InvariantCulture
    | InvariantCultureIgnoreCase
    | Ordinal
    | OrdinalIgnoreCase

  predicate IgnoresCase(comparison: StringComparison) {
    comparison.CurrentCultureIgnoreCase? || comparison.InvariantCultureIgnoreCase? || comparison.OrdinalIgnoreCase?
  }

  /** Lower-cases an ASCII capital letter; every other character is its own fold. */
  function FoldChar(c: char): char {
    if 'A' <= c <= 'Z' then (c as int - 'A' as int + 'a' as int) as char else c
  }

  function Fold(s: string): string {
    seq(|s|, i requires 0 <= i < |s| => FoldChar(s[i]))
  }

  /** The folded form of every name in a list, in order. */
  function FoldAll(names: seq<string>): seq<string> {
    seq(|names|, i requires 0 <= i < |names| => Fold(names[i]))
  }

  /** Two names are equal under the comparison policy. */
  predicate NamesEqual(comparison: StringComparison, a: string, b: string) {
    if IgnoresCase(comparison) then Fold(a) == Fold(b) else a == b
  }

  /**
    Whether a property name is on the list: a front-to-back scan that stops
    at the first entry equal to the name under the policy.
   */
  function ShouldBeMasked(name: string, names: seq<string>, comparison: StringComparison): (r: bool)
    ensures r <==> exists i :: 0 <= i < |names| && NamesEqual(comparison, names[i], name)
  {
    if |names| == 0 then false
    else if NamesEqual(comparison, names[0], name) then true
    else
      var rest := ShouldBeMasked(name, names[1..], comparison);
      assert forall i :: 1 <= i < |names| ==> names[i] == names[1..][i - 1];
      rest
  }

  /** Under a case-sensitive policy matching is plain list membership: no substring or pattern test. */
  lemma ExactMatchIsMembership(name: string, names: seq<string>, comparison: StringComparison)
    requires !IgnoresCase(comparison)
    ensures ShouldBeMasked(name, names, comparison) <==> name in names
  {
  }

  /** Under a case-insensitive policy a name matches when its fold is among the folded list entries. */
  lemma IgnoreCaseMatchIsFoldedMembership(name: string, names: seq<string>, comparison: StringComparison)
    requires IgnoresCase(comparison)
    ensures ShouldBeMasked(name, names, comparison) <==> Fold(name) in FoldAll(names)
  {
    if ShouldBeMasked(name, names, comparison) {
      var i :| 0 <= i < |names| && NamesEqual(comparison, names[i], name);
      assert FoldAll(names)[i] == Fold(name);
    }
    if Fold(name) in FoldAll(names) {
      var i :| 0 <= i < |names| && FoldAll(names)[i] == Fold(name);
      assert NamesEqual(comparison, names[i], name);
    }
  }

  /** Matching against a concatenated list is matching against either part. */
  lemma ShouldBeMaskedAppend(name: string, a: seq<string>, b: seq<string>, comparison: StringComparison)
    ensures ShouldBeMasked(name, a + b, comparison)
        <==> ShouldBeMasked(name, a, comparison) || ShouldBeMasked(name, b, comparison)
  {
    var ab := a + b;
    if ShouldBeMasked(name, ab, comparison) {
      var i :| 0 <= i < |ab| && NamesEqual(comparison, ab[i], name);
      if i < |a| {
        assert ab[i] == a[i];
      } else {
        assert ab[i] == b[i - |a|];
      }
    }
    if ShouldBeMasked(name, a, comparison) {
      var i :| 0 <= i < |a| && NamesEqual(comparison, a[i], name);
      assert ab[i] == a[i];
    }
    if ShouldBeMasked(name, b, comparison) {
      var i :| 0 <= i < |b| && NamesEqual(comparison, b[i], name);
      assert ab[|a| + i] == b[i];
    }
  }
}
