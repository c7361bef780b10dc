/**
  The JSON-like token tree the masking engine works on: the four token kinds
  of a Newtonsoft.Json `JToken` that the engine distinguishes (object, array,
  property and scalar value), as a closed sum type instead of runtime type tests.
 */
module Tokens {

  /** A scalar payload (a `JValue`). Only its identity matters to the engine. */
  datatype Scalar = Str(text: string) | Num(number: int) | Bool(truth: bool) | Null

  /** One `name: value` member of an object; members keep insertion order. */
  datatype Member = Member(key: string, value: Token)

  datatype Token =
    | Obj(members: seq<Member>)
    | Arr(items: seq<Token>)
    | Prop(name: string, value: Token)
    | Leaf(scalar: Scalar)

  /** A `JContainer`: every token kind except a bare scalar. */
  predicate IsContainer(t: Token) {
    !t.Leaf?
  }

  /** Both tokens are of the same concrete kind. */
  predicate SameKind(a: Token, b: Token) {
    && a.Obj? == b.Obj?
    && a.Arr? == b.Arr?
    && a.Prop? == b.Prop?
    && a.Leaf? == b.Leaf?
  }

  /** The member names of an object, in order. */
  function Keys(members: seq<Member>): seq<string> {
    seq(|members|, i requires 0 <= i < |members| => members[i].key)
  }
}
