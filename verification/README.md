# JValueMasker masking engine in Dafny

JValueMasker redacts sensitive values in a Newtonsoft.Json token tree. Given a
container (object, array or property) and a list of property names, it returns
a copy in which every scalar value held directly by a property with a listed
name is replaced by a mask string (`***` by default). This happens at any
depth, including inside objects that sit in arrays. Objects and arrays under a
listed name are searched, never replaced wholesale. Bare scalars in arrays have
no property name, so they are never masked.

The model has these modules:

- `Tokens` (`tokens.dfy`): the four token kinds as a closed datatype. They are
  `Obj` (ordered members), `Arr`, `Prop` and `Leaf`.
- `NameMatching` (`name_matching.dfy`): the `StringComparison` policies and the
  list scan that decides whether a name is listed.
- `Engine` (`engine.dfy`): the recursive engine of `Masker.cs`. The name
  comparison and the mask are parameters held in a `Config`, because the
  public entry point drives the engine that way. The mask stays the same
  through the whole recursion.
- `Redaction` (`redaction.dfy`): an independent description of a correctly
  masked copy. Two trees must have the same skeleton (kinds, names, keys,
  lengths). The copy's in-order list of leaves, each paired with the name of
  its enclosing property, must be the original list with exactly the matching
  leaves replaced by the mask.
- `EngineProperties` (`engine_properties.dfy`): the engine's output is exactly
  that masked copy. It follows that masking with an empty list is the
  identity, masking twice is masking once, and masking with list A and then
  list B is masking once with A followed by B.
- `Masker` (`masker.dfy`): the members of `Masker.cs`. They use exact (ordinal)
  matching, as `List<string>.Contains` does, and the `***` default. The two
  defects listed under Findings are corrected here.
- `MaskerAsWritten` (`masker_as_written.dfy`): the recursive members of
  `Masker.cs` as the code writes them, where a call can end in a
  `NullReferenceException`. It shows that whenever they return, they agree
  with `Masker` except that a nested match gets `***`. On every tree a parser
  produces, the throw hides that difference. A separate member,
  `MaskPropertyWithObjectsFixed`, shows the missing mask argument alone: it
  is `MaskProperty` as written with `MaskObject` corrected.
- `JContainerExtensions` (`container_extensions.dfy`): the public `MaskValues`
  entry point. It covers the null-container and null-or-empty-list guards and
  the default comparison, which ignores case on both build targets. It also
  covers the default mask, and forwards an explicit mask verbatim, even an
  empty or null one.
- `Scenarios` (`scenarios.dfy`): documents from the repository's unit tests,
  with the results the model gives for them.

`MaskerUtility.Mask` is not part of this model. The entry point delegates to
it. It is taken to be the `Masker.cs` engine with the comparison and the mask
as parameters, which is what `Engine` is.

There are two differences between the code and its tests. Both are stated as
lemmas in `Scenarios` and `MaskerAsWritten`:

- `Masker.cs` matches names exactly. The nested-object test in
  `MaskerUnitTests.cs` expects the list `password` to mask `Password` members.
  `Scenarios.ExactMatchLeavesPascalCaseNames` shows that exact matching leaves
  them unmasked.
- Every object test in that file also hits the `MaskObject` defect described
  under Findings.

## Model

| member | source | states |
|---|---|---|
| `NameMatching.ShouldBeMasked` | src/JValueMasker/Utilities/Masker.cs:24-27 | A name is masked exactly when some entry of the list equals it under the comparison policy. |
| `NameMatching.ExactMatchIsMembership` | src/JValueMasker/Utilities/Masker.cs:24-27 | Under a case-sensitive policy, matching is plain list membership. There is no substring or pattern test. |
| `NameMatching.IgnoreCaseMatchIsFoldedMembership` | src/JValueMasker/Extensions/JContainerExtensions.cs:25-29 | Under a case-insensitive policy, a name matches exactly when its case fold is among the folded entries. |
| `NameMatching.ShouldBeMaskedAppend` | src/JValueMasker/Utilities/Masker.cs:24-27 | A name matches a concatenation of two lists exactly when it matches either list. |
| `Engine.MaskedScalar` | src/JValueMasker/Utilities/Masker.cs:18 | A redacted value becomes a string leaf holding exactly the mask text. A null mask gives a JSON null. |
| `Engine.MaskProperty` | src/JValueMasker/Utilities/Masker.cs:10-22 | The result is a property with the same name. A scalar value under a listed name becomes the mask, and an unlisted scalar is kept. An object or array value is masked recursively and keeps its kind, even under a listed name. |
| `Engine.MaskObject` | src/JValueMasker/Utilities/Masker.cs:29-39 | Same number of members, same keys in the same order. Member `i` holds the value that masking property `(key_i, value_i)` gives. |
| `Engine.MaskArray` | src/JValueMasker/Utilities/Masker.cs:41-50 | Same length and order. Element `i` of the result is element `i` masked. |
| `Engine.Mask` | src/JValueMasker/Utilities/Masker.cs:52-73 | The result has the input's kind. A bare scalar comes back unchanged. Object keys, array length and property name are kept. |
| `EngineProperties.MaskPreservesSkeleton` | src/JValueMasker/Utilities/Masker.cs:52-73 | At every depth, masking changes no kind, property name, member key or array length. |
| `EngineProperties.MaskPropertyPreservesSkeleton` | src/JValueMasker/Utilities/Masker.cs:14-21 | A masked property's value has the original value's skeleton. |
| `EngineProperties.MaskObjectPreservesSkeleton` | src/JValueMasker/Utilities/Masker.cs:29-39 | A masked object has the original object's skeleton. |
| `EngineProperties.MaskArrayPreservesSkeleton` | src/JValueMasker/Utilities/Masker.cs:41-50 | A masked array has the original array's skeleton. |
| `EngineProperties.MaskRedactsLeavesIn` | src/JValueMasker/Utilities/Masker.cs:52-73 | The leaves of a masked token, in document order, are the original leaves with exactly the leaves under a matching property name replaced by the mask. |
| `EngineProperties.MaskPropertyRedactsLeaves` | src/JValueMasker/Utilities/Masker.cs:14-21 | Under a masked property, the leaves are the original ones redacted under the property's own name, at any depth. |
| `EngineProperties.MaskObjectRedactsLeaves` | src/JValueMasker/Utilities/Masker.cs:29-39 | The leaves of a masked object are the original leaves with the matching ones redacted, member by member. |
| `EngineProperties.MaskArrayRedactsLeaves` | src/JValueMasker/Utilities/Masker.cs:41-50 | The leaves of a masked array are the original leaves with the matching ones redacted. Bare element scalars are never matched. |
| `EngineProperties.MaskIsRedaction` | src/JValueMasker/Utilities/Masker.cs:10-73 | The engine's output is a masked copy of its input in the independent sense of `Redaction`. |
| `EngineProperties.MaskCharacterization` | src/JValueMasker/Utilities/Masker.cs:10-73 | A tree equals the engine's output exactly when it is a masked copy of the input. |
| `EngineProperties.MaskFixedPoint` | src/JValueMasker/Utilities/Masker.cs:14-21 | Masking returns its input unchanged exactly when every leaf under a matching name already holds the mask. |
| `EngineProperties.MaskWithEmptyListIsIdentity` | src/JValueMasker/Extensions/JContainerExtensions.cs:37-40 | Masking with an empty list returns the input unchanged. |
| `EngineProperties.MaskIdempotent` | src/JValueMasker/Utilities/Masker.cs:14-21 | Masking a masked tree again with the same settings changes nothing. |
| `EngineProperties.MaskComposes` | src/JValueMasker/Utilities/Masker.cs:14-27 | Masking with list A and then list B, with the same comparison and mask, equals masking once with A followed by B. |
| `Masker.DefaultMask` | src/JValueMasker/Utilities/Masker.cs:8 | The default mask is the string `***`. |
| `Masker.ShouldBeMasked` | src/JValueMasker/Utilities/Masker.cs:24-27 | A name is masked exactly when it is in the list, character for character. |
| `Masker.MaskProperty` | src/JValueMasker/Utilities/Masker.cs:8-22 | The name is kept. A listed scalar value becomes the given mask, which is `***` when none is passed. An unlisted scalar property comes back as it was, and containers keep their kind. The result is the masked copy under that same mask at every depth. |
| `Masker.MaskObject` | src/JValueMasker/Utilities/Masker.cs:29-39 | The result has the same keys in order and is the masked copy of the object with exact matching and `***`. |
| `Masker.MaskArray` | src/JValueMasker/Utilities/Masker.cs:41-50 | Same length. Element `i` is element `i` masked, and bare scalar elements are returned unchanged. |
| `Masker.Mask` | src/JValueMasker/Utilities/Masker.cs:52-73 | The result has the input's kind. A scalar comes back unchanged. The result is the masked copy with exact matching and `***`. |
| `MaskerAsWritten.MaskProperty` | src/JValueMasker/Utilities/Masker.cs:10-22 | As written, the name is kept when the call returns. For a scalar value, the result is the intended one under the given mask. Any other value goes through `Mask` without the mask. |
| `MaskerAsWritten.MaskObject` | src/JValueMasker/Utilities/Masker.cs:29-39 | As written, the call throws whenever some member's value is not itself a property. It returns when every member holds a property with a scalar value. When it returns, the keys are kept in order. |
| `MaskerAsWritten.MaskArray` | src/JValueMasker/Utilities/Masker.cs:41-50 | As written, a returned array has the input's length. An array of scalars comes back unchanged. |
| `MaskerAsWritten.Mask` | src/JValueMasker/Utilities/Masker.cs:52-73 | As written, a returned token has the input's kind, and a scalar comes back unchanged. |
| `MaskerAsWritten.MaskObjectThrowsOnOrdinaryMembers` | src/JValueMasker/Utilities/Masker.cs:32-36 | On the object `{"name":"Sam","age":80}`, the code as written throws. The intended version returns the object unchanged. |
| `MaskerAsWritten.MaskAgreesWhenReturned` | src/JValueMasker/Utilities/Masker.cs:52-73 | Whenever the code as written returns a token, it equals the intended masked copy with exact matching and `***`. |
| `MaskerAsWritten.MaskPropertyAgreesWhenReturned` | src/JValueMasker/Utilities/Masker.cs:14-21 | Whenever `MaskProperty` as written returns, it equals the intended result. For a scalar value it uses the given mask. For any other value it uses `***`, whatever mask was passed. |
| `MaskerAsWritten.MaskObjectAgreesWhenReturned` | src/JValueMasker/Utilities/Masker.cs:29-39 | Whenever `MaskObject` as written returns, it equals the intended masked object. |
| `MaskerAsWritten.MaskArrayAgreesWhenReturned` | src/JValueMasker/Utilities/Masker.cs:41-50 | Whenever `MaskArray` as written returns, it equals the intended masked array. |
| `MaskerAsWritten.ReturnedLeavesAreBare` | src/JValueMasker/Utilities/Masker.cs:32-36 | In a container with no property inside it, the code as written returns only when every object is empty. So every leaf it gets past is an array element, with no name to match. |
| `MaskerAsWritten.ItemsReturnedLeavesAreBare` | src/JValueMasker/Utilities/Masker.cs:41-50 | The same holds for the elements of an array. |
| `MaskerAsWritten.ParsedPropertyAgreesWhenReturned` | src/JValueMasker/Utilities/Masker.cs:14-36 | On a parser-built property, whenever the code as written returns, it equals the intended result under the given mask. A property holding an object or array comes back unchanged. The throw at line 34 hides the mask dropped at line 21. |
| `MaskerAsWritten.MaskPropertyWithObjectsFixed` | src/JValueMasker/Utilities/Masker.cs:16-21 | This is line 21 on its own, with line 34 corrected. For a scalar value it gives the intended result. For any other value it gives the intended result with `***`, whatever mask was passed. |
| `MaskerAsWritten.MaskPropertyDropsNestedMask` | src/JValueMasker/Utilities/Masker.cs:21 | Take `credentials: {password: "x"}` with mask `---`. The code as written throws. With line 34 corrected, the nested password gets `***`. The intended version gives `---`. |
| `MaskerAsWritten.MaskPropertyAgreesExactly` | src/JValueMasker/Utilities/Masker.cs:16-21 | With line 34 corrected, a property holding an object or array is masked as intended exactly when the mask is `***` or nothing inside matches. |
| `JContainerExtensions.DefaultComparison` | src/JValueMasker/Extensions/JContainerExtensions.cs:25-29 | The default comparison ignores case on both targets. It is the invariant-culture variant exactly on the `NETSTANDARD2_0` target. |
| `JContainerExtensions.MaskValues` | src/JValueMasker/Extensions/JContainerExtensions.cs:24-43 | A null container gives null and any container gives a non-null result. A null or empty list returns the container itself. Otherwise the result is a container of the same kind and the masked copy under the given comparison and mask. |
| `JContainerExtensions.MaskValuesIsEngine` | src/JValueMasker/Extensions/JContainerExtensions.cs:32-43 | The guards are only shortcuts. For every container, the entry point returns what the engine computes, with a null list read as empty. |
| `JContainerExtensions.DefaultComparisonIgnoresCase` | src/JValueMasker/Extensions/JContainerExtensions.cs:25-29 | With the default comparison on either target, the entry `password` matches the name `PASSWORD`. |
| `JContainerExtensions.MaskIsForwardedVerbatim` | src/JValueMasker/Extensions/JContainerExtensions.cs:42-43 | A listed scalar property receives exactly the mask passed in. An empty mask gives an empty string and a null mask gives a JSON null. |
| `Scenarios.NestedPasswordsMaskedByDefault` | src/JValueMaskerTests/Unit/MaskerUtilityUnitTests.cs:125-188 | The whole teacher document is used, with names, addresses, ages and both students. With the defaults, `Password` in the teacher and in both students is masked, including a null one. All other values are kept. |
| `Scenarios.ExactMatchLeavesPascalCaseNames` | src/JValueMaskerTests/Unit/MaskerUnitTests.cs:90-153 | With exact matching, the list `password` leaves the same document unchanged, although this test expects masking. |
| `Scenarios.CaseSensitiveComparisonKeepsValue` | src/JValueMaskerTests/Unit/MaskerUtilityUnitTests.cs:398-411 | Under an explicit case-sensitive comparison, `Password` is not matched by `password` and keeps its value. |
| `Scenarios.ArrayScalarsAreNeverMasked` | src/JValueMaskerTests/Unit/MaskerUtilityUnitTests.cs:293-322 | The whole array of the test is used. Bare scalars are kept, even the string `password`. The object's `password` and the `PASSWORD` inside `meanderings.planets` become `***`. |
| `Scenarios.EmptyContainersStayEmpty` | src/JValueMaskerTests/Unit/MaskerUtilityUnitTests.cs:325-346 | An empty array or object comes back empty and of the same kind. |

## Findings

| source | as written | input that shows it | evidently intended | confidence | as-written member | corrected member |
|---|---|---|---|---|---|---|
| src/JValueMasker/Utilities/Masker.cs:32-36 | Each key/value pair's value is cast with `as JProperty` and then passed to `MaskProperty`. The cast gives null for any ordinary member value, and `MaskProperty` then reads `null.Name`. | The object `{"name":"Sam","age":80}` from MaskerUnitTests.cs lines 71-87 | Each member `(key, value)` is masked as the property `key: value`, and the result is stored under `key`. | not executed; medium (the cast's null result follows from the enumerator's element type) | `MaskerAsWritten.MaskObjectThrowsOnOrdinaryMembers` | `Masker.MaskObject` |
| src/JValueMasker/Utilities/Masker.cs:21 | The recursive call `Mask(value, propertiesToMask)` does not pass `mask` on, so matches below the top level would get `***`. The code as written never shows this: a nested match always sits in a non-empty object, and line 34 throws there first. On every tree a parser produces, whenever the code returns, its result is the intended one. | `MaskProperty(credentials: {password: "x"}, [password], mask: "---")` once line 34 is corrected. The nested password gets `***`. As written, the same call throws. | The nested password becomes `---`, the mask that was asked for. | not executed; medium (a latent defect; it shows only once line 34 is corrected) | `MaskerAsWritten.MaskPropertyWithObjectsFixed`, `MaskerAsWritten.MaskPropertyDropsNestedMask` | `Masker.MaskProperty` |

## Left out

- Newtonsoft.Json itself is not modelled. This covers parsing, serialisation, `JObject.FromObject`/`ToObject`, token parent links, and the library's own validation when a token is added to a container. Trees are plain values here.
- JContainerExtensions.MaskValues: on a null or empty list it returns an equal token, while the code returns the same instance. Reference identity is not modelled.
- Culture-aware comparison is not modelled. A case-insensitive policy compares names after folding ASCII capitals to lower case. Apart from case, the culture, invariant and ordinal policies compare alike.
- Scalar payloads are opaque. Strings, integers, booleans and null are kept apart, but floating-point and date values are not modelled. The test value `78789798.787` appears as an integer.
- Token kinds other than the four are not modelled, such as constructors, which the code returns unchanged. Raw JSON (`JRaw`) and other `JValue` subclasses are scalar leaves here, as in the code.
- A null token passed straight to `Masker.Mask` comes back null (src/JValueMasker/Utilities/Masker.cs:72). The engine takes a token, and null is modelled at the entry point only.
- Only the effect of the `NETSTANDARD2_0` switch is modelled: which case-insensitive default applies (`Target`, `DefaultComparison`).
- Recursion depth and stack exhaustion on very deep documents are not modelled. Neither is the tests' `Debug.WriteLine` output.
- Property-valued object members are a shape a parser never produces. `MaskerAsWritten.MaskObject` stores such a member's masked property under the member's key. It does not model the library rejecting that store.
