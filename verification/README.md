# Schema scraping and model helpers, modelled in Dafny

The system declares its API models as ES6 classes. Each constructor assigns every public field with `this.x = ...` and documents it with a JSDoc block. The system builds JSON schemas by re-reading the class's own source text. This project models that machinery and the small helpers around it:

- **`JavascriptParser`** (`src/types/schema_tools.js`) is a hand-written cursor scanner. It finds the class's `constructor` by brace depth, then reads alternating whitespace, optional `/** ... */` blocks and `this.name =` assignments. It deduplicates names, so the first assignment wins and the first doc block wins.
  Modules `JsRuntime`, `BraceScan` and `JavascriptParser`.
- **Schema functions** (`src/types/schema_tools.js`) do the following:
  - turn a JSDoc `@type` into a JSON-schema fragment (`nameExpressionToSchemaType`, array applications, descriptions);
  - build the property hash of one class;
  - `lodash.merge` the hashes of a whole class chain.
  Module `SchemaTools`.
- **`TradesCriteria.schema()`'s inner scanner** (`src/types/criterias.js`) is an older, independent version of the same idea, with its own quirks. It is modelled as written, in module `CriteriaScanner`. Module `CriteriaExample` runs it on a constructor shaped like the source's own. Module `ScannerContrast` pins down on concrete inputs where the two scanners disagree. Two examples:
  - `this.x=1` is refused here, because the character ending the name is skipped before the `=` test;
  - `this.x==1` is accepted.
- **Helpers in `src/types/base.js`**, module `Base`:
  - `gatherStatics`;
  - `assertSuperset`;
  - the argument juggling of `CustomError`;
  - the auto-id counter of `schema(def)`.
  Module `ModelAssign` covers `Model.assign`, which is `lodash.mergeWith` with `assignCustomizer`.
- **`processValidationErrors`** (`src/validation/yup/yup_tester.js`), module `YupTester`. It drops repeated `required` errors per path and translates the messages.

Conventions:

- JavaScript strings are `seq<char>`.
- The source's character tests are modelled on characters, without Unicode case folding.
- Out-of-range `charCodeAt` reads as "no character", so every range test on it fails.
- `substring` clamps and swaps its arguments exactly as JavaScript does (`JsRuntime.JsSubstring`).
- `Class.toString()` is replaced by the class's source text as input.
- `doctrine.parse` is a function parameter `parse: string -> Doc`. `Doc` keeps only what the schema code reads: the description and the `@type` tags with their type expressions.
- `translate` (i18n) is a function parameter too.
- A thrown `TypeError` is a `Failure(TypeError)` result.

## Model

| member | source | states |
|---|---|---|
| JsRuntime.RunEnd | src/types/schema_tools.js:180-187 | the whitespace (or identifier) run from `i` ends at the first position not in the class or at the bound, and every character before it is in the class |
| JsRuntime.JsSubstring | src/types/criterias.js:191 | `substring(a, b)` clamps both arguments into the string and swaps them when `b < a`: the slice between them when both are in range, the prefix up to the in-range argument when the other is negative, the suffix from it when the other is past the end, the whole string when one is negative and the other past the end, and empty when both are negative or both past the end |
| JsRuntime.ToLower | src/types/schema_tools.js:63 | lower-casing keeps the length and maps exactly the ASCII capitals to their lower-case letters |
| JsRuntime.ParseDecimalOfNatToString | src/types/base.js:229 | the decimal rendering of the counter reads back as the same number |
| JsRuntime.NatToStringInjective | src/types/base.js:229 | different counter values render as different strings |
| BraceScan.ScanSpan | src/types/schema_tools.js:237-261 | the constructor locator yields no token exactly when no depth-1 token exists; otherwise the span from the LAST token before the first depth-2-to-1 closing brace to that brace, or the last token with no such brace after it |
| BraceScan.ScanFromSpec | src/types/criterias.js:176-189 | each scan state that satisfies the locator's invariant ends in a result meeting the locator's specification |
| JavascriptParser.ParseVariable | src/types/schema_tools.js:157-178 | reads the maximal identifier at the cursor and returns it with the cursor past it, or nothing (cursor unmoved) when no identifier starts there |
| JavascriptParser.ParseAssignment | src/types/schema_tools.js:216-235 | returns a name exactly when `this.`, a maximal identifier, whitespace and a single `=` (not `==`) appear at the cursor; without `this.` the cursor does not move |
| JavascriptParser.NoAssignmentAfterName | src/types/schema_tools.js:227-234 | when the maximal name is not followed by a single `=`, no assignment of any name starts there |
| JavascriptParser.NameAtUnique | src/types/schema_tools.js:157-171 | the identifier read at a position is unique |
| JavascriptParser.CommentEnd | src/types/schema_tools.js:195-202 | the doc loop stops just past the first closing star-slash, or at the bound when none occurs |
| JavascriptParser.ParseJSDoc | src/types/schema_tools.js:189-214 | a block is returned exactly when the opener is at the cursor inside the bound; it is the raw text up to the comment's end, and otherwise the cursor stays |
| JavascriptParser.Step | src/types/schema_tools.js:272-297 | one loop iteration always advances, and any assignment it reports is genuine and lies before the new cursor |
| JavascriptParser.StepPairsDocWithAssignment | src/types/schema_tools.js:275-291 | an iteration reports an assignment exactly when one starts after the whitespace that follows the doc block (if any), and it carries exactly that block |
| JavascriptParser.Assignments | src/types/schema_tools.js:272-297 | the recognised assignments come in strictly increasing position, none before the start |
| JavascriptParser.AssignmentsRecognised | src/types/schema_tools.js:272-297 | every recognised assignment is a genuine `this.name =` lying wholly inside the bound |
| JavascriptParser.DedupeCorrect | src/types/schema_tools.js:282-290 | deduplication keeps each non-reserved assigned name exactly once, in order of first assignment, with the first doc any of its assignments had (against independent first-index and first-doc definitions) |
| JavascriptParser.RecordExisting | src/types/schema_tools.js:284-286 | a reassignment keeps the attribute's place and only fills in a missing doc, preserving the deduplication invariant |
| JavascriptParser.RecordNew | src/types/schema_tools.js:287-289 | a first assignment appends the attribute, preserving the deduplication invariant |
| JavascriptParser.RecordReserved | src/types/schema_tools.js:284 | a name the lookup object already answers for is never appended |
| JavascriptParser.ToAttributes | src/types/schema_tools.js:283 | each attribute has its assignment's name and the parse of that assignment's doc block, if any |
| JavascriptParser.EnterConstructor | src/types/schema_tools.js:237-261 | no depth-1 `constructor` token gives no span, and no span means there is no such token or no depth-2-to-1 closing brace after the chosen one; a span starts at a token and ends two past such a brace with no later token before it |
| JavascriptParser.ParseAttributes | src/types/schema_tools.js:263-300 | without a depth-1 `constructor` token, or with one that no closing brace follows, the result is empty; otherwise it is the first-assignment, first-doc deduplication of the assignments recognised in the constructor span, so each assigned name appears exactly once |
| JavascriptParser.SpanAttributesConfined | src/types/schema_tools.js:268-297 | the attributes of a span are distinct, avoid the reserved names and were each assigned inside the span |
| JavascriptParser.AttributeWitness | src/types/schema_tools.js:281-283 | each recognised name has a witnessing assignment inside the span |
| JavascriptParser.ParseAttributesAsWritten | src/types/schema_tools.js:266-290 | with the plain-object lookup the result is exactly the corrected result without the attributes named after `Object.prototype` members |
| JavascriptParser.Without | src/types/schema_tools.js:284 | removing reserved names keeps an in-order sublist holding exactly the names that are not reserved |
| JavascriptParser.WithoutDistinct | src/types/schema_tools.js:284-289 | removing names from a list with distinct names leaves them distinct |
| JavascriptParser.WithoutRecord | src/types/schema_tools.js:284-289 | recording an assignment with no names reserved, then removing the reserved ones, is the same as recording it with them reserved |
| JavascriptParser.DedupeWithout | src/types/schema_tools.js:282-290 | deduplication that treats some names as already seen equals plain deduplication with those names removed afterwards |
| JavascriptParser.PrototypeNameLost | src/types/schema_tools.js:284-289 | a lone `this.toString` assignment is kept by a true dictionary and lost by the plain-object lookup |
| SchemaTools.NameExpressionToSchemaType | src/types/schema_tools.js:62-104 | a type is given exactly for the known names (case-insensitive) and is a JSON-schema type, the four schema types passing through; `date` alone adds the `date-time` format; `$ref` (the name as written) exactly for unknown names starting with a capital |
| SchemaTools.NameTypeIgnoresCase | src/types/schema_tools.js:63 | two names equal up to case give the same `type` and `format` |
| SchemaTools.NameSpecialCases | src/types/schema_tools.js:65-103 | `bool` gives `boolean`, `date` gives a `date-time` string, `regexp` a plain string, and an unknown name that is not a reference gives `{}` |
| SchemaTools.FirstTypeTag | src/types/schema_tools.js:17 | finds the first `@type` tag with a type, and nothing only when no such tag exists |
| SchemaTools.TypeTagOf | src/types/schema_tools.js:17 | the chosen type is the type of the FIRST `@type` tag that has one, and there is none exactly when no doc or no such tag exists |
| SchemaTools.TypeProps | src/types/schema_tools.js:19-35 | a type throws exactly when it is an array application whose first argument is not a name; a name gives the property of `nameExpressionToSchemaType(name)`; an array application gives type `array` with `items` from its first argument's name exactly when it has arguments; any other type gives no properties |
| SchemaTools.PropertyFor | src/types/schema_tools.js:16-40 | a property fails exactly on such a type; a name tag gives `nameExpressionToSchemaType` of that name; it is `array` exactly for `Array` applications and has `items` from the first argument exactly when the application has arguments; another type, or no type tag, gives `{}`; a non-empty doc description is copied |
| SchemaTools.PropertiesFromAttributes | src/types/schema_tools.js:15-43 | the hash succeeds exactly when every attribute does and its keys are the attribute names |
| SchemaTools.FillDistinct | src/types/schema_tools.js:37 | filling a hash name by name, a name that occurs once holds its own value |
| SchemaTools.PropertiesFromDistinct | src/types/schema_tools.js:37-40 | with distinct names each key holds its own attribute's property |
| SchemaTools.PropertiesFromClass | src/types/schema_tools.js:9-44 | over the corrected parser, the class's hash has one key per parsed attribute, holding that attribute's property, and fails exactly when one of them throws |
| SchemaTools.PropertiesFromClassAsWritten | src/types/schema_tools.js:9-44 | over the parser as written, the hash fails exactly when an attribute not named after an `Object.prototype` member throws, and otherwise is the corrected hash without the `Object.prototype` names |
| SchemaTools.HashWithout | src/types/schema_tools.js:16-40 | the hash of a list with some names removed is the hash of the whole list restricted to the remaining names, and fails exactly when one of the remaining attributes throws |
| SchemaTools.MergeProps | src/types/schema_tools.js:52 | merging two hashes keeps the union of their keys |
| SchemaTools.MergePropertySlot | src/types/schema_tools.js:52 | each field of a merged property is the source's when set, else the destination's |
| SchemaTools.MergeChainKeys | src/types/schema_tools.js:49-56 | the merged hash has exactly the keys some level defines |
| SchemaTools.MergeChainSlot | src/types/schema_tools.js:49-56 | each field of a merged property equals the reference "last level that sets it" |
| SchemaTools.MergeChainItems | src/types/schema_tools.js:49-56 | a merged property has `items` exactly when some level gives it `items` |
| SchemaTools.Levels | src/types/schema_tools.js:51-54 | the per-class hashes of the chain succeed exactly when every class's does, one per class, in order |
| SchemaTools.PropertiesFromHierarchy | src/types/schema_tools.js:49-56 | the hierarchy's hash fails exactly when some class's does; its keys are the union of all classes' attribute names |
| SchemaTools.AncestorWins | src/types/schema_tools.js:51-53 | each field of a hierarchy property comes from the most remote ancestor that sets it |
| SchemaTools.NameExamples | spec/schema_tools.spec.js:170-171 | `bool` and `string` tags give the types `boolean` and `string` |
| SchemaTools.CapitalisedNameExamples | spec/schema_tools.spec.js:172-173 | a `Number` tag gives type `number` and a `SomeType` tag a reference to `SomeType` |
| SchemaTools.DescriptionExamples | spec/schema_tools.spec.js:120-151 | no doc gives `{}`, a bare description is copied, and an unknown type keeps the description |
| SchemaTools.ArrayExamples | spec/schema_tools.spec.js:153-161 | `Number[]` and `Array<SomeType>` give arrays with the right `items`; a non-name argument throws |
| CriteriaScanner.ParseVariableAssignment | src/types/criterias.js:90-123 | after leading whitespace, returns a name exactly when the criteria reading of an assignment (one extra character skipped after the name) holds there |
| CriteriaScanner.NoCriteriaAssignment | src/types/criterias.js:114-122 | when the `=` test fails after the maximal name, no name is accepted there |
| CriteriaScanner.FindFrom | src/types/criterias.js:134-166 | from any consistent scan state, every hit is an assignment right after a complete doc block with only whitespace between, and hits come in increasing position |
| CriteriaScanner.ShutHit | src/types/criterias.js:141-153 | an assignment at the first non-blank character after a closed block is a documented hit |
| CriteriaScanner.CloseStep | src/types/criterias.js:156-159 | a star-slash met while a block is open closes a complete doc block |
| CriteriaScanner.OpenStep | src/types/criterias.js:160-165 | any other character keeps the scan state consistent |
| CriteriaScanner.IdleWithoutSlash | src/types/criterias.js:156-166 | with no block open and no slash left in the text, the scan reports nothing more |
| CriteriaScanner.ShutReports | src/types/criterias.js:141-155 | once the block of a documented assignment is closed, the scan reports exactly that assignment with that block and goes on idle just past it |
| CriteriaScanner.InsideBlock | src/types/criterias.js:156-165 | inside a doc block the scan stays open up to the block's star-slash and then closes exactly that block |
| CriteriaScanner.InsideClose | src/types/criterias.js:156-159 | inside a doc block, its star-slash as the next non-blank character closes exactly that block |
| CriteriaScanner.InsidePass | src/types/criterias.js:160-165 | inside a doc block, any other next non-blank character is passed over with the block still open |
| CriteriaScanner.OpenerStep | src/types/criterias.js:160-163 | outside a closed block, an opener as the next non-blank character opens a block there |
| CriteriaScanner.OpenReports | src/types/criterias.js:141-165 | just past the opener of a documented assignment, the scan reports exactly that assignment next and goes on idle after it |
| CriteriaScanner.ReachHit | src/types/criterias.js:134-166 | completeness one hit at a time: from any state other than right after a closed block, when the next non-blank character opens the block of a documented assignment, that assignment is the next hit |
| CriteriaScanner.IdleSkip | src/types/criterias.js:134-165 | with no block open, a next non-blank character other than a slash is passed over |
| CriteriaScanner.IdleReachesHit | src/types/criterias.js:134-166 | an idle scan reports the documented assignment whose opener is the first slash ahead, and reports it first |
| CriteriaScanner.FindHits | src/types/criterias.js:125-169 | every reported property is documented, in increasing position |
| CriteriaScanner.FindProperties | src/types/criterias.js:143-152 | one property per hit, named after its assignment, with the parse of exactly its doc block's text |
| CriteriaScanner.FindConstructorSrc | src/types/criterias.js:171-192 | no `constructor(` token gives empty text; a closed span gives the text from the token through its `}`; an unclosed one gives the text before the token |
| CriteriaScanner.Schema | src/types/criterias.js:57-70 | `schema()` returns the located constructor text and one property per hit in it, in order, each named after its assignment with the parse of its doc block's text; none when there is no token |
| CriteriaExample.RepeatedName | src/types/criterias.js:125-169 | on two doc blocks each followed by `this.x = ...` (the layout of the constructor at `criterias.js:7-27`), the scan reports `x` twice, each time with its own block |
| ScannerContrast.TightAssignment | src/types/criterias.js:108-118 | `this.x=1` is an assignment for the class parser but not for the criteria scanner |
| ScannerContrast.DoubleEquals | src/types/criterias.js:108-118 | `this.x==1` is an assignment for the criteria scanner but not for the class parser |
| ScannerContrast.TabAfterOpener | src/types/criterias.js:160 | a doc opener followed by a tab opens a block for the class parser only |
| ScannerContrast.CriteriaTokenIsParserToken | src/types/criterias.js:186 | every `constructor(` token is also a `constructor` token |
| ScannerContrast.SpacedConstructor | src/types/schema_tools.js:253 | `constructor ()` is a token for the class parser only |
| ScannerContrast.AdjacentDocBlocks | src/types/criterias.js:141-163 | on `/** a */ /** b */ this.x =1` the criteria scanner reports nothing, while the class parser reports `x` documented by the second block |
| Base.ToHash | src/types/base.js:97-105 | a string becomes `{s: s}`, an array is keyed by its elements, a hash is kept, and anything else contributes nothing |
| Base.GatherStatics | src/types/base.js:94-115 | the result is `undefined` exactly when no class of the chain contributes a hash |
| Base.MostDerived | src/types/base.js:89-93 | reference: the value of the most derived contributing class that defines the key, and none only when no class defines it |
| Base.GatherStaticsDerivedWins | src/types/base.js:94-115 | the gathered hash has exactly the keys some class defines, each with the most derived class's value |
| Base.NewCustomError | src/types/base.js:182-193 | a missing message throws; a string message is the message, and an object message gives its own non-empty `message` field, else the object itself as text; a finite number in second position becomes the code and drops the inner error; otherwise the code is the third argument or 500; the inner error is kept exactly when it is an `Error` |
| Base.FiniteInnerOverridesCode | src/types/base.js:184-187 | with a finite number in second position the third argument is irrelevant |
| Base.FirstMissing | src/types/base.js:80-84 | finds the first own key the model does not declare, or none exactly when all are declared |
| Base.SupersetCheck | src/types/base.js:79-85 | passes exactly when every own key is declared; otherwise a `ModelAssertionError` (code 500) naming the first missing key |
| Base.AssertSuperset | src/types/base.js:79-85 | with a true key set, passes exactly when every own key is a declared key, and a failure names a missing key |
| Base.AssertSupersetAsWritten | src/types/base.js:81 | as written, a key also passes when it is an `Object.prototype` member name |
| Base.SupersetAsWrittenMissesPrototypeNames | src/types/base.js:81 | an own `toString` passes against a model with no keys as written, and fails with a true key set |
| Base.RegisterId | src/types/base.js:226-235 | a falsy id gets the next auto id and bumps the counter; a given id is kept and the counter left alone |
| Base.RegisterAll | src/types/base.js:226-236 | a run of calls returns one id per call and advances the counter by the number of falsy ids |
| Base.RegisterAllAt | src/types/base.js:227-231 | the k-th call's id is its own, or the auto id numbered by the counter plus the falsy ids before it plus one |
| Base.AutoIdInjective | src/types/base.js:227-229 | equal auto ids come from equal counter values |
| Base.AutoIdsDistinct | src/types/base.js:227-229 | two calls of a run that both invent an id never invent the same one |
| ModelAssign.AssignCustomizer | src/types/base.js:8-13 | overrides exactly when both values are arrays, and then with the source array |
| ModelAssign.MergeElems | src/types/base.js:21 | merging arrays index by index yields the longer length; the destination's tail past the source is kept; a scalar source element wins; an undefined one keeps the destination's element |
| ModelAssign.MergeFields | src/types/base.js:21 | merging objects yields the union of their keys; keys only the destination has keep their values; a scalar source value wins; an undefined one keeps the destination's value |
| ModelAssign.Assign | src/types/base.js:20-22 | an undefined source changes nothing; keys become the union; untouched fields keep their values; an array field given an array takes it as is |
| ModelAssign.PlainMergeFoldsArrays | src/types/base.js:9-11 | plain `merge` folds `[9]` into `[1,2,3]` as `[9,2,3]`, while the customizer yields `[9]` |
| ModelAssign.MergeIntoNothingCopies | src/types/base.js:21 | merging a value into a missing key stores an equal copy of it |
| ModelAssign.MergeIntoItselfIdentity | src/types/base.js:21 | merging a value into an equal value changes nothing |
| YupTester.Report | src/validation/yup/yup_tester.js:19-20 | a kept error keeps its type and path, gets `id` = its message and `message` = the translation of `errors.` + id |
| YupTester.SeenBeforeIff | src/validation/yup/yup_tester.js:14-17 | the reference's "seen before" test holds exactly when some earlier error carries the same path |
| YupTester.ProcessValidationErrors | src/validation/yup/yup_tester.js:7-26 | the output equals the reference: in order, the reports of the errors that are not a `required` error repeating a non-empty path some earlier error carries |
| YupTester.KeptPrefix | src/validation/yup/yup_tester.js:13-23 | the output for a prefix of the errors is a prefix of the output for the whole list |
| YupTester.NeverDropped | src/validation/yup/yup_tester.js:14 | an error that is not `required`, has an empty or missing path, or is the first on its path is never dropped |
| YupTester.KeptAt | src/validation/yup/yup_tester.js:17-22 | an error that is not dropped is reported, right after the reports of the errors before it |
| YupTester.KeptInOrder | src/validation/yup/yup_tester.js:13-23 | kept errors keep their relative order |
| YupTester.DroppedAddsNothing | src/validation/yup/yup_tester.js:14-16 | a `required` error repeating an earlier non-empty path adds nothing |
| YupTester.ProcessValidationErrorsAsWritten | src/validation/yup/yup_tester.js:10-17 | the plain-object version never outputs more errors than it was given |
| YupTester.AsWrittenAgrees | src/validation/yup/yup_tester.js:10-22 | when no path is an `Object.prototype` member name and no path `undefined` follows an error without a path, the plain-object version outputs exactly what the reference does |
| YupTester.PrototypePathDropped | src/validation/yup/yup_tester.js:14 | as written, a first `required` error on path `constructor` is dropped, while the reference keeps it |
| YupTester.MissingPathShadowsUndefined | src/validation/yup/yup_tester.js:17 | as written, an error without a path hides a later `required` error on a field named `undefined`, while the reference keeps both |

## Left out

- Schema composition in `Model.schema` (combining a supplied spec with the generated default, multi-schema results) and Ajv itself: validator compilation, `addSchema` and `getSchema` are outside the core. Only the auto-id counter of `schema(def)` is modelled.
- doctrine's JSDoc grammar: `parse` is an uninterpreted function parameter, and only its output shape is modelled.
- `Class.toString()` and `Object.getPrototypeOf`: a class is its source text, and a hierarchy is the list of texts, derived first. Static values in `gatherStatics` are a list of per-class values, derived first.
- `_peek` with an array argument (`what.some(...)`): the only caller passes strings.
- `Criteria._set`, `setFrom*`, `fromRequest`, `Model.cast`, `Model.create`, `Model.KEYS` (key collection by reflection), `toPOJO` and `CustomError.factory`: not part of this core. `assertSuperset` takes the declared keys and `ob`'s own keys as inputs.
- HTTP, i18n tables, console output and `test`/`testYup` in the yup tester: `translate` is a parameter and printing is not modelled.
- YupTester.ProcessValidationErrors: the source rewrites `err.id` and `err.message` on the caller's error objects in place and returns those same objects, so the input list sees the changes. The model returns fresh `Reported` records and leaves its input as it was.
- Unicode lower-casing: `toLowerCase` is modelled on ASCII letters only.
- `gatherStatics` hash values are flat strings, and nested values are not deep-merged.
- ModelAssign.MergeKey: non-integer numbers, functions, class instances, typed arrays and other lodash special cases are not modelled.
- ModelAssign.MergeKey: a plain object merged into an existing array is treated as a plain object merged into `{}`. lodash writes the object's keys onto the array instead.
- ModelAssign.Assign: a source that is an array or a primitive is not modelled; only `undefined`/`null` and plain objects are.
- `Model.assign`'s effect on an assignment to a field named `__proto__` (which re-targets the prototype) is not modelled.
- Base.RegisterAll: auto ids are not checked against ids supplied by the caller; a supplied id of the form `/_auto_id_/n` could clash, exactly as in the source.
- Base.NewCustomError: `lodash.isFinite` is modelled on integers; non-integer codes are out of scope.
- CriteriaScanner.FindHits: completeness is stated step by step (CriteriaScanner.ReachHit, CriteriaScanner.IdleReachesHit), not as one closed formula over the whole text. No deduplication is stated because there is none: a repeated name is reported each time, as CriteriaExample.RepeatedName shows on one input. Two adjacent doc blocks are not characterised in general: after a closed block the next non-blank character is spent on the assignment test, so the second opener never opens a block and neither block documents what follows. ScannerContrast.AdjacentDocBlocks shows this on one input.
- SchemaTools.PropertiesFromClass: built on the corrected parser `JavascriptParser.ParseAttributes`, unlike the source, whose lookup is a plain object. SchemaTools.PropertiesFromClassAsWritten is the source's hash: the corrected hash without the `Object.prototype` names. The corrected hash may also hold a key `__proto__`, which assigning into a plain object would not create.
- SchemaTools.PropertiesFromHierarchy: merges the corrected per-class hashes of SchemaTools.PropertiesFromClass. The source merges the as-written hashes, SchemaTools.PropertiesFromClassAsWritten, which drop the `Object.prototype` names. The two can disagree on failure: a class whose only throwing attribute is named after an `Object.prototype` member (say `this.toString` typed `Array<Array<X>>`) fails here, while the source drops that attribute and succeeds. When every class succeeds both ways, the merges differ by those names only; no lemma states this.
- `findConstructorSrc` with a token but no closing brace returns the text before the token. This is modelled as written, not corrected.

## Findings

| source | as written | input that shows it | evidently intended | confidence | as-written member | corrected member |
|---|---|---|---|---|---|---|
| src/types/schema_tools.js:266-289 | `attributesByName` is `{}`, so `attributesByName[name]` is truthy for names inherited from `Object.prototype` | a constructor whose only statement is `this.toString = 1` yields no attribute | every assigned name is reported once | high (not executed) | JavascriptParser.ParseAttributesAsWritten, JavascriptParser.PrototypeNameLost, SchemaTools.PropertiesFromClassAsWritten | JavascriptParser.ParseAttributes |
| src/types/base.js:81 | `key in this.KEYS` also finds keys inherited from `Object.prototype` | `ob = {toString: 1}` against a model with no keys passes | a key passes only when the model declares it | high (not executed) | Base.AssertSupersetAsWritten, Base.SupersetAsWrittenMissesPrototypeNames | Base.AssertSuperset |
| src/validation/yup/yup_tester.js:10-17 | `seenErrors` is `{}`, so inherited names read as seen, and a missing path is stored under the key `"undefined"` | a single `required` error on path `constructor` is dropped; an error without path, then `required` on path `undefined`, drops the second | only a `required` error whose path an earlier error carried is dropped | high (not executed) | YupTester.ProcessValidationErrorsAsWritten, YupTester.PrototypePathDropped, YupTester.MissingPathShadowsUndefined, YupTester.AsWrittenAgrees | YupTester.ProcessValidationErrors |
