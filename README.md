# GraphQL compiler and Swift helpers of apollo-tooling, in Dafny

This project models three parts of apollo-tooling's code generator.

- **The raw IR compiler** (`lib/compiler/index.js`). It checks a parsed GraphQL document against a schema and turns it into an intermediate representation (IR).
  - Every selection set is annotated with the object types it may apply to (`possibleTypes`).
  - Selections are `Field`, `TypeCondition`, `FragmentSpread` or `BooleanCondition`.
  - The first pass compiles each operation and fragment definition. Each fragment spread becomes a placeholder on a pending list.
  - The second pass patches every placeholder from the fragment it names.
  - Along the way the compiler rewrites `@skip` and `@include` (section 3.13 of the GraphQL specification, June 2018).
  - It also keeps the ordered, duplicate-free list of enum, input-object and custom scalar types the document uses.
- **The legacy IR transformer** (`lib/compiler/legacyIR.js`). It flattens each raw selection set into `fields`, `fragmentSpreads` and `inlineFragments`, and projects each field into its legacy shape.
- **The Swift helpers** (`lib/swift/helpers.js`). They render GraphQL type references and argument values as Swift source text.

The model has one module per concern:

| module | contents |
|---|---|
| `Wrappers` | `Option` and `Result` |
| `Seqs` | sequences, and JavaScript objects used as insertion-ordered dictionaries (`seq<Entry<V>>`) |
| `GraphQL` | type references, schema and values |
| `Ast` | the parsed document |
| `RawIR` | the compiler's output and its well-formedness |
| `BooleanConditions` | `wrapInBooleanConditionsIfNeeded` |
| `Compiler` | the `Compiler` class |
| `Compilation` | `compileToIR` and its two passes |
| `LegacyIR` | `LegacyIRTransformer` and `compileToLegacyIR` |
| `SwiftHelpers` | the `Helpers` class, whose only state is its read-only options |

**How the stateful parts are modelled.**
- The compiler is a `class`. `typesUsedSet` and `unresolvedFragmentSpreads` are `seq` fields that its methods extend.
- Each loop of the source is a `while` or `for` loop proved against a specification function or predicate.
- In the source, a fragment-spread object is pushed on the pending list and later patched in place through that alias.
  - The model gives each spread a slot: `FragmentSpread(name, slot)` points at entry `slot` of the pending list.
  - The second pass produces the patched records slot by slot.

**What is proved, and how the pieces fit.**
- Every compiled selection set is well formed (`RawIR.SelectionSetOK`):
  - each field exists on its parent type;
  - exactly the composite fields have nested selection sets;
  - inline fragments narrow the enclosing possible types;
  - no fragment is spread twice at one level;
  - surviving selections keep source order;
  - each spread points at its own placeholder.
- `compileToIR` returns a context satisfying `Compilation.WellFormedIR`:
  - the operation and fragment tables hold, under each name, the last definition of that name;
  - every placeholder is resolved against its fragment;
  - the recorded types are closed under input-object field types.
- Invalid documents fail with the source's error, not a result: an unnamed operation, an unknown field, a composite field without a selection set, or a spread of an unknown fragment.
- The legacy transformer is specified by recursive functions (`TransformSelectionSet`, `InlineFragments`, `CollectedSpreads`). Lemmas about them state the variant-dropping rule, the per-type denormalisation, the field projection and the last-wins name index.
- The Swift renderers are functions. Lemmas relate each output to the wrapper structure of the type, for example:
  - a trailing `?` exactly for nullable types;
  - one `[` per list level;
  - balanced closures in map expressions.

## Model

| member | source | states |
|---|---|---|
| `Wrappers.OrElse` | lib/compiler/index.js:143 | the response key is the alias when it is a non-empty string, else the name |
| `Seqs.Filter` | lib/compiler/index.js:168 | `xs.filter(x => ys.includes(x))`: exactly the elements of `xs` that are in `ys`, as a subsequence of `xs` in its order |
| `Seqs.FilterKeepsAllIff` | lib/compiler/index.js:35-36 | filtering leaves the list unchanged iff every element is in the other list, so `isConditional` (some fragment type is missing at the site) is exactly "the intersection differs from the fragment's types" |
| `Seqs.Dedup` | lib/compiler/legacyIR.js:124 | `Array.from(new Set(xs))`: no repeats, the same elements, in order of first occurrence |
| `Seqs.Get` | lib/compiler/index.js:31 | reading a dictionary key finds a value iff the key is present, and that value is stored under the key |
| `Seqs.Put` | lib/compiler/index.js:22 | assigning `obj[k] = v` keeps the key order (a new key goes last), makes `k` read `v` and leaves every other key's value unchanged |
| `Seqs.Replace` | lib/compiler/index.js:22 | assigning an existing key keeps the keys and their order and changes only that key's value |
| `Seqs.AppendNewKey` | lib/compiler/index.js:26 | assigning a new key appends it, reads back the new value and leaves other keys unchanged |
| `Seqs.PutKeepsKeysDistinct` | lib/compiler/index.js:22-26 | a dictionary never holds a key twice after an assignment |
| `Seqs.PutNextEntry` | lib/compiler/legacyIR.js:35 | filling a fresh object with distinct keys in order rebuilds the source entries one by one |
| `RawIR.PossibleTypesForType` | lib/compiler/index.js:193-200 | a non-abstract type stands for itself alone; an abstract type stands for the schema's possible types for its name, and for no type when the schema has no entry for it |
| `RawIR.SelectionSetOKMonotonic` | lib/compiler/index.js:188 | a well-formed selection set stays well formed as more placeholders are pushed and more types are recorded |
| `BooleanConditions.WrapInBooleanConditionsIfNeeded` | lib/compiler/index.js:202-237 | the directive loop: a dropped selection stays dropped; otherwise the result is the directives applied in source order, failing on a conditional directive with no argument |
| `BooleanConditions.ApplyDirectives` | lib/compiler/index.js:207-236 | the directive loop fails exactly when the first deciding `@skip`/`@include` has no argument, and then with `MissingDirectiveArgument` naming that directive; it drops the selection exactly when that directive's literal says so (`@skip(if: true)`, `@include(if: false)`) |
| `BooleanConditions.MissingArgumentName` | lib/compiler/index.js:207-212 | the name reported is that of the first deciding `@skip`/`@include`, the one without an argument |
| `BooleanConditions.DecidedAtShift` | lib/compiler/index.js:207-211 | a leading directive that decides nothing (not `@skip`/`@include`, or a variable condition) changes neither whether the selection is dropped nor whether the loop fails |
| `BooleanConditions.DecidedOneOn` | lib/compiler/index.js:207-211 | past such a directive, the deciding directive is the same one, one place further on |
| `BooleanConditions.DecidedFirst` | lib/compiler/index.js:212-221 | a deciding first directive is the only one that decides |
| `BooleanConditions.VariableDirectivesNest` | lib/compiler/index.js:222-232 | with only variable conditions, the selection survives wrapped in one `BooleanCondition` per directive in source order; each wrapper has `inverted` exactly for `@skip`, holds just the one selection and the enclosing possible types |
| `BooleanConditions.LiteralDirectiveDecides` | lib/compiler/index.js:212-221 | the first literal condition decides: `@skip(if: true)` and `@include(if: false)` drop the selection; the others return it as wrapped so far and ignore every later directive |
| `BooleanConditions.ApplyDirectivesPreserves` | lib/compiler/index.js:223-231 | wrapping keeps the wrapped selection and the spread name it carries, and keeps it well formed |
| `Compiler.RecordForWalk` | lib/compiler/index.js:56-60 | recording a new type before its fields are walked keeps the recorded list duplicate-free and closed except for the types still being walked |
| `Compiler.WalkShrinksMeasure` | lib/compiler/index.js:59-63 | recording an input object before walking its fields leaves fewer unrecorded input objects for the nested walk, so the recursion ends even on self-referencing input objects |
| `Compiler.FieldsWalked` | lib/compiler/index.js:61-65 | once every field type of an input object is recorded, that object no longer needs to be exempted from closure |
| `Compiler.FieldTypesStayRecorded` | lib/compiler/index.js:62-64 | field types recorded earlier in the walk stay recorded as it goes on |
| `Compiler.VariableTypesStayRecorded` | lib/compiler/index.js:77-82 | variable types recorded earlier stay recorded as later variables are compiled |
| `Compiler.InlineFragmentPossibleTypes` | lib/compiler/index.js:166-168 | the possible types of an inline fragment are exactly the condition's possible types that the enclosing set allows, in the condition's order; for a non-abstract condition, the condition alone or nothing |
| `Compiler.HasOperationExclusiveDirectives` | lib/compiler/index.js:121-129 | the scan is true iff some directive of the field is `@skip` or `@include` |
| `Compiler.LevelStep` | lib/compiler/index.js:108-115 | one more AST selection, compiled and then rewritten by its directives, keeps the level invariant: the kept selections are well formed, spread each fragment at most once, come in source order from exactly the selections not dropped, and each matches its AST selection |
| `Compiler.SurvivorsExactly` | lib/compiler/index.js:112-113 | the positions that survive `.map(...).filter(x => x)` are exactly those neither elided as a repeated spread nor dropped by their directives, in increasing order |
| `Compiler.StepFacts` | lib/compiler/index.js:112 | a compiled selection that did not fail is dropped exactly when its directives drop it or it was elided, and otherwise kept as the rewrite of its AST selection and well formed |
| `Compiler.WellFormedStep` | lib/compiler/index.js:112-113 | appending a well-formed selection whose spread name, if any, was not visited before keeps the level well formed |
| `Compiler.FaithfulStep` | lib/compiler/index.js:112-113 | a selection that did not fail is appended exactly when it is not dropped, with its AST position recorded |
| `Compiler.VisitedStep` | lib/compiler/index.js:177-179 | after one more AST selection, the visited fragments are exactly the names spread by the selections so far |
| `Compiler.PushStep` | lib/compiler/index.js:177-188 | the placeholders pushed so far at one level are exactly for the fragments spread (at any depth) by the selections so far, except a repeated spread at the level itself |
| `Compiler.PushedSplit` | lib/compiler/index.js:188 | what was pushed since a point is what was pushed up to a later point, together with what was pushed after it |
| `Compiler.DirectivesFailAt` | lib/compiler/index.js:202-212 | a selection that was not elided and whose deciding directive lacks its argument fails, and makes the whole selection set fail |
| `Compiler.SetErrorFromAt` | lib/compiler/index.js:112 | from a position on, the error of a level is that of its first failing selection |
| `Compiler.SetErrorAt` | lib/compiler/index.js:112 | a selection set whose first failing selection is the `i`-th fails, with that selection's error: the `.map` stops at the first throw |
| `Compiler.PushedInOrderAppend` | lib/compiler/index.js:188 | pushing a run of names after a run already pushed leaves both runs, in order |
| `Compiler.OrderStep` | lib/compiler/index.js:112 | after one more AST selection the names pushed at the level follow walk order, an elided repeated spread adding none |
| `Compiler.RecordedStep` | lib/compiler/index.js:141 | after one more AST selection every type the selections so far name is recorded |
| `Compiler.RecordedDone` | lib/compiler/index.js:108-115 | after the last AST selection every type the set names is recorded |
| `Compiler.LevelDone` | lib/compiler/index.js:108-115 | after the last AST selection the set does not fail, is the rewrite of the AST set, is well formed, and the placeholders pushed are exactly for the fragments spread in it |
| `Compiler.VariablesFromAST` | lib/compiler/index.js:77-82 | one variable per definition, in order, with its name and declared type |
| `Compiler.Compiler.constructor` | lib/compiler/index.js:47-52 | a new compiler has no pending spreads and no recorded types |
| `Compiler.Compiler.AddTypeUsed` | lib/compiler/index.js:53-66 | only enums, input objects and custom scalars are recorded, each once and in first-insertion order; a type already recorded changes nothing; a new type is recorded first and every type recorded after it is a field type of a type recorded in the same call; input-object field types are added transitively; pending spreads are untouched |
| `Compiler.Compiler.WalkInputFields` | lib/compiler/index.js:61-65 | walking an input object's fields records every field type, so closure then holds for that object; every type it records is a field type of a type recorded before it in the walk |
| `Compiler.JustifiedStep` | lib/compiler/index.js:61-64 | a nested call that records only field types of the object being walked keeps every type recorded in the walk justified by an earlier one |
| `Compiler.ArgumentsFromAST` | lib/compiler/index.js:5-10 | one argument per AST argument, in order, with its name and its value converted by `valueFromValueNode` |
| `Compiler.Compiler.CompileSelectionSet` | lib/compiler/index.js:108-115 | fails exactly when some selection fails to compile or a kept selection's deciding directive lacks its argument, and then with the error of the first such selection in source order (`SetError`); otherwise the result has the given possible types, is well formed, and holds, in source order, the rewrite of each AST selection not dropped; the placeholders pushed are exactly those for the fragments spread in the set, in walk order (`SetSpreadOrder`: selections in source order, each spread where it occurs, an elided repeat skipped); every type a selection of the set names (a field's type at any depth, not a spread's) is recorded; pending spreads and recorded types only grow |
| `Compiler.Compiler.CompileSelections` | lib/compiler/index.js:112 | the `.map` over one level: on failure the set fails with its error (`SetError`); otherwise the level invariant, the pushed names in walk order and the recorded types hold for every AST selection of the level |
| `Compiler.Compiler.CompileLevelSelection` | lib/compiler/index.js:112 | one element of the `.map`: a failure means this selection fails and the set fails, with this selection's error (`NodeError`: its own compile error, else the missing directive argument); otherwise the level invariant, the pushed placeholders (as a set and in walk order) and the recorded types advance by one AST selection |
| `Compiler.Compiler.CompileSelection` | lib/compiler/index.js:116-192 | fails exactly when a field is unknown, a composite field has no selection set or a nested set fails, and then with that error (`SelectionError`); a spread of an already-visited fragment is elided and pushes nothing; a new spread pushes exactly one placeholder with the local possible types and points at it; an inline fragment takes its condition or else the parent type; the result matches the AST selection (for a field, every property `FieldFrom` lists) and is well formed; the placeholders pushed are those of the spreads inside it, in walk order (`SpreadOrder`); every type it names is recorded |
| `Compiler.Compiler.CompileField` | lib/compiler/index.js:118-164 | an unknown field fails naming the field and the parent type; the field's named type is recorded; the alias and the definition's deprecation are kept; the description is kept unless the field is a meta field or it is empty; `hasOperationExclusiveDirectives` iff a conditional directive is present; `args` is absent iff there are no arguments, else one per argument in order; it fails exactly as `CompileFails` says, with the error `SelectionError` names: the unknown field, then the missing selection set, then the nested set's first error; on success the placeholders are pushed in walk order and every type named at any depth is recorded, including a field whose nested `@skip(if: true)` selections are later dropped |
| `Compiler.Compiler.CompleteField` | lib/compiler/index.js:156-163 | it fails exactly for a composite field without a selection set (naming the field and the parent type) or with a failing one, and then with the nested set's error; otherwise only the nested selection set is filled in, matching the AST set, and the field is well formed; the nested set's placeholders are pushed in walk order and its types recorded |
| `Compiler.Compiler.CompileOperation` | lib/compiler/index.js:70-94 | it fails exactly for an unnamed operation, a missing root type or a failing selection set, with the error of the first of these that applies (`DefinitionError`); otherwise name, type, file path, source, variables and root type are as declared, the root selection set has the root type's possible types, is the rewrite of the AST set and is well formed, and the variable types are recorded, as is every type the root set names (`TypeInDefinition`); the placeholders are pushed in walk order (`DefinitionSpreadOrder`) |
| `Compiler.Compiler.CompileVariables` | lib/compiler/index.js:77-82 | the variables are those of the definitions, and their recorded types end up in the used types |
| `Compiler.Compiler.CompileFragment` | lib/compiler/index.js:95-107 | it fails exactly when its selection set fails, and then with the selection set's error; otherwise name, file path, source and type condition are as declared, and the selection set has the condition's possible types, is the rewrite of the AST set and is well formed; every type it names is recorded and its placeholders are pushed in walk order |
| `Compilation.ResolveSpread` | lib/compiler/index.js:35-40 | a resolved spread keeps its name and takes the fragment's selections; its possible types are the fragment's types that also occur at the site, in the fragment's order; `isConditional` is true iff some fragment type is absent at the site |
| `Compilation.ResolveFragmentSpreads` | lib/compiler/index.js:30-41 | the second pass succeeds iff every pending spread names a known fragment, and then patches each one from its fragment; otherwise it fails naming the first unknown fragment |
| `Compilation.ResolveDocument` | lib/compiler/index.js:30-43 | the second pass fails exactly when some spread fragment is defined nowhere in the document, and then names the first such name in push order (`FirstUndefined` of `DocumentSpreadOrder`); otherwise it returns the well-formed context built from the first pass's tables and recorded types |
| `Compilation.LastOperationNamed` | lib/compiler/index.js:20-23 | the position of the last operation of a given name among the first `k` definitions, or none iff there is none |
| `Compilation.LastFragmentNamed` | lib/compiler/index.js:24-27 | the position of the last fragment of a given name among the first `k` definitions, or none iff there is none |
| `Compilation.OperationTableStep` | lib/compiler/index.js:20-23 | storing each compiled operation under its name keeps the table equal to "the last operation of each name so far" |
| `Compilation.FragmentTableStep` | lib/compiler/index.js:24-27 | storing each compiled fragment under its name keeps the table equal to "the last fragment of each name so far" |
| `Compilation.OperationsOKPut` | lib/compiler/index.js:22 | storing a well-formed operation keeps every stored operation well formed |
| `Compilation.FragmentsOKPut` | lib/compiler/index.js:26 | storing a well-formed fragment keeps every stored fragment well formed |
| `Compilation.OperationStep` | lib/compiler/index.js:20-23 | an operation definition advances the first-pass invariant by one definition |
| `Compilation.FragmentStep` | lib/compiler/index.js:24-27 | a fragment definition advances the first-pass invariant by one definition |
| `Compilation.OtherStep` | lib/compiler/index.js:19-28 | a definition that is neither an operation nor a fragment changes nothing and advances the invariant |
| `Compilation.PassComplete` | lib/compiler/index.js:30-43 | after both passes the context is well formed and carries the schema: closed recorded types, distinct table keys, well-formed selection sets, and each spread resolved from the fragment it names |
| `Compilation.DocumentErrorAt` | lib/compiler/index.js:18-29 | from a position on, the document's error is that of its first failing definition |
| `Compilation.CompileDefinitions` | lib/compiler/index.js:18-29 | the first pass fails exactly when some definition fails, with the first failing definition's error; otherwise the first-pass invariant holds for the whole document, the placeholders are exactly for the fragments it spreads, in push order (`DocumentSpreadOrder`), and every type any definition names is recorded (`DocumentRecorded`) |
| `Compilation.CompileDefinition` | lib/compiler/index.js:19-28 | compiling one definition fails exactly when the definition fails to compile, with that definition's error (`DefinitionError`), and otherwise advances the first-pass invariant; the placeholders it pushes are those for the fragments it spreads, in walk order; recorded types only grow and include every type the definition names |
| `Compilation.DocumentRecordedStep` | lib/compiler/index.js:18-29 | recording one more definition's types keeps those of the definitions before it |
| `Compilation.FirstUndefined` | lib/compiler/index.js:30-33 | the first name in a list that no fragment definition of the document defines: it is in the list and undefined, and there is none exactly when every name is defined |
| `Compilation.FirstUndefinedAt` | lib/compiler/index.js:30-33 | an undefined name preceded only by defined names is the first undefined name |
| `Compilation.FirstUnknownSite` | lib/compiler/index.js:30-33 | the first pending placeholder naming no stored fragment names the first undefined fragment in push order |
| `Compilation.AllSitesKnown` | lib/compiler/index.js:30-33 | when every placeholder names a stored fragment, no name in push order is undefined |
| `Compilation.DocumentPushStep` | lib/compiler/index.js:18-29 | after each definition, the pending placeholders are exactly for the fragments spread in the definitions so far |
| `Compilation.SpreadUnknown` | lib/compiler/index.js:30-34 | a pending placeholder whose name is not in the fragment table names a fragment spread in the document and defined nowhere in it |
| `Compilation.SpreadsKnown` | lib/compiler/index.js:30-34 | when every placeholder names a stored fragment, every fragment spread in the document is defined in it |
| `Compilation.CompileToIR` | lib/compiler/index.js:11-44 | the compilation fails exactly when some definition fails or some spread fragment is defined nowhere in the document; when some definition fails the error is that of the first failing definition, and when none fails the error names such a fragment; when none fails, it fails exactly when some name in push order (`DocumentSpreadOrder`) is undefined, with `FragmentNotFound` of the first such name; a successful result is a well-formed IR carrying the schema and options, whose tables hold the last operation and fragment of each name, and whose `typesUsed` holds every variable type and every field type the document names that `addTypeUsed` records (`DocumentRecorded`), including those of fields later dropped by `@skip(if: true)` |
| `LegacyIR.OptionsOrDefault` | lib/compiler/legacyIR.js:18 | without options, `mergeInFieldsFromFragmentSpreads` is on; given options are used as they are |
| `LegacyIR.Pushed` | lib/compiler/legacyIR.js:110-121 | one step of the walk pushes only spreads, and a direct spread pushes itself |
| `LegacyIR.SpreadWalk` | lib/compiler/legacyIR.js:108-123 | the walk collects only spreads and includes every direct spread |
| `LegacyIR.CollectedSpreads` | lib/compiler/legacyIR.js:107-125 | the collected spreads are distinct spread objects, including every direct spread, in the order each is first met by the walk |
| `LegacyIR.CollectedSpreadsExactly` | lib/compiler/legacyIR.js:107-125 | a spread is collected exactly when it reaches the scope: it is a selection of the set, or sits under a boolean condition, or under a type condition whose possible types cover the scope, at any depth; nothing comes from a type condition that does not cover it |
| `LegacyIR.SpreadWalkExactly` | lib/compiler/legacyIR.js:108-123 | the walk over the first `n` selections pushes exactly the spreads that reach the scope through one of them |
| `LegacyIR.SpreadNamesExactly` | lib/compiler/legacyIR.js:78 | a name is among the collected spread names exactly when a spread of that name reaches the scope |
| `LegacyIR.SpreadNames` | lib/compiler/legacyIR.js:78 | the names of the spreads, one per spread, in order |
| `LegacyIR.CollectedSpreadsNarrowing` | lib/compiler/legacyIR.js:115-116 | narrowing the scope never loses a spread: a type condition entered for a wider scope is entered for a narrower one too |
| `LegacyIR.SpreadWalkNarrowing` | lib/compiler/legacyIR.js:114-120 | the same for the walk over the first `n` selections |
| `LegacyIR.LastForTypeName` | lib/compiler/legacyIR.js:75-77 | the last inline fragment whose type has a given name, or none iff there is none |
| `LegacyIR.IndexByTypeName` | lib/compiler/legacyIR.js:75-77 | the index has a key exactly for the type names of the inline fragments, and under each key an inline fragment of that type |
| `LegacyIR.IndexStep` | lib/compiler/legacyIR.js:76 | one more assignment keeps that property of the index |
| `LegacyIR.IndexByTypeNameHoldsLast` | lib/compiler/legacyIR.js:75-77 | the by-name index has distinct keys, holds a name iff some inline fragment has a type of that name, and a later fragment overwrites an earlier one |
| `LegacyIR.IndexInlineFragments` | lib/compiler/legacyIR.js:75-77 | the loop builds exactly the by-name index |
| `LegacyIR.ProjectConditions` | lib/compiler/legacyIR.js:88-96 | conditions are absent when missing or empty; otherwise each is reduced to its kind, variable name and `inverted`, in order |
| `LegacyIR.LegacyIRTransformer.constructor` | lib/compiler/legacyIR.js:25-28 | the transformer keeps the context and options it is given |
| `LegacyIR.LegacyIRTransformer.TransformField` | lib/compiler/legacyIR.js:86-105 | `responseName` is the alias when it is non-empty, else the name; name, type and arguments are kept; conditions are absent when missing or empty and otherwise each keeps its kind, variable and `inverted`; the nested set is the transformed selection set, present exactly when the field has one |
| `LegacyIR.LegacyIRTransformer.VariantFragments` | lib/compiler/legacyIR.js:60-73 | each inline fragment of a variant stands for exactly one of the variant's possible types |
| `LegacyIR.LegacyIRTransformer.InlineFragments` | lib/compiler/legacyIR.js:59-74 | each inline fragment of the `flatMap` stands for exactly its own type condition |
| `LegacyIR.LegacyIRTransformer.TransformSelectionSet` | lib/compiler/legacyIR.js:57-84 | one legacy field per merged default field; the spread names are exactly those of spreads reaching every possible type; each inline fragment stands for its type alone; the by-type index has a key exactly for each inline fragment's type name, holding an inline fragment of that type |
| `LegacyIR.LegacyIRTransformer.TransformFields` | lib/compiler/legacyIR.js:86 | one legacy field per merged field |
| `LegacyIR.LegacyIRTransformer.InlineFragmentsFromVariants` | lib/compiler/legacyIR.js:59-74 | every inline fragment comes from a kept variant and stands for one of its possible types |
| `LegacyIR.LegacyIRTransformer.KeptVariantsDenormalised` | lib/compiler/legacyIR.js:65-73 | each kept variant emits, for every one of its possible types, an inline fragment with that type as condition, only that type as possible types, and the variant's fields and spread names |
| `LegacyIR.LegacyIRTransformer.RedundantVariantDropped` | lib/compiler/legacyIR.js:60-64 | a variant covering every possible type of the set and yielding no fields emits no inline fragment |
| `LegacyIR.LegacyIRTransformer.FieldProjection` | lib/compiler/legacyIR.js:85-105 | field order and count are kept; `responseName` is the alias or else the name; `fieldName`, type, arguments, `isConditional`, description, deprecation and `hasOperationExclusiveDirectives` are kept; conditions are projected, absent when empty; a nested selection set is transformed recursively, and present exactly when the field has one |
| `LegacyIR.LegacyIRTransformer.CollectFragmentSpreads` | lib/compiler/legacyIR.js:107-125 | the loop with its recursive calls computes exactly the collected, deduplicated spreads |
| `LegacyIR.LegacyIRTransformer.TransformFieldsToLegacyIR` | lib/compiler/legacyIR.js:85-105 | the loop computes exactly the field projection |
| `LegacyIR.LegacyIRTransformer.InlineFragmentsSnoc` | lib/compiler/legacyIR.js:59 | the `flatMap` over one more variant appends that variant's inline fragments |
| `LegacyIR.LegacyIRTransformer.RedundantVariant` | lib/compiler/legacyIR.js:62-64 | the redundancy test of the loop, on the transformed fields, means the variant adds nothing |
| `LegacyIR.LegacyIRTransformer.KeptVariant` | lib/compiler/legacyIR.js:65-73 | any other variant adds one inline fragment per possible type, in order, sharing its fields and spread names |
| `LegacyIR.LegacyIRTransformer.TransformVariants` | lib/compiler/legacyIR.js:59-74 | the loop computes exactly the `flatMap` over all variants |
| `LegacyIR.LegacyIRTransformer.TransformSelectionSetToLegacyIR` | lib/compiler/legacyIR.js:57-84 | the method computes exactly the legacy selection set: default fields, unconditional spread names, inline fragments, and their by-name index |
| `LegacyIR.LegacyIRTransformer.OperationEntries` | lib/compiler/legacyIR.js:31-41 | one legacy operation per compiled operation, under the same key and in the same order |
| `LegacyIR.LegacyIRTransformer.FragmentEntries` | lib/compiler/legacyIR.js:43-47 | one legacy fragment per compiled fragment, under the same key and in the same order |
| `LegacyIR.LegacyIRTransformer.TransformIR` | lib/compiler/legacyIR.js:29-56 | the same keys as the compiled operations and fragments, each entry transformed; each fragment's `typeCondition` is its declared type and its possible types are those of its selection set; schema, used types and options are passed through |
| `LegacyIR.LegacyIRTransformer.TransformOperations` | lib/compiler/legacyIR.js:31-42 | the loop fills the operations object with exactly the transformed entries |
| `LegacyIR.LegacyIRTransformer.TransformFragments` | lib/compiler/legacyIR.js:43-47 | the loop fills the fragments object with exactly the transformed entries |
| `LegacyIR.CompileToLegacyIR` | lib/compiler/legacyIR.js:18-22 | it fails exactly when `compileToIR` does, with the same error; otherwise the result is `transformIR` of the compiled context (each operation and fragment transformed under its key, with the schema, used types and options passed through), with one operation per distinct operation name and one fragment per distinct fragment name of the document; options default to merging fields from spreads; every guarantee of `compileToIR` carries over: the first failing definition's error, else `FragmentNotFound` of the first undefined name in push order, and on success the well-formed IR, its operation and fragment tables, the push order and the recorded types (`DocumentRecorded`) |
| `SwiftHelpers.TypeNameForScalarType` | lib/swift/helpers.js:38-43 | built-in scalars map to `String`, `Int`, `Double`, `Bool` and `GraphQLID`; other scalars become the custom prefix plus the name when passed through, and `String` otherwise |
| `SwiftHelpers.TypeNameFromGraphQLType` | lib/swift/helpers.js:19-37 | a nullable type not declared non-optional renders ending in `?`; a list, under at most one `NonNull`, renders starting with `[` |
| `SwiftHelpers.TypeNameRendersSwiftType` | lib/swift/helpers.js:19-37 | the rendered name is a Swift type: its core type, made optional unless the type is non-null or optionality was switched off |
| `SwiftHelpers.TypeNameIsSwiftTypeOf` | lib/swift/helpers.js:19-37 | with no explicit optionality, the rendered name is the Swift type of the GraphQL type |
| `SwiftHelpers.CoreIsNotOptional` | lib/swift/helpers.js:20-35 | the core type is never optional itself, and a named core type is the base name of the named type |
| `SwiftHelpers.TypeNameMarksNullable` | lib/swift/helpers.js:19-37 | the rendered name ends in `?` iff the type is not `NonNull` |
| `SwiftHelpers.TypeNameBrackets` | lib/swift/helpers.js:27-28 | the rendered name has one `[` per list level |
| `SwiftHelpers.TypeNameExamples` | lib/swift/helpers.js:19-37 | `NonNull(Hero)` renders as `Hero`, `Hero` as `Hero?`, `NonNull(List(String))` as `[String?]`, `Float` as `Double?`, and a custom scalar as `String?` |
| `SwiftHelpers.Leaf` | lib/swift/helpers.js:51-62 | the innermost part fails exactly for input objects |
| `SwiftHelpers.FieldTypeEnum` | lib/swift/helpers.js:44-63 | it fails exactly for an input-object named type, with `Unknown field type: ` and the type's name; a wrapped type renders as a `.`-led call ending in `)` |
| `SwiftHelpers.FieldTypeEnumShape` | lib/swift/helpers.js:44-63 | `fieldTypeEnum` fails iff the named type is an input object; otherwise it is one `.nonNull(` or `.list(` per wrapper in wrapping order, the leaf, and one `)` per wrapper |
| `SwiftHelpers.WrapperStep` | lib/swift/helpers.js:45-50 | one more wrapper adds its opening in front and one closing parenthesis at the end |
| `SwiftHelpers.MapExpressionForType` | lib/swift/helpers.js:145-168 | a non-null non-list type gives the expression itself; any other type gives text starting with the prefix and ending with a closing brace |
| `SwiftHelpers.MapExpressionNestsExpression` | lib/swift/helpers.js:145-168 | the map expression is the opening of its closures, the expression, and one closing brace per closure; a non-null, non-list type returns the expression unchanged, and only such a type opens no closure |
| `SwiftHelpers.ListLevel` | lib/swift/helpers.js:158-159 | a non-null list adds `prefix.map { ` around the element's expression under `$0` |
| `SwiftHelpers.NullableListLevel` | lib/swift/helpers.js:155-156 | a nullable list adds `prefix.flatMap { $0.map { ` and closes both closures |
| `SwiftHelpers.NullableHeadOpens` | lib/swift/helpers.js:162-163 | a nullable non-list opens exactly one closure, `prefix.flatMap { ` |
| `SwiftHelpers.MapExpressionBalanced` | lib/swift/helpers.js:145-168 | the map expression opens and closes exactly as many braces as it has closures |
| `SwiftHelpers.PropertyType` | lib/swift/helpers.js:83-86 | dropping the outer `NonNull` of a conditional field keeps its named type and list depth |
| `SwiftHelpers.PropertyFromField` | lib/swift/helpers.js:79-98 | the property name is the response key for meta fields and its camel case otherwise; an unconditional field is optional iff it is nullable; a conditional field is optional unless doubly non-null; the struct name is the singularised, Pascal-cased key, joined after a non-empty namespace with `.`; the type name is the Swift type of the property type, named by the struct name for a composite type |
| `SwiftHelpers.JoinUnderEmptyNamespace` | lib/swift/helpers.js:82 | joining an absent namespace with a struct name gives the struct name |
| `SwiftHelpers.PrintingJoin` | lib/swift/helpers.js:82 | the assumed `join`: empty exactly when every part is empty, and the plain separator join when no part is |
| `SwiftHelpers.PrintingWrap` | lib/swift/helpers.js:130 | the assumed `wrap`: empty exactly when the middle is, and otherwise start, middle and end in order |
| `SwiftHelpers.NonEmptyKeepsAllWhenNoneEmpty` | lib/swift/helpers.js:82 | dropping empty parts changes nothing when there are none |
| `SwiftHelpers.JoinPair` | lib/swift/helpers.js:82 | two non-empty parts are joined with one separator |
| `SwiftHelpers.FieldPropertyTypeMarksOptional` | lib/swift/helpers.js:84-90 | a field property's type name ends in `?` iff the property is optional |
| `SwiftHelpers.StructNameForVariant` | lib/swift/helpers.js:76-78 | the struct name of a variant starts with `As` |
| `SwiftHelpers.PascalNames` | lib/swift/helpers.js:77 | one Pascal-cased name per possible type, in order |
| `SwiftHelpers.StructNameForSingleType` | lib/swift/helpers.js:77 | a single type gives `As` and its Pascal-cased name |
| `SwiftHelpers.StructNameForVariantAppend` | lib/swift/helpers.js:77 | each further type adds `Or` and its Pascal-cased name |
| `SwiftHelpers.PropertyFromVariant` | lib/swift/helpers.js:99-107 | the struct name is the variant's, the type name is that name with `?`, and the property name is its camel case |
| `SwiftHelpers.PropertyFromFragmentSpread` | lib/swift/helpers.js:108-116 | the struct name is the Pascal-cased fragment name and the property name its camel case; the type name starts with the struct name |
| `SwiftHelpers.FragmentSpreadOptionalIffConditional` | lib/swift/helpers.js:112 | the type name ends in `?` iff the spread is conditional |
| `SwiftHelpers.PropertyFromInputField` | lib/swift/helpers.js:117-123 | the property name is the camel-cased field name, the property is optional iff the type is not `NonNull`, and the type name is the Swift type of the field type |
| `SwiftHelpers.InputFieldTypeMarksOptional` | lib/swift/helpers.js:117-123 | an input field property's type name ends in `?` iff the property is optional |
| `SwiftHelpers.FieldNamed` | lib/swift/helpers.js:126 | reading a key of an object value gives a value stored under that key, or nothing iff no entry has that key |
| `SwiftHelpers.ExpressionFromValue` | lib/swift/helpers.js:125-140 | a variable renders as `GraphQLVariable("name")`; lists and objects are bracketed; the empty object renders as `[:]` and the empty list as `[]` |
| `SwiftHelpers.ExpressionFromValueAsWritten` | lib/swift/helpers.js:125-140 | as written, the rendering throws exactly when it reaches a `null` (read as `value.kind`); a list or a non-variable object renders bracketed unless it renders as nothing |
| `SwiftHelpers.DictionaryLiteralAsWritten` | lib/swift/helpers.js:124-144 | as written, the dictionary literal throws exactly when some argument value reaches a `null`; otherwise it is bracketed |
| `SwiftHelpers.EntryTexts` | lib/swift/helpers.js:133-134 | one `"key": value` text per object entry, none of them empty |
| `SwiftHelpers.DictionaryText` | lib/swift/helpers.js:141-143 | no pairs give `[:]`; otherwise the pairs are joined with `, ` between brackets |
| `SwiftHelpers.DictionaryLiteralForFieldArguments` | lib/swift/helpers.js:124-144 | no arguments give `[:]`; otherwise one `"name": value` per argument in order, comma-separated, in brackets |
| `SwiftHelpers.ArgumentTexts` | lib/swift/helpers.js:141-142 | one text per argument, each starting with the quoted name |
| `SwiftHelpers.ExpressionNonEmpty` | lib/swift/helpers.js:125-140 | every value renders as non-empty text when `JSON.stringify` of a scalar is non-empty |
| `SwiftHelpers.AsWrittenAgrees` | lib/swift/helpers.js:125-140 | on values with no `null`, no empty list and no object whose `kind` is `"Variable"`, the source's rendering succeeds and agrees with the corrected one |
| `SwiftHelpers.DictionaryLiteralAgrees` | lib/swift/helpers.js:124-144 | the same for a whole argument dictionary: with no such value among the arguments the source's literal exists and equals the corrected one |
| `SwiftHelpers.EmptyListArgumentAsWritten` | lib/swift/helpers.js:130 | as written, an empty-list argument renders as `["ids": ]` |
| `SwiftHelpers.EmptyListArgumentCorrected` | lib/swift/helpers.js:130 | corrected, it renders as `["ids": []]` |
| `SwiftHelpers.EmptyListArgumentVanishes` | lib/swift/helpers.js:141-143 | the as-written and corrected renderings of an empty-list argument side by side |
| `SwiftHelpers.EmptyListItemAsWritten` | lib/swift/helpers.js:130 | as written, an empty list inside a list disappears: `[[], 1]` renders as `[1]` |
| `SwiftHelpers.EmptyListItemCorrected` | lib/swift/helpers.js:130 | corrected, `[[], 1]` renders as `[[], 1]` |
| `SwiftHelpers.EmptyListItemDropped` | lib/swift/helpers.js:129-130 | the as-written and corrected renderings of `[[], 1]` side by side |
| `SwiftHelpers.ObjectWithVariableKindMisread` | lib/swift/helpers.js:126-128 | as written, the object value `{kind: "Variable"}` renders as the variable reference `GraphQLVariable("undefined")` |
| `SwiftHelpers.ObjectWithVariableKindRendered` | lib/swift/helpers.js:132-135 | corrected, `{kind: "Variable"}` renders as the dictionary `["kind": "Variable"]` |
| `SwiftHelpers.OneEntryDictionary` | lib/swift/helpers.js:133-135 | a one-entry object renders as `["key": value]` |
| `SwiftHelpers.ObjectNeverVariable` | lib/swift/helpers.js:126-135 | corrected, no object value ever renders as a variable reference |
| `SwiftHelpers.NullArgumentAsWritten` | lib/swift/helpers.js:126 | as written, the argument `id: null` makes the literal throw |
| `SwiftHelpers.NullArgumentRendered` | lib/swift/helpers.js:138 | corrected, `id: null` renders as `["id": ` + the JSON text of `null` + `]` |
| `SwiftHelpers.NullArgumentThrows` | lib/swift/helpers.js:124-140 | the as-written and corrected renderings of `id: null` side by side |

## Left out

- `typeFromAST`, `getFieldDef`, `schema.getPossibleTypes`, `getOperationRootType` and `getNamedType` are graphql-js functions. The AST carries resolved type references, and the schema is a datatype the model reads.
  - A missing root type is the error `MissingRootType`.
  - A type condition naming an unknown type is not modelled.
- `print`, `filePathForNode` and `valueFromValueNode` are graphql-js or utility functions. The printed source and file path are fields of the AST node, and `valueFromValueNode` is a function parameter of the compiler.
- `withTypenameFieldAddedWhereNeeded` (the `addTypename` pre-pass) is a function parameter.
- `TypeCase`, `collectAndMergeFields`, `collectFragmentsReferenced` and `generateOperationId` are defined in files that are not part of this model. They are opaque functions, bundled in `LegacyIR.Visitors`.
  - The recursion of the legacy transformer through `collectAndMergeFields` terminates only given a measure that nested merged selection sets decrease. That measure is a ghost parameter and a precondition (`VisitorsTerminate`).
- `camelCase`, `pascalCase` (change-case) and `singularize` (inflected) are fields of `SwiftHelpers.StringLibrary`, left uninterpreted. `JSON.stringify` of a scalar is a parameter, `stringify`.
- `join` and `wrap` of `lib/utilities/printing.js` are not part of this model. They are assumed to drop empty parts before joining and to yield nothing around an empty middle. The two findings below depend on this assumption.
- The `flatMap` that `lib/utilities/array` adds to arrays is not part of this model. The model assumes that it drops the `undefined` a redundant variant returns (legacyIR.js:64); that assumption is not checked. With the standard `Array.prototype.flatMap`, the `undefined` would stay in `inlineFragments` and legacyIR.js:76 would throw reading its `typeCondition`.
- The in-place patching of fragment-spread objects, which are shared with the selection sets that hold them, is modelled through slots into the pending list. The first pass's placeholders and the second pass's patched records are separate sequences; no object identity is modelled.
- `visitedFragments`: the code starts a fresh set in every nested field and inline-fragment selection set (index.js:108, 161, 172). The model follows the code, not a description that has the set inherited downward.
- The possible types of an operation's root selection set are `possibleTypesForType(rootType)`, as the code computes them, not a fixed `[rootType]`. The two agree for object root types.
- A `@skip` or `@include` with an empty argument list makes the source fail reading `arguments[0].value`. The model returns the error `MissingDirectiveArgument`. A first argument that is neither a boolean literal nor a variable is skipped, as in the source's `switch`.
- `SwiftHelpers.TypeNameForScalarType`: `builtInScalarMap[type.name]` on a plain object also finds inherited members such as `constructor`. The model looks names up only in the five built-in entries.
- `SwiftHelpers.TypeNameForScalarType`: an `undefined` `customScalarsPrefix` would print as the text `undefined`. The model takes the prefix as a string.
- `enumCaseName`, `operationClassName`, `structNameForPropertyName` and `structNameForFragmentName` are one-line calls into change-case and inflected. They are written out only where a modelled helper uses them.
- JavaScript objects with integer-like keys enumerate those keys first, and the key `__proto__` is special. Dictionaries are modelled as plain insertion-ordered sequences of entries.
- `LegacyIR.IndexByTypeName`: legacyIR.js:76 stores each inline fragment as a property of the `inlineFragments` array itself. For a type named `length`, that assignment sets the array's length to an object and throws a `RangeError`. The model stores an entry under `length` like any other name, so it does not capture that failure.
- `alias || name` and `description` treat an empty string as absent. The model does the same, but no other JavaScript falsy value is modelled.
- An object value with a repeated key is modelled as its entries in order. Property reads take the first entry.
- `options` of `compileToIR` other than `addTypename` and `mergeInFieldsFromFragmentSpreads` are carried along unread.
- `Compilation.CompileToIR`: `typesUsed` is bounded from below (every variable and field type the document names, `DocumentRecorded`), and each `addTypeUsed` call is shown to record only the type it was given and input field types reached from it (`Compiler.Compiler.AddTypeUsed`). The matching upper bound (nothing else is recorded) and the order of `typesUsed` are not stated for the whole compilation.
- `LegacyIR.LegacyIRTransformer.TransformIR` requires the compiled tables to have distinct keys. The compiler's own tables always do (`Compilation.CompileToIR` ensures it through `WellFormedIR`).

## Findings

| source | as written | input that shows it | evidently intended | confidence | as-written member | corrected member |
|---|---|---|---|---|---|---|
| lib/swift/helpers.js:130 | a list value is rendered with `wrap('[', join(items, ', '), ']')`, and `wrap` yields nothing when the middle is empty | the argument `ids: []` renders as `["ids": ]`, which is not valid Swift; inside a list, `[[], 1]` renders as `[1]` | an empty list renders as `[]` | medium, not executed (depends on the `wrap` and `join` behaviour noted under Left out) | `SwiftHelpers.EmptyListArgumentAsWritten` | `SwiftHelpers.EmptyListArgumentCorrected` |
| lib/swift/helpers.js:126 | every value is first tested with `value.kind === 'Variable'`, including plain object values | the object argument `{kind: "Variable"}` renders as `GraphQLVariable("undefined")` | only variable references render as `GraphQLVariable(...)`; an object renders as a dictionary | high, not executed | `SwiftHelpers.ObjectWithVariableKindMisread` | `SwiftHelpers.ObjectWithVariableKindRendered` |
| lib/swift/helpers.js:126 | `value.kind` is read before any test for `null` | the argument `id: null` (a `null` literal, which becomes the value `null`) throws a `TypeError` instead of rendering | `null` renders as its JSON text, like the other scalars at helpers.js:138 | low, not executed (assumes `valueFromValueNode` turns a `null` literal into `null`) | `SwiftHelpers.NullArgumentAsWritten` | `SwiftHelpers.NullArgumentRendered` |
