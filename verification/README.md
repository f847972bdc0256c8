# GraphQL-Houtou: a verified model of its core algorithms

GraphQL-Houtou parses, validates and executes GraphQL requests; its core is C
behind a Perl interface. This project models, in Dafny, the parts of that core
that are algorithms in their own right, and proves what they promise.

**Validation.** A document's fragments form a graph of spreads, on which a
three-colour search reports cycles (`FragmentCycles`). Field merging sorts the
fields of a selection list into buckets by response key, compares each new field
with one representative per signature, stops a key at its first conflict and
descends once into all sub-selections together; it is proved equal to the rule
that compares all pairs at all depths (`FieldCollection`, `FieldMerging`,
`MergeValidation`), and the rule is proved to make execution unambiguous
(`MergedExecution`) in every document the selection walk accepts
(`SelectionWalk`); `FieldsByKey` says what the rule means for aliases, names,
arguments and kinds of types. Usage analysis is reachability over raw nodes (`Usage`), over
selections (`UsageOfDocuments`) and over whole documents (`DocumentUsage`); query
cost is saturating arithmetic over a possibly cyclic graph (`QueryCost`), and the
position check for variables is inclusion of values (`VariableTypes`). `Layering`
supplies a measure that lets merging end, `FieldCycles` says which documents have
it and `MergeTermination` what happens on them and on others.

**Execution.** Variables live in slots by definition index and in a hash by name
(`VariableSlots`, `PayloadBinding`); arguments are coerced by three routes
(`ArgumentCoercion`). Specialization evaluates guards, coerces arguments and
compacts operation arrays in place, each operation owning its payloads
(`Specialization`), and what resolvers get after one pass and after two is compared
with the general route (`SpecializedArguments`). Result values are nodes with retained child arrays on a
capped free list, shared through counted outcomes (`NativeValues`), and any run of
operations on them is proved to do what it does to plain trees (`NativeRuns`).
Path frames are reference-counted and recycled (`PathFrames`).

**Parsing.** The direct parser yields the canonical tree at once; the other route
parses to an intermediate tree, builds nodes and converts them (`ParseTree`,
`IrParser`, `CanonicalForm`, `DirectParser`, `ParserCursor`). The routes are proved
equal up to the nesting limit only one of them has (`ParserRoutes`), and both
accept exactly the written form of trees (`Grammar`); type references are
`TypeReferences`, and `ParsedTokens` says what each short form is read as.
`Locations` covers line lookup, and `StringEscapes` with `EscapesByByte`,
`EscapeRoundTrip` and `SurrogateEscapes` string unescaping.

Code that changes state in the original is a class or an array method here, proved
against a function of its inputs and old state; the theorems are about those
functions. Code made of expressions is a function. Thrown errors are `None`,
`Failed` or a false flag. Perl values are the datatype `Values.Value`, hashes are
maps. Custom-scalar and input coercion is an uninterpreted function that may fail,
and so is the reading of number tokens and block strings.

`dafny verify dfyconfig.toml` checks everything.

## Where the code differs from its documents

- A field that no compiled type declares, `__typename` among them, has the same
  shape as no field, not even itself; `{ __typename __typename }` is a conflict
  (`FieldMerging.RepeatedFieldMergesIffTyped`).
- Merging runs whether or not cycles were reported. On a fragment that spreads
  itself through a field it can recurse without end (`MergeTermination.RingNeverEnds`),
  though it need not (`MergeTermination.SpiralEnds`); without such a fragment it ends
  (`FieldCycles.LayeredIffNoFieldCycle`, `MergeTermination.LayeredMergingEnds`).
- The usage walk passes over entries named `variables` and `location`, also when
  they are argument or input-field names, and it takes an input object whose `kind`
  is `fragment_spread` for a spread. What it finds is exact if and only if nothing is
  so hidden and nothing so pretends (`UsageOfDocuments`), and its reports are right
  if and only if what they are about is seen as it is (`DocumentUsage`).
- Ahead-of-time coercion treats an unprovided variable as null where the general
  route takes the argument's default, and a boolean stored in a payload comes back as
  null (`ArgumentCoercion.SpecializeBothWays`).
- Arguments stored by the pass over the variables of a request are coerced a second
  time when the specialized program's bundle is prepared, and coercion need not
  reproduce them (`SpecializedArguments.TwoPassesAgreeIff`,
  `SpecializedArguments.StoredValueIsCoercedAgain`).
- With slots alone, without the hash, a guard on an undeclared variable that was
  provided is evaluated as if it were not (`VariableSlots.GuardsAgreeWithoutHash`,
  `VariableSlots.UndeclaredGuardIsLost`).
- Only the direct parser limits nesting.
- In source text that is not flagged as UTF-8, a `\u` escape makes the whole string
  count as UTF-8 although bytes beyond ASCII were copied as they are; unpaired
  surrogate escapes are encoded as they stand, so that exactly the strings without
  them become UTF-8 (`SurrogateEscapes.UnescapedIsUtf8IffPaired`).

## Model

| member | source | states |
|---|---|---|
| `Values.ValuesEqualIffSameNormalForm` | src/validation.h:1408-1461 | literal comparison decides equality of normal forms (plain scalars by their text, containers by content), so it is an equivalence |
| `Values.ArgumentsEqualIffSameNormalForm` | src/validation.h:1408-1461 | the same for argument hashes, a missing hash equal only to a missing one |
| `Values.TextsTellIntegersApart` | src/validation.h:1422-1424 | different integers are different literals: their decimal texts differ, in sign as in digits |
| `Values.ScalarsByText` | src/validation.h:1420-1424 | an integer equals exactly itself and the string or float written as its text; strings and floats are equal when their texts are |
| `Values.OthersByIdentity` | src/validation.h:1409-1424 | null, booleans, enums and variables are equal to nothing but themselves |
| `Values.ContainersByContents` | src/validation.h:1426-1458 | lists are equal item by item, objects field by field, neither to a scalar, and missing arguments are not empty ones |
| `Schema.SameResponseShapeIffSameShape` | src/validation.h:1558-1612 | two types have the same response shape exactly when they have the same list and non-null structure around the same leaf or around any composite; hence an equivalence |
| `FieldsByKey.ShapesByKind` | src/validation.h:1558-1612 | by kinds: scalars and enums only with themselves, object, interface and union types all with one another, and lists and non-nulls only with their like |
| `FieldsByKey.ObjectsDoNotOverlap` | src/validation.h:839-873 | object types overlap only when they are one type |
| `FieldsByKey.ObjectOverlapsAbstractIff` | src/validation.h:839-873 | an object type overlaps an interface or union exactly when it is one of its possible types |
| `FieldsByKey.AbstractOverlapIff` | src/validation.h:839-873 | two interfaces or unions overlap exactly when they are one or have an object type in common |
| `FragmentCycles.CollectFragmentSpreads` | src/validation.h:509-548 | the collected names are all spreads of a selection list, in order, at every depth |
| `FragmentCycles.CycleChecker.VisitFragment` | src/validation.h:551-624 | the in-place three-colour visit computes the recursive visit function; it terminates on cyclic maps |
| `FragmentCycles.CycleChecker.CheckAll` | src/validation.h:626-644 | over all fragments: no error exactly when the spread graph is acyclic, and every name reported lies on a cycle |
| `FragmentCycles.ReportedFragmentsLieOnCycles` | src/validation.h:551-644 | soundness, for any order of visiting: a reported fragment can reach itself through spreads |
| `FragmentCycles.EveryCycleIsReported` | src/validation.h:551-644 | completeness: every cycle has a reported fragment on it |
| `FragmentCycles.SilentIffAcyclic` | src/validation.h:551-644 | no report if and only if there is no cycle |
| `FragmentCycles.AcyclicHasOrder` | src/validation.h:551-624 | the order in which visits finish is a topological order of an acyclic fragment map |
| `Layering.AcyclicIsLayered` | src/validation.h:551-644 | acyclic fragments have finite depth through spreads, the measure that bounds merging |
| `FieldCycles.LayeredIffNoFieldCycle` | src/validation.h:1738-1809 | the fragment maps on which merging has that measure are exactly those where no cycle of spreads passes through a field; cycles of spreads and inline fragments alone do no harm |
| `FieldCollection.CollectIsExact` | src/validation.h:1464-1534 | collection with a visited set yields, as a multiset, every field of the list, of its inline fragments and of each fragment reachable through spreads taken once |
| `FieldsByKey.CollectedParents` | src/validation.h:1464-1534 | fields are collected with the type they stand on: that of their inline fragment if it has one, of their fragment, or of the list |
| `MergeValidation.FieldCollector.CollectFields` | src/validation.h:1464-1534 | the in-place collector appends exactly what the collection function gives and leaves its visited set |
| `FieldMerging.PairCovers` | src/validation.h:1464-1534 | any two occurrences in a merged list occur together already for two of its members |
| `FieldMerging.MergeableIffPairsMerge` | src/validation.h:1537-1565 | on any fragments, cyclic ones included, a selection list merges at every depth exactly when every two fields of a key are compatible and the two selection lists below them merge |
| `FieldMerging.AllAtOnceIsPairwise` | src/validation.h:1757-1806 | merging n selections at once succeeds exactly when every two of them merge: one recursive call replaces all pairs |
| `FieldMerging.RepeatedFieldMergesIffTyped` | src/validation.h:1537-1565 | a field merges with its own repetition exactly when the schema types it and its selections, repeated, merge; a repeated `__typename` or `__schema` is refused, unlike in section 5.3.2 of GraphQL September 2025 |
| `MergeValidation.CompatibleBySignature` | src/validation.h:1685-1724 | compatibility of two fields depends only on their signatures, and is symmetric |
| `MergeValidation.SameSignatureInterchangeable` | src/validation.h:1725-1736 | fields of one signature conflict with the same fields, so one representative is enough |
| `MergeValidation.MergeValidator.CompareWithKept` | src/validation.h:1685-1733 | comparison with the kept representatives: a conflict exactly when one is incompatible; otherwise the field is kept exactly when its signature is new |
| `MergeValidation.MergeValidator.AddToBucket` | src/validation.h:1661-1736 | adding a field to its bucket reports an error exactly when the field clashes with an earlier one under its key and the key has not clashed before |
| `MergeValidation.LevelErrorKeys` | src/validation.h:1676-1678 | the errors of one level name exactly the clashing response keys, each once |
| `MergeValidation.NoLevelErrorsIffCompatible` | src/validation.h:1630-1737 | a level reports nothing exactly when all pairs of fields under a key are compatible |
| `MergeValidation.MergesLevelByLevel` | src/validation.h:1738-1809 | pairwise mergeability is compatibility at this level together with mergeability of all sub-selections of each key at once |
| `MergeValidation.MergeValidator.ValidateFieldMerging` | src/validation.h:1615-1813 | wherever its recursion ends, the whole algorithm adds no error exactly when every pair of fields with a key is compatible and their merged sub-selections are, at every depth; its own level contributes exactly that level's errors, first |
| `FieldsByKey.DifferentAliasesMerge` | src/validation.h:1661-1664 | two fields with different aliases always merge |
| `FieldsByKey.DifferentNamesMerge` | src/validation.h:1661-1664 | two fields without aliases and of different names always merge |
| `FieldsByKey.AliasApartFromName` | src/validation.h:1661-1664 | an aliased field always merges with a field of another name that has no alias |
| `FieldsByKey.AliasTakesName` | src/validation.h:1661-1733 | a field aliased as the name of another field on its parent, whose own name differs, never merges with it |
| `FieldsByKey.SameKeyMustAgree` | src/validation.h:1685-1724 | two fields of one alias, or of one name without aliases, on one parent, with different names or arguments never merge |
| `FieldsByKey.SameFieldMergesIff` | src/validation.h:1685-1724 | a field with equal arguments under one key, also under an alias that repeats its name, merges with itself exactly when its parent declares it |
| `FieldsByKey.AliasesDecide` | src/validation.h:1661-1733 | `{ first: user(id: "a") second: user(id: "b") }` merges and `{ x: a x: b }` does not |
| `FieldsByKey.DifferentObjectsMergeIffSameShape` | src/validation.h:1689-1724 | fields of one key on two object types may differ in name and arguments and must give responses of one shape |
| `FieldsByKey.OverlappingTypesMustAgree` | src/validation.h:1689-1724 | on an object type and an interface or union it belongs to they must agree in name and arguments too |
| `FieldsByKey.ConflictBelow` | src/validation.h:1738-1809 | two fields that conflict are a conflict below two occurrences of one field as well |
| `MergeTermination.LayeredMergingEnds` | src/validation.h:1738-1809 | where no spread cycle passes through a field, merging ends, within the depth of the selection list; the condition is sufficient, not necessary |
| `MergeTermination.SpiralEnds` | src/validation.h:1738-1809 | on `fragment F on Q { b { ...F } }`, which spreads itself through a field, merging ends as well, since a key with one selection list is not entered |
| `MergeTermination.RingNeverEnds` | src/validation.h:1738-1809 | on `fragment F on Q { a { ...F } a { ...F } }`, which spreads itself through a field, merging recurses to every depth |
| `MergedExecution.MergingDocumentsAreUnambiguous` | src/validation.h:1615-1813 | if merging accepts the selection lists of a document, then for every object type and response key, at every depth of execution, all applicable occurrences have one field name and equal arguments |
| `FieldsByKey.TwoLeavesAreUnambiguousIff` | src/validation.h:1615-1813 | that promise says, of two fields without selections, that some object has both under one key only if they have one name and equal arguments |
| `SelectionWalk.SelectionValidator.ValidateSelections` | src/validation.h:1950-2075 | wherever the merging it starts ends, the walk adds no error exactly when the list merges and every selection in it, at all depths, is accepted |
| `SelectionWalk.SelectionValidator.ValidateDocument` | src/validation.h:2166-2286 | fragments and operations are reported on exactly when some list does not merge or some selection does not fit its type; a document on which nothing is reported executes without ambiguity |
| `SelectionWalk.UndeclaredFieldAcceptedIff` | src/validation.h:1848-1880 | of undeclared fields exactly `__typename`, and `__schema` and `__type` on the query root, are accepted |
| `SelectionWalk.DeclaredFieldAcceptedIff` | src/validation.h:1848-1947 | a declared field must have selections on an object, interface or union type and none on a scalar or enum |
| `SelectionWalk.InlineFragmentAcceptedIff` | src/validation.h:2050-2074 | an inline fragment is accepted exactly when its type is known and overlaps the parent and its selections are accepted on it |
| `SelectionWalk.SpreadAcceptedIff` | src/validation.h:1988-2014 | a spread is accepted exactly when its fragment is defined and, if its type is known, overlaps the parent |
| `SelectionWalk.FragmentAcceptedIff` | src/validation.h:2166-2224 | a fragment is accepted exactly when its type is an object, interface or union and its selections are accepted on it |
| `SelectionWalk.TypenameAccepted` | src/validation.h:1848-1880 | `{ __typename }`, aliased or not, is accepted on every known type |
| `SelectionWalk.AcceptedListsMerge` | src/validation.h:1950-2075 | every selection list of an accepted tree was merged by itself, over a schema whose field types are declared |
| `SelectionWalk.LayeredDocumentEnds` | src/validation.h:2166-2286 | on fragments without a spread cycle through a field all merging of the walk ends |
| `QueryCost.CostAdd` | src/validation.h:2616-2618 | saturating addition is the minimum of the exact sum and the budget plus one, without wrap-around |
| `QueryCost.SaturatedProduct` | src/validation.h:2690-2694 | the division test says exactly whether the exact product would exceed the budget, also when the child cost is already saturated |
| `QueryCost.CostMeter.SelectionCost` | src/validation.h:2626-2742 | cost is min(exact cost, budget + 1) for every selection list and fragment map, cyclic ones included; the visited set is restored on every exit |
| `QueryCost.CostMeter.AddField` | src/validation.h:2651-2695 | one field adds its own cost and multiplicity times its children, saturated |
| `QueryCost.PlainFieldCosts` | src/validation.h:2651-2695 | a field whose type is a name, non-null or not, costs its annotation or 1, and what is below it |
| `QueryCost.ListFieldCosts` | src/validation.h:2604-2695 | a field of a list type, non-null or not, costs its annotation or 1, and the estimated length, the schema's before the default, times the larger of 1 and what is below it |
| `QueryCost.OtherSelectionsCost` | src/validation.h:2641-2739 | an undeclared field costs 1, an inline fragment and a spread what is in them on their own type, a spread nothing below itself |
| `QueryCost.NullsCostNothing` | src/validation.h:2604-2613 | schemas that differ only in which fields are non-null give every document one cost |
| `QueryCost.UsersCostEleven` | src/validation.h:2651-2695 | `{ users { id } }` with `users: [User!]!` and a default length of ten costs 11 |
| `QueryCost.CheckCost` | src/validation.h:2745-2825 | an operation is reported exactly when its exact cost exceeds the budget |
| `QueryCost.InliningKeepsCost` | src/validation.h:2698-2739 | on acyclic fragments the cost equals that of the document with every spread replaced by an inline fragment |
| `QueryCost.AcyclicDocumentsInline` | src/validation.h:2713-2739 | every selection list over acyclic fragments can be so inlined |
| `Usage.CollectOperation` | src/validation.h:244-322 | one walk collects exactly the fragments reachable from an operation and exactly the variables in it or in them |
| `Usage.PushUsageErrors` | src/validation.h:325-416 | a variable is reported unused exactly when it is declared and never used, a fragment exactly when no operation reaches it; cyclic fragments included |
| `UsageOfDocuments.SelectionsVariables` | src/validation.h:244-322 | on the nodes of a document the walk finds exactly the variables that occur outside entries named `variables` or `location` |
| `UsageOfDocuments.VariablesExactIffNoneHidden` | src/validation.h:244-322 | these are all the variables of the list if and only if none occurs only below such an entry |
| `UsageOfDocuments.SelectionsSpreads` | src/validation.h:244-322 | the walk finds exactly the fragments spread in the list and those named by an input object that looks like a spread where the walk goes |
| `UsageOfDocuments.SpreadsExactIffNothingPretends` | src/validation.h:244-322 | these are exactly the fragments spread if and only if every such object names one that is spread anyway |
| `UsageOfDocuments.PlainVariablesExact` | src/validation.h:244-322 | without arguments or input fields of those names, or of the name `kind`, it finds exactly the variables that occur |
| `UsageOfDocuments.PlainSpreadsExact` | src/validation.h:244-322 | and exactly the fragment spreads that occur |
| `UsageOfDocuments.OnlyTwoNamesHide` | src/validation.h:307-319 | a variable given as an argument, or as an input field, is found exactly when that is called neither `variables` nor `location` |
| `UsageOfDocuments.OnlyTwoNamesHideSpreads` | src/validation.h:277-319 | and so is an input object that looks like a spread |
| `UsageOfDocuments.LocationArgumentHidesVariable` | src/validation.h:307-319 | a variable in an argument called `location` is not seen |
| `UsageOfDocuments.ObjectTakenForSpread` | src/validation.h:277-286 | the selection `a(x: {kind: "fragment_spread", name: "F"})` spreads nothing and is taken to spread F |
| `DocumentUsage.CollectOperations` | src/validation.h:2858-2904 | the operations of a document, in order |
| `DocumentUsage.OperationsInOrder` | src/validation.h:2858-2904 | the operations of two documents side by side are those of the first and then those of the second; fragments are none |
| `DocumentUsage.BuildFragmentsMap` | src/validation.h:166-196 | the fragment definitions by name, a later one replacing an earlier one |
| `DocumentUsage.LastFragmentCounts` | src/validation.h:166-196 | a fragment that no later one of its name follows is the one found under its name |
| `DocumentUsage.ReportUsage` | src/validation.h:325-416 | whole documents, cyclic ones included: a variable is reported exactly when it is declared and occurs neither in its operation nor in a fragment reached from it by spreads, a fragment exactly when no operation reaches it, as the walk sees the document; and as the document is if and only if the walk sees every declared variable and defined fragment as it is |
| `DocumentUsage.ReportsRightIffSeenAlike` | src/validation.h:244-416 | the errors are the right ones exactly when no declared variable and no defined fragment is seen otherwise by the walk |
| `DocumentUsage.HonestIsSeenAlike` | src/validation.h:244-322 | so they are where operations and fragments hide no variable and hold no object that pretends to be a spread |
| `DocumentUsage.HiddenUseIsReported` | src/validation.h:307-319 | `query ($here) { near(location: $here) }` uses its variable, and has it reported |
| `DocumentUsage.PretendedSpreadHidesFragment` | src/validation.h:277-286 | an input object keeps a fragment nobody spreads from being reported |
| `VariableTypes.CompatibleIffIncluded` | src/validation.h:912-955 | a variable type is compatible with a well-formed location type exactly when each of its values, nulls and nested lists included, is a value of the location |
| `VariableTypes.ExactIffWellFormed` | src/validation.h:912-955 | and the test is exact for a location exactly when that type is well formed |
| `VariableTypes.CompatibleIsTransitive` | src/validation.h:912-955 | compatibility is transitive |
| `VariableTypes.CompatibleIsAntisymmetric` | src/validation.h:912-955 | compatibility is antisymmetric on well-formed types |
| `VariableTypes.CompatibilityByShape` | src/validation.h:912-955 | non-null goes where null is allowed and not conversely, at every depth; lists and single values do not stand for each other, nor one name for another |
| `VariableSlots.EvaluateGuards` | src/vm_runtime.h:2238-2263 | a guard list passes exactly when every skip is false and every include true |
| `VariableSlots.IncludedByVariable` | src/vm_runtime.h:1630-1677 | `@include(if: $x)` passes exactly when `x` was provided with a value other than null, false, zero, the empty string and "0" |
| `VariableSlots.SkippedByVariable` | src/vm_runtime.h:1630-1677 | `@skip(if: $x)` passes exactly when it does not |
| `VariableSlots.GuardedBySlot` | src/vm_runtime.h:1494-1535 | with a slot in range the slot decides in that way, whatever the hash holds |
| `VariableSlots.GuardedByLiteral` | src/vm_runtime.h:1655-1677 | a literal guard decides in that way too, lists and objects being true |
| `VariableSlots.GuardsTogether` | src/vm_runtime.h:2238-2263 | a list of guards passes exactly when each of them does alone |
| `VariableSlots.PrepareVariables` | src/vm_runtime.h:5879-6004 | preparation fails exactly when some variable does; otherwise slots and hash hold each definition's coerced, defaulted or omitted value and the undeclared values provided |
| `VariableSlots.ProvidedIsCoerced` | src/vm_runtime.h:5922-5958 | what was provided, null included, is coerced whatever the defaults are, in hash and slot; preparation fails when that is rejected |
| `VariableSlots.DefaultIsTaken` | src/vm_runtime.h:5932-5958 | a variable not provided has its native default as it is, or else its written default coerced |
| `VariableSlots.OmittedIsAbsent` | src/vm_runtime.h:5937-5953 | with neither it is absent from hash and slots, or preparation fails when its type is non-null |
| `VariableSlots.PreparesIff` | src/vm_runtime.h:5879-6004 | preparation succeeds exactly when nothing provided or defaulted is rejected and no non-null variable is without both |
| `VariableSlots.NullIsNotDefaulted` | src/vm_runtime.h:5922-5958 | `query ($n: Int = 5)` prepares null when given null, and 5 when given nothing |
| `VariableSlots.BoundReferenceAgrees` | src/vm_runtime.h:1494-1535 | a reference through its slot gives what lookup by name gives: provided, null, defaulted, omitted or undeclared, with any number of slots |
| `VariableSlots.DeclaredReferenceNeedsNoHash` | src/vm_runtime.h:5879-6004 | slots alone suffice exactly for declared variables and undeclared ones not provided |
| `VariableSlots.GuardsAgree` | src/vm_runtime.h:1630-1677 | guard lists evaluate alike through slots beside the hash and by name |
| `VariableSlots.GuardsAgreeWithoutHash` | src/vm_runtime.h:1630-1677 | through slots alone they do if and only if no guard refers to a provided undeclared variable, or another guard decides, or such references stand under both a skip and an include |
| `VariableSlots.UndeclaredGuardIsLost` | src/vm_runtime.h:1630-1677 | `@include(if: $x)` with `x` undeclared and provided as true passes by name and not through slots alone |
| `VariableSlots.NestedNeedsHash` | src/vm_runtime.h:1568-1627 | a nested value keeps its value through slots alone if and only if it refers to nothing but nulls |
| `VariableSlots.BindKeepsValue` | src/vm_runtime.h:1494-1535 | binding changes the value of no nested dynamic value |
| `PayloadBinding.PayloadNode.BindVariables` | src/vm_runtime.h:1494-1535 | writing the indexes in place, in a tree of nodes, makes its value the bound value; nothing but indexes of that tree is written |
| `VariableSlots.RebuildHash` | lib/GraphQL/Houtou.xs:9325-9383 | the hash rebuilt for a callback holds the slots by name and what was provided besides |
| `VariableSlots.RebuiltHashIsPrepared` | lib/GraphQL/Houtou.xs:9325-9383 | that hash is the prepared hash |
| `ArgumentCoercion.Lookup` | src/vm_runtime.h:1680-1707 | lookup with any hint finds the named argument, or none |
| `ArgumentCoercion.ArgumentIsUnique` | src/vm_runtime.h:1680-1707 | with unique names every hint gives one answer: the linear search |
| `ArgumentCoercion.VariableArgument` | src/vm_runtime.h:6151-6213 | an argument given as a variable has its prepared value; a null one is coerced, and a missing one leaves the argument to its default |
| `ArgumentCoercion.SlotArgument` | src/vm_runtime.h:6165-6213 | so it is through slots, whatever the hash holds |
| `ArgumentCoercion.LiteralArgument` | src/vm_runtime.h:6214-6243 | any other value is coerced with its variables filled in, missing ones as null |
| `ArgumentCoercion.AbsentArgument` | src/vm_runtime.h:6224-6243 | an argument not given has its native default, or else its written default coerced, or none |
| `ArgumentCoercion.NullArgumentIsNotDefaulted` | src/vm_runtime.h:6151-6213 | `field(x: Int = 5)` called as `field(x: $v)`: null stays null, a missing `v` gives 5 |
| `ArgumentCoercion.CoerceArguments` | src/vm_runtime.h:6124-6249 | all arguments: fails exactly when some argument does, and otherwise holds exactly the values of those that have one |
| `ArgumentCoercion.CoerceOneArgument` | src/vm_runtime.h:6026-6121 | the one-argument route gives that argument's value, undefined when it is omitted |
| `ArgumentCoercion.CoerceBothWays` | src/vm_runtime.h:6026-6249 | for a one-argument field both routes fail on the same inputs and give the same value |
| `ArgumentCoercion.SlotsGiveSameArguments` | src/vm_runtime.h:6124-6249 | arguments coerced through slots beside the hash are those coerced by name |
| `ArgumentCoercion.NeedsVariables` | lib/GraphQL/Houtou.xs:9385-9402 | a payload needs the hash exactly when it holds anything but bound references |
| `ArgumentCoercion.CoerceFromSlots` | lib/GraphQL/Houtou.xs:9692-9760 | with slots only, the hash being rebuilt when the payload needs it, the arguments are those coerced by name over the full hash |
| `ArgumentCoercion.SpecializePayload` | src/vm_runtime.h:6271-6358 | ahead-of-time coercion fails exactly when some argument does ahead of time, and otherwise lists the values in definition order |
| `ArgumentCoercion.VariableAhead` | src/vm_runtime.h:6297-6325 | ahead of time an argument given as a variable has the value provided; a null and a missing one are null, coerced |
| `ArgumentCoercion.StoredInOrder` | src/vm_runtime.h:6271-6358 | two values are stored under their arguments' names in the order of the definitions |
| `ArgumentCoercion.ValueRoundTrip` | src/vm_runtime.h:1388-1450 | a value survives being stored in a payload if and only if no boolean, enum or variable is in it |
| `ArgumentCoercion.WhatIsStored` | src/vm_runtime.h:1388-1450 | nulls, numbers and strings come back from a payload as they are; booleans, enums and references to variables come back as null |
| `ArgumentCoercion.ReadBackSettles` | src/vm_runtime.h:1388-1450 | what comes back survives being stored again |
| `ArgumentCoercion.AheadIsGeneralCompleted` | src/vm_runtime.h:6271-6358 | the ahead-of-time outcome is the general one with every unprovided variable taken as null |
| `ArgumentCoercion.AheadOfTimeAgrees` | src/vm_runtime.h:6271-6358 | a specialized payload read back is the hash of the general route, unprovided variables taken as null, if and only if every value is one that survives being stored |
| `ArgumentCoercion.SpecializeBothWays` | src/vm_runtime.h:6271-6358 | over the variables as they are: a whole payload specialized and read back equals the general route's hash if and only if every argument does, an unprovided variable's when null, coerced and stored, is its default |
| `ArgumentCoercion.RoutesDifferOnMissingVariable` | src/vm_runtime.h:6297-6325 | `field(x: Int = 5)` called as `field(x: $v)` without `$v` gets 5 by the general route and null from its specialized payload |
| `Specialization.Block.Compact` | src/vm_runtime.h:5029-5109 | compaction with read and write indexes leaves exactly the specialized surviving operations, in order; every payload stays owned by one operation or is freed |
| `Specialization.Block.Step` | src/vm_runtime.h:6361-6444 | one iteration keeps what is written, what is unread and who owns what |
| `Specialization.Block.MoveDown` | src/vm_runtime.h:5085-5106 | a survivor moves to the write position with its payloads and leaves a cleared cell |
| `Specialization.CompactBlock` | src/vm_runtime.h:6361-6444 | within a program, the other blocks keep their operations and payloads |
| `Specialization.SpecializeProgram` | src/vm_runtime.h:6361-6444 | a pass fails exactly when a kept operation has an argument that is rejected; otherwise it yields the specialized blocks and leaves the tree of running operations unchanged for all variables and depths |
| `Specialization.VariableDecides` | src/vm_runtime.h:5029-5109 | the pass over variables with `x` a boolean keeps an operation under `@include(if: $x)` exactly when it is true and one under `@skip(if: $x)` exactly when it is false |
| `Specialization.ValueDecides` | src/vm_runtime.h:5029-5109 | for any other value it keeps it exactly when `x` is provided and none of null, false, zero, the empty string and "0" |
| `Specialization.LiteralDecides` | src/vm_runtime.h:6361-6444 | the static pass does so for booleans written in the guard |
| `Specialization.StaticPassLeavesRest` | src/vm_runtime.h:6361-6444 | the static pass changes nothing about operations whose guards and arguments depend on variables |
| `Specialization.VariablePassResolves` | src/vm_runtime.h:5029-5109 | after the pass over variables a kept operation has only static guards left, and arguments that depend on no variables where there was anything to coerce |
| `Specialization.StaticPassResolves` | src/vm_runtime.h:6361-6444 | the static pass does so for static guards and arguments |
| `Specialization.PassKeepsVisibility` | src/vm_runtime.h:2238-2263 | an operation dropped by a pass does not run, and a kept one runs under the same variables as before |
| `Specialization.PassKeepsTree` | src/vm_runtime.h:5029-5109 | the tree of operations whose guards pass (order, slots, child blocks) is the same before and after, for the static and for the dynamic pass |
| `Specialization.RunsWhen` | src/vm_runtime.h:2238-2263 | in that tree an operation runs unless it has guards, of either mode, that do not let it through |
| `Specialization.RunsBelow` | src/vm_runtime.h:2238-2263 | and shows what runs in each of its child blocks, in order |
| `SpecializedArguments.CurrentArguments` | lib/GraphQL/Houtou.xs:9691-9771 | what a resolver gets: the stored arguments of a static payload, for any other the arguments coerced by hash and slots |
| `SpecializedArguments.SpecializedArgumentsAgreeIff` | src/vm_runtime.h:6271-6444 | after a pass a resolver gets what the general route gives for the operation if and only if every argument is stored as that route has it |
| `SpecializedArguments.PassKeepsArgumentsIff` | src/vm_runtime.h:5029-5109 | any pass, static or over variables, on any operation it coerces, stored arguments included: what a resolver gets stays the same exactly when every stored argument is reproduced by coercing it again and has no default to fill in, or, of arguments not yet stored, every one is stored as the executor would have coerced it |
| `SpecializedArguments.AnotherPassKeepsIff` | src/vm_runtime.h:5071-5088 | after one pass, a second changes nothing exactly when coercing each stored value, read back, gives a value that reads back alike; arguments not stored stay omitted |
| `SpecializedArguments.AnotherPassAcceptsIff` | src/vm_runtime.h:5071-5088 | the second pass fails exactly when it rejects one of them |
| `SpecializedArguments.TwoPassesAgreeIff` | src/vm_runtime.h:5112-5137 | what a resolver gets after the pass over variables and the pass of the cached bundle is what the general route gives if and only if each value of that route is reproduced by coercing it once more, an unprovided variable when null, coerced twice, is its default |
| `SpecializedArguments.StoredValueIsCoercedAgain` | src/vm_runtime.h:5071-5137 | with coercion of 2 giving 3, `field(x: $v)` with 2 gets 2 by the general route and 3 from the cached bundle |
| `SpecializedArguments.StoredScalarIsGot` | lib/GraphQL/Houtou.xs:9691-9771 | a stored scalar reaches the resolver under its name as it is |
| `NativeValues.NodeHeap.Get` | src/vm_runtime.h:975-988 | a node from the pool or a new one: it looks empty, was in no value, and nothing else changes |
| `NativeValues.NodeHeap.NewScalar` | src/vm_runtime.h:991-1033 | a fresh scalar node |
| `NativeValues.NodeHeap.ObjectStore` | src/vm_runtime.h:1047-1065 | the child is appended under its name, or nothing changes |
| `NativeValues.NodeHeap.ListPush` | src/vm_runtime.h:1068-1090 | the child is appended, or nothing changes; new slots are null |
| `NativeValues.NodeHeap.ListStoreAt` | lib/GraphQL/Houtou.xs:2334-2368 | the child is put at the index, what was there is destroyed, gaps are null |
| `NativeValues.NodeHeap.Destroy` | src/vm_runtime.h:1093-1150 | every node of the value leaves memory or goes to the pool, once, and nothing else changes |
| `NativeValues.NodeHeap.Put` | src/vm_runtime.h:1139-1149 | the pool grows by the node up to its cap; beyond it the node is freed |
| `NativeValues.NodeHeap.Clone` | src/vm_runtime.h:1242-1301 | the copy means the same, in nodes of its own |
| `NativeValues.NodeHeap.Consume` | src/vm_runtime.h:3039-3071 | the result means the same whether the outcome's value is moved or copied; it is moved exactly when this is the only reference |
| `NativeValues.NodeHeap.ReleaseOutcome` | src/vm_runtime.h:2434-2443 | the last reference destroys the value, an earlier one only counts down |
| `NativeValues.AccountedPut` | src/vm_runtime.h:1139-1143 | putting a node on the free list keeps memory accounted for: each node on the list or in a value, once |
| `NativeValues.AccountedTake` | src/vm_runtime.h:975-984 | so does taking one off it |
| `NativeValues.StoredCells` | lib/GraphQL/Houtou.xs:2360-2367 | storing at an index exchanges the nodes of the old item for those of the new one |
| `NativeRuns.Owner.Perform` | src/vm_runtime.h:1047-1301 | each action (building, pushing, storing, copying, dropping, and wrapping, sharing, consuming and releasing outcomes) does to the meanings of handles and outcomes what it would do to immutable trees |
| `NativeRuns.Owner.Run` | src/vm_runtime.h:866-877 | so does every run of actions: neither the pool nor the choice between moving and copying can be observed, and every node is in the pool, in one handle's value or in one outcome's |
| `NativeRuns.StepsOnTrees` | src/vm_runtime.h:1047-1301 | what each step does to trees: new values take the next handle; storing, pushing and replacing move a child, gaps filled with null; copying leaves the source |
| `NativeRuns.StepsThatDoNotFit` | src/vm_runtime.h:1047-1301 | steps on values of another kind, at a negative index or on what has been moved change nothing |
| `NativeRuns.OutcomesOnTrees` | src/vm_runtime.h:3039-3079 | an outcome lasts while there is a reference, and an object that consumes it gets its tree |
| `NativeRuns.HandleTable.Perform` | src/vm_runtime.h:1047-1301 | the steps on handles alone, beside nodes of others that stay as they are |
| `NativeRuns.Owner.PerformConsume` | src/vm_runtime.h:3039-3079 | consuming puts the outcome's tree into the target whatever the count, and empties the outcome only when the reference was the last |
| `PathFrames.FramePool.Take` | src/vm_runtime.h:944-957 | a cleared frame from the pool, or a new one |
| `PathFrames.FramePool.New` | lib/GraphQL/Houtou.xs:1503-1530 | a new frame held once, counted for its parent |
| `PathFrames.FramePool.Share` | src/vm_runtime.h:2554-2586 | one more holder, one more count; no path changes |
| `PathFrames.FramePool.Decref` | src/vm_runtime.h:2787-2810 | the frame survives exactly if it had another reference; otherwise it is recycled and its parent gives up one, up the chain; surviving frames keep their paths |
| `PathFrames.FramePool.Release` | src/vm_runtime.h:2787-2810 | releasing keeps every count equal to holders plus live children |
| `PathFrames.FramePool.ReleaseAll` | src/vm_runtime.h:2617-2645 | clearing pending entries releases each entry's frame |
| `PathFrames.LiveFramesAreHeld` | src/vm_runtime.h:900-906 | every live frame is on the path of some holder |
| `PathFrames.FramePool.CountZeroIffNoneHeld` | src/vm_runtime.h:900-906 | the live counter is zero exactly when nothing is held |
| `PathFrames.NoneLiveIffNoneHeld` | src/vm_runtime.h:900-906 | no frame is live exactly when none is held |
| `ParserCursor.Parser.ParseValue` | src/parser_graphqlperl_runtime.h:591-648 | the direct value parser computes the direct route's function and restores the nesting counter |
| `ParserCursor.Parser.ParseEntries` | src/parser_graphqlperl_runtime.h:558-588 | named values are stored as they come, later ones replacing earlier ones |
| `ParserCursor.Parser.ParseSelection` | src/parser_graphqlperl_runtime.h:778-839 | the direct selection parser computes the direct route's function and restores the nesting counter |
| `ParserCursor.Parser.ParseSelectionSet` | src/parser_graphqlperl_runtime.h:716-736 | selection sets are not empty and count one level of nesting while open |
| `ParserCursor.Parser.IrParseValue` | src/parser_ir_runtime.h:103-188 | the intermediate value parser computes its function |
| `ParserCursor.Parser.IrParseSelection` | src/parser_ir_runtime.h:249-332 | the intermediate selection parser computes its function |
| `ParserCursor.Parser.SelectionThroughIr` | src/parser_ir_runtime.h:784-1251 | parsing, building and converting gives what the direct parser gives, except where only the direct one refuses the nesting |
| `ParserRoutes.ValueRoutesAgree` | src/parser_graphqlperl_runtime.h:591-648 | values, every token stream: the direct route gives the converted form of the intermediate one if its nesting fits the limit, and fails otherwise |
| `ParserRoutes.SelectionRoutesAgree` | src/parser_graphqlperl_runtime.h:739-839 | selections likewise: same tokens consumed, same canonical tree, same failures apart from the limit |
| `ParserRoutes.DirectivesRoutesAgree` | src/parser_graphqlperl_runtime.h:681-698 | directive lists likewise |
| `ParserRoutes.ArgumentsRoutesAgree` | src/parser_graphqlperl_runtime.h:651-678 | argument lists likewise; no parentheses give no hash |
| `ParserRoutes.WrittenSelectionParses` | src/parser_graphqlperl_runtime.h:739-839 | a selection written out is parsed to its canonical form, consuming exactly what was written, if it nests at most 512 levels, and refused otherwise |
| `ParserRoutes.WrittenValueParses` | src/parser_graphqlperl_runtime.h:539-648 | the same for values |
| `ParsedTokens.TokensAreRead` | src/parser_graphqlperl_runtime.h:591-648 | `true`, `false` and `null` are booleans and null, other names are enums, numbers and strings what their tokens say |
| `ParsedTokens.VariablesAreRead` | src/parser_graphqlperl_runtime.h:591-648 | variables are read except in constants, and no other token starts a value |
| `ParsedTokens.ObjectIsRead` | src/parser_graphqlperl_runtime.h:558-588 | `{x: 1}` is an object of one field |
| `ParsedTokens.BareFieldIsRead` | src/parser_graphqlperl_runtime.h:778-839 | `b` has no alias, and `a: b` is the field b with the alias a |
| `ParsedTokens.ArgumentIsRead` | src/parser_graphqlperl_runtime.h:651-678 | `b(x: 1)` keeps its argument |
| `ParsedTokens.DirectedFieldIsRead` | src/parser_graphqlperl_runtime.h:681-698 | `b @d` keeps its directive |
| `ParsedTokens.NestedFieldIsRead` | src/parser_graphqlperl_runtime.h:716-839 | `b { c }` keeps what is selected below it |
| `ParsedTokens.SpreadIsRead` | src/parser_graphqlperl_runtime.h:739-775 | `...F` is a spread unless F is `on` |
| `ParsedTokens.InlineFragmentIsRead` | src/parser_graphqlperl_runtime.h:739-775 | `... on T { c }` and `... { c }` are inline fragments with and without a type |
| `ParsedTokens.EmptySetsAreRefused` | src/parser_graphqlperl_runtime.h:651-736 | empty selection sets and argument lists are refused |
| `ParsedTokens.ListsNestAtMost512` | src/bootstrap.h:80 | the direct route reads 512 lists in one another and not 513, the intermediate route any number |
| `ParsedTokens.SetsNestAtMost512` | src/bootstrap.h:80 | and so for selection sets |
| `ParserRoutes.DirectAcceptsExactlyTheGrammar` | src/parser_graphqlperl_runtime.h:739-839 | what the direct parser accepts is the writing of some tree, which it returns in canonical form |
| `Grammar.SelectionReads` | src/parser_ir_runtime.h:249-332 | a tree written out is parsed back to itself |
| `Grammar.SelectionWasWritten` | src/parser_ir_runtime.h:249-332 | whatever is accepted is the writing of the tree returned, followed by the tokens left |
| `Grammar.ValueReads` | src/parser_ir_runtime.h:103-188 | a value written out is parsed back to itself |
| `Grammar.ValueWasWritten` | src/parser_ir_runtime.h:103-188 | an accepted value is the writing of what is returned |
| `CanonicalForm.LastEntryWins` | src/parser_ir_runtime.h:1068-1122 | of several arguments or fields of one name the last one counts |
| `TypeReferences.TypeParser.ParseTypeReference` | src/parser_graphqlperl_runtime.h:894-909 | the parser computes the type reference function |
| `TypeReferences.ReferenceReads` | src/parser_graphqlperl_runtime.h:894-909 | every type without a non-null directly inside a non-null, written out, is parsed back to itself |
| `TypeReferences.ReferenceWasWritten` | src/parser_graphqlperl_runtime.h:894-909 | what is accepted is the writing of such a type |
| `TypeReferences.DoubledBangIsNotRead` | src/parser_graphqlperl_runtime.h:894-909 | a second exclamation mark is left unread |
| `ParsedTokens.TypesAreRead` | src/parser_graphqlperl_runtime.h:894-909 | `T`, `T!`, `[T]` and `[T!]!` |
| `Locations.LineTable` | src/parser_graphqlperl_runtime.h:382-398 | the table is strictly increasing from 0 and holds the end of each LF, CR or CRLF once |
| `Locations.LineCountsBreaks` | src/parser_graphqlperl_runtime.h:411-443 | the line index of a position is the number of line breaks before it |
| `Locations.SearchLine` | src/parser_graphqlperl_runtime.h:427-439 | binary search finds the line that contains the position |
| `Locations.LineAndColumn` | src/parser_graphqlperl_runtime.h:412-443 | the lookup without memory, columns from 0 or 1 |
| `Locations.LocationContext.Locate` | src/parser_ast_runtime.h:381-436 | the remembered line, the forward scan and the search each give the right line and column |
| `Locations.LocateAll` | src/parser_ast_runtime.h:381-437 | any sequence of queries is answered as without memory |
| `Locations.LinesStart` | src/parser_graphqlperl_runtime.h:382-398 | lines start at 0, after each LF and after each CR that no LF follows, and nowhere else |
| `Locations.SecondLetterOfSecondLine` | src/parser_ast_runtime.h:381-436 | in two lines of two letters the last letter is at line 2, column 2, or column 1 counted from 0 |
| `StringEscapes.ParseHex4` | src/parser_core.h:125-144 | four digits of either case give their number, anything else fails |
| `StringEscapes.UnescapeString` | src/parser_core.h:49-122 | the buffer written is the unescaped string, never longer than the input, and is marked UTF-8 exactly when the input was or a Unicode escape occurred |
| `StringEscapes.TakeStep` | src/parser_core.h:62-113 | the index arithmetic of one step takes exactly the bytes of one character or escape |
| `StringEscapes.LexedStringsUnescape` | src/parser_graphqlperl_runtime.h:155-198 | a string the lexer accepts is never refused by unescaping |
| `EscapesByByte.LexedFirst` | src/parser_graphqlperl_runtime.h:155-198 | what the lexer lets stand next between quotes: no quote, no control character, and after a backslash one of the eight letters, a zero byte, or u and four hexadecimal digits |
| `EscapesByByte.ShortEscapesRead` | src/parser_core.h:62-72 | the eight short escapes stand for quote, backslash, slash, backspace, form feed, line feed, carriage return and tab |
| `EscapesByByte.OthersStand` | src/parser_core.h:62-117 | a backslash before any other letter but u, and any byte that is no backslash, stands for itself |
| `EscapesByByte.HexDigitsRead` | src/parser_core.h:125-144 | the value of each byte as a hexadecimal digit |
| `EscapesByByte.UnicodeEscapesRead` | src/parser_core.h:73-104 | escapes of one, two and three bytes, and a surrogate pair of four |
| `EscapesByByte.Utf8Reads` | src/parser_core.h:77-101 | the bytes put out for a code point are its UTF-8: they encode that number |
| `EscapesByByte.Utf8Shape` | src/parser_core.h:77-101 | in the lengths and byte ranges of section 3 of RFC 3629 |
| `EscapeRoundTrip.EscapedTextUnescapes` | src/parser_core.h:48-121 | any writing of Unicode scalars, raw, by short escape, by `\u` escape or surrogate pair, is accepted and gives their UTF-8 bytes |
| `EscapeRoundTrip.ByteTextUnescapesIffAscii` | src/parser_core.h:56-118 | in source text of one byte a character, a string with a Unicode escape gives UTF-8 exactly when nothing beyond ASCII is written raw in it |
| `SurrogateEscapes.UnescapedIsUtf8IffPaired` | src/parser_core.h:49-122 | an accepted string unescapes to the UTF-8 of some text if and only if every surrogate escape in it is half of a pair |
| `EscapeRoundTrip.LoneSurrogateIsNotUtf8` | src/parser_core.h:77-106 | a string that is one unpaired surrogate escape is accepted and gives three bytes that are the UTF-8 of no text |

## Left out

- MergeValidation.MergeValidator.ValidateFieldMerging: says nothing where the recursion does not end. For that a sufficient condition on fragments is given, with a fragment that ends and one that does not on the other side of it; no condition on fragments alone is exact, since the same fragment ends over one schema and not over another (MergeTermination.RingEndsUntyped, MergeTermination.RingNeverEnds).
- SelectionWalk.SelectionValidator.ValidateSelections: checks of arguments and variables are not modelled, nor the second visit to fragment bodies, which keeps only errors about variables.
- MergedExecution.MergingDocumentsAreUnambiguous: speaks of types, not of resolved values.
- Usage.CollectOperation: a `name` entry that holds a reference, which the original turns into a string with the reference's address, is not modelled.
- NativeValues.NodeHeap.ReleaseOutcome: the error records of an outcome and the pool of outcomes are not modelled.
- PathFrames.FramePool.ReleaseAll: of pending entries only the path frames are released, not their payloads.
- EscapeRoundTrip.ByteTextUnescapesIffAscii: covers texts of whole scalars; byte text with unpaired surrogate escapes is outside it.
- Specialization.SpecializeProgram: says nothing about the state after a failed coercion, which ends the request.
- Specialization.Block.Compact: owns guards and arguments; the tables of an operation's abstract children, which the static pass leaves in memory when it drops the operation and the pass per request frees, are plain sequences.
- NativeValues.NodeHeap.ObjectStore: whether a name is borrowed or copied, and the release of names, is not modelled; what enlarged object arrays hold beyond the count is left open as in the original.
- PathFrames.FramePool.New: the storage of key strings is not modelled.
- ParserCursor.Parser.ParseValue: works on tokens; the scanning of names, numbers and punctuation, the token count limit and the list of duplicate-name diagnostics are not modelled.
- Locations.LocationContext.Locate: takes original positions; the table that would map rewritten positions to original ones is never filled, so that every position is an original one.
- Operation and variable definitions and schema documents in the parser; the intermediate route's type references, which repeat the direct route's.
- Source locations inside canonical trees and all error message texts.
- The order in which hash keys are visited: error lists that depend on it are stated for any order.
- Object types named by possible-type lists are taken as the schema compiler emits them.
- Abstract type resolution, leaf serialization and every call into Perl.
- The asynchronous scheduler, the executors and the batching loader.
- The compact program descriptor, whose payloads are stored without variables.
- Literal-category checks, directive-list checks and subscription checks: case analysis over foreign data.
- Teardown of programs, bundles and runtimes, block frames and error records.
