# StringWithMacrosTypeCoercer, modelled in Dafny

This project models the coercer that turns a raw build-rule attribute into a
*string with macros*. A string with macros is an ordered list of parts, and
each part is either literal text or a macro container. A macro container is a
typed macro value plus an output-to-file flag.

The model covers these operations of the coercer:

- `tryParseFast`: the fast path for strings without `$`;
- `parse`: the loop over the macro scanner's matches, with its gap,
  escape and trailing-text literals, the `@` prefix, the name and class
  lookups, the per-macro coercer call and every failure on the way;
- `coerce`: accepts only a string;
- `concat`, `mergeStringParts` and `addStringToParts`: flatten several
  values and merge adjacent literal text;
- `traverse`: hands each macro to its coercer, and through it to a visitor;
- `hasElementClass`;
- the two-map registry: its constructor check, `Builder.put` and
  `Builder.build`.

Modules, one per file:

- `Wrappers` (`wrappers.dfy`): `Option` and `Result`.
- `Macros` (`macros.dfy`): the value model and the contract of a
  per-macro coercer. It also holds `MacroContainers`, the macros of a part
  list in order, and `Segments`, the literal text between each two macros.
- `MacroRegistry` (`registry.dfy`): the frozen registry, the private
  constructor, and the `Builder` class, whose `Put` appends to its fields.
- `MacroParsing` (`parse.dfy`): `TryParseFast` and the specification
  function `PartsFrom` of the general path. `Parse` is the imperative loop,
  proved equal to that specification; `Coerce` wraps it.
- `ParsingProperties` (`parse_props.dfy`): what a parse returns and how it
  fails.
- `MacroConcat` (`concat.dfy`): `Merge` as a specification, the imperative
  `MergeStringParts` and `Concat`, and the canonical-form, content,
  uniqueness and associativity lemmas.
- `MacroTraversal` (`traverse.dfy`): the imperative `Traverse` over a
  visitor object (class `Traversal`) and `HasElementClass`.
- `MacroExamples` (`examples.dfy`): worked inputs.

Three behaviours of the code that the model makes explicit:

- **Adjacent literals after parsing.** `parse` does not merge an escaped
  span with the text before it. For example, `a$$(x)` gives the two
  literals `a` and `$(x)` (`MacroExamples.AdjacentLiteralsExample`). They
  become one literal only once the parts are merged
  (`MacroExamples.EscapedRoundTrip`). The model states the canonical form
  for `concat` only.
- **The empty string.** The fast path gives one empty literal,
  `[Literal("")]`, for the empty string. The general path would give no
  parts (`ParsingProperties.FastPathAgreesWithGeneralPath`).
- **The constructor check.** On its own, the check is one-sided: it
  requires only that coercer classes be registered macro classes. A
  registry with a class but no coercer passes it, and `parse` would then
  fail on the null check of the coercer lookup
  (`ParsingProperties.ConstructorCheckIsOneSided`). The constructor is
  private, though, and only `build()` calls it. Each `put` adds one name
  and one coercer, so a successful `build()` always gives a complete
  registry: every registered class has exactly one coercer
  (`MacroRegistry.BuildComplete`). So `CompleteRegistryFindsCoercers`
  covers every registry the program builds
  (`ParsingProperties.BuiltRegistryFindsCoercers`).

## Model

| member | source | states |
|---|---|---|
| MacroParsing.TryParseFast | src/com/facebook/buck/rules/coercer/StringWithMacrosTypeCoercer.java:115-121 | The fast path succeeds exactly when the blob has no `$`, and then returns one literal equal to the blob. |
| MacroParsing.SplitMacroType | src/com/facebook/buck/rules/coercer/StringWithMacrosTypeCoercer.java:160-169 | The output-to-file flag is set exactly when the macro type starts with `@`. The name looked up is the type with that one `@` removed. |
| MacroParsing.ExpandMacro | src/com/facebook/buck/rules/coercer/StringWithMacrosTypeCoercer.java:158-200 | An unregistered name fails with UnknownMacro, carrying the macro type as written and the span `blob[start..end)`, in both directions. A class without a coercer fails with MissingCoercer. A coercer failure becomes ExpansionFailed with the span and the original error as the cause. Otherwise the result is a container with the coercer's value and the `@` flag. |
| MacroParsing.Gap | src/com/facebook/buck/rules/coercer/StringWithMacrosTypeCoercer.java:146-148 | The text between the cursor and the next position becomes a literal only when it is non-empty. Its literal text is exactly that slice, and it holds no macro. |
| MacroParsing.Parse | src/com/facebook/buck/rules/coercer/StringWithMacrosTypeCoercer.java:123-212 | The loop returns the fast-path value when there is no `$`, and otherwise what the specification `PartsFrom` gives. That covers, in order, every gap literal, escaped literal and macro part, the trailing literal, the first failure, and the scanner's own failure. |
| MacroParsing.ExpandMatch | src/com/facebook/buck/rules/coercer/StringWithMacrosTypeCoercer.java:158-200 | The imperative expansion of one match equals `ExpandMacro`. |
| MacroParsing.Coerce | src/com/facebook/buck/rules/coercer/StringWithMacrosTypeCoercer.java:214-233 | A non-string value fails with NotAString. A string gives exactly the parse result. |
| ParsingProperties.FastPathAgreesWithGeneralPath | src/com/facebook/buck/rules/coercer/StringWithMacrosTypeCoercer.java:132-135 | On a blob without `$`, the scanner finds no match, and the general path gives the fast path's single literal. The empty blob is the exception: there the general path gives no parts. |
| ParsingProperties.AllEscapedParse | src/com/facebook/buck/rules/coercer/StringWithMacrosTypeCoercer.java:146-156 | When every match is an escape, the parse succeeds with literal parts only. Their concatenated text is the blob with the character at each match start removed. |
| ParsingProperties.ExpandEach | src/com/facebook/buck/rules/coercer/StringWithMacrosTypeCoercer.java:158-200 | The expansions of a list of matches succeed exactly when each one does, and then give one container per match, in order. |
| ParsingProperties.MacroPartsFollowMatches | src/com/facebook/buck/rules/coercer/StringWithMacrosTypeCoercer.java:140-203 | The macro parts of a parse are the expansions of the non-escaped matches: as many, in the same order. The parse fails exactly when one of them fails, with the first such failure, or when the scanner does. |
| ParsingProperties.FirstFailingMatchDecides | src/com/facebook/buck/rules/coercer/StringWithMacrosTypeCoercer.java:171-198 | The first non-escaped match whose expansion fails decides the parse's failure. |
| ParsingProperties.CompleteRegistryFindsCoercers | src/com/facebook/buck/rules/coercer/StringWithMacrosTypeCoercer.java:178-179 | When every registered class has a coercer, parsing never fails on the null check of the coercer lookup. |
| ParsingProperties.ConstructorCheckIsOneSided | src/com/facebook/buck/rules/coercer/StringWithMacrosTypeCoercer.java:57-58 | Some registry passes the constructor check and is valid, yet its parse of `$(x)` fails with MissingCoercer. |
| ParsingProperties.BuiltRegistryFindsCoercers | src/com/facebook/buck/rules/coercer/StringWithMacrosTypeCoercer.java:178-179 | Parsing against any registry a builder builds never fails on the null check of the coercer lookup. |
| MacroRegistry.UniqueMap | src/com/facebook/buck/rules/coercer/StringWithMacrosTypeCoercer.java:288-291 | Building a map from pairs succeeds exactly when no key repeats. Its keys are then the pairs' keys, and each key maps to its pair's value. |
| MacroRegistry.Create | src/com/facebook/buck/rules/coercer/StringWithMacrosTypeCoercer.java:51-61 | The constructor succeeds exactly when the coercer classes are a subset of the macro classes, and then keeps both maps. |
| MacroRegistry.Builder.constructor | src/com/facebook/buck/rules/coercer/StringWithMacrosTypeCoercer.java:275-279 | A new builder has no registrations, and its two lists have the same length. |
| MacroRegistry.Builder.Put | src/com/facebook/buck/rules/coercer/StringWithMacrosTypeCoercer.java:281-286 | Appends the name and class, and the coercer, to the builder's two lists, and returns the same builder. The two lists keep the same length. |
| MacroRegistry.Builder.Build | src/com/facebook/buck/rules/coercer/StringWithMacrosTypeCoercer.java:288-292 | Each of these holds in both directions: a repeated name fails with DuplicateMacroName; otherwise a repeated output class fails with DuplicateCoercerClass; success requires distinct names, distinct output classes and every output class registered. On success the registry is valid, with each name mapped to its class and each output class mapped to its coercer. |
| MacroRegistry.BuildComplete | src/com/facebook/buck/rules/coercer/StringWithMacrosTypeCoercer.java:281-291 | A successful `build()` of a builder gives a registry whose macro classes are exactly its coercer classes, so every registered class has a coercer. This holds because each `put` adds one name and one coercer. |
| MacroConcat.AddStringToParts | src/com/facebook/buck/rules/coercer/StringWithMacrosTypeCoercer.java:264-270 | Pending text becomes one literal only when it is non-empty, and is cleared. |
| MacroConcat.MergeStringParts | src/com/facebook/buck/rules/coercer/StringWithMacrosTypeCoercer.java:243-262 | The loop returns `Merge` of its input. The result is canonical (no empty literal, no literal followed by a literal) and keeps the macros and the text between them. |
| MacroConcat.Concat | src/com/facebook/buck/rules/coercer/StringWithMacrosTypeCoercer.java:235-241 | The result is the merge of all parts in order. It is canonical and has the macros and segments of the flattened inputs. |
| MacroConcat.MergeCanonical | src/com/facebook/buck/rules/coercer/StringWithMacrosTypeCoercer.java:244-270 | A merged list never has an empty literal, and never has two adjacent literals. |
| MacroConcat.MergeKeepsContent | src/com/facebook/buck/rules/coercer/StringWithMacrosTypeCoercer.java:248-258 | Merging keeps the macro subsequence, and the concatenated literal text between each two successive macros. |
| MacroConcat.CanonicalUnique | src/com/facebook/buck/rules/coercer/StringWithMacrosTypeCoercer.java:244-270 | Two canonical lists with the same macros and segments are equal. |
| MacroConcat.MergeCharacterised | src/com/facebook/buck/rules/coercer/StringWithMacrosTypeCoercer.java:244-270 | A list is the merge of `ps` exactly when it is canonical and has the macros and segments of `ps`. |
| MacroConcat.MergeIdempotent | src/com/facebook/buck/rules/coercer/StringWithMacrosTypeCoercer.java:244-270 | Merging a canonical list returns it unchanged, so merging twice is merging once. |
| MacroConcat.SegmentsAppend | src/com/facebook/buck/rules/coercer/StringWithMacrosTypeCoercer.java:236-238 | The segments of `x + y` are those of `x` then `y`, with the last segment of `x` joined to the first of `y`. |
| MacroConcat.ConcatNested | src/com/facebook/buck/rules/coercer/StringWithMacrosTypeCoercer.java:235-241 | A concat nested anywhere in a concat's inputs may be flattened into them. |
| MacroConcat.ConcatAssociative | src/com/facebook/buck/rules/coercer/StringWithMacrosTypeCoercer.java:235-241 | `concat([concat([a, b]), c]) == concat([a, b, c])`. |
| MacroConcat.MergeAllLiterals | src/com/facebook/buck/rules/coercer/StringWithMacrosTypeCoercer.java:250-260 | A list of literals merges into one literal holding all its text, or into nothing when that text is empty. |
| MacroTraversal.Traversal.Visit | src/com/facebook/buck/rules/coercer/StringWithMacrosTypeCoercer.java:84-90 | The visitor records the object it is shown, after those it saw before. |
| MacroTraversal.Traverse | src/com/facebook/buck/rules/coercer/StringWithMacrosTypeCoercer.java:84-100 | For each macro container, in part order, the coercer of its class shows its objects to the visitor, once per container. The run stops at the first class without a coercer (the null check) or failing cast. Visits made before that stay made. |
| MacroTraversal.VisitsFailure | src/com/facebook/buck/rules/coercer/StringWithMacrosTypeCoercer.java:92-100 | Traversal fails exactly when some macro's class has no coercer or is not that coercer's output class. On a valid registry, only the missing-coercer failure can happen. |
| MacroTraversal.VisitsAppend | src/com/facebook/buck/rules/coercer/StringWithMacrosTypeCoercer.java:95-99 | Traversing two macro lists in turn is traversing the first, then, unless that failed, the second. |
| MacroTraversal.TraverseConcat | src/com/facebook/buck/rules/coercer/StringWithMacrosTypeCoercer.java:235-241 | Traversing `concat([a, b])` traverses `a`, then, unless that failed, `b`. |
| MacroTraversal.ParsedValuesTraverse | src/com/facebook/buck/rules/coercer/StringWithMacrosTypeCoercer.java:92-100 | With a valid registry whose coercers return values of their own class, every value that parses traverses without failure. |
| MacroTraversal.HasElementClass | src/com/facebook/buck/rules/coercer/StringWithMacrosTypeCoercer.java:73-82 | True exactly when some registered coercer answers true for the given classes. |
| MacroExamples.UnknownMacroExample | src/com/facebook/buck/rules/coercer/StringWithMacrosTypeCoercer.java:171-177 | `$(nosuchmacro arg)` with that name unregistered fails with UnknownMacro, naming `nosuchmacro` and the whole span. |
| MacroExamples.EscapedInvocationExample | src/com/facebook/buck/rules/coercer/StringWithMacrosTypeCoercer.java:150-156 | `$$(env FOO)` under any registry is the single literal `$(env FOO)`. |
| MacroExamples.OutputToFileExample | src/com/facebook/buck/rules/coercer/StringWithMacrosTypeCoercer.java:160-200 | With `location` registered, `$(@location //:target)` is one macro part. Its output-to-file flag is set, and it holds the coercer's value for `//:target`. |
| MacroExamples.AdjacentLiteralsExample | src/com/facebook/buck/rules/coercer/StringWithMacrosTypeCoercer.java:146-156 | `a$$(x)` parses to the two adjacent literals `a` and `$(x)`, which is not canonical. |
| MacroExamples.AdjacentLiteralsMerged | src/com/facebook/buck/rules/coercer/StringWithMacrosTypeCoercer.java:250-260 | Merging those two literals gives the single literal `a$(x)`. |
| MacroExamples.EscapedRoundTrip | src/com/facebook/buck/rules/coercer/StringWithMacrosTypeCoercer.java:146-156 | When every match is an escape, the parse, once merged, is one literal: the input with each escaping `$` removed. It is nothing when that text is empty. |

## Left out

- `CxxPythonExtensionDescription` is not part of this model. It is build-graph and toolchain plumbing that only calls into the coercer.
- The macro scanner (`MacroFinderAutomaton`) is not modelled. Its output is an input, `Scan`. The model requires its matches to be in order and not to overlap (`WellFormed`). Some lemmas also require each match to start at a `$` (`StartsAtDollar`). A scanner failure on malformed syntax is modelled as raised once the listed matches have been consumed.
- The per-macro coercers are values of `MacroTypeCoercer`, and their coercion, traversal and `hasElementClass` are function-valued fields. Their own bodies live outside this class.
- Reflection is replaced by explicit class tags. This covers `Class.cast` in the private `traverse`, which becomes a tag-equality check that ignores subclassing, and the `TypeToken`s of `getOutputType` and `getUnconfiguredType`.
- `coerceToUnconfigured` returns its argument unchanged and is not modelled.
- The cell-name resolver, filesystem, path and target configurations are one opaque `Context` value, and the traversal sees the cell roots as a string.
- The text of the error messages is not modelled. Errors are datatype variants carrying the macro type, the span and the cause.
- `StringWithMacros.of` and `ofConstantString` are not part of this model. The first is taken to wrap its parts unchanged; the second is taken to give one literal.
- `HasElementClass` visits the coercers in an arbitrary order, not the map's insertion order. The answer does not depend on the order, because each coercer's answer is a pure function.
- Mutation of the Java builders (`ImmutableList.Builder`, `StringBuilder`) is modelled with sequence-valued variables and fields. Concurrency is not modelled.
