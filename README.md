# attrfilter — a verified model of Buck's attribute-filter query function

Buck's target-query language lets a caller select build targets by composing
query functions. `attrfilter(attribute, value, expr)` evaluates `expr` to a
set of targets and keeps those whose attribute `attribute` holds, somewhere
inside its possibly nested value, a non-container value whose string form is
exactly `value`. The attribute name is written in lower_underscore form in the
query (`compiler_flags`) and is converted to the internal lowerCamel key
(`compilerFlags`) before the lookup.

The model has three modules:

- `QueryEnvironment` (`query_environment.dfy`): targets, arguments and their
  accessors, errors, attribute values (`Scalar`, `Sequence`, `Mapping`,
  recursively), Java-style string rendering, and the environment's
  `FilterAttributeContents`. The environment is not part of this model's
  sources. Its traversal is therefore an assumed contract. It offers every
  sub-value to the predicate: the value itself, each collection element, and
  each mapping key and value, recursively. It returns the sub-values that the
  predicate accepts. A target or attribute that is not declared yields no
  contents.
- `CaseFormat` (`case_format.dfy`): Guava's lower_underscore to lowerCamel
  conversion on ASCII text, and its reverse as a partner. The name is split at
  every `_`. The first word is lower-cased. Each later word gets an upper-case
  first character and lower-case rest.
- `AttrFilterFunction` (`attr_filter_function.dfy`): the function's
  descriptor, argument reading, the leaf predicate, the specification
  `Selected` of the result, and `Eval`. `Eval` is a method with the source's
  loop. It is proved equal to `Selected` and to have that function's
  properties.

The sub-expression evaluator is a parameter of `Eval`. It is a total function
from expressions to either a target sequence or an error. The evaluated target
set and the result are sequences, because Guava's `ImmutableSet` keeps
insertion order. `ImmutableSet.Builder.add` is modelled by `BuilderAdd`: a
target already present is ignored, and a new one is appended.

Three points about the program that the model makes explicit:

- The result keeps first-insertion order, because the code builds an
  `ImmutableSet`. The model states and proves that order.
- Only `_` separates words in the attribute name, so `-` stays inside a word.
- Argument count and types are checked by the parser before `eval` is called;
  the parser is not part of this model. `eval` itself reads the last argument
  as the expression, then argument 0 and argument 1 as words. In the model a
  missing argument or one of the wrong variant is returned as an error result;
  see "Left out" for how those failures relate to the Java code.

## Model

| member | source | states |
|---|---|---|
| `AttrFilterFunction.SignatureIsConsistent` | src/com/facebook/buck/query/AttrFilterFunction.java:37-55 | the function is named `attrfilter`, takes exactly 3 mandatory arguments typed word, word, expression, and the last declared argument is the expression |
| `AttrFilterFunction.GetName` | src/com/facebook/buck/query/AttrFilterFunction.java:42-45 | the function is called `attrfilter`, a single lower-case word |
| `AttrFilterFunction.GetMandatoryArguments` | src/com/facebook/buck/query/AttrFilterFunction.java:47-50 | every declared argument is mandatory: the count equals the number of declared argument types |
| `AttrFilterFunction.GetArgumentTypes` | src/com/facebook/buck/query/AttrFilterFunction.java:37-38 | three arguments: all but the last are words and the last is an expression |
| `AttrFilterFunction.ReadArguments` | src/com/facebook/buck/query/AttrFilterFunction.java:61-64 | reading succeeds exactly when there are at least two arguments, the last is an expression and the first two are words; the attribute is argument 0 converted to lowerCamel, the value is argument 1, the expression is the last argument; an empty list or a non-expression last argument gives the corresponding error |
| `AttrFilterFunction.SignatureArgumentsAreRead` | src/com/facebook/buck/query/AttrFilterFunction.java:37-64 | every argument list that matches the declared signature is read successfully, with the attribute from argument 0, the value from argument 1 and the expression from argument 2 |
| `AttrFilterFunction.MissingExpressionRejected` | src/com/facebook/buck/query/AttrFilterFunction.java:61 | `attrfilter(x, y)` is rejected with a type mismatch, because its last argument is a word where an expression is expected |
| `AttrFilterFunction.LeafPredicate` | src/com/facebook/buck/query/AttrFilterFunction.java:69-72 | the predicate accepts a value exactly when it is the scalar whose text is the given value |
| `AttrFilterFunction.PredicateFor` | src/com/facebook/buck/query/AttrFilterFunction.java:69-72 | the predicate handed to the environment accepts an input exactly when it is the scalar whose text is the value |
| `AttrFilterFunction.ContainersNeverMatch` | src/com/facebook/buck/query/AttrFilterFunction.java:65-71 | a sequence or mapping is rejected for every value, including a value equal to its own string form |
| `AttrFilterFunction.ScalarsMatchExactly` | src/com/facebook/buck/query/AttrFilterFunction.java:72 | comparison is exact: a different letter case or a leading space does not match, and `[PUBLIC]` does not match the list `[PUBLIC]` |
| `AttrFilterFunction.MatchingContents` | src/com/facebook/buck/query/AttrFilterFunction.java:76 | the environment's matching contents for a target are either empty or exactly the scalar equal to the value, and are non-empty exactly when the attribute is declared and that scalar is reached by the traversal |
| `AttrFilterFunction.TargetMatches` | src/com/facebook/buck/query/AttrFilterFunction.java:76-77 | a target is kept exactly when it declares the attribute and the traversal of its value reaches the scalar equal to the value |
| `AttrFilterFunction.ScalarReachableIffLeafText` | src/com/facebook/buck/query/AttrFilterFunction.java:65-68 | the traversal reaches a scalar with text `s` exactly when `s` is the text of some scalar leaf anywhere inside the value |
| `AttrFilterFunction.TargetMatchesIffLeafText` | src/com/facebook/buck/query/AttrFilterFunction.java:75-77 | a target is kept exactly when it declares the attribute and the value is the text of some scalar leaf anywhere inside the attribute's value |
| `AttrFilterFunction.MatchInsideSequence` | src/com/facebook/buck/query/AttrFilterFunction.java:65-77 | a target whose attribute is a collection is kept when any element contains a leaf equal to the value |
| `AttrFilterFunction.MatchInsideMapping` | src/com/facebook/buck/query/AttrFilterFunction.java:65-77 | a target whose attribute is a mapping is kept when any key or value contains a leaf equal to the value |
| `AttrFilterFunction.EmptySequenceNeverMatches` | src/com/facebook/buck/query/AttrFilterFunction.java:65-79 | a target whose attribute is an empty list is not kept, whatever the value |
| `AttrFilterFunction.MissingAttributeNeverMatches` | src/com/facebook/buck/query/AttrFilterFunction.java:76-79 | a target that does not declare the attribute is not kept |
| `AttrFilterFunction.BuilderAdd` | src/com/facebook/buck/query/AttrFilterFunction.java:74-78 | adding to the result builder keeps what was there as a prefix, adds exactly the new target, and never creates a duplicate |
| `AttrFilterFunction.Selected` | src/com/facebook/buck/query/AttrFilterFunction.java:74-81 | the result is never longer than the evaluated input |
| `AttrFilterFunction.SelectedStep` | src/com/facebook/buck/query/AttrFilterFunction.java:75-79 | one loop iteration: the result for the first `i + 1` targets is the result for the first `i` with target `i` added to the builder when its matching contents are non-empty, and unchanged otherwise |
| `AttrFilterFunction.SelectedMembers` | src/com/facebook/buck/query/AttrFilterFunction.java:74-81 | a target is in the result exactly when it is in the evaluated input and matches; no new target is introduced |
| `AttrFilterFunction.SelectedDistinct` | src/com/facebook/buck/query/AttrFilterFunction.java:74-81 | the result holds no target twice, even when the input repeats one |
| `AttrFilterFunction.SelectedGrowsByAppending` | src/com/facebook/buck/query/AttrFilterFunction.java:74-81 | the result for any prefix of the input is a prefix of the result: the result only grows by appending |
| `AttrFilterFunction.SelectedKeepsFirstOccurrenceOrder` | src/com/facebook/buck/query/AttrFilterFunction.java:74-81 | the kept targets appear in the order of their first occurrence in the evaluated input |
| `AttrFilterFunction.SelectedKeepsMatchingInput` | src/com/facebook/buck/query/AttrFilterFunction.java:74-81 | on a duplicate-free input whose targets all match, the result is the input unchanged |
| `AttrFilterFunction.SelectedIdempotent` | src/com/facebook/buck/query/AttrFilterFunction.java:74-81 | filtering the result again on the same attribute and value gives the same result |
| `AttrFilterFunction.Eval` | src/com/facebook/buck/query/AttrFilterFunction.java:57-82 | an argument error or an evaluation error is returned unchanged; otherwise the result equals `Selected` of the evaluated targets, has no duplicates, holds exactly the evaluated targets that match, and keeps their first-occurrence order |
| `AttrFilterFunction.EmptyFlagsScenario` | src/com/facebook/buck/query/AttrFilterFunction.java:62-81 | `attrfilter(compiler_flags, -noassert, //:x)` with `compilerFlags = []` on `//:x` keeps nothing |
| `AttrFilterFunction.NestedDepsScenario` | src/com/facebook/buck/query/AttrFilterFunction.java:65-81 | with `deps = {"main": ["//:a"], "test": ["//:b"]}` on `//:x`, `attrfilter(deps, //:a, //:x)` keeps `//:x`; the match is found through the mapping and the inner list |
| `CaseFormat.Words` | src/com/facebook/buck/query/AttrFilterFunction.java:62 | splitting a name at `_` gives at least one word, no word contains `_`, and joining the words with `_` gives the name back |
| `CaseFormat.ToLowerCamel` | src/com/facebook/buck/query/AttrFilterFunction.java:62 | the attribute key never contains `_`, whatever the name written in the query |
| `CaseFormat.SingleWordIsLowerCased` | src/com/facebook/buck/query/AttrFilterFunction.java:62 | a name without `_` is a single word and is only lower-cased |
| `CaseFormat.TwoWordName` | src/com/facebook/buck/query/AttrFilterFunction.java:62 | `a_b` converts to `a` lower-cased followed by `b` with its first character upper-cased and the rest lower-cased |
| `CaseFormat.LowerCamelRoundTrip` | src/com/facebook/buck/query/AttrFilterFunction.java:62 | converting a well-formed lower_underscore name to lowerCamel and back to lower_underscore gives the original name |
| `CaseFormat.LowerCamelInjective` | src/com/facebook/buck/query/AttrFilterFunction.java:62 | two distinct well-formed lower_underscore names never convert to the same attribute key |
| `CaseFormat.CompilerFlagsExample` | src/com/facebook/buck/query/AttrFilterFunction.java:62 | `compiler_flags` is looked up as `compilerFlags` |
| `CaseFormat.VisibilityExample` | src/com/facebook/buck/query/AttrFilterFunction.java:62 | the single-word name `visibility` is unchanged |
| `QueryEnvironment.GetWord` | src/com/facebook/buck/query/AttrFilterFunction.java:62-64 | reading an argument as a word succeeds exactly for a word argument and gives its text; any other variant is a type mismatch |
| `QueryEnvironment.GetExpression` | src/com/facebook/buck/query/AttrFilterFunction.java:61 | reading an argument as an expression succeeds exactly for an expression argument; any other variant is a type mismatch |
| `QueryEnvironment.ArgumentAt` | src/com/facebook/buck/query/AttrFilterFunction.java:61-64 | reading position `i` succeeds exactly when `i` is inside the argument list, and gives that argument |
| `QueryEnvironment.SubValues` | src/com/facebook/buck/query/AttrFilterFunction.java:65-68 | the traversal of an attribute value visits the value itself, and a scalar has no other sub-values |
| `QueryEnvironment.ChildrenAreVisited` | src/com/facebook/buck/query/AttrFilterFunction.java:65-68 | the traversal visits every element of a collection and every key and every value of a mapping |
| `QueryEnvironment.GetAttribute` | src/com/facebook/buck/query/AttrFilterFunction.java:76 | an attribute value is found exactly when the target is known and declares the attribute, and the value found is the one the target declares |
| `QueryEnvironment.Render` | src/com/facebook/buck/query/AttrFilterFunction.java:72 | a scalar's string form is its text; a collection's string form is bracketed with `[` `]` and a mapping's with `{` `}` |
| `QueryEnvironment.FilterAttributeContents` | src/com/facebook/buck/query/AttrFilterFunction.java:65-68 | (assumed contract of the environment) the whole attribute value is traversed: a sub-value is returned exactly when the traversal reaches it and the predicate accepts it; a target without the attribute yields nothing |

## Left out

- The sub-expression evaluator (`QueryEvaluator.eval`): it is a parameter of `Eval`, a total function from expressions to targets or an error. Memoisation, cancellation and parallel evaluation are not modelled.
- The environment's internals (`QueryEnvironment.filterAttributeContents` and the type coercers): modelled by the assumed traversal in `QueryEnvironment.FilterAttributeContents`. The model does not capture environment errors such as a malformed target. A target absent from the environment is treated like a missing attribute and yields no contents.
- QueryEnvironment.FilterAttributeContents: returns a set, so the traversal order and the insertion order of the matching objects are not modelled. Only their emptiness is used by the code.
- Java `toString` on arbitrary objects: a scalar leaf is held directly as its string form. Containers are rendered as Java collections print. No other object kinds are modelled.
- Guava `CaseFormat` beyond ASCII: the model lower-cases and upper-cases only the letters A–Z, as Guava's `Ascii` does. Non-ASCII text passes through unchanged. The round trip is proved only for well-formed names: non-empty words of lower-case letters and digits, each starting with a letter, with single underscores between them.
- QueryEnvironment.GetWord / GetExpression: what `Argument.getWord()` and `getExpression()` do on an argument of the wrong variant is decided by `QueryEnvironment.Argument`, which is not part of this model; the type-mismatch error is an assumed accessor contract. Likewise Java's unchecked exceptions, such as the `IndexOutOfBoundsException` that `args.get(args.size() - 1)` throws on an empty list, are modelled as `Err` results in the same channel as `QueryException` failures of the evaluator, not as a separate kind of failure.
- The parser's and evaluator's arity and type checks before `eval` is called are not part of this model. The lemma `SignatureArgumentsAreRead` states what `Eval` reads from arguments that pass those checks.
