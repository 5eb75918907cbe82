# ReDoS analysis orchestration, modelled in Dafny

This project models the sequential core of a Java ReDoS checker. The checker decides whether
a regular expression can backtrack catastrophically. It does not run the pattern. It builds an
automaton from it and asks an analyser whether the automaton has exponential (EDA) or infinite
(IDA) degree of ambiguity. The model covers three pieces.

- **Pattern normaliser** (`normaliser.dfy`, module `Normaliser`). This is the constructor of
  `RegularExpressionInjectionAnalyser`. It makes two `replaceAll` passes. First, every match
  of `\(\?<[^>]+>` becomes `(`. Then every match of `\\p\{[^}]+}` becomes the two characters
  `\$`. Both regular expressions have the shape "three literal characters, one or more
  characters other than a closing one, the closing one". One hand-written scanner,
  `ReplaceAll`, handles both. The first pass removes named groups `(?<name>`. It also takes a
  lookbehind `(?<=` or `(?<!` whenever a `>` follows it somewhere: `(?<=a)b>c` becomes `(c`
  (`LookbehindRewritten`). The model does the same, because the code does.
- **Worker and verdict** (`analyser.dfy`, module `InjectionAnalyser`). The class
  `RegexAnalyser` holds the normalised pattern and the field `analysisResultsType`. Its `Run`
  method builds the automaton and calls `containsEDA`. It calls `containsIDA` only after
  `NO_EDA`. It checks each result against the accepted set. Its catch covers `Exception` and
  `OutOfMemoryError`; on such a failure it stores `ANALYSIS_FAILED`. Any other `Error` escapes
  the catch and leaves the field as it was. `Decision` is the decision table of `isVulnerable` and `terminateExecutor`. The
  method `IsVulnerable` builds the object, runs it, and is proved equal to `Decision`.
- **Interruptible component materialisation** (`connectivity.dfy`, module
  `StrongConnectivity`). The class `KosarajuInspector` holds the graph and the cached list
  `stronglyConnectedSubgraphs`. Its method builds one induced subgraph per strongly connected
  set. Before each one it polls the interrupt status. The cache field is assigned before the
  loop, so an interrupted call leaves a partial list in it. A later call returns that list.

`wrappers.dfy` holds `Option` and `Result`. `failures.dfy` models the Java exceptions involved.

The collaborators outside this code are parameters:

- `MyPattern.toNFAGraph`, `containsEDA` and `containsIDA` are the fields of `Collaborators<G>`.
  Each returns a value or throws.
- The executor, the 5-second deadline, the 2-second grace period and thread interruption are
  reduced to the `Wait` and `Termination` outcomes.
- jgrapht's `stronglyConnectedSets()` is a given sequence of vertex sets.
- The interrupt status is a function `interruptedAt`. Its value at `i` is what the poll before
  the `i`-th component sees.

Two behaviours of the code are worth noting:

- A completed analysis that reports `TIMEOUT_IN_EDA`, `TIMEOUT_IN_IDA` or `ANALYSIS_FAILED`
  gives `false`. Only the caller's own deadline gives `true`
  (`InconclusiveIsNotVulnerable`, `DeadlineVerdict`).
- An interrupted component call leaves the partial list cached, and a later call returns it
  (`LaterCallReturnsPartialList`).

## Model

| member | source | states |
|---|---|---|
| `Normaliser.ReplaceAll` | src/main/java/library/RegularExpressionInjectionAnalyser.java:28-31 | The `replaceAll` scan: from the left, a match at the current position is replaced and the scan resumes after it; otherwise one character is kept. Its properties are the `ReplaceAll*`, `OccursAt` and `PropertyEscapesGone` lemmas. |
| `Normaliser.Normalize` | src/main/java/library/RegularExpressionInjectionAnalyser.java:26-31 | The named-group pass, then the property-escape pass. Its properties are the `Normalize*` lemmas. |
| `Normaliser.MatchEnd` | src/main/java/library/RegularExpressionInjectionAnalyser.java:28-31 | A match of `open [^close]+ close` at the head of the string exists exactly when `IsMatch` holds for some length. The value returned is that length: `open`, a non-empty body without `close`, then the first `close`. |
| `Normaliser.OccursAt` | src/main/java/library/RegularExpressionInjectionAnalyser.java:28-31 | `Occurs` holds exactly when some suffix of the string starts with a whole match. |
| `Normaliser.ReplaceAllLength` | src/main/java/library/RegularExpressionInjectionAnalyser.java:28-31 | A pass whose replacement is shorter than any match never lengthens its input. It shortens the input exactly when a match occurs. |
| `Normaliser.ReplaceAllNoMatch` | src/main/java/library/RegularExpressionInjectionAnalyser.java:28-31 | A pass over a string with no match returns the string unchanged. |
| `Normaliser.PropertyEscapesGone` | src/main/java/library/RegularExpressionInjectionAnalyser.java:31 | `Occurs` tests every position (`OccursAt`), so no match of `\\p\{[^}]+}` remains anywhere in the output of the `\p{...}` pass. |
| `Normaliser.NormalizeIdentity` | src/main/java/library/RegularExpressionInjectionAnalyser.java:26-31 | A pattern containing neither `(?<` nor `\p{` is returned unchanged. |
| `Normaliser.NormalizeLength` | src/main/java/library/RegularExpressionInjectionAnalyser.java:26-31 | Normalisation never lengthens the pattern. It is strictly shorter exactly when the first pass found a match of `\(\?<[^>]+>` or the second pass found a match of `\\p\{[^}]+}`. |
| `Normaliser.NormalizeUnchangedIff` | src/main/java/library/RegularExpressionInjectionAnalyser.java:26-31 | The normalised pattern equals the input exactly when neither pass finds a match. |
| `Normaliser.NormalizeRemovesPropertyEscapes` | src/main/java/library/RegularExpressionInjectionAnalyser.java:27-31 | The property pass runs last, so no `\p{...}` escape with a non-empty body survives normalisation. |
| `Normaliser.NormalizeNotIdempotent` | src/main/java/library/RegularExpressionInjectionAnalyser.java:28 | `((?<a>?<b>` normalises to `((?<b>`, which holds a new named group. Normalising again gives `((`. |
| `Normaliser.LookbehindRewritten` | src/main/java/library/RegularExpressionInjectionAnalyser.java:28 | The named-group pass turns the lookbehind pattern `(?<=a)b>c` into `(c`. |
| `Normaliser.NormalizeInvalidExamples` | src/test/java/library/RegularExpressionInjectionAnalyserTest.java:57-58 | The invalid test patterns `((` and `^(a)\1$` reach the automaton builder unchanged. |
| `InjectionAnalyser.RegexAnalyser.constructor` | src/main/java/library/RegularExpressionInjectionAnalyser.java:25-34 | The stored pattern is the normalised one, and no results type is recorded yet. |
| `InjectionAnalyser.RunOf` | src/main/java/library/RegularExpressionInjectionAnalyser.java:83-112 | The builder is called first, then `containsEDA`. `containsIDA` is called exactly when EDA returned `NO_EDA`. `run` returns normally exactly when the last result is in its accepted set, which is {EDA, ANALYSIS_FAILED, TIMEOUT_IN_EDA} after EDA and {IDA, NO_IDA, ANALYSIS_FAILED, TIMEOUT_IN_IDA} after IDA. It then stores that result. Otherwise it throws either the collaborator's exception or the "Unexpected Analysis Results Type" RuntimeException. It stores `ANALYSIS_FAILED` when the catch (Exception or OutOfMemoryError) intercepts the failure. Another Error leaves `NO_EDA` if `containsIDA` threw it, and writes nothing if the builder or `containsEDA` did. |
| `InjectionAnalyser.RegexAnalyser.Run` | src/main/java/library/RegularExpressionInjectionAnalyser.java:83-112 | After the step-by-step updates, the field is what `RunOf` says was written last, or its old value if nothing was written. The exception thrown and the calls made are those of `RunOf`. |
| `InjectionAnalyser.TerminateExecutor` | src/main/java/library/RegularExpressionInjectionAnalyser.java:69-81 | It returns normally exactly when the executor is already terminated or terminates within the grace period. Otherwise it throws `IllegalThreadStateException("Executor could not be terminated")`, or an `ExecutionException` if interrupted while awaiting. |
| `InjectionAnalyser.RethrowWorkerFailure` | src/main/java/library/RegularExpressionInjectionAnalyser.java:54-61 | Every worker failure reaches the caller as an `ExecutionException`. A `PatternSyntaxException` whose pattern is a backslash and one digit becomes `UnsupportedOperationException("Backtracking not supported")`. Every other cause is kept unchanged. |
| `InjectionAnalyser.IsBackReference` | src/main/java/library/RegularExpressionInjectionAnalyser.java:57 | The test `matches("^\\\\\\d$")`: a backslash followed by exactly one ASCII digit. Checked by `BackReferenceExamples`. |
| `InjectionAnalyser.VerdictOf` | src/main/java/library/RegularExpressionInjectionAnalyser.java:46-47 | The verdict after normal completion: the stored type is EDA or IDA. Its consequences are `CompletedVerdict` and `InconclusiveIsNotVulnerable`. |
| `InjectionAnalyser.Decision` | src/main/java/library/RegularExpressionInjectionAnalyser.java:44-61 | The decision table of `isVulnerable`: the verdict, the rethrown worker failure, the deadline's `true` or termination failure, and the interrupted wait. Its properties are the lemmas below. |
| `InjectionAnalyser.IsVulnerable` | src/main/java/library/RegularExpressionInjectionAnalyser.java:36-67 | Building the analyser, running it and mapping the outcome gives exactly `Decision`. |
| `InjectionAnalyser.CompletedVerdict` | src/main/java/library/RegularExpressionInjectionAnalyser.java:45-47 | On normal completion the verdict is true exactly when `containsEDA` reported EDA, or it reported NO_EDA and `containsIDA` reported IDA. |
| `InjectionAnalyser.InconclusiveIsNotVulnerable` | src/main/java/library/RegularExpressionInjectionAnalyser.java:46-47 | NO_IDA, ANALYSIS_FAILED, TIMEOUT_IN_EDA and TIMEOUT_IN_IDA from the analyser give `false` when accepted in that phase. Otherwise they give an exception. |
| `InjectionAnalyser.DeadlineVerdict` | src/main/java/library/RegularExpressionInjectionAnalyser.java:48-50 | After the deadline the verdict is `true` exactly when the executor terminates in time. Otherwise the call fails with the termination exception. |
| `InjectionAnalyser.WorkerFailurePropagates` | src/main/java/library/RegularExpressionInjectionAnalyser.java:108-111 | A failed run reaches the caller as an `ExecutionException`, never as a verdict. It leaves `ANALYSIS_FAILED` stored when the catch intercepted the failure. An Error the catch does not intercept leaves `NO_EDA` or nothing written. |
| `InjectionAnalyser.UncaughtBuilderErrorLeavesNull` | src/main/java/library/RegularExpressionInjectionAnalyser.java:86 | An Error other than OutOfMemoryError thrown by the automaton builder leaves nothing written, and reaches the caller wrapped in an `ExecutionException`. |
| `InjectionAnalyser.SyntaxErrorReport` | src/main/java/library/RegularExpressionInjectionAnalyser.java:54-61 | A syntax error from the automaton builder is reported as unsupported exactly when its offending pattern is a lone back-reference. Every other syntax error is rethrown unchanged. |
| `InjectionAnalyser.BackReferenceExamples` | src/main/java/library/RegularExpressionInjectionAnalyser.java:57 | `\1` and `\0` are back-references for the heuristic. `\12`, `\k` and `((` are not. |
| `InjectionAnalyser.FailureKinds` | src/main/java/library/RegularExpressionInjectionAnalyser.java:44-61 | Each call yields either a verdict or an exception. The exception is an `ExecutionException` or the termination `IllegalThreadStateException`. It occurs exactly on a worker failure, a failed or interrupted termination, or an interrupted wait. |
| `StrongConnectivity.Induced` | src/main/java/analysis/KosarajuStrongConnectivityInspectorWithIntercept.java:27 | `new AsSubgraph<>(graph, set, null)`: the result is the subgraph induced on the set, as `IsInducedSubgraph` defines it. |
| `StrongConnectivity.GetComponents` | src/main/java/analysis/KosarajuStrongConnectivityInspectorWithIntercept.java:19-31 | One call's effect on the cache and its result. Its properties are the lemmas below and the method's postcondition. |
| `StrongConnectivity.FirstInterrupt` | src/main/java/analysis/KosarajuStrongConnectivityInspectorWithIntercept.java:23-26 | The number of components added before the abort is the index of the first poll that sees the flag set. If no poll does, it is the number of sets. |
| `StrongConnectivity.KosarajuInspector.constructor` | src/main/java/analysis/KosarajuStrongConnectivityInspectorWithIntercept.java:13-15 | A new inspector holds the graph and no cached list. |
| `StrongConnectivity.KosarajuInspector.GetStronglyConnectedComponents` | src/main/java/analysis/KosarajuStrongConnectivityInspectorWithIntercept.java:17-32 | After the loop that appends to the field, the cache and the result are those of `GetComponents`. |
| `StrongConnectivity.ComponentsAreInduced` | src/main/java/analysis/KosarajuStrongConnectivityInspectorWithIntercept.java:27 | The i-th component is the subgraph induced on the i-th set. It has that set's vertices in the graph, and the graph's edges between them with their endpoints. |
| `StrongConnectivity.CachedListReturned` | src/main/java/analysis/KosarajuStrongConnectivityInspectorWithIntercept.java:19-31 | A non-null cache is returned as it is, whatever the sets and the interrupt flag. |
| `StrongConnectivity.UninterruptedCallIsComplete` | src/main/java/analysis/KosarajuStrongConnectivityInspectorWithIntercept.java:20-28 | Without an interrupt the result is the cached list. It has one induced component per set, in the same order. |
| `StrongConnectivity.InterruptedOnEntry` | src/main/java/analysis/KosarajuStrongConnectivityInspectorWithIntercept.java:23-26 | If there is at least one set and the first poll sees the flag, no component is added. The call throws the wrapped `InterruptedException`. |
| `StrongConnectivity.NoSetsNoPoll` | src/main/java/analysis/KosarajuStrongConnectivityInspectorWithIntercept.java:23-24 | With no sets the call returns an empty list, whatever the interrupt flag holds. |
| `StrongConnectivity.AbortKeepsPrefix` | src/main/java/analysis/KosarajuStrongConnectivityInspectorWithIntercept.java:21-27 | An aborted call leaves exactly the first k components in the cache. Here k is the first poll that saw the flag; all earlier polls saw it clear. |
| `StrongConnectivity.LaterCallReturnsPartialList` | src/main/java/analysis/KosarajuStrongConnectivityInspectorWithIntercept.java:19-31 | After an aborted call, the next call returns the partial list, whatever sets and flag it is given. |
| `StrongConnectivity.ComponentsPartitionVertices` | src/main/java/analysis/KosarajuStrongConnectivityInspectorWithIntercept.java:20-27 | If the library's sets partition the vertices, the vertex sets of an uninterrupted call's components are exactly those sets. They therefore partition the vertices as well. |
| `StrongConnectivity.InterruptedThenRepeated` | src/main/java/analysis/KosarajuStrongConnectivityInspectorWithIntercept.java:19-31 | A client makes two calls on one inspector. The first is interrupted before its second component and throws. The second returns the one-component partial list. |

## Left out

- The executor and real time are reduced to a `Wait` outcome: the single-thread executor, `submit`, `shutdown`, `shutdownNow`, `awaitTermination`, the 5 s and 2 s waits and `isTerminated` (RegularExpressionInjectionAnalyser.java:41-45, :62-80). They are concurrency and wall-clock time.
- Restoring the caller's interrupt status (`Thread.currentThread().interrupt()`, :52 and :78) is not modelled. It changes thread state that the model does not represent.
- The `finally` block's `shutdownNow` (:62-66) is not modelled. It has no effect on the result.
- `InjectionAnalyser.IsVulnerable` does not run the worker when the deadline expires. The partial run cannot be observed by the caller, whose result is decided by the termination outcome alone.
- `MyPattern.toNFAGraph`, `NFAAnalyserFlattening.containsEDA`/`containsIDA` and the analysis settings are not part of this model. Their answers are the functions in `Collaborators`.
- The constants of `NFAAnalyserInterface.AnalysisResultsType` are taken to be the seven that the code names. The enum's source is not part of this model.
- `InjectionAnalyser.FailureKinds`: a `PatternSyntaxException` whose `getPattern()` is null is not modelled. The offending pattern is a `string` in the model, so the verdict-or-`ExecutionException` statement assumes the builder always supplies one. In Java, `pse.getPattern().matches(...)` (RegularExpressionInjectionAnalyser.java:57) would throw a NullPointerException out of `isVulnerable`.
- A null result from the analyser is not modelled. In Java, `List.of(...).contains(null)` throws a NullPointerException, which would be one more failure of `run`.
- Errors are modelled by class only: `OutOfMemoryError`, which the worker's catch intercepts, and `OtherError` for every other `Error`, which it does not.
- jgrapht's Kosaraju algorithm (`stronglyConnectedSets()`) is an input. Its partition property is a precondition of `ComponentsPartitionVertices` only.
- `AsSubgraph` is a live view of the base graph. It is modelled as a value copy, so later changes to the base graph are not reflected.
- `StrongConnectivity.KosarajuInspector.GetStronglyConnectedComponents`: the list returned is the cached `ArrayList` itself (KosarajuStrongConnectivityInspectorWithIntercept.java:31). The model returns a copy, so changes a caller makes to the list are not seen by later calls.
- The end-to-end vulnerable and not-vulnerable test vectors are not modelled. They depend on the external analyser.
- `Normaliser.ReplaceAll` works on Unicode scalar values. Java's `String` counts UTF-16 units, so lengths differ for characters outside the Basic Multilingual Plane. This does not change which substrings match.
