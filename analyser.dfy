/**
 * RegularExpressionInjectionAnalyser: the worker's `run` (build the automaton, ask for EDA, then
 * perhaps IDA, validate what came back, record ANALYSIS_FAILED on any failure its catch
 * intercepts) and the decision
 * table of `isVulnerable` and `terminateExecutor` that turns the worker's fate into a verdict or
 * an exception. The automaton builder and the EDA/IDA analyser are given as functions; the
 * executor, its deadlines and thread interruption are given as a Wait outcome.
 */
module InjectionAnalyser {
  import opened Wrappers
  import opened Failures
  import Normaliser

  /** NFAAnalyserInterface.AnalysisResultsType. */
  datatype ResultsType = Eda | NoEda | Ida | NoIda | AnalysisFailed | TimeoutInEda | TimeoutInIda

  /** The enum constant's name, as toString() gives it. */
  function Name(t: ResultsType): string
  {
    match t
    case Eda => "EDA"
    case NoEda => "NO_EDA"
    case Ida => "IDA"
    case NoIda => "NO_IDA"
    case AnalysisFailed => "ANALYSIS_FAILED"
    case TimeoutInEda => "TIMEOUT_IN_EDA"
    case TimeoutInIda => "TIMEOUT_IN_IDA"
  }

  /** The results accepted from containsEDA when it did not report NO_EDA. */
  const AfterEda: set<ResultsType> := {Eda, AnalysisFailed, TimeoutInEda}
  /** The results accepted from containsIDA. */
  const AfterIda: set<ResultsType> := {Ida, NoIda, AnalysisFailed, TimeoutInIda}

  /** How a call into a collaborator ended. */
  datatype Call<+T> = Returned(value: T) | Threw(cause: Throwable)

  /** The collaborators the worker calls: MyPattern.toNFAGraph and the analyser's containsEDA and
      containsIDA, over some automaton type G. */
  datatype Collaborators<!G> = Collaborators(
    toNfaGraph: string -> Call<G>,
    containsEda: G -> Call<ResultsType>,
    containsIda: G -> Call<ResultsType>)

  /** The collaborator calls the worker makes, in order. */
  datatype Step = ToNfaGraph | ContainsEda | ContainsIda

  /** What one run of the worker leaves behind: the last results type it wrote to the field
      (None when it wrote none, so the field keeps its earlier value), the exception it ended
      with (None when it returned normally) and the calls it made. */
  datatype RunEffect = RunEffect(written: Option<ResultsType>, thrown: Option<Throwable>, calls: seq<Step>)

  /** The RuntimeException raised for a result outside the accepted set; `phase` is "EDA" or "IDA". */
  function Unexpected(phase: string, t: ResultsType): Throwable
  {
    RuntimeException("Unexpected Analysis Results Type after " + phase + " analysis: " + Name(t), None)
  }

  /** The automaton was built and containsEDA returned exactly NO_EDA: the case in which containsIDA
      is consulted. */
  predicate ReachesIda<G>(pattern: string, c: Collaborators<G>)
  {
    && c.toNfaGraph(pattern).Returned?
    && c.containsEda(c.toNfaGraph(pattern).value) == Returned(NoEda)
  }

  /** The call whose result the worker keeps when it gets that far: containsIDA's if ReachesIda,
      otherwise containsEDA's. */
  function LastAnalysis<G>(pattern: string, c: Collaborators<G>): Call<ResultsType>
    requires c.toNfaGraph(pattern).Returned?
  {
    var g := c.toNfaGraph(pattern).value;
    if ReachesIda(pattern, c) then c.containsIda(g) else c.containsEda(g)
  }

  /** The effect of `run` on a pattern, specified by what it calls and what it may keep. */
  function RunOf<G>(pattern: string, c: Collaborators<G>): (e: RunEffect)
    // the builder comes first, then containsEDA, then containsIDA only after NO_EDA
    ensures e.calls == [ToNfaGraph] || e.calls == [ToNfaGraph, ContainsEda] ||
            e.calls == [ToNfaGraph, ContainsEda, ContainsIda]
    ensures ContainsEda in e.calls <==> c.toNfaGraph(pattern).Returned?
    ensures ContainsIda in e.calls <==> ReachesIda(pattern, c)
    // a normal return keeps a result from the accepted set of the last analysis
    ensures e.thrown.None? <==>
            && c.toNfaGraph(pattern).Returned?
            && LastAnalysis(pattern, c).Returned?
            && LastAnalysis(pattern, c).value in (if ReachesIda(pattern, c) then AfterIda else AfterEda)
    ensures e.thrown.None? ==> e.written == Some(LastAnalysis(pattern, c).value)
    // a failure the catch intercepts leaves ANALYSIS_FAILED written; every failure is passed on
    ensures e.thrown.Some? && CaughtByRun(e.thrown.value) ==> e.written == Some(AnalysisFailed)
    // any other Error escapes the catch: the field keeps NO_EDA if containsIDA threw it, and is
    // not written at all if the builder or containsEDA did
    ensures e.thrown.Some? && !CaughtByRun(e.thrown.value) ==>
              e.written == if ReachesIda(pattern, c) then Some(NoEda) else None
    ensures c.toNfaGraph(pattern).Threw? ==> e.thrown == Some(c.toNfaGraph(pattern).cause)
    ensures c.toNfaGraph(pattern).Returned? && LastAnalysis(pattern, c).Threw? ==>
              e.thrown == Some(LastAnalysis(pattern, c).cause)
    ensures c.toNfaGraph(pattern).Returned? && LastAnalysis(pattern, c).Returned? && e.thrown.Some? ==>
              e.thrown == Some(Unexpected(if ReachesIda(pattern, c) then "IDA" else "EDA",
                                          LastAnalysis(pattern, c).value))
  {
    match c.toNfaGraph(pattern)
    case Threw(x) => RunEffect(CatchWrites(x, None), Some(x), [ToNfaGraph])
    case Returned(g) =>
      match c.containsEda(g)
      case Threw(x) => RunEffect(CatchWrites(x, None), Some(x), [ToNfaGraph, ContainsEda])
      case Returned(eda) =>
        if eda == NoEda then
          var calls := [ToNfaGraph, ContainsEda, ContainsIda];
          match c.containsIda(g)
          case Threw(x) => RunEffect(CatchWrites(x, Some(NoEda)), Some(x), calls)
          case Returned(ida) =>
            if ida in AfterIda then RunEffect(Some(ida), None, calls)
            else RunEffect(Some(AnalysisFailed), Some(Unexpected("IDA", ida)), calls)
        else if eda in AfterEda then RunEffect(Some(eda), None, [ToNfaGraph, ContainsEda])
        else RunEffect(Some(AnalysisFailed), Some(Unexpected("EDA", eda)), [ToNfaGraph, ContainsEda])
  }

  /** What the field last holds when x is thrown after `sofar` was written: ANALYSIS_FAILED if
      the catch intercepts x, otherwise what was written before. */
  function CatchWrites(x: Throwable, sofar: Option<ResultsType>): Option<ResultsType>
  {
    if CaughtByRun(x) then Some(AnalysisFailed) else sofar
  }

  /** The Runnable handed to the executor: it holds the normalised pattern and the results type
      that `run` records. */
  class RegexAnalyser<!G> {
    const pattern: string
    const collaborators: Collaborators<G>
    var analysisResultsType: Option<ResultsType>

    /** Stores the pattern after normalisation; no results type is recorded yet. */
    constructor (pattern: string, collaborators: Collaborators<G>)
      ensures this.pattern == Normaliser.Normalize(pattern)
      ensures this.collaborators == collaborators
      ensures analysisResultsType == None
    {
      this.pattern := Normaliser.Normalize(pattern);
      this.collaborators := collaborators;
      analysisResultsType := None;
    }

    /** `run`: the field is overwritten with each analysis result as it arrives, and with
        ANALYSIS_FAILED when a failure the catch intercepts occurs; `thrown` is the exception run
        ends with. */
    method Run() returns (thrown: Option<Throwable>, calls: seq<Step>)
      modifies this
      ensures analysisResultsType ==
              if RunOf(pattern, collaborators).written.Some? then RunOf(pattern, collaborators).written
              else old(analysisResultsType)
      ensures thrown == RunOf(pattern, collaborators).thrown
      ensures calls == RunOf(pattern, collaborators).calls
    {
      thrown := None;
      calls := [ToNfaGraph];
      var graph := collaborators.toNfaGraph(pattern);
      if graph.Threw? {
        thrown := Some(graph.cause);
      } else {
        calls := calls + [ContainsEda];
        var eda := collaborators.containsEda(graph.value);
        if eda.Threw? {
          thrown := Some(eda.cause);
        } else {
          analysisResultsType := Some(eda.value);
          if analysisResultsType == Some(NoEda) {
            calls := calls + [ContainsIda];
            var ida := collaborators.containsIda(graph.value);
            if ida.Threw? {
              thrown := Some(ida.cause);
            } else {
              analysisResultsType := Some(ida.value);
              if ida.value !in AfterIda {
                thrown := Some(Unexpected("IDA", ida.value));
              }
            }
          } else if eda.value !in AfterEda {
            thrown := Some(Unexpected("EDA", eda.value));
          }
        }
      }
      // the catch block, for Exception and OutOfMemoryError: record the failure, then rethrow
      if thrown.Some? && CaughtByRun(thrown.value) {
        analysisResultsType := Some(AnalysisFailed);
      }
    }
  }

  // -----------------------------------------------------------------------------------------------
  // The caller's side: waiting, terminating, and the verdict

  const NoTerminateMessage: string := "Executor could not be terminated"
  const BacktrackingMessage: string := "Backtracking not supported"

  /** How the executor ends after the deadline: isTerminated() already true, awaitTermination
      succeeding within the grace period, failing to, or being interrupted. */
  datatype Termination = AlreadyTerminated | TerminatedInGrace | NotTerminatedInGrace | InterruptedWhileAwaiting

  /** How the caller's `future.get` with the deadline ends. */
  datatype Wait =
    /** The worker finished (normally or by an exception) before the deadline. */
    | Finished
    /** TimeoutException; `termination` is how terminateExecutor then went. */
    | DeadlineExpired(termination: Termination)
    /** The caller's thread was interrupted while waiting. */
    | InterruptedWhileWaiting

  /** `terminateExecutor`: None when it returns normally, otherwise what it throws. */
  function TerminateExecutor(t: Termination): (r: Option<Throwable>)
    ensures r.None? <==> t == AlreadyTerminated || t == TerminatedInGrace
    ensures t == NotTerminatedInGrace ==> r == Some(IllegalThreadStateException(NoTerminateMessage))
    ensures t == InterruptedWhileAwaiting ==> r == Some(ExecutionException(InterruptedException))
  {
    match t
    case AlreadyTerminated => None
    case TerminatedInGrace => None
    case NotTerminatedInGrace => Some(IllegalThreadStateException(NoTerminateMessage))
    case InterruptedWhileAwaiting => Some(ExecutionException(InterruptedException))
  }

  predicate IsAsciiDigit(c: char)
  {
    '0' <= c <= '9'
  }

  /** The offending pattern matches `^\\\d$`: a backslash followed by exactly one digit. */
  predicate IsBackReference(p: string)
  {
    |p| == 2 && p[0] == '\\' && IsAsciiDigit(p[1])
  }

  /** The exception `isVulnerable` throws when the worker failed with `cause`: the future's
      ExecutionException, unless the cause is a syntax error on a lone back-reference. */
  function RethrowWorkerFailure(cause: Throwable): (e: Throwable)
    ensures e.ExecutionException?
    ensures e.cause.UnsupportedOperationException? <==>
            cause.UnsupportedOperationException? ||
            (cause.PatternSyntaxException? && IsBackReference(cause.pattern))
    ensures cause.PatternSyntaxException? && IsBackReference(cause.pattern) ==>
            e.cause == UnsupportedOperationException(BacktrackingMessage)
    ensures !(cause.PatternSyntaxException? && IsBackReference(cause.pattern)) ==> e.cause == cause
  {
    match cause
    case PatternSyntaxException(p) =>
      if IsBackReference(p) then ExecutionException(UnsupportedOperationException(BacktrackingMessage))
      else ExecutionException(cause)
    case _ => ExecutionException(cause)
  }

  /** After normal completion the pattern is vulnerable iff the stored result is EDA or IDA. */
  function VerdictOf(stored: ResultsType): (vulnerable: bool)
  {
    stored in {Eda, Ida}
  }

  /** `isVulnerable` as a decision table over the worker's run and the caller's wait. */
  function Decision<G>(pattern: string, c: Collaborators<G>, wait: Wait): (r: Result<bool, Throwable>)
  {
    match wait
    case Finished =>
      var run := RunOf(Normaliser.Normalize(pattern), c);
      if run.thrown.None? then Success(VerdictOf(run.written.value))
      else Failure(RethrowWorkerFailure(run.thrown.value))
    case DeadlineExpired(t) =>
      (match TerminateExecutor(t)
       case None => Success(true)
       case Some(x) => Failure(x))
    case InterruptedWhileWaiting => Failure(ExecutionException(InterruptedException))
  }

  /** `isVulnerable`: builds the Runnable (normalising the pattern), lets it run when the wait
      says the worker finished, and maps the outcome. When the deadline expires the partial run
      is unobservable, so it is not performed here. */
  method IsVulnerable<G>(pattern: string, c: Collaborators<G>, wait: Wait) returns (r: Result<bool, Throwable>)
    ensures r == Decision(pattern, c, wait)
  {
    var analyser := new RegexAnalyser(pattern, c);
    match wait {
      case Finished =>
        var thrown, _ := analyser.Run();
        if thrown.None? {
          r := Success(analyser.analysisResultsType == Some(Eda) || analyser.analysisResultsType == Some(Ida));
        } else {
          r := Failure(RethrowWorkerFailure(thrown.value));
        }
      case DeadlineExpired(t) =>
        var failure := TerminateExecutor(t);
        r := if failure.None? then Success(true) else Failure(failure.value);
      case InterruptedWhileWaiting =>
        r := Failure(ExecutionException(InterruptedException));
    }
  }

  // -----------------------------------------------------------------------------------------------
  // Properties of the decision table

  /** On normal completion the verdict is true exactly when containsEDA reported EDA, or it
      reported NO_EDA and containsIDA reported IDA. */
  lemma CompletedVerdict<G>(pattern: string, c: Collaborators<G>)
    requires RunOf(Normaliser.Normalize(pattern), c).thrown.None?
    ensures Decision(pattern, c, Finished) == Success(true) <==>
            var p := Normaliser.Normalize(pattern);
            LastAnalysis(p, c) == Returned(Eda) || (ReachesIda(p, c) && LastAnalysis(p, c) == Returned(Ida))
  {
  }

  /** The three inconclusive results and NO_IDA map to false on normal completion. */
  lemma InconclusiveIsNotVulnerable<G>(pattern: string, c: Collaborators<G>)
    requires c.toNfaGraph(Normaliser.Normalize(pattern)).Returned?
    requires LastAnalysis(Normaliser.Normalize(pattern), c).Returned?
    requires LastAnalysis(Normaliser.Normalize(pattern), c).value in {NoIda, AnalysisFailed, TimeoutInEda, TimeoutInIda}
    ensures Decision(pattern, c, Finished).Success? <==>
            var v := LastAnalysis(Normaliser.Normalize(pattern), c).value;
            v in (if ReachesIda(Normaliser.Normalize(pattern), c) then AfterIda else AfterEda)
    ensures Decision(pattern, c, Finished).Success? ==> Decision(pattern, c, Finished) == Success(false)
  {
  }

  /** Only the caller's own deadline yields true without a conclusive result, and only when the
      executor terminates within the grace period. */
  lemma DeadlineVerdict<G>(pattern: string, c: Collaborators<G>, t: Termination)
    ensures Decision(pattern, c, DeadlineExpired(t)) == Success(true) <==>
            t == AlreadyTerminated || t == TerminatedInGrace
    ensures t == NotTerminatedInGrace ==>
            Decision(pattern, c, DeadlineExpired(t)) == Failure(IllegalThreadStateException(NoTerminateMessage))
    ensures t == InterruptedWhileAwaiting ==>
            Decision(pattern, c, DeadlineExpired(t)) == Failure(ExecutionException(InterruptedException))
  {
  }

  /** A failure of the worker always reaches the caller as an ExecutionException. ANALYSIS_FAILED
      is what the Runnable holds afterwards when the catch intercepted the failure; an Error it
      does not intercept leaves NO_EDA (containsIDA threw it) or the field's earlier value. */
  lemma WorkerFailurePropagates<G>(pattern: string, c: Collaborators<G>)
    requires RunOf(Normaliser.Normalize(pattern), c).thrown.Some?
    ensures Decision(pattern, c, Finished).Failure?
    ensures Decision(pattern, c, Finished).error.ExecutionException?
    ensures var run := RunOf(Normaliser.Normalize(pattern), c);
            run.written == if CaughtByRun(run.thrown.value) then Some(AnalysisFailed)
                           else if ReachesIda(Normaliser.Normalize(pattern), c) then Some(NoEda)
                           else None
  {
  }

  /** An Error the catch does not intercept, thrown by the automaton builder of a fresh analyser,
      leaves the results type null and still reaches the caller, wrapped, as the failure. */
  lemma UncaughtBuilderErrorLeavesNull<G>(pattern: string, c: Collaborators<G>, name: string)
    requires c.toNfaGraph(Normaliser.Normalize(pattern)) == Threw(OtherError(name))
    ensures RunOf(Normaliser.Normalize(pattern), c).written.None?
    ensures Decision(pattern, c, Finished) == Failure(ExecutionException(OtherError(name)))
  {
  }

  /** A syntax error from the automaton builder is reported as unsupported exactly when its
      offending pattern is a backslash and one digit; otherwise it is rethrown unchanged. */
  lemma SyntaxErrorReport<G>(pattern: string, c: Collaborators<G>, offending: string)
    requires c.toNfaGraph(Normaliser.Normalize(pattern)) == Threw(PatternSyntaxException(offending))
    ensures Decision(pattern, c, Finished) ==
            if IsBackReference(offending)
            then Failure(ExecutionException(UnsupportedOperationException(BacktrackingMessage)))
            else Failure(ExecutionException(PatternSyntaxException(offending)))
  {
  }

  /** The back-reference test accepts `\1` and refuses longer or other offending patterns. */
  lemma BackReferenceExamples()
    ensures IsBackReference("\\1") && IsBackReference("\\0")
    ensures !IsBackReference("\\12") && !IsBackReference("\\k") && !IsBackReference("((")
  {
  }

  /** Exactly one of a verdict and an exception comes back, and every exception is an
      ExecutionException or the IllegalThreadStateException of a failed termination. */
  lemma FailureKinds<G>(pattern: string, c: Collaborators<G>, wait: Wait)
    ensures Decision(pattern, c, wait).Failure? ==>
            Decision(pattern, c, wait).error.ExecutionException? ||
            Decision(pattern, c, wait).error == IllegalThreadStateException(NoTerminateMessage)
    ensures Decision(pattern, c, wait).Failure? <==>
            (wait == Finished && RunOf(Normaliser.Normalize(pattern), c).thrown.Some?) ||
            wait == DeadlineExpired(NotTerminatedInGrace) ||
            wait == DeadlineExpired(InterruptedWhileAwaiting) ||
            wait == InterruptedWhileWaiting
  {
  }
}
