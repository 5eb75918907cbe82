/** The Java exceptions and errors that the analyser and the SCC inspector raise, catch or pass on. */
module Failures {
  import opened Wrappers

  datatype Throwable =
    /** java.util.regex.PatternSyntaxException; `pattern` is what getPattern() returns. */
    | PatternSyntaxException(pattern: string)
    /** java.lang.RuntimeException with its detail message and, when built from one, its cause. */
    | RuntimeException(message: string, wrapped: Option<Throwable>)
    /** java.lang.InterruptedException, without a message. */
    | InterruptedException
    /** java.lang.UnsupportedOperationException with its detail message. */
    | UnsupportedOperationException(message: string)
    /** java.lang.IllegalThreadStateException with its detail message. */
    | IllegalThreadStateException(message: string)
    /** java.util.concurrent.ExecutionException wrapping its cause. */
    | ExecutionException(cause: Throwable)
    /** java.lang.OutOfMemoryError. */
    | OutOfMemoryError
    /** Any other java.lang.Exception a collaborator may throw, named by its class. */
    | OtherException(className: string)
    /** A java.lang.Error other than OutOfMemoryError (StackOverflowError, AssertionError, ...),
        named by its class. */
    | OtherError(className: string)

  /** The worker's `catch (Exception | OutOfMemoryError e)` intercepts t: every Throwable
      except the Errors other than OutOfMemoryError. */
  predicate CaughtByRun(t: Throwable)
  {
    !t.OtherError?
  }

  /** `new RuntimeException(new InterruptedException())`: a cause-only constructor takes the cause's
      toString() as its message. */
  const WrappedInterrupt: Throwable :=
    RuntimeException("java.lang.InterruptedException", Some(InterruptedException))
}
