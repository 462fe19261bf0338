/** The exceptions the launcher raises or lets through, and the text that
    Python's str() gives each of them once it is caught and chained. */
module Errors {

  datatype Option<+T> = None | Some(value: T)

  /** Every exception that can reach a handler of the launcher. */
  datatype Error =
    | MissingEnvValue(name: string)   // MissingEnvValue raised by get_env_value
    | InvalidLiteral(text: string)    // ValueError raised by int() on a malformed value
    | NegativeSleep                   // ValueError raised by time.sleep on a negative length
    | Overflow(message: string)       // OverflowError raised by timedelta or time.sleep on a huge value
    | Raised(message: string)         // the plain Exception raised by handle_exception
    | Foreign(message: string)        // an OS or library error that passes through unwrapped

  /** str(e): the text an error contributes when it is chained into a message. */
  function Message(e: Error): string
  {
    match e
    case MissingEnvValue(n) => "Aucune valeur définie pour la variable d'environnement \"" + n + "\""
    case InvalidLiteral(t) => "invalid literal for int() with base 10: '" + t + "'"
    case NegativeSleep => "sleep length must be non-negative"
    case Overflow(m) => m
    case Raised(m) => m
    case Foreign(m) => m
  }

  /** A value or the exception that was raised instead of producing it. */
  datatype Result<+T> = Ok(value: T) | Err(error: Error) {
    predicate IsFailure() { Err? }
    function PropagateFailure<U>(): Result<U>
      requires Err?
    {
      Err(error)
    }
    function Extract(): T
      requires Ok?
    {
      value
    }
  }

  /** A step that either completes or raises. */
  datatype Outcome = Pass | Fail(error: Error)

  const CHAIN_SEPARATOR := " -> "

  /** handle_exception: the exception it raises carries the caller's message,
      followed by the separator and the cause's text when a cause is given. */
  function HandleException(message: string, cause: Option<Error>): (e: Error)
    ensures e.Raised?
    ensures |Message(e)| >= |message| && Message(e)[..|message|] == message
    ensures cause.None? ==> Message(e) == message
    ensures cause.Some? ==> Message(e)[|message|..] == CHAIN_SEPARATOR + Message(cause.value)
  {
    match cause
    case None => Raised(message)
    case Some(c) => Raised(message + CHAIN_SEPARATOR + Message(c))
  }

  /** The chained message can be cut back into the caller's message and the
      cause's own text: nothing of either is lost by the join. */
  lemma ChainSplitsBack(message: string, cause: Error)
    ensures var m := Message(HandleException(message, Some(cause)));
            && m[..|message|] == message
            && m[|message|..|message| + |CHAIN_SEPARATOR|] == CHAIN_SEPARATOR
            && m[|message| + |CHAIN_SEPARATOR|..] == Message(cause)
  {
    var m := Message(HandleException(message, Some(cause)));
    assert m == message + CHAIN_SEPARATOR + Message(cause);
  }
}
