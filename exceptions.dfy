/**
 * The error taxonomy of ffmpeg_progress/exceptions.py.
 *
 * The six kinds are the six subclasses of FFMPEGProgressError; a value of
 * type Error is therefore always an FFMPEGProgressError, and the one handler
 * in the command-line front end catches every one of them.  Built-in Python
 * exceptions that the core lets escape are kept apart in Builtin.
 */
module Exceptions {

  datatype Error =
    | ProbeFailed
    | InvalidFPS
    | UnexpectedZeroFPS
    | NoDuration
    | TotalFramesLTEZero
    | InvalidPID

  /** The fixed message each kind passes to its base class. */
  function Message(e: Error): (m: string)
    ensures |m| > 0 && m[|m| - 1] == '.'
  {
    match e
    case ProbeFailed => "Probe failed."
    case InvalidFPS => "Cannot use input FPS."
    case UnexpectedZeroFPS => "Unexpected zero FPS."
    case NoDuration => "Unable to determine duration."
    case TotalFramesLTEZero => "Total frames is less than or equal to zero."
    case InvalidPID => "ffmpeg callback must return a valid PID."
  }

  /** The message identifies the kind: no two kinds share a text. */
  lemma {:induction false} MessagesDistinct(a: Error, b: Error)
    ensures Message(a) == Message(b) <==> a == b
  {
  }

  /** Built-in exceptions that leave the core uncaught. */
  datatype Builtin = OSError | ValueError | IndexError | ZeroDivisionError

  /** Everything a call into the core can raise. */
  datatype Failure = Raised(error: Error) | Uncaught(builtin: Builtin)

  /** The front end's `except FFMPEGProgressError` clause: it catches exactly the Raised failures. */
  predicate CaughtByFrontEnd(f: Failure)
  {
    f.Raised?
  }
}
