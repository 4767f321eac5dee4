/**
 * The answers of the operating system, given to the model as inputs.
 *
 * Nothing here performs I/O: every recv, send, sendfile, read or recvfrom
 * call that a loop of the transfer or discovery code makes takes its result
 * from a script, the sequence of answers the kernel gave, in order.
 */
module IoScript {

  datatype Option<T> = None | Some(value: T)

  /** One byte of a file body or of a TCP stream. */
  type byte = bv8

  /**
   * How a modelled loop ended.
   *  - Done: the loop's own condition became false (all bytes sent, all bytes
   *    received, end of file reached);
   *  - Failed: a call returned the value on which the code breaks out;
   *  - OffScript: the script ran out, or held an answer the call could not have
   *    given (more bytes than were asked for); the real call would still be
   *    running, so the model says nothing further about that run.
   */
  datatype Stop = Done | Failed | OffScript

  /** The answer of one TCP recv: the bytes it delivered (none: the peer closed) or -1. */
  datatype RecvAnswer = Data(bytes: seq<byte>) | RecvError

  /** How a C function left the caller: by returning a code, by calling exit(), or not yet. */
  datatype Status = Returned(code: int) | Exited(exitCode: int) | StillWaiting

  const EXIT_FAILURE: int := 1

  /** The sum of a script's answers. */
  function Sum(s: seq<int>): int
  {
    if s == [] then 0 else s[0] + Sum(s[1..])
  }

  predicate AllPositive(s: seq<int>)
  {
    forall i :: 0 <= i < |s| ==> s[i] > 0
  }

  /** The bytes that a sequence of recv answers delivers, in order. */
  function Payload(answers: seq<RecvAnswer>): seq<byte>
  {
    if answers == [] then []
    else (if answers[0].Data? then answers[0].bytes else []) + Payload(answers[1..])
  }
}
