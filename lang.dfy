/**
 * Java-level vocabulary shared by the whole model: nullable values, the
 * integer widths the source uses, and the exceptions that the probes catch.
 */
module Lang {

  /** A Java reference that may be `null`. */
  datatype Option<+T> = None | Some(value: T)
  {
    predicate IsFailure() { None? }

    function PropagateFailure<U>(): Option<U>
      requires None?
    {
      None
    }

    function Extract(): T
      requires Some?
    {
      value
    }
  }

  /** A byte on the wire, read as its unsigned value. */
  type Byte = b: int | 0 <= b < 256

  /** Java `int`. */
  type Int32 = x: int | -0x8000_0000 <= x < 0x8000_0000

  /**
   * The exception classes that some `catch` clause of the core names.
   * Any other class is `Other`, carrying what `getClass().getSimpleName()` returns.
   * A subclass counts as its caught superclass (an `SSLHandshakeException` is `Ssl`).
   */
  datatype FaultKind =
    | UnknownHost     // java.net.UnknownHostException
    | SocketTimeout   // java.net.SocketTimeoutException
    | NoRouteToHost   // java.net.NoRouteToHostException
    | ConnectRefused  // java.net.ConnectException
    | Ssl             // javax.net.ssl.SSLException
    | Interrupted     // java.lang.InterruptedException
    | EndOfStream     // java.io.EOFException
    | Other(className: string)

  /** A thrown exception: its class and what `getMessage()` returns. */
  datatype Fault = Fault(kind: FaultKind, message: Option<string>)

  /** `e.getClass().getSimpleName()` */
  function SimpleName(k: FaultKind): string
  {
    match k
    case UnknownHost => "UnknownHostException"
    case SocketTimeout => "SocketTimeoutException"
    case NoRouteToHost => "NoRouteToHostException"
    case ConnectRefused => "ConnectException"
    case Ssl => "SSLException"
    case Interrupted => "InterruptedException"
    case EndOfStream => "EOFException"
    case Other(name) => name
  }

  /** Java's string conversion of a possibly-null string, as `+` performs it. */
  function Str(s: Option<string>): string
  {
    match s
    case None => "null"
    case Some(t) => t
  }
}
