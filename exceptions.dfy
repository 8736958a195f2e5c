/** The exceptions that reach Bowler's exception handler from the broker
    client, and the three Bowler exceptions they are translated into. */
module BowlerExceptions {

  datatype Option<+T> = None | Some(value: T)

  /** A key of a PHP array. */
  datatype Key = IntKey(i: int) | StrKey(s: string)

  /** A PHP value, as a caller may pass it for `$parameters` or `$arguments`
      (the source gives those two no type, so null is possible too). */
  datatype Value =
    | Null
    | Bool(b: bool)
    | Int(i: int)
    | Str(s: string)
    | Arr(entries: seq<(Key, Value)>)

  /** One frame of a stack trace, as `getTrace()` lists it. */
  datatype Frame = Frame(file: string, line: int, callee: string)

  /** What every PHP exception exposes through its getters: `getMessage()`,
      `getCode()`, `getFile()`, `getLine()`, `getTrace()`, `getPrevious()`
      and `getTraceAsString()`. */
  datatype ErrInfo = ErrInfo(
    message: string,
    code: int,
    file: string,
    line: int,
    trace: seq<Frame>,
    previous: Option<Throwable>,
    traceString: string)

  /** An exception caught at the broker boundary. PHP classes have a single
      parent, and the two protocol exception classes of the broker client
      are siblings, so an exception is an instance of at most one of them. */
  datatype CaughtException =
    | ChannelProtocol(info: ErrInfo)      // AMQPProtocolChannelException
    | ConnectionProtocol(info: ErrInfo)   // AMQPProtocolConnectionException
    | OtherException(info: ErrInfo)       // any other \Exception

  /** Bowler's own exceptions, each carrying the original's data together
      with the declaration parameters and arguments of the failing call. */
  datatype BowlerException =
    | DeclarationMismatch(info: ErrInfo, parameters: Value, arguments: Value)
    | InvalidSetup(info: ErrInfo, parameters: Value, arguments: Value)
    | BowlerGeneral(info: ErrInfo, parameters: Value, arguments: Value)

  /** Anything that can be thrown, reported or chained as a previous exception. */
  datatype Throwable = Caught(original: CaughtException) | Bowler(translated: BowlerException)

  /** What `handleServerException` does with the translated exception. */
  datatype Outcome = Returned(exception: BowlerException) | Thrown(exception: BowlerException)

  /** The value an optional array parameter of `handleServerException` takes:
      an empty array when the caller omits it, otherwise exactly what the
      caller passed, an explicit null included. */
  function OrEmpty(given: Option<Value>): (v: Value)
    ensures given.None? ==> v == Arr([]) && v != Null
    ensures given.Some? ==> v == given.value
  {
    match given
    case None => Arr([])
    case Some(x) => x
  }

  /** The Bowler exception that `handleServerException` builds from `e`:
      a channel-protocol exception becomes a declaration mismatch, a
      connection-protocol exception an invalid setup, anything else a
      general Bowler exception. */
  function Classify(e: CaughtException, parameters: Value, arguments: Value): (b: BowlerException)
    ensures b.DeclarationMismatch? <==> e.ChannelProtocol?
    ensures b.InvalidSetup? <==> e.ConnectionProtocol?
    ensures b.BowlerGeneral? <==> e.OtherException?
    ensures b.info == e.info
    ensures b.parameters == parameters && b.arguments == arguments
  {
    if e.ChannelProtocol? then DeclarationMismatch(e.info, parameters, arguments)
    else if e.ConnectionProtocol? then InvalidSetup(e.info, parameters, arguments)
    else BowlerGeneral(e.info, parameters, arguments)
  }

  /** The caught exception as far as a Bowler exception records it: its
      kind and its seven getter values. Every Bowler exception is the
      classification of that; `Translate` proves the other direction, that
      the kind and the getter values are recovered exactly. */
  function Original(b: BowlerException): (e: CaughtException)
    ensures Classify(e, b.parameters, b.arguments) == b
  {
    match b
    case DeclarationMismatch(info, _, _) => ChannelProtocol(info)
    case InvalidSetup(info, _, _) => ConnectionProtocol(info)
    case BowlerGeneral(info, _, _) => OtherException(info)
  }

  /** `handleServerException` as a value: the two recognised kinds are
      returned, a general Bowler exception is thrown. */
  function Translate(e: CaughtException, parameters: Value, arguments: Value): (o: Outcome)
    ensures o.exception == Classify(e, parameters, arguments)
    ensures Original(o.exception) == e
    ensures o.Thrown? <==> e.OtherException?
    ensures o.Returned? <==> (e.ChannelProtocol? || e.ConnectionProtocol?)
  {
    var b := Classify(e, parameters, arguments);
    if b.BowlerGeneral? then Thrown(b) else Returned(b)
  }
}
