/**
 * `Log`: a static facade over a PSR-3 logger. The static field `$logger` is modelled by
 * an object of class `Log` whose field the methods update; the logger it forwards to
 * records every call it receives.
 */
module LogFacade {
  import opened Wrappers
  import opened PhpValues
  import opened HttpMessages

  /** A call the logger received: the method name and its parameters. */
  datatype LogCall = LogCall(name: string, params: seq<Value>)

  /** A PSR-3 logger; what it does with a call is not part of this model. */
  class Logger {
    var received: seq<LogCall>

    constructor ()
      ensures received == []
    {
      received := [];
    }

    method Receive(c: LogCall)
      modifies this
      ensures received == old(received) + [c]
    {
      received := received + [c];
    }
  }

  const NotInitialized: string := "Log class has not been initialized. Please call Log::init() method first."

  class Log {
    /** `Log::$logger`, null until the first `init`. */
    var logger: Logger?

    /** The class as loaded: no logger yet. */
    constructor ()
      ensures logger == null
    {
      logger := null;
    }

    /** `init($logger)`: the first logger stays; later calls change nothing. */
    method Init(l: Logger)
      modifies this
      ensures old(logger) == null ==> logger == l
      ensures old(logger) != null ==> logger == old(logger)
    {
      if logger == null {
        logger := l;
      }
    }

    /**
     * `__callStatic($method, $params)`: before `init` it throws; afterwards the logger
     * receives the same method name and parameters. The logger itself never changes.
     */
    method Call(name: string, params: seq<Value>, at: Origin) returns (r: Result<(), Exception>)
      modifies logger
      ensures logger == old(logger)
      ensures old(logger) == null ==> r == Failure(UnexpectedValue(NotInitialized, at))
      ensures old(logger) != null ==> r == Success(()) && logger.received == old(logger.received) + [LogCall(name, params)]
    {
      if logger == null {
        return Failure(UnexpectedValue(NotInitialized, at));
      }
      logger.Receive(LogCall(name, params));
      return Success(());
    }
  }

  /** `Log::critical($message, $context)` is a call named "critical" with both parameters. */
  function Critical(message: string, context: seq<(Key, Value)>): LogCall {
    LogCall("critical", [Str(message), Arr(context)])
  }
}
