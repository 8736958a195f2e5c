# Bowler's broker-exception handler, modelled in Dafny

Bowler is a PHP layer over an AMQP 0-9-1 broker client. Its exception
`Handler` class takes an exception caught at the broker
boundary and turns it into one of Bowler's three exceptions. The `instanceof`
checks are made in order:

- an `AMQPProtocolChannelException` becomes a `DeclarationMismatchException`;
- an `AMQPProtocolConnectionException` becomes an `InvalidSetupException`;
- any other exception becomes a `BowlerGeneralException`.

The new exception gets the original's message, code, file, line, trace,
previous exception and trace string. It also gets the caller's
`$parameters` and `$arguments`, which default to empty arrays when the
caller leaves them out. A declaration mismatch or an invalid setup is first
reported, then rendered, through the application's exception handler (the
object bound to the `BowlerExceptionHandler` contract), and is then
returned. A general Bowler exception is thrown at once and is neither
reported nor rendered.

The project has two modules:

- `BowlerExceptions` (`exceptions.dfy`) holds the data:
  - PHP values for the two arrays;
  - the getters' data as `ErrInfo`;
  - the caught exception (`CaughtException`, one constructor per kind);
  - the Bowler exception (`BowlerException`);
  - `Outcome`, which says whether the exception was returned or thrown.

  It also holds the pure translation: `OrEmpty`, `Classify`, `Original`
  (which recovers the kind and getter values of the caught exception), and
  `Translate`.
- `ExceptionHandling` (`handler.dfy`) holds the state:
  - the application's exception handler, as a class whose only observable
    state is the ordered list of `Report`/`Render` calls it has received;
  - the `Handler` class, with the application handler as a field fixed at
    construction and the methods `HandleServerException`, `ReportError`
    and `RenderError`.

  Each method states exactly what it appends to that list and what it
  returns. `Run` describes a series of `handleServerException` calls. The
  lemmas about it prove three things over every series of calls: reports
  and renders come in pairs, report first; only the recognised kinds reach
  the hooks; and each recognised call has its own pair at a position fixed
  by the calls before it.

A thrown exception is modelled as the value `Thrown(b)` of the method's
result. An argument the caller omits is `None`. An explicit null passed by
the caller is `Some(Null)`: the source's default applies only to an omitted
argument, so an explicit null is kept as it is, and the model keeps it too.

Two facts about the code are worth stating outright:

- Not every classified exception reaches the hooks. The general kind is
  thrown at once, without being reported or rendered
  (src/Exceptions/Handler.php:46-48).
- Only an omitted array becomes `[]`. An explicit null passed by the caller
  goes into the Bowler exception as it is (src/Exceptions/Handler.php:36).

## Model

| member | source | states |
|---|---|---|
| BowlerExceptions.OrEmpty | src/Exceptions/Handler.php:36 | an omitted `$parameters`/`$arguments` is an empty array, never null; a passed value is kept exactly, an explicit null included |
| BowlerExceptions.Classify | src/Exceptions/Handler.php:38-48 | channel-protocol iff declaration mismatch, connection-protocol iff invalid setup, anything else iff general; the message, code, file, line, trace, previous and trace string are the original's; the parameters and arguments are exactly those passed in |
| BowlerExceptions.Original | src/Exceptions/Handler.php:39-47 | every Bowler exception is the classification of the broker-side exception it records, with its own parameters and arguments |
| BowlerExceptions.Translate | src/Exceptions/Handler.php:38-53 | the result carries the classified exception, from which `Original` recovers the kind and the seven getter values of the input exactly; it is thrown exactly when the input is neither a channel- nor a connection-protocol exception, and returned exactly when it is one of them |
| ExceptionHandling.Handler.constructor | src/Exceptions/Handler.php:22-25 | the handler is bound to the given application exception handler |
| ExceptionHandling.Handler.HandleServerException | src/Exceptions/Handler.php:36-54 | the outcome is the translation of `e` with the defaulted arrays; a returned exception was reported and then rendered, both with a null message and nothing else appended; a thrown one left the application handler's calls unchanged |
| ExceptionHandling.Handler.ReportError | src/Exceptions/Handler.php:56-59 | the pair `(e, msg)` is forwarded unchanged, once, as a report to the application handler, and nothing else changes there |
| ExceptionHandling.Handler.RenderError | src/Exceptions/Handler.php:61-64 | the pair `(e, msg)` is forwarded unchanged, once, as a render to the application handler, and nothing else changes there |
| ExceptionHandling.AppExceptionHandler.ReportError | src/Exceptions/Handler.php:58 | the application handler records one report of exactly the pair it receives |
| ExceptionHandling.AppExceptionHandler.RenderError | src/Exceptions/Handler.php:63 | the application handler records one render of exactly the pair it receives |
| ExceptionHandling.RunReportsThenRenders | src/Exceptions/Handler.php:50-51 | over any series of `handleServerException` calls, the application handler's calls are report/render pairs: reports at even positions, renders at odd ones, each render about the exception and message reported just before it |
| ExceptionHandling.RunHooksOnlyRecognised | src/Exceptions/Handler.php:46-51 | over any series of `handleServerException` calls, every hook call carries a null message and a declaration-mismatch or invalid-setup exception, never a general one |
| ExceptionHandling.RunLength | src/Exceptions/Handler.php:46-53 | over any series of `handleServerException` calls, the hooks are called exactly twice per recognised exception and never for the others |
| ExceptionHandling.HandleSeries | src/Exceptions/Handler.php:36-54 | a caller handing a series of exceptions to one `Handler`, catching each thrown one, gets each call's own translation, and the application handler receives exactly the calls `Run` describes, so the `Run` lemmas hold of the object |
| ExceptionHandling.RunReportsEachRecognised | src/Exceptions/Handler.php:38-53 | the recognised call at index `j` gets its report and render at positions `2k` and `2k+1`, where `k` counts the recognised calls before it; both carry that call's own classified exception |

## Left out

- The application's `BowlerExceptionHandler` implementation is not part of this model. Its logging and rendering are reduced to the ordered list of calls it receives.
- The constructors of `DeclarationMismatchException`, `InvalidSetupException` and `BowlerGeneralException` are not part of this model. The model assumes they store the nine values they are given.
- PHP class loading is not modelled. `Handler.php` declares its class in the namespace `Vinalab\Bowler\Exceptions`, but the autoloader maps only the prefix `Vinelab\Bowler\` to `src/`.
- `src/Consumer.php` is not modelled. It only passes calls through to the broker client's channel: exchange, queue and binding declaration, `basic_qos`, `basic_consume`, and the blocking `wait` loop. It also writes to standard output and creates the message handler dynamically. It has no acknowledgement, rejection or dead-letter logic to verify.
- `vendor/composer/autoload_static.php` holds generated autoload tables and has no behaviour.
- Exception propagation is modelled as a returned value (`Thrown`), not as control flow that unwinds the caller. `Run` assumes each caller catches a thrown exception and goes on.
- ExceptionHandling.Handler.HandleServerException: assumes the application's `reportError` and `renderError` return normally. In PHP either hook may throw. If `reportError` throws, `renderError` is never called, `return $e` is never reached, and the hook's exception escapes instead (src/Exceptions/Handler.php:50-53, 58, 63). The model has no outcome for that case. The `Run` lemmas and `HandleSeries` rest on the same assumption.
- `OtherException` keeps only the getter values of a caught exception and erases its concrete class (`\RuntimeException`, `\LogicException`, ...). Two caught exceptions with the same getter values therefore become the same `BowlerGeneralException`. The caught object is not chained into the Bowler exception either: its previous is the original's own `getPrevious()` (src/Exceptions/Handler.php:39, 43, 47).
- Array keys and values are modelled as a closed set of PHP scalars and nested arrays. Objects inside `$parameters` or `$arguments` are not represented.
