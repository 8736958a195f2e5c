/** Bowler's exception handler: it translates a caught broker exception and
    reports and renders it through the application's exception handler. */
module ExceptionHandling {
  import opened BowlerExceptions

  /** A delivered broker message, as the application's hooks may receive it. */
  datatype Delivery = Delivery(body: string, deliveryTag: nat)

  /** One call received by the application's exception handler. */
  datatype Event =
    | Report(e: Throwable, msg: Option<Delivery>)
    | Render(e: Throwable, msg: Option<Delivery>)

  /** The application object bound to the BowlerExceptionHandler contract.
      Its logging and rendering are the application's own; what the model
      keeps of it is the calls it receives, in order. */
  class AppExceptionHandler {
    var calls: seq<Event>

    constructor ()
      ensures calls == []
    {
      calls := [];
    }

    method ReportError(e: Throwable, msg: Option<Delivery>)
      modifies this
      ensures calls == old(calls) + [Report(e, msg)]
    {
      calls := calls + [Report(e, msg)];
    }

    method RenderError(e: Throwable, msg: Option<Delivery>)
      modifies this
      ensures calls == old(calls) + [Render(e, msg)]
    {
      calls := calls + [Render(e, msg)];
    }
  }

  /** The calls that one `handleServerException` with outcome `o` makes on
      the application's exception handler. */
  function Hooks(o: Outcome): (r: seq<Event>)
  {
    match o
    case Returned(b) => [Report(Bowler(b), None), Render(Bowler(b), None)]
    case Thrown(_) => []
  }

  class Handler {
    /** The application's exception handler, fixed at construction. */
    const exceptionHandler: AppExceptionHandler

    constructor (handler: AppExceptionHandler)
      ensures exceptionHandler == handler
    {
      exceptionHandler := handler;
    }

    /** Translates `e`. `None` for `parameters` or `arguments` stands for
        an omitted argument. A recognised exception is reported, then
        rendered, then returned; any other is thrown at once. */
    method HandleServerException(e: CaughtException, parameters: Option<Value>, arguments: Option<Value>)
      returns (o: Outcome)
      modifies exceptionHandler
      ensures o == Translate(e, OrEmpty(parameters), OrEmpty(arguments))
      ensures exceptionHandler.calls == old(exceptionHandler.calls) + Hooks(o)
      ensures o.Returned? ==>
                exceptionHandler.calls == old(exceptionHandler.calls) +
                  [Report(Bowler(o.exception), None), Render(Bowler(o.exception), None)]
      ensures o.Thrown? ==> exceptionHandler.calls == old(exceptionHandler.calls)
    {
      var params := OrEmpty(parameters);
      var args := OrEmpty(arguments);
      var b: BowlerException;
      if e.ChannelProtocol? {
        b := DeclarationMismatch(e.info, params, args);
      } else if e.ConnectionProtocol? {
        b := InvalidSetup(e.info, params, args);
      } else {
        return Thrown(BowlerGeneral(e.info, params, args));
      }
      ReportError(Bowler(b), None);
      RenderError(Bowler(b), None);
      return Returned(b);
    }

    /** Passes the pair on to the application's handler, once. */
    method ReportError(e: Throwable, msg: Option<Delivery>)
      modifies exceptionHandler
      ensures exceptionHandler.calls == old(exceptionHandler.calls) + [Report(e, msg)]
    {
      exceptionHandler.ReportError(e, msg);
    }

    /** Passes the pair on to the application's handler, once. */
    method RenderError(e: Throwable, msg: Option<Delivery>)
      modifies exceptionHandler
      ensures exceptionHandler.calls == old(exceptionHandler.calls) + [Render(e, msg)]
    {
      exceptionHandler.RenderError(e, msg);
    }
  }

  /** The arguments of one call of `handleServerException`. */
  datatype Request = Request(e: CaughtException, parameters: Option<Value>, arguments: Option<Value>)

  function Step(q: Request): (o: Outcome)
  {
    Translate(q.e, OrEmpty(q.parameters), OrEmpty(q.arguments))
  }

  /** The calls the application's exception handler receives from a series
      of `handleServerException` calls, each one appending `Hooks` of its
      outcome (a thrown exception is caught by the caller, who goes on). */
  function Run(rs: seq<Request>): (r: seq<Event>)
  {
    if rs == [] then [] else Run(rs[..|rs| - 1]) + Hooks(Step(rs[|rs| - 1]))
  }

  /** Number of requests whose exception is one of the two recognised kinds. */
  function Recognised(rs: seq<Request>): (n: nat)
  {
    if rs == [] then 0
    else Recognised(rs[..|rs| - 1]) + (if rs[|rs| - 1].e.OtherException? then 0 else 1)
  }

  /** A log made of report/render pairs: reports at even positions, renders
      at odd ones, and every render is about the exception and message
      reported just before it. */
  predicate ReportThenRender(log: seq<Event>)
  {
    && |log| % 2 == 0
    && (forall i :: 0 <= i < |log| ==> (log[i].Report? <==> i % 2 == 0))
    && (forall i :: 1 <= i < |log| && log[i].Render? ==> log[i - 1] == Report(log[i].e, log[i].msg))
  }

  /** Over any series of `handleServerException` calls, render is never
      called without the report of the same exception just before it. (The
      public `renderError` can still be called on its own.) */
  lemma {:induction false} RunReportsThenRenders(rs: seq<Request>)
    ensures ReportThenRender(Run(rs))
  {
    if rs != [] {
      var pre := rs[..|rs| - 1];
      RunReportsThenRenders(pre);
      var log: seq<Event>, h: seq<Event> := Run(pre), Hooks(Step(rs[|rs| - 1]));
      assert Run(rs) == log + h;
      forall i | 0 <= i < |log + h|
        ensures ((log + h)[i].Report? <==> i % 2 == 0)
      {
        if i >= |log| { assert (log + h)[i] == h[i - |log|]; }
      }
    }
  }

  /** Only declaration-mismatch and invalid-setup exceptions ever reach the
      application's hooks, always without a message; a general Bowler
      exception never does. */
  lemma {:induction false} RunHooksOnlyRecognised(rs: seq<Request>)
    ensures forall i :: 0 <= i < |Run(rs)| ==>
              && Run(rs)[i].msg == None
              && Run(rs)[i].e.Bowler?
              && !Run(rs)[i].e.translated.BowlerGeneral?
  {
    if rs != [] {
      RunHooksOnlyRecognised(rs[..|rs| - 1]);
    }
  }

  /** Exactly two hook calls per recognised exception, none for the others. */
  lemma {:induction false} RunLength(rs: seq<Request>)
    ensures |Run(rs)| == 2 * Recognised(rs)
  {
    if rs != [] {
      RunLength(rs[..|rs| - 1]);
    }
  }

  /** In a series of calls, the recognised request at index `j` has its
      report and render right after those of the recognised requests before
      it, both about its own translation. */
  lemma {:induction false} RunReportsEachRecognised(rs: seq<Request>, j: nat)
    requires j < |rs| && !rs[j].e.OtherException?
    ensures Recognised(rs[..j]) * 2 + 1 < |Run(rs)|
    ensures Run(rs)[2 * Recognised(rs[..j])] == Report(Bowler(Step(rs[j]).exception), None)
    ensures Run(rs)[2 * Recognised(rs[..j]) + 1] == Render(Bowler(Step(rs[j]).exception), None)
  {
    var pre := rs[..|rs| - 1];
    RunLength(pre);
    if j == |rs| - 1 {
      assert rs[..j] == pre;
    } else {
      assert pre[..j] == rs[..j];
      RunReportsEachRecognised(pre, j);
    }
  }

  /** A caller that hands a series of caught exceptions to `h`, catching
      each thrown one and going on: the application's handler receives
      exactly the calls `Run` describes. */
  method HandleSeries(h: Handler, rs: seq<Request>) returns (outcomes: seq<Outcome>)
    modifies h.exceptionHandler
    ensures |outcomes| == |rs|
    ensures forall i :: 0 <= i < |rs| ==> outcomes[i] == Step(rs[i])
    ensures h.exceptionHandler.calls == old(h.exceptionHandler.calls) + Run(rs)
  {
    outcomes := [];
    var i := 0;
    while i < |rs|
      invariant 0 <= i <= |rs|
      invariant |outcomes| == i
      invariant forall k :: 0 <= k < i ==> outcomes[k] == Step(rs[k])
      invariant h.exceptionHandler.calls == old(h.exceptionHandler.calls) + Run(rs[..i])
    {
      var o := h.HandleServerException(rs[i].e, rs[i].parameters, rs[i].arguments);
      assert rs[..i + 1][..i] == rs[..i];
      outcomes := outcomes + [o];
      i := i + 1;
    }
    assert rs[..i] == rs;
  }
}
