/** The base application: a configuration store, a lazily installed logger,
    an optional event dispatcher and the `execute` lifecycle that wraps the
    application routine in BEFORE/AFTER events and turns any throwable into
    an ERROR event. The registry is a map from keys to values of an
    arbitrary type `V`; the dispatcher is described by which event names
    have a listener that throws. */
module Application {
  import opened Wrappers

  /** The three lifecycle events `execute` dispatches. */
  datatype EventName = BeforeExecute | AfterExecute | Error

  /** Something thrown: by the routine or by a listener. */
  datatype Throwable = Throwable(id: nat)

  /** An event object: the default application event for a name, or the error
      event that carries the throwable. */
  datatype Event = ApplicationEvent(name: EventName) | ErrorEvent(thrown: Throwable)

  /** An event dispatcher. `failing[n]` is the throwable a listener for `n`
      raises; events not in `failing` are dispatched quietly. */
  datatype Dispatcher = Dispatcher(failing: map<EventName, Throwable>)

  datatype Logger = NullLogger | CustomLogger(id: nat)

  datatype App<V> = App(config: map<string, V>, logger: Option<Logger>, dispatcher: Option<Dispatcher>)

  /** One observable step of `execute`. */
  datatype Step = Dispatched(name: EventName, event: Event) | RoutineRan

  /** How the application routine `doExecute` ends. */
  datatype Outcome = Completed | Throws(thrown: Throwable)

  /** The steps of a run and the throwable that escaped it, if any. */
  datatype Run = Run(trace: seq<Step>, escaped: Option<Throwable>)

  // -----------------------------------------------------------------------
  // Construction and configuration
  // -----------------------------------------------------------------------

  const DateTimeKey := "execution.datetime"
  const TimestampKey := "execution.timestamp"
  const MicroTimestampKey := "execution.microtimestamp"

  /** The constructor: the given registry (a fresh empty one otherwise) with
      the three execution clock readings stored in it; no logger and no
      dispatcher. The clock readings are parameters. */
  function New<V>(config: Option<map<string, V>>, datetime: V, timestamp: V, microtimestamp: V): (app: App<V>)
    ensures app.logger.None? && app.dispatcher.None?
    ensures Get(app, DateTimeKey, datetime) == datetime
    ensures {DateTimeKey, TimestampKey, MicroTimestampKey} <= app.config.Keys
    ensures app.config[DateTimeKey] == datetime && app.config[TimestampKey] == timestamp
            && app.config[MicroTimestampKey] == microtimestamp
    ensures forall k :: k in app.config && k !in {DateTimeKey, TimestampKey, MicroTimestampKey} ==>
              config.Some? && k in config.value && app.config[k] == config.value[k]
    ensures config.Some? ==> config.value.Keys <= app.config.Keys
  {
    var base := App(config.GetOr(map[]), None, None);
    var a1 := Set(base, DateTimeKey, datetime).0;
    var a2 := Set(a1, TimestampKey, timestamp).0;
    Set(a2, MicroTimestampKey, microtimestamp).0
  }

  /** `get`: the stored value, or `default` when the key is absent. */
  function Get<V>(app: App<V>, key: string, default: V): (r: V)
    ensures key in app.config ==> r == app.config[key]
    ensures key !in app.config ==> r == default
  {
    if key in app.config then app.config[key] else default
  }

  /** `set`: stores `value` under `key` and returns the previous value
      (`None` for PHP `null` when the key was absent). Nothing else changes. */
  function Set<V>(app: App<V>, key: string, value: V): (r: (App<V>, Option<V>))
    ensures key in r.0.config && r.0.config[key] == value
    ensures r.1.Some? <==> key in app.config
    ensures r.1.Some? ==> r.1.value == app.config[key]
    ensures r.0.config.Keys == app.config.Keys + {key}
    ensures forall k :: k in app.config && k != key ==> r.0.config[k] == app.config[k]
    ensures r.0.logger == app.logger && r.0.dispatcher == app.dispatcher
  {
    var previous := if key in app.config then Some(app.config[key]) else None;
    (app.(config := app.config[key := value]), previous)
  }

  /** Reading a key right after setting it gives the value just set; other
      keys read as before. */
  lemma SetThenGet<V>(app: App<V>, key: string, value: V, other: string, default: V)
    ensures Get(Set(app, key, value).0, key, default) == value
    ensures other != key ==> Get(Set(app, key, value).0, other, default) == Get(app, other, default)
  {
  }

  /** Setting a key twice returns the first value as the previous one and
      leaves the second. */
  lemma SetTwice<V>(app: App<V>, key: string, v1: V, v2: V)
    ensures Set(Set(app, key, v1).0, key, v2).1 == Some(v1)
    ensures Set(Set(app, key, v1).0, key, v2).0.config == app.config[key := v2]
  {
  }

  /** `setConfiguration`: replaces the whole store; the application itself
      is returned (the result is the same application with the new store). */
  function SetConfiguration<V>(app: App<V>, config: map<string, V>): (r: App<V>)
    ensures r.config == config
    ensures r.logger == app.logger && r.dispatcher == app.dispatcher
  {
    app.(config := config)
  }

  /** `getLogger`: installs a null logger when none is set and returns the
      logger; a logger that was set is kept. */
  function GetLogger<V>(app: App<V>): (r: (App<V>, Logger))
    ensures r.0.logger == Some(r.1)
    ensures app.logger.Some? ==> r.0 == app && r.1 == app.logger.value
    ensures app.logger.None? ==> r.1 == NullLogger && r.0.config == app.config && r.0.dispatcher == app.dispatcher
  {
    match app.logger
    case Some(l) => (app, l)
    case None => (app.(logger := Some(NullLogger)), NullLogger)
  }

  /** Asking twice gives the same logger and does not change the
      application again. */
  lemma GetLoggerIdempotent<V>(app: App<V>)
    ensures GetLogger(GetLogger(app).0) == GetLogger(app)
  {
  }

  // -----------------------------------------------------------------------
  // Events
  // -----------------------------------------------------------------------

  /** `dispatchEvent`: without a dispatcher nothing is dispatched and the
      result is `null`; otherwise the given event, or the default application
      event for the name, is dispatched and returned, unless a listener
      throws. */
  function DispatchEvent(dispatcher: Option<Dispatcher>, name: EventName, event: Option<Event>)
    : (r: (Result<Option<Event>, Throwable>, seq<Step>))
    ensures dispatcher.None? ==> r == (Success(None), [])
    ensures dispatcher.Some? ==> r.1 == [Dispatched(name, event.GetOr(ApplicationEvent(name)))]
    ensures dispatcher.Some? && name !in dispatcher.value.failing ==>
              r.0 == Success(Some(event.GetOr(ApplicationEvent(name))))
    ensures dispatcher.Some? && name in dispatcher.value.failing ==>
              r.0 == Failure(dispatcher.value.failing[name])
  {
    match dispatcher
    case None => (Success(None), [])
    case Some(d) =>
      var e := event.GetOr(ApplicationEvent(name));
      if name in d.failing then (Failure(d.failing[name]), [Dispatched(name, e)])
      else (Success(Some(e)), [Dispatched(name, e)])
  }

  /** The `catch` of `execute`: dispatches the error event carrying the
      throwable after the steps so far; a listener that throws on it lets its
      throwable escape. */
  function HandleThrowable(dispatcher: Option<Dispatcher>, prefix: seq<Step>, t: Throwable): (r: Run)
    ensures dispatcher.None? ==> r == Run(prefix, None)
    ensures dispatcher.Some? ==> r.trace == prefix + [Dispatched(Error, ErrorEvent(t))]
    ensures r.escaped.Some? <==> dispatcher.Some? && Error in dispatcher.value.failing
  {
    var (res, steps) := DispatchEvent(dispatcher, Error, Some(ErrorEvent(t)));
    Run(prefix + steps, if res.Failure? then Some(res.error) else None)
  }

  /** A listener for `name` throws. */
  predicate Fails(dispatcher: Option<Dispatcher>, name: EventName)
  {
    dispatcher.Some? && name in dispatcher.value.failing
  }

  /** `execute`: BEFORE_EXECUTE, the routine, AFTER_EXECUTE; the first
      throwable stops the sequence and is handed to the error event, and only
      a throwable from the error listener escapes. The routine runs exactly
      when the BEFORE_EXECUTE listener does not throw. */
  function Execute<V>(app: App<V>, routine: Outcome): (r: Run)
    ensures RoutineRan in r.trace <==> !Fails(app.dispatcher, BeforeExecute)
    ensures r.escaped.Some? ==> Fails(app.dispatcher, Error)
                                && r.escaped.value == app.dispatcher.value.failing[Error]
    ensures app.dispatcher.None? ==> r.escaped.None?
  {
    var (before, s1) := DispatchEvent(app.dispatcher, BeforeExecute, None);
    if before.Failure? then HandleThrowable(app.dispatcher, s1, before.error)
    else
      var s2 := s1 + [RoutineRan];
      match routine
      case Throws(t) => HandleThrowable(app.dispatcher, s2, t)
      case Completed =>
        var (after, s3) := DispatchEvent(app.dispatcher, AfterExecute, None);
        if after.Failure? then HandleThrowable(app.dispatcher, s2 + s3, after.error)
        else Run(s2 + s3, None)
  }

  /** How many steps of a trace are runs of the routine. */
  function CountRoutine(trace: seq<Step>): nat
  {
    if |trace| == 0 then 0 else (if trace[0].RoutineRan? then 1 else 0) + CountRoutine(trace[1..])
  }

  /** How many steps of a trace dispatch the named event. */
  function CountDispatched(trace: seq<Step>, name: EventName): nat
  {
    if |trace| == 0 then 0
    else (if trace[0].Dispatched? && trace[0].name == name then 1 else 0) + CountDispatched(trace[1..], name)
  }

  /** The counts of two traces one after the other add up. */
  lemma {:induction false} CountsAppend(a: seq<Step>, b: seq<Step>, name: EventName)
    ensures CountRoutine(a + b) == CountRoutine(a) + CountRoutine(b)
    ensures CountDispatched(a + b, name) == CountDispatched(a, name) + CountDispatched(b, name)
    decreases |a|
  {
    if |a| == 0 {
      assert a + b == b;
    } else {
      assert (a + b)[1..] == a[1..] + b;
      CountsAppend(a[1..], b, name);
    }
  }

  /** The counts of a trace of one step. */
  lemma CountsOne(x: Step, name: EventName)
    ensures CountRoutine([x]) == if x.RoutineRan? then 1 else 0
    ensures CountDispatched([x], name) == if x.Dispatched? && x.name == name then 1 else 0
  {
    assert [x][1..] == [];
  }

  /** What the counting lemma says of a trace. */
  predicate CountsBounded(dispatcher: Option<Dispatcher>, t: seq<Step>)
  {
    CountRoutine(t) <= 1 && CountDispatched(t, Error) <= 1
    && (CountDispatched(t, AfterExecute) > 0 && !Fails(dispatcher, AfterExecute) ==> CountDispatched(t, Error) == 0)
  }

  /** Appending one step to a trace, with both counted names. */
  lemma CountsSnoc(t: seq<Step>, x: Step)
    ensures CountRoutine(t + [x]) == CountRoutine(t) + (if x.RoutineRan? then 1 else 0)
    ensures CountDispatched(t + [x], Error) == CountDispatched(t, Error) + (if x.Dispatched? && x.name == Error then 1 else 0)
    ensures CountDispatched(t + [x], AfterExecute) ==
            CountDispatched(t, AfterExecute) + (if x.Dispatched? && x.name == AfterExecute then 1 else 0)
  {
    CountsAppend(t, [x], Error);
    CountsAppend(t, [x], AfterExecute);
    CountsOne(x, Error);
    CountsOne(x, AfterExecute);
  }

  /** Every run executes the routine at most once and dispatches at most one
      ERROR event; a run whose AFTER_EXECUTE listener did not throw
      dispatches no ERROR event. */
  lemma ExecuteCounts<V>(app: App<V>, routine: Outcome)
    ensures var r := Execute(app, routine);
            CountRoutine(r.trace) <= 1 && CountDispatched(r.trace, Error) <= 1
            && (CountDispatched(r.trace, AfterExecute) > 0 && !Fails(app.dispatcher, AfterExecute) ==>
                  CountDispatched(r.trace, Error) == 0)
  {
    var d := app.dispatcher;
    if d.None? {
      ExecuteWithoutDispatcher(app, routine);
      CountsSnoc([], RoutineRan);
      assert [] + [RoutineRan] == [RoutineRan];
    } else if Fails(d, BeforeExecute) {
      CountsBeforeThrows(app, routine);
    } else if routine.Throws? {
      CountsRoutineThrows(app, routine.thrown);
    } else if Fails(d, AfterExecute) {
      CountsAfterThrows(app);
    } else {
      CountsCompletes(app);
    }
  }

  lemma CountsBeforeThrows<V>(app: App<V>, routine: Outcome)
    requires app.dispatcher.Some? && BeforeExecute in app.dispatcher.value.failing
    ensures CountsBounded(app.dispatcher, Execute(app, routine).trace)
  {
    var before := Dispatched(BeforeExecute, ApplicationEvent(BeforeExecute));
    ExecuteBeforeThrows(app, routine);
    CountsSnoc([], before);
    CountsSnoc([before], Dispatched(Error, ErrorEvent(app.dispatcher.value.failing[BeforeExecute])));
    assert [] + [before] == [before];
  }

  lemma CountsRoutineThrows<V>(app: App<V>, t: Throwable)
    requires app.dispatcher.Some? && BeforeExecute !in app.dispatcher.value.failing
    ensures CountsBounded(app.dispatcher, Execute(app, Throws(t)).trace)
  {
    var before := Dispatched(BeforeExecute, ApplicationEvent(BeforeExecute));
    ExecuteRoutineThrows(app, t);
    CountsSnoc([], before);
    CountsSnoc([before], RoutineRan);
    CountsSnoc([before, RoutineRan], Dispatched(Error, ErrorEvent(t)));
    assert [] + [before] == [before];
    assert [before] + [RoutineRan] == [before, RoutineRan];
  }

  lemma CountsAfterThrows<V>(app: App<V>)
    requires app.dispatcher.Some? && BeforeExecute !in app.dispatcher.value.failing
    requires AfterExecute in app.dispatcher.value.failing
    ensures CountsBounded(app.dispatcher, Execute(app, Completed).trace)
  {
    var before := Dispatched(BeforeExecute, ApplicationEvent(BeforeExecute));
    var after := Dispatched(AfterExecute, ApplicationEvent(AfterExecute));
    ExecuteAfterThrows(app);
    CountsSnoc([], before);
    CountsSnoc([before], RoutineRan);
    CountsSnoc([before, RoutineRan], after);
    CountsSnoc([before, RoutineRan, after], Dispatched(Error, ErrorEvent(app.dispatcher.value.failing[AfterExecute])));
    assert [] + [before] == [before];
    assert [before] + [RoutineRan] == [before, RoutineRan];
    assert [before, RoutineRan] + [after] == [before, RoutineRan, after];
  }

  lemma CountsCompletes<V>(app: App<V>)
    requires app.dispatcher.Some?
    requires BeforeExecute !in app.dispatcher.value.failing && AfterExecute !in app.dispatcher.value.failing
    ensures CountsBounded(app.dispatcher, Execute(app, Completed).trace)
  {
    var before := Dispatched(BeforeExecute, ApplicationEvent(BeforeExecute));
    var after := Dispatched(AfterExecute, ApplicationEvent(AfterExecute));
    ExecuteCompletes(app);
    CountsSnoc([], before);
    CountsSnoc([before], RoutineRan);
    CountsSnoc([before, RoutineRan], after);
    assert [] + [before] == [before];
    assert [before] + [RoutineRan] == [before, RoutineRan];
  }

  // -----------------------------------------------------------------------
  // Lifecycle scenarios
  // -----------------------------------------------------------------------

  /** With a dispatcher whose BEFORE_EXECUTE and AFTER_EXECUTE listeners do
      not throw and a routine that completes, the run is BEFORE_EXECUTE, the
      routine once, AFTER_EXECUTE, and nothing escapes. */
  lemma ExecuteCompletes<V>(app: App<V>)
    requires app.dispatcher.Some?
    requires BeforeExecute !in app.dispatcher.value.failing && AfterExecute !in app.dispatcher.value.failing
    ensures Execute(app, Completed) ==
            Run([Dispatched(BeforeExecute, ApplicationEvent(BeforeExecute)), RoutineRan,
                 Dispatched(AfterExecute, ApplicationEvent(AfterExecute))], None)
  {
  }

  /** Without a dispatcher the routine still runs exactly once, nothing is
      dispatched and nothing escapes, whatever the routine does. */
  lemma ExecuteWithoutDispatcher<V>(app: App<V>, routine: Outcome)
    requires app.dispatcher.None?
    ensures Execute(app, routine) == Run([RoutineRan], None)
  {
  }

  /** A routine that throws: exactly one ERROR event carrying the throwable
      ends the run, no AFTER_EXECUTE is dispatched, and `execute` returns
      normally unless the error listener itself throws. */
  lemma ExecuteRoutineThrows<V>(app: App<V>, t: Throwable)
    requires app.dispatcher.Some? && BeforeExecute !in app.dispatcher.value.failing
    ensures var r := Execute(app, Throws(t));
            r.trace == [Dispatched(BeforeExecute, ApplicationEvent(BeforeExecute)), RoutineRan,
                        Dispatched(Error, ErrorEvent(t))]
            && (r.escaped.None? <==> Error !in app.dispatcher.value.failing)
  {
  }

  /** A BEFORE_EXECUTE listener that throws prevents the routine from
      running; its throwable is carried by the ERROR event. */
  lemma ExecuteBeforeThrows<V>(app: App<V>, routine: Outcome)
    requires app.dispatcher.Some? && BeforeExecute in app.dispatcher.value.failing
    ensures var t := app.dispatcher.value.failing[BeforeExecute];
            Execute(app, routine).trace ==
              [Dispatched(BeforeExecute, ApplicationEvent(BeforeExecute)), Dispatched(Error, ErrorEvent(t))]
  {
  }

  /** An AFTER_EXECUTE listener that throws comes after the routine ran; its
      throwable is carried by the ERROR event. */
  lemma ExecuteAfterThrows<V>(app: App<V>)
    requires app.dispatcher.Some? && BeforeExecute !in app.dispatcher.value.failing
    requires AfterExecute in app.dispatcher.value.failing
    ensures var t := app.dispatcher.value.failing[AfterExecute];
            Execute(app, Completed).trace ==
              [Dispatched(BeforeExecute, ApplicationEvent(BeforeExecute)), RoutineRan,
               Dispatched(AfterExecute, ApplicationEvent(AfterExecute)), Dispatched(Error, ErrorEvent(t))]
  {
  }
}
