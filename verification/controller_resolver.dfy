/** The controller resolver: turns the controller reference of a resolved
    route into something the application can invoke, trying in order an
    array `[class-or-object, method]`, an invokable object, a function name
    and a controller class name. PHP's runtime (`class_exists`,
    `function_exists`, `is_callable`, `new $class()`) is an abstract
    environment. */
module ControllerResolver {
  import opened Wrappers

  /** An object created by `new $class()`; only its class is observable. */
  datatype Instance = Instance(cls: string)

  /** A value stored in one slot of an array controller reference. */
  datatype Slot = StrSlot(s: string) | ObjSlot(obj: Instance) | OtherSlot

  /** The controller reference of a route. An array reference records its
      slots 0 and 1 as `isset` sees them (absent or null is `None`). */
  datatype Controller =
    | ArrayRef(first: Option<Slot>, second: Option<Slot>)
    | ObjectRef(obj: Instance)
    | StringRef(name: string)
    | OtherRef

  /** The route handed to the resolver: its controller and its URI. */
  datatype Route = Route(controller: Controller, uri: string)

  /** What `new $class()` does with no arguments: it builds an instance,
      raises the `ArgumentCountError` of a constructor with required
      arguments, or raises any other error (an abstract class, an enum, a
      constructor that throws). */
  datatype Construction = Built | ArgumentCount | OtherError

  /** What the PHP runtime answers about classes, functions and callables. */
  datatype Runtime = Runtime(
    classExists: string -> bool,
    functionExists: string -> bool,
    /** the outcome of `new $class()` */
    construct: string -> Construction,
    /** `is_callable` on an array value */
    arrayCallable: (Option<Slot>, Option<Slot>) -> bool,
    /** `is_callable` on an object (a closure or an `__invoke` object) */
    objectCallable: Instance -> bool,
    /** `interface_exists(ControllerInterface::class)` */
    controllerInterfaceExists: bool)

  /** The exceptions `resolve` raises. */
  datatype ResolveError =
    | Unresolvable(uri: string)
    | RequiredArguments(cls: string)
    /** PHP's `callable` return type rejecting `[instance, 'execute']` */
    | NotCallableResult
    /** an error of `new $class()` other than `ArgumentCountError`, which
        `resolve` does not catch */
    | ConstructionError(cls: string)

  /** The message text for an error. The first two are
      `InvalidArgumentException`s; `NotCallableResult` is the `TypeError`
      PHP raises when the value breaks the `callable` return type. A
      construction error carries whatever message PHP or the constructor
      gave it, which the model does not know. */
  function Message(e: ResolveError): Option<string>
  {
    match e
    case Unresolvable(uri) => Some("Cannot resolve controller for URI `" + uri + "`")
    case RequiredArguments(cls) =>
      Some("Controller `" + cls + "` has required constructor arguments, cannot instantiate the class")
    case NotCallableResult => Some("Return value must be of type callable")
    case ConstructionError(_) => None
  }

  /** `is_callable` on a controller value. A known function name is
      callable. */
  predicate IsCallable(rt: Runtime, c: Controller)
  {
    match c
    case ArrayRef(a, b) => rt.arrayCallable(a, b)
    case ObjectRef(o) => rt.objectCallable(o)
    case StringRef(n) => rt.functionExists(n)
    case OtherRef => false
  }

  /** `instantiateController`: `new $class()`, an instance of the class or
      the error construction raised. */
  function InstantiateController(rt: Runtime, cls: string): (r: Result<Instance, Construction>)
    requires rt.classExists(cls)
    ensures r.Success? <==> rt.construct(cls) == Built
    ensures r.Success? ==> r.value.cls == cls
    ensures r.Failure? ==> r.error == rt.construct(cls) && r.error != Built
  {
    match rt.construct(cls)
    case Built => Success(Instance(cls))
    case e => Failure(e)
  }

  /** The array slots name a class to instantiate (`isset` on both slots and
      a string in slot 0). */
  predicate NamesClass(first: Option<Slot>, second: Option<Slot>)
  {
    first.Some? && first.value.StrSlot? && second.Some?
  }

  /** The class an error or a result refers to, when the controller names one. */
  function NamedClass(c: Controller): Option<string>
  {
    match c
    case ArrayRef(a, b) => if NamesClass(a, b) then Some(a.value.s) else None
    case StringRef(n) => Some(n)
    case _ => None
  }

  /** `resolve`: the first applicable branch decides. Every success is
      callable; every failure names the route's URI or the controller's
      class; an object is accepted unchanged exactly when it is callable. */
  function Resolve(rt: Runtime, route: Route): (r: Result<Controller, ResolveError>)
    ensures r.Success? ==> IsCallable(rt, r.value)
    ensures r.Failure? && r.error.RequiredArguments? ==>
              NamedClass(route.controller) == Some(r.error.cls)
              && rt.classExists(r.error.cls) && rt.construct(r.error.cls) == ArgumentCount
    ensures r.Failure? && r.error.ConstructionError? ==>
              NamedClass(route.controller) == Some(r.error.cls)
              && rt.classExists(r.error.cls) && rt.construct(r.error.cls) == OtherError
    ensures r.Failure? && r.error.Unresolvable? ==> r.error.uri == route.uri
    ensures route.controller.ObjectRef? ==>
              (r.Success? <==> IsCallable(rt, route.controller))
              && (r.Success? ==> r.value == route.controller)
  {
    match route.controller
    case ArrayRef(first, second) =>
      if NamesClass(first, second) then
        var cls := first.value.s;
        if !rt.classExists(cls) then Failure(Unresolvable(route.uri))
        else
          (match InstantiateController(rt, cls)
           case Failure(ArgumentCount) => Failure(RequiredArguments(cls))
           case Failure(_) => Failure(ConstructionError(cls))
           case Success(obj) =>
             var c := ArrayRef(Some(ObjSlot(obj)), second);
             if !IsCallable(rt, c) then Failure(Unresolvable(route.uri)) else Success(c))
      else if !IsCallable(rt, route.controller) then Failure(Unresolvable(route.uri))
      else Success(route.controller)
    case ObjectRef(obj) =>
      if !IsCallable(rt, route.controller) then Failure(Unresolvable(route.uri))
      else Success(route.controller)
    case StringRef(name) =>
      if rt.functionExists(name) then Success(route.controller)
      else if !rt.controllerInterfaceExists then Failure(Unresolvable(route.uri))
      else if !rt.classExists(name) then Failure(Unresolvable(route.uri))
      else
        (match InstantiateController(rt, name)
         case Failure(ArgumentCount) => Failure(RequiredArguments(name))
         case Failure(_) => Failure(ConstructionError(name))
         case Success(obj) =>
           var c := ArrayRef(Some(ObjSlot(obj)), Some(StrSlot("execute")));
           if !IsCallable(rt, c) then Failure(NotCallableResult) else Success(c))
    case OtherRef => Failure(Unresolvable(route.uri))
  }

  // -----------------------------------------------------------------------
  // Branch-by-branch properties
  // -----------------------------------------------------------------------

  /** An array naming an existing zero-argument class resolves to the same
      pair with slot 0 replaced by a fresh instance, when that pair is
      callable; otherwise the URI error is raised. */
  lemma ArrayWithZeroArgClass(rt: Runtime, cls: string, action: Slot, uri: string)
    requires rt.classExists(cls) && rt.construct(cls) == Built
    ensures var r := Resolve(rt, Route(ArrayRef(Some(StrSlot(cls)), Some(action)), uri));
            var c := ArrayRef(Some(ObjSlot(Instance(cls))), Some(action));
            if IsCallable(rt, c) then r == Success(c) else r == Failure(Unresolvable(uri))
  {
  }

  /** An array whose slot-0 class does not exist fails with the URI error. */
  lemma ArrayWithMissingClass(rt: Runtime, cls: string, action: Slot, uri: string)
    requires !rt.classExists(cls)
    ensures Resolve(rt, Route(ArrayRef(Some(StrSlot(cls)), Some(action)), uri))
            == Failure(Unresolvable(uri))
  {
  }

  /** A class whose constructor needs arguments fails with the message naming
      the class, whether it comes in an array or as a class name. */
  lemma RequiredArgumentsNamesClass(rt: Runtime, cls: string, action: Slot, uri: string)
    requires rt.classExists(cls) && rt.construct(cls) == ArgumentCount
    requires !rt.functionExists(cls) && rt.controllerInterfaceExists
    ensures Resolve(rt, Route(ArrayRef(Some(StrSlot(cls)), Some(action)), uri))
            == Failure(RequiredArguments(cls))
    ensures Resolve(rt, Route(StringRef(cls), uri)) == Failure(RequiredArguments(cls))
    ensures Message(RequiredArguments(cls)) ==
            Some("Controller `" + cls + "` has required constructor arguments, cannot instantiate the class")
  {
    assert InstantiateController(rt, cls) == Failure(ArgumentCount);
  }

  /** Any other error of `new $class()` is not caught: it escapes `resolve`
      for the class, whether it comes in an array or as a class name. */
  lemma ConstructionErrorEscapes(rt: Runtime, cls: string, action: Slot, uri: string)
    requires rt.classExists(cls) && rt.construct(cls) == OtherError
    requires !rt.functionExists(cls) && rt.controllerInterfaceExists
    ensures Resolve(rt, Route(ArrayRef(Some(StrSlot(cls)), Some(action)), uri))
            == Failure(ConstructionError(cls))
    ensures Resolve(rt, Route(StringRef(cls), uri)) == Failure(ConstructionError(cls))
  {
    assert InstantiateController(rt, cls) == Failure(OtherError);
  }

  /** An ordinary array callable (one that names no class to instantiate,
      such as `[$object, 'method']`) is returned unchanged exactly when it is
      callable, and fails with the URI error otherwise. */
  lemma ArrayCallable(rt: Runtime, first: Option<Slot>, second: Option<Slot>, uri: string)
    requires !NamesClass(first, second)
    ensures var r := Resolve(rt, Route(ArrayRef(first, second), uri));
            && (r.Success? <==> rt.arrayCallable(first, second))
            && (r.Success? ==> r.value == ArrayRef(first, second))
            && (r.Failure? ==> r.error == Unresolvable(uri))
  {
  }

  /** A function name is returned unchanged, before any class lookup. */
  lemma FunctionBeforeClass(rt: Runtime, name: string, uri: string)
    requires rt.functionExists(name)
    ensures Resolve(rt, Route(StringRef(name), uri)) == Success(StringRef(name))
  {
  }

  /** A class name that is not a function resolves to `[instance, 'execute']`
      for an existing zero-argument class, to the URI error for an unknown
      class, and to the `callable` type error when `[instance, 'execute']` is
      not callable; whether the class implements the controller interface is
      not examined. */
  lemma ClassNameBranch(rt: Runtime, name: string, uri: string)
    requires !rt.functionExists(name) && rt.controllerInterfaceExists
    ensures !rt.classExists(name) ==>
              Resolve(rt, Route(StringRef(name), uri)) == Failure(Unresolvable(uri))
    ensures var c := ArrayRef(Some(ObjSlot(Instance(name))), Some(StrSlot("execute")));
            rt.classExists(name) && rt.construct(name) == Built && IsCallable(rt, c) ==>
              Resolve(rt, Route(StringRef(name), uri)) == Success(c)
    ensures var c := ArrayRef(Some(ObjSlot(Instance(name))), Some(StrSlot("execute")));
            rt.classExists(name) && rt.construct(name) == Built && !IsCallable(rt, c) ==>
              Resolve(rt, Route(StringRef(name), uri)) == Failure(NotCallableResult)
  {
  }

  /** Without the controller interface, a name that is not a function falls
      through to the URI error, whether or not it names a class. */
  lemma ClassNameWithoutInterface(rt: Runtime, name: string, uri: string)
    requires !rt.functionExists(name) && !rt.controllerInterfaceExists
    ensures Resolve(rt, Route(StringRef(name), uri)) == Failure(Unresolvable(uri))
  {
  }

  /** A reference that matches no branch fails with the URI error. */
  lemma UnsupportedReference(rt: Runtime, uri: string)
    ensures Resolve(rt, Route(OtherRef, uri)) == Failure(Unresolvable(uri))
    ensures Message(Unresolvable(uri)) == Some("Cannot resolve controller for URI `" + uri + "`")
  {
  }

  // -----------------------------------------------------------------------
  // The test fixtures
  // -----------------------------------------------------------------------

  const RegistryClass := "Joomla\\Registry\\Registry"
  const EventClass := "Joomla\\Application\\Event\\ApplicationEvent"
  const StubController := "Joomla\\Application\\Tests\\Stubs\\Controller"
  const StubWithArguments := "Joomla\\Application\\Tests\\Stubs\\HasArgumentsController"

  /** The runtime the resolver tests run in: the registry and the stub
      controller construct without arguments, the application event and the
      stub with arguments do not; `str_replace` is a function. */
  function TestRuntime(): Runtime
  {
    Runtime(
      cls => cls in {RegistryClass, EventClass, StubController, StubWithArguments},
      f => f == "str_replace",
      cls => if cls in {EventClass, StubWithArguments} then ArgumentCount else Built,
      (a, b) => (a == Some(ObjSlot(Instance(RegistryClass))) && b == Some(StrSlot("get")))
                || (a == Some(ObjSlot(Instance(StubController))) && b == Some(StrSlot("execute"))),
      (o: Instance) => o.cls == "Closure",
      true)
  }

  /** The outcomes the resolver tests assert. */
  lemma ResolverTestCases()
    ensures Resolve(TestRuntime(), Route(ArrayRef(Some(StrSlot(RegistryClass)), Some(StrSlot("get"))), "/"))
            == Success(ArrayRef(Some(ObjSlot(Instance(RegistryClass))), Some(StrSlot("get"))))
    ensures Resolve(TestRuntime(), Route(ArrayRef(Some(StrSlot(RegistryClass)), Some(StrSlot("noWayThisWillEverExist"))), "/"))
            == Failure(Unresolvable("/"))
    ensures Resolve(TestRuntime(), Route(ArrayRef(Some(StrSlot(EventClass)), Some(StrSlot("getApplication"))), "/"))
            == Failure(RequiredArguments(EventClass))
    ensures Resolve(TestRuntime(), Route(ObjectRef(Instance("Closure")), "/"))
            == Success(ObjectRef(Instance("Closure")))
    ensures Resolve(TestRuntime(), Route(StringRef("str_replace"), "/")) == Success(StringRef("str_replace"))
    ensures Resolve(TestRuntime(), Route(StringRef(StubController), "/"))
            == Success(ArrayRef(Some(ObjSlot(Instance(StubController))), Some(StrSlot("execute"))))
    ensures Resolve(TestRuntime(), Route(StringRef(StubWithArguments), "/"))
            == Failure(RequiredArguments(StubWithArguments))
  {
  }
}
