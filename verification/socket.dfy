/**
 * The socket wrapper of `src/utils/socket.js` as an explicit state machine.
 *
 * The WebSocket object is an opaque handle; what the wrapper does to it
 * (`send` of a frame, `close` with an optional code and reason) is recorded in
 * a wire log instead of being performed.  The listener table is a JavaScript
 * object reached by reference: the wrapper's `#listeners` field holds a
 * reference into a heap of listener objects, and the module-level
 * `DEFAULT_LISTENERS` object is one shared entry of that heap.  `on` writes
 * into whatever object the field refers to, so handlers registered through
 * one wrapper land in the shared default object.
 */
module Socket {
  import opened Wrappers

  /** Port of the server endpoint. */
  const PORT: nat := 8001

  /** The only namespace `init` knows. */
  const SECURE_NAMESPACE: string := "secure"

  /** Decimal digits of a natural number, as a template literal prints it. */
  function DecimalString(n: nat): (s: string)
    ensures |s| > 0
    ensures forall i :: 0 <= i < |s| ==> '0' <= s[i] <= '9'
  {
    if n < 10 then [('0' as int + n) as char]
    else DecimalString(n / 10) + [('0' as int + n % 10) as char]
  }

  /** `ws://localhost:${PORT}/ws/secure`. */
  const SECURE_SOCKET_URI: string := "ws://localhost:" + DecimalString(PORT) + "/ws/secure"

  /** The endpoint of the secure namespace, spelled out. */
  lemma SecureSocketUri()
    ensures SECURE_SOCKET_URI == "ws://localhost:8001/ws/secure"
  {
    assert DecimalString(8) == "8";
    assert DecimalString(80) == "80";
    assert DecimalString(800) == "800";
    assert DecimalString(8001) == "8001";
  }

  /** The public `options` record of the wrapper. */
  datatype Options = Options(port: nat, uri: string, namespace: string)

  /** `options` before any `init`. */
  const INITIAL_OPTIONS: Options := Options(PORT, "none", "none")

  /** An opaque WebSocket object; only its identity matters. */
  datatype WebSocket = WebSocket(id: nat)

  /** A listener function value: the three logging defaults, or a function registered with `on`. */
  datatype Handler = LogConnect | LogError | LogClose | Callback(id: nat)

  /** The properties of a listener object. */
  type Listeners = map<string, Handler>

  /** A reference to a JavaScript object. */
  type Ref = nat

  /** The module-level `DEFAULT_LISTENERS` object. */
  const DEFAULT_LISTENERS: Ref := 0

  /** The properties `DEFAULT_LISTENERS` is created with. */
  const DEFAULT_ENTRIES: Listeners := map["connect" := LogConnect, "error" := LogError, "close" := LogClose]

  /** The listener objects in existence, by reference. */
  datatype Heap = Heap(objects: map<Ref, Listeners>)

  /** The heap at module load: only `DEFAULT_LISTENERS`, with its three defaults. */
  const INITIAL_HEAP: Heap := Heap(map[DEFAULT_LISTENERS := DEFAULT_ENTRIES])

  /** A JSON value, as carried in a frame's `data`; its text form is not modelled. */
  datatype Json =
    | JNull
    | JBool(b: bool)
    | JNumber(n: int)
    | JString(s: string)
    | JArray(items: seq<Json>)
    | JObject(fields: map<string, Json>)

  /** The object `{name, data}` that `emit` stringifies and sends, and `onmessage` receives. */
  datatype Frame = Frame(name: string, data: Json)

  /** What the wrapper asks of a WebSocket object. */
  datatype WireAction =
    | Send(socket: WebSocket, frame: Frame)
    | CloseSocket(socket: WebSocket, code: Option<int>, reason: Option<string>)

  /** The wrapper instance: `#ws` (null as None), `options`, `#listeners`, and the wire log. */
  datatype Client = Client(ws: Option<WebSocket>, options: Options, listeners: Ref, wire: seq<WireAction>)

  /** A freshly constructed wrapper. */
  const NEW_CLIENT: Client := Client(None, INITIAL_OPTIONS, DEFAULT_LISTENERS, [])

  /** The errors the wrapper throws, and the TypeError of calling a missing listener. */
  datatype SocketError =
    | UnknownNamespace
    | InitRequired
    | InitRequiredBeforeClose
    | NotAFunction(name: string)

  /** `DEFAULT_LISTENERS` exists, and the wrapper's listener field refers to an existing object. */
  predicate Valid(heap: Heap, c: Client)
  {
    DEFAULT_LISTENERS in heap.objects && c.listeners in heap.objects
  }

  /** The listener object the wrapper currently uses. */
  function Table(heap: Heap, c: Client): Listeners
    requires Valid(heap, c)
  {
    heap.objects[c.listeners]
  }

  /**
   * `init(namespace)`: for "secure", a new WebSocket (supplied by the caller,
   * since creating one is I/O) replaces the handle, whatever it was, and the
   * options name the secure endpoint; any other namespace throws before
   * anything changes.
   */
  function Init(c: Client, namespace: string, created: WebSocket): (r: Result<Client, SocketError>)
    ensures r.Ok? <==> namespace == SECURE_NAMESPACE
    ensures r.Err? ==> r.error == UnknownNamespace
    ensures r.Ok? ==> && r.value.ws == Some(created)
                      && r.value.options == Options(c.options.port, SECURE_SOCKET_URI, SECURE_NAMESPACE)
                      && r.value.listeners == c.listeners
                      && r.value.wire == c.wire
  {
    if namespace == SECURE_NAMESPACE then
      Ok(c.(ws := Some(created), options := c.options.(uri := SECURE_SOCKET_URI, namespace := SECURE_NAMESPACE)))
    else
      Err(UnknownNamespace)
  }

  /**
   * `on(event, handler)`: stores the handler under `event` in the object the
   * listener field refers to; every other entry and every other object is unchanged.
   */
  function On(heap: Heap, c: Client, event: string, handler: Handler): (h: Heap)
    requires Valid(heap, c)
    ensures Valid(h, c)
    ensures h.objects.Keys == heap.objects.Keys
    ensures event in Table(h, c) && Table(h, c)[event] == handler
    ensures Table(h, c).Keys == Table(heap, c).Keys + {event}
    ensures forall e :: e in Table(heap, c) && e != event ==> Table(h, c)[e] == Table(heap, c)[e]
    ensures forall r :: r in heap.objects && r != c.listeners ==> h.objects[r] == heap.objects[r]
  {
    Heap(heap.objects[c.listeners := heap.objects[c.listeners][event := handler]])
  }

  /**
   * `emit(event, data)`: throws when there is no handle and sends nothing;
   * otherwise sends exactly one frame `{name: event, data}` on the handle.
   */
  function Emit(c: Client, event: string, data: Json): (r: Result<Client, SocketError>)
    ensures r.Ok? <==> c.ws.Some?
    ensures r.Err? ==> r.error == InitRequired
    ensures r.Ok? ==> && r.value.wire == c.wire + [Send(c.ws.value, Frame(event, data))]
                      && r.value.ws == c.ws
                      && r.value.options == c.options
                      && r.value.listeners == c.listeners
  {
    match c.ws
    case None => Err(InitRequired)
    case Some(socket) => Ok(c.(wire := c.wire + [Send(socket, Frame(event, data))]))
  }

  /**
   * `close(removeListeners, code, reason)`: throws when there is no handle;
   * otherwise closes it and forgets it, and with `removeListeners` points the
   * listener field at `DEFAULT_LISTENERS`.
   */
  function Close(c: Client, removeListeners: bool, code: Option<int>, reason: Option<string>): (r: Result<Client, SocketError>)
    ensures r.Ok? <==> c.ws.Some?
    ensures r.Err? ==> r.error == InitRequiredBeforeClose
    ensures r.Ok? ==> && r.value.ws == None
                      && r.value.wire == c.wire + [CloseSocket(c.ws.value, code, reason)]
                      && r.value.options == c.options
                      && r.value.listeners == (if removeListeners then DEFAULT_LISTENERS else c.listeners)
  {
    match c.ws
    case None => Err(InitRequiredBeforeClose)
    case Some(socket) =>
      var closed := c.(ws := None, wire := c.wire + [CloseSocket(socket, code, reason)]);
      Ok(if removeListeners then closed.(listeners := DEFAULT_LISTENERS) else closed)
  }

  /** What the WebSocket delivers to the wrapper's four callbacks. */
  datatype Inbound =
    | Message(frame: Frame)
    | Opened
    | Errored
    | Closed

  /** The first argument a listener receives: a message's decoded `data`, or the event object. */
  datatype Argument = Payload(data: Json) | EventObject(kind: Inbound)

  /** A call of a listener with its first two arguments. */
  datatype Invocation = Invocation(handler: Handler, argument: Argument, options: Options)

  /** The listener name a callback looks up. */
  function ListenerName(event: Inbound): string
  {
    match event
    case Message(f) => f.name
    case Opened => "connect"
    case Errored => "error"
    case Closed => "close"
  }

  /**
   * The callbacks `init` installs: `onmessage` calls the listener stored under
   * the frame's name with its `data`; `onopen`, `onerror` and `onclose` call
   * `connect`, `error` and `close` with the event.  A missing listener is a
   * call of `undefined`, a TypeError.
   */
  function Dispatch(heap: Heap, c: Client, event: Inbound): (r: Result<Invocation, SocketError>)
    requires Valid(heap, c)
    ensures r.Ok? <==> ListenerName(event) in Table(heap, c)
    ensures r.Err? ==> r.error == NotAFunction(ListenerName(event))
    ensures r.Ok? ==> && r.value.handler == Table(heap, c)[ListenerName(event)]
                      && r.value.options == c.options
                      && (event.Message? ==> r.value.argument == Payload(event.frame.data))
  {
    var name := ListenerName(event);
    var table := Table(heap, c);
    if name !in table then Err(NotAFunction(name))
    else
      var argument := if event.Message? then Payload(event.frame.data) else EventObject(event);
      Ok(Invocation(table[name], argument, c.options))
  }

  /** `init` on a created wrapper: connected to the secure endpoint on port 8001. */
  lemma InitFresh(created: WebSocket)
    ensures Init(NEW_CLIENT, SECURE_NAMESPACE, created).Ok?
    ensures var c := Init(NEW_CLIENT, SECURE_NAMESPACE, created).value;
      && c.ws == Some(created)
      && c.options == Options(8001, "ws://localhost:8001/ws/secure", "secure")
  {
    SecureSocketUri();
  }

  /**
   * A second `init` does not check for or close the first connection: the
   * handle is simply replaced and nothing is sent to the old one.
   */
  lemma InitTwice(c: Client, first: WebSocket, second: WebSocket)
    ensures var c1 := Init(c, SECURE_NAMESPACE, first).value;
      && Init(c1, SECURE_NAMESPACE, second).Ok?
      && Init(c1, SECURE_NAMESPACE, second).value.ws == Some(second)
      && Init(c1, SECURE_NAMESPACE, second).value.wire == c.wire
  {
  }

  /** After a successful `close`, both `emit` and `close` throw. */
  lemma ClosedRejects(c: Client, removeListeners: bool, code: Option<int>, reason: Option<string>, event: string, data: Json)
    requires c.ws.Some?
    ensures var c1 := Close(c, removeListeners, code, reason).value;
      && Emit(c1, event, data) == Err(InitRequired)
      && Close(c1, removeListeners, code, reason) == Err(InitRequiredBeforeClose)
  {
  }

  /**
   * While the wrapper uses `DEFAULT_LISTENERS`, `close(true)` leaves every
   * listener where it was: the "reset" re-points the field to the very object
   * `on` has been writing into.
   */
  lemma CloseResetKeepsListeners(heap: Heap, c: Client, removeListeners: bool, code: Option<int>, reason: Option<string>)
    requires Valid(heap, c) && c.listeners == DEFAULT_LISTENERS && c.ws.Some?
    ensures var c1 := Close(c, removeListeners, code, reason).value;
      Valid(heap, c1) && Table(heap, c1) == Table(heap, c)
  {
  }

  /** A handler registered before `close(true)` is still the one dispatched to afterwards. */
  lemma HandlerSurvivesReset(heap: Heap, c: Client, event: string, handler: Handler, data: Json)
    requires Valid(heap, c) && c.listeners == DEFAULT_LISTENERS && c.ws.Some?
    ensures var h1 := On(heap, c, event, handler);
      var c1 := Close(c, true, None, None).value;
      Dispatch(h1, c1, Message(Frame(event, data))) == Ok(Invocation(handler, Payload(data), c.options))
  {
  }

  /** Two wrappers share `DEFAULT_LISTENERS`: a handler registered through one is dispatched by the other. */
  lemma ListenersShared(heap: Heap, a: Client, b: Client, event: string, handler: Handler, data: Json)
    requires Valid(heap, a) && a.listeners == DEFAULT_LISTENERS && b.listeners == DEFAULT_LISTENERS
    ensures Dispatch(On(heap, a, event, handler), b, Message(Frame(event, data))) == Ok(Invocation(handler, Payload(data), b.options))
  {
  }

  /** One call on the wrapper. */
  datatype Op =
    | InitOp(namespace: string, created: WebSocket)
    | OnOp(event: string, handler: Handler)
    | EmitOp(event: string, data: Json)
    | CloseOp(removeListeners: bool, code: Option<int>, reason: Option<string>)

  /** The shared heap and one wrapper. */
  datatype World = World(heap: Heap, client: Client)

  predicate ValidWorld(w: World)
  {
    Valid(w.heap, w.client)
  }

  /** One call; a call that throws leaves everything as it was, since every throw precedes the first write. */
  function Apply(w: World, op: Op): (r: World)
    requires ValidWorld(w)
    ensures ValidWorld(r)
  {
    match op
    case InitOp(ns, created) =>
      (match Init(w.client, ns, created) case Ok(c) => w.(client := c) case Err(_) => w)
    case OnOp(e, h) => w.(heap := On(w.heap, w.client, e, h))
    case EmitOp(e, d) =>
      (match Emit(w.client, e, d) case Ok(c) => w.(client := c) case Err(_) => w)
    case CloseOp(rm, code, reason) =>
      (match Close(w.client, rm, code, reason) case Ok(c) => w.(client := c) case Err(_) => w)
  }

  /** The calls in order, from a given world. */
  function Run(w: World, ops: seq<Op>): (r: World)
    requires ValidWorld(w)
    ensures ValidWorld(r)
    decreases |ops|
  {
    if |ops| == 0 then w else Apply(Run(w, ops[..|ops| - 1]), ops[|ops| - 1])
  }

  /** A wrapper constructed at module load. */
  const INITIAL_WORLD: World := World(INITIAL_HEAP, NEW_CLIENT)

  /**
   * Reference answer for the handle: the one created by the last successful
   * `init`, unless a `close` came after it.
   */
  function LastHandle(ops: seq<Op>): Option<WebSocket>
    decreases |ops|
  {
    if |ops| == 0 then None
    else
      match ops[|ops| - 1]
      case InitOp(ns, created) => if ns == SECURE_NAMESPACE then Some(created) else LastHandle(ops[..|ops| - 1])
      case CloseOp(_, _, _) => None
      case _ => LastHandle(ops[..|ops| - 1])
  }

  /**
   * Reference answer for the listener under a name: the handler of the last
   * `on` for that name, else the default; `close` calls play no part.
   */
  function LastListener(ops: seq<Op>, name: string): Option<Handler>
    decreases |ops|
  {
    if |ops| == 0 then (if name in DEFAULT_ENTRIES then Some(DEFAULT_ENTRIES[name]) else None)
    else
      match ops[|ops| - 1]
      case OnOp(e, h) => if e == name then Some(h) else LastListener(ops[..|ops| - 1], name)
      case _ => LastListener(ops[..|ops| - 1], name)
  }

  /** The wrapper's view of one listener name. */
  function Lookup(w: World, name: string): Option<Handler>
    requires ValidWorld(w)
  {
    var table := Table(w.heap, w.client);
    if name in table then Some(table[name]) else None
  }

  /** The invariant of every wrapper reachable from module load. */
  predicate Reachable(w: World)
  {
    && w.client.listeners == DEFAULT_LISTENERS
    && w.heap.objects.Keys == {DEFAULT_LISTENERS}
    && w.client.options.port == PORT
    && (w.client.ws.Some? ==> w.client.options == Options(PORT, SECURE_SOCKET_URI, SECURE_NAMESPACE))
  }

  /**
   * From module load, whatever the calls: the listener field still refers to
   * `DEFAULT_LISTENERS`, the handle is the one of the last successful `init`
   * not followed by a `close`, every listener is the last one registered under
   * its name (or the default), and the port is 8001.
   */
  lemma {:induction false} RunFromLoad(ops: seq<Op>)
    ensures Reachable(Run(INITIAL_WORLD, ops))
    ensures Run(INITIAL_WORLD, ops).client.ws == LastHandle(ops)
    ensures forall name :: Lookup(Run(INITIAL_WORLD, ops), name) == LastListener(ops, name)
    decreases |ops|
  {
    if |ops| > 0 {
      var prefix, last := ops[..|ops| - 1], ops[|ops| - 1];
      RunFromLoad(prefix);
      StepFromLoad(Run(INITIAL_WORLD, prefix), prefix, last);
      assert prefix + [last] == ops;
    }
  }

  /** One more call keeps a world that agrees with the reference answers in agreement with them. */
  lemma StepFromLoad(w: World, ops: seq<Op>, op: Op)
    requires ValidWorld(w) && Reachable(w)
    requires w.client.ws == LastHandle(ops)
    requires forall name :: Lookup(w, name) == LastListener(ops, name)
    ensures Reachable(Apply(w, op))
    ensures Apply(w, op).client.ws == LastHandle(ops + [op])
    ensures forall name :: Lookup(Apply(w, op), name) == LastListener(ops + [op], name)
  {
    var all := ops + [op];
    assert all[..|all| - 1] == ops;
    assert all[|all| - 1] == op;
    var r := Apply(w, op);
    match op
    case InitOp(_, _) =>
    case OnOp(e, h) =>
      forall name
        ensures Lookup(r, name) == LastListener(all, name)
      {
      }
    case EmitOp(_, _) =>
    case CloseOp(_, _, _) =>
  }

  /**
   * From module load the three lifecycle callbacks always find a listener,
   * and an inbound frame is dispatched to the last handler registered under
   * its name, or fails when none ever was.
   */
  lemma DispatchFromLoad(ops: seq<Op>, event: Inbound)
    ensures var w := Run(INITIAL_WORLD, ops);
      && (!event.Message? ==> Dispatch(w.heap, w.client, event).Ok?)
      && (LastListener(ops, ListenerName(event)).None? <==> Dispatch(w.heap, w.client, event).Err?)
      && (LastListener(ops, ListenerName(event)).Some? ==>
            Dispatch(w.heap, w.client, event).value.handler == LastListener(ops, ListenerName(event)).value)
  {
    RunFromLoad(ops);
    var w := Run(INITIAL_WORLD, ops);
    assert Lookup(w, ListenerName(event)) == LastListener(ops, ListenerName(event));
    if !event.Message? {
      LifecycleNamesStay(ops, ListenerName(event));
    }
  }

  /** The default names never lose their listener: `on` can only replace one. */
  lemma {:induction false} LifecycleNamesStay(ops: seq<Op>, name: string)
    requires name in DEFAULT_ENTRIES
    ensures LastListener(ops, name).Some?
    decreases |ops|
  {
    if |ops| > 0 {
      LifecycleNamesStay(ops[..|ops| - 1], name);
    }
  }
}
