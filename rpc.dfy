/**
 * `RPCContext` (`src/rpc-context.ts`): the per-context state of the RPC
 * layer. A context keeps the bound counterparts, the service registry, the
 * pending-request table and the request counter. Counterparts are
 * identified by number. Posted messages are appended to `outbox`, and a
 * settled promise is recorded in `settled`. The JavaScript heap is not owned
 * by the context: every operation that reads or allocates objects takes the
 * heap as it is and returns the heap afterwards.
 */
module Rpc {
  import opened Wrappers
  import opened Model
  import opened Wire
  import opened Util
  import opened Handles
  import opened MemView
  import opened Deflate
  import opened Inflate
  import Radix
  import RoundTrip

  /**
   * The three behaviour flags of a context, as the JavaScript values the
   * options object holds; each is read for its truthiness.
   */
  datatype Options = Options(carryThis: Value, carryGlobalThis: Value, carrySideEffect: Value)

  const DefaultOptions := Options(P(Bool(true)), P(Bool(false)), P(Bool(true)))

  /**
   * The options a caller passes to the constructor: `None` for a key that is
   * not an own property of the object, `Some(v)` for one that is, even when
   * `v` is `undefined`.
   */
  datatype UserOptions = UserOptions(carryThis: Option<Value>, carryGlobalThis: Option<Value>, carrySideEffect: Option<Value>)

  /**
   * `Object.assign(this.options, options)`: every own key the caller gave
   * replaces the default, an explicit `undefined` included; a missing
   * options object changes nothing.
   */
  function AssignOptions(base: Options, given: Option<UserOptions>): (r: Options)
    ensures given.None? ==> r == base
    ensures given.Some? ==>
      && r.carryThis == OptionOr(given.value.carryThis, base.carryThis)
      && r.carryGlobalThis == OptionOr(given.value.carryGlobalThis, base.carryGlobalThis)
      && r.carrySideEffect == OptionOr(given.value.carrySideEffect, base.carrySideEffect)
  {
    match given
    case None => base
    case Some(o) =>
      Options(
        if o.carryThis.Some? then o.carryThis.value else base.carryThis,
        if o.carryGlobalThis.Some? then o.carryGlobalThis.value else base.carryGlobalThis,
        if o.carrySideEffect.Some? then o.carrySideEffect.value else base.carrySideEffect)
  }

  function OptionOr<T>(o: Option<T>, d: T): T {
    if o.Some? then o.value else d
  }

  /** Assigning the same options again changes nothing. */
  lemma AssignOptionsTwice(base: Options, given: Option<UserOptions>)
    ensures AssignOptions(AssignOptions(base, given), given) == AssignOptions(base, given)
  {
  }

  /** JavaScript truthiness of a primitive. */
  predicate Truthy(p: Prim) {
    match p
    case Num(n) => n != 0
    case Str(s) => s != []
    case Bool(b) => b
    case BigInt(i) => i != 0
    case Undefined => false
    case Null => false
  }

  /** JavaScript truthiness of a value: every object, function and symbol is truthy. */
  predicate IsTruthy(v: Value) {
    v.Ref? || Truthy(v.p)
  }

  /** A message field is present when it is truthy: a deflated arena, or a truthy primitive. */
  predicate Present(w: Wire) {
    !w.WPrim? || Truthy(w.p)
  }

  /** An absent message field. */
  const Absent := WPrim(Undefined)

  /** The two kinds of message, as the `RPC::TYPE` key tells them apart. */
  datatype Message =
    | Request(request: string, caller: string, thisArg: Wire, argv: Wire)
    | Response(caller: string, error: Wire, value: Wire, argv: Wire, thisArg: Wire)

  /** A `postMessage` call: the counterpart it went to, and the message. */
  datatype Post = Post(to: nat, msg: Message)

  /** How a pending promise was settled. A rejection carries the raw error field. */
  datatype Outcome = Resolved(value: Value) | Rejected(reason: Wire)

  /** A pending request: the arenas its `this` and arguments went out in, kept for the carryback. */
  datatype Pending = Pending(argv: MemoryView?, thisArg: MemoryView?)

  /**
   * The state of a request whose service has been called but has not
   * returned yet: where the answer goes, the service, the deserialized
   * receiver and arguments, and the arenas that will carry their side
   * effects back (absent when side effects are not carried).
   */
  datatype Call = Call(caller: string, cp: nat, callee: nat, thisArg: Value, argv: Value, thisView: MemoryView?, argvView: MemoryView?)

  /** The response to a request for an unregistered service. */
  function NotFoundResponse(request: string, caller: string): (m: Message)
    ensures m.Response? && m.caller == caller && m.value == Absent && m.argv == Absent && m.thisArg == Absent
    ensures m.error == WStr("RPC handler not found: " + request)
  {
    Response(caller, WStr("RPC handler not found: " + request), Absent, Absent, Absent)
  }

  // ---------------------------------------------------------------------
  // Reset and the service registry
  // ---------------------------------------------------------------------

  /** The registry after `reset` as written: `services` is cleared, `srvIdMap` and the counter are kept. */
  function ResetAsWritten(reg: Registry): (r: Registry)
    ensures r.services == map[] && r.srvIdMap == reg.srvIdMap && r.serviceCounter == reg.serviceCounter
  {
    Registry(map[], reg.srvIdMap, reg.serviceCounter)
  }

  /**
   * As written, a function deflated before `reset` keeps its id after it:
   * deflating it again sends the old handle without registering the
   * function, so a request for that handle finds no service.
   */
  lemma StaleHandleAfterReset(reg: Registry, a: nat, f: Node, target: Option<nat>)
    requires RegValid(reg) && f.Func? && IsLocal(f, target) && a in reg.srvIdMap
    ensures var (reg', magic) := DeflateFn(ResetAsWritten(reg), a, f, target);
      && magic == "<" + reg.srvIdMap[a] + NameSuffix(f.name)
      && reg.srvIdMap[a] !in reg'.services
      && !RegValid(reg')
  {
  }

  /** One concrete case: function 7, sent as `<0` before the reset, is sent as `<0` after it with no service `0`. */
  lemma StaleHandleExample()
    ensures var f := Func(false, None, "function f() {}", "", [], false);
      var reg := Register(EmptyRegistry, 7);
      && reg.srvIdMap[7] == "0"
      && DeflateFn(ResetAsWritten(reg), 7, f, None) == (ResetAsWritten(reg), "<0")
      && "0" !in ResetAsWritten(reg).services
  {
    assert Radix.Hex(0) == [Radix.Digits[0]];
    var f := Func(false, None, "function f() {}", "", [], false);
    var reg := Register(EmptyRegistry, 7);
    assert reg.srvIdMap[7] == "0";
    assert ResetAsWritten(reg).srvIdMap[7] == "0";
    assert "<" + "0" + NameSuffix(f.name) == "<0";
    assert DeflateFn(ResetAsWritten(reg), 7, f, None) == (ResetAsWritten(reg), "<0");
  }

  /** The registry after `reset`, corrected: both directions of the registry are forgotten; the counter is kept. */
  function ResetRegistry(reg: Registry): (r: Registry)
    ensures r.services == map[] && r.srvIdMap == map[] && r.serviceCounter == reg.serviceCounter
  {
    Registry(map[], map[], reg.serviceCounter)
  }

  /**
   * After the corrected reset the registry is consistent again, and a local
   * function deflated afterwards is registered under a fresh id that a
   * request can reach: no id issued before the reset is ever issued again.
   */
  lemma HandleLiveAfterReset(reg: Registry, a: nat, f: Node, target: Option<nat>)
    requires RegValid(reg) && f.Func? && IsLocal(f, target)
    ensures RegValid(ResetRegistry(reg))
    ensures var (reg', magic) := DeflateFn(ResetRegistry(reg), a, f, target);
      && RegValid(reg')
      && reg'.srvIdMap[a] == Radix.Hex(reg.serviceCounter)
      && magic == "<" + Radix.Hex(reg.serviceCounter) + NameSuffix(f.name)
      && Radix.Hex(reg.serviceCounter) in reg'.services && reg'.services[Radix.Hex(reg.serviceCounter)] == a
      && forall id :: id in reg.services ==> id != Radix.Hex(reg.serviceCounter)
  {
    RegisterValid(ResetRegistry(reg), a);
    Radix.ParseToRadix(reg.serviceCounter, 16);
  }

  // ---------------------------------------------------------------------
  // Deserialized values
  // ---------------------------------------------------------------------

  /**
   * The memory-view property as the model records it: defining it on a
   * function root sets the function's `viewed` marker. Every other object
   * root of `deserialize` is a shell made by that same `inflate`, so no later
   * operation can meet its marker, and none is kept for it. The property is
   * symbol-keyed, so no walk and no `deflate` sees it.
   */
  function Attach(h: Heap, v: Value): (r: Heap)
    ensures |r| == |h|
    ensures forall i :: 0 <= i < |h| ==> ChildValues(r[i]) == ChildValues(h[i])
    ensures forall i :: 0 <= i < |h| && v != Ref(i) ==> r[i] == h[i]
    ensures v.Ref? && v.addr < |h| && h[v.addr].Func? ==> r[v.addr] == h[v.addr].(viewed := true)
    ensures v.Ref? && v.addr < |h| && !h[v.addr].Func? ==> r[v.addr] == h[v.addr]
  {
    if v.Ref? && v.addr < |h| && h[v.addr].Func? then h[v.addr := h[v.addr].(viewed := true)] else h
  }

  /**
   * `define(mx.value, symMemView, mx)` as written. `Object.defineProperty`
   * throws on a symbol, and, since `define` makes a non-configurable
   * accessor, it throws again on an object that already carries the
   * property. Otherwise the property is attached; a primitive is returned bare.
   */
  function AttachAsWritten(h: Heap, v: Value): (r: Result<Heap, Error>)
    ensures r.Err? <==> v.Ref? && v.addr < |h| && (h[v.addr].Symbol? || (h[v.addr].Func? && h[v.addr].viewed))
    ensures r.Err? ==> r.error == (if h[v.addr].Symbol? then DefineOnNonObject else RedefineView)
    ensures r.Ok? ==> r.value == Attach(h, v)
  {
    if IsPrimitive(h, v) then Ok(h)
    else if v.addr < |h| && h[v.addr].Symbol? then Err(DefineOnNonObject)
    else if v.addr < |h| && h[v.addr].Func? && h[v.addr].viewed then Err(RedefineView)
    else Ok(Attach(h, v))
  }

  /** A symbol sent as a value, a receiver or a return value cannot be deserialized as written. */
  lemma SymbolNotDeserialized(name: string)
    ensures AttachAsWritten([Symbol(true, name)], Ref(0)).Err?
    ensures AttachAsWritten([Symbol(false, name)], Ref(0)).Err?
  {
  }

  /**
   * Corrected: the arena is attached to objects and functions, replacing
   * any arena attached before; primitives and symbols are returned bare.
   * Every root deserializes, and where the attach as written does not
   * throw, the two agree.
   */
  function CarriesView(h: Heap, v: Value): (r: bool)
    ensures r <==> v.Ref? && !(v.addr < |h| && h[v.addr].Symbol?)
    ensures AttachAsWritten(h, v).Ok? ==> (r <==> v.Ref?) && AttachAsWritten(h, v).value == Attach(h, v)
    ensures !r ==> AttachAsWritten(h, v) == Ok(h) || AttachAsWritten(h, v) == Err(DefineOnNonObject)
  {
    !IsPrimitive(h, v) && !(v.addr < |h| && h[v.addr].Symbol?)
  }

  /** Attaching twice is attaching once: the corrected attach may be repeated. */
  lemma AttachTwice(h: Heap, v: Value)
    ensures Attach(Attach(h, v), v) == Attach(h, v)
  {
  }

  /** The value `deserialize` returns: the root of the inflated view, `undefined` for an empty one. */
  function RootOf(view: seq<Value>): (r: Value)
    ensures view != [] ==> r == view[0]
    ensures view == [] ==> r == P(Undefined)
  {
    if view == [] then P(Undefined) else view[0]
  }

  /**
   * The carryback of one arena: when both the arena sent and the echo
   * received are present, the echo is inflated onto the arena's own
   * objects; otherwise nothing happens.
   */
  function CarryBack(h: Heap, services: map<string, nat>, cp: nat, rx: Wire, tx: Option<seq<Value>>): (r: Result<Heap, Error>)
    ensures (tx.None? || !Present(rx)) ==> r == Ok(h)
    ensures tx.Some? && Present(rx) ==>
      (r.Ok? <==> InflateSpec(h, services, cp, rx, tx).Ok?) && (r.Ok? ==> r.value == InflateSpec(h, services, cp, rx, tx).value.0)
  {
    if tx.None? || !Present(rx) then Ok(h)
    else
      var (h', _) :- InflateSpec(h, services, cp, rx, tx);
      Ok(h')
  }

  /**
   * `deserialize` on values, with the corrected attach: the heap afterwards,
   * with the arena attached to the root, and the root of the inflated view.
   */
  function DeserializeSpec(h: Heap, services: map<string, nat>, cp: nat, w: Wire): (r: Result<(Heap, Value), Error>)
    ensures r.Ok? <==> InflateSpec(h, services, cp, w, None).Ok?
    ensures r.Err? ==> r.error == InflateSpec(h, services, cp, w, None).error
    ensures r.Ok? ==> var (h', view) := InflateSpec(h, services, cp, w, None).value;
      r.value == (Attach(h', RootOf(view)), RootOf(view))
  {
    var (h', view) :- InflateSpec(h, services, cp, w, None);
    Ok((Attach(h', RootOf(view)), RootOf(view)))
  }

  /**
   * `deserialize` on values as written: the inflate, then `define`, which
   * throws on a symbol root and on a root that already carries an arena.
   * When it returns it agrees with the corrected `DeserializeSpec`.
   */
  function DeserializeAsWritten(h: Heap, services: map<string, nat>, cp: nat, w: Wire): (r: Result<(Heap, Value), Error>)
    ensures r.Ok? ==> r == DeserializeSpec(h, services, cp, w)
    ensures DeserializeSpec(h, services, cp, w).Err? ==> r == DeserializeSpec(h, services, cp, w)
    ensures DeserializeSpec(h, services, cp, w).Ok? && r.Err? ==>
      var (h', view) := InflateSpec(h, services, cp, w, None).value;
      AttachAsWritten(h', RootOf(view)).Err? && r.error == AttachAsWritten(h', RootOf(view)).error
  {
    var (h', view) :- InflateSpec(h, services, cp, w, None);
    var h'' :- AttachAsWritten(h', RootOf(view));
    Ok((h'', RootOf(view)))
  }

  /**
   * As written, a reflected service function returned twice: the first
   * `deserialize` attaches the arena to the live function, and the second
   * throws the `TypeError` of redefining it.
   */
  lemma ReflectedTwiceAsWritten(h: Heap, services: map<string, nat>, cp: nat, id: string)
    requires id in services && services[id] < |h| && h[services[id]].Func? && !h[services[id]].viewed
    ensures var w := WList([WStr(">" + id)]);
      var first := DeserializeAsWritten(h, services, cp, w);
      && first == Ok((Attach(h, Ref(services[id])), Ref(services[id])))
      && DeserializeAsWritten(first.value.0, services, cp, w) == Err(RedefineView)
  {
    var f := services[id];
    InflateReflected(h, services, cp, id);
    InflateReflected(Attach(h, Ref(f)), services, cp, id);
  }

  /**
   * Corrected: a response whose value is a reflected service function
   * resolves the caller's promise with that function, whether or not an
   * earlier response already attached an arena to it.
   */
  lemma ReflectedResultResolves(g: Heap, services: map<string, nat>, cp: nat, caller: string, id: string, argvField: Wire, thisField: Wire)
    requires id in services && services[id] < |g| && g[services[id]].Func?
    ensures var msg := Response(caller, Absent, WList([WStr(">" + id)]), argvField, thisField);
      ResponseSpec(g, services, cp, msg, None, None) == Settled(Attach(g, Ref(services[id])), Resolved(Ref(services[id])))
  {
    var w := WList([WStr(">" + id)]);
    InflateReflected(g, services, cp, id);
    assert DeserializeSpec(g, services, cp, w) == Ok((Attach(g, Ref(services[id])), Ref(services[id])));
    assert CarryBack(g, services, cp, argvField, None) == Ok(g) && CarryBack(g, services, cp, thisField, None) == Ok(g);
    assert !Present(Absent);
  }

  /** The slots of an arena that may be absent. */
  function ViewSlots(mx: MemoryView?): (r: Option<seq<Value>>)
    reads mx
    ensures r.None? <==> mx == null
    ensures mx != null ==> r == Some(mx.slots)
  {
    if mx == null then None else Some(mx.slots)
  }

  /**
   * `deflate(view, fn).catch(console.error)`, given the arena after `items`
   * and whether `items` returned: the deflated arena and registry, or an
   * absent field and the registry unchanged when either step throws.
   */
  function DeflateEcho(h: Heap, refs: map<nat, nat>, reg: Registry, target: Option<nat>, slots: seq<Value>, returned: bool): (r: (Wire, Registry))
    requires AllValid(h, slots)
    ensures returned && DeflateSlots(h, refs, reg, target, slots).Ok? ==>
      r == (WList(DeflateSlots(h, refs, reg, target, slots).value.0), DeflateSlots(h, refs, reg, target, slots).value.1)
    ensures !returned || DeflateSlots(h, refs, reg, target, slots).Err? ==> r == (Absent, reg)
  {
    if !returned then (Absent, reg)
    else
      match DeflateSlots(h, refs, reg, target, slots)
      case Ok((ws, reg')) => (WList(ws), reg')
      case Err(_) => (Absent, reg)
  }

  /** How handling a response ends: the promise settles, or an inflate throws and the request stays pending. */
  datatype Settle = Settled(h: Heap, outcome: Outcome) | Thrown(h: Heap, error: Error)

  /**
   * `handleResponse` for a pending request, on values: carry back the
   * argument arena, then the receiver arena, then settle the promise. An
   * error that is present rejects with the raw error; otherwise the value is
   * deserialized and resolves the promise.
   */
  function ResponseSpec(h: Heap, services: map<string, nat>, cp: nat, msg: Message, argvTx: Option<seq<Value>>, thisTx: Option<seq<Value>>): (r: Settle)
    requires msg.Response?
    ensures CarryBack(h, services, cp, msg.argv, argvTx).Err? ==> r == Thrown(h, CarryBack(h, services, cp, msg.argv, argvTx).error)
    ensures r.Settled? ==> CarryBack(h, services, cp, msg.argv, argvTx).Ok?
    ensures r.Settled? && Present(msg.error) ==> r.outcome == Rejected(msg.error)
    ensures r.Settled? && !Present(msg.error) ==> r.outcome.Resolved?
  {
    match CarryBack(h, services, cp, msg.argv, argvTx)
    case Err(e) => Thrown(h, e)
    case Ok(h1) =>
      match CarryBack(h1, services, cp, msg.thisArg, thisTx)
      case Err(e) => Thrown(h1, e)
      case Ok(h2) =>
        if Present(msg.error) then Settled(h2, Rejected(msg.error))
        else
          match DeserializeSpec(h2, services, cp, msg.value)
          case Err(e) => Thrown(h2, e)
          case Ok((h3, v)) => Settled(h3, Resolved(v))
  }

  /**
   * The carryback lands on the caller's own objects: after the carryback of
   * an arena of live objects, the view of the inflate is that very arena.
   */
  lemma CarryBackOntoSender(h: Heap, services: map<string, nat>, cp: nat, ws: seq<Wire>, tx: seq<Value>)
    requires |ws| == |tx| && forall i :: 0 <= i < |tx| ==> tx[i].Ref?
    requires InflateSpec(h, services, cp, WList(ws), Some(tx)).Ok?
    ensures InflateSpec(h, services, cp, WList(ws), Some(tx)).value.1 == tx
  {
    var (h1, view, jobs) := Pass1(h, services, cp, ws, Some(tx)).value;
    assert forall i :: 0 <= i < |tx| ==> !Nullish(Override(Some(tx), i));
  }

  /**
   * A response carrying a result deflated from a consistent arena, with no
   * carryback pending, resolves the caller's promise with the root of a
   * faithful copy of the result's object graph.
   */
  lemma ResolvedWithCopy(h: Heap, refs: map<nat, nat>, reg: Registry, target: Option<nat>, slots: seq<Value>,
                         g: Heap, services: map<string, nat>, cp: nat, caller: string, argvField: Wire, thisField: Wire)
    requires WellFormed(h) && AllValid(h, slots) && ViewValid(slots, refs) && Indexed(slots, refs) && slots != []
    requires ChildrenRegistered(h, refs, slots) && RegValid(reg) && RoundTrip.NoReflection(h, target, slots) && AllHeldWeakly(h, slots)
    ensures DeflateSlots(h, refs, reg, target, slots).Ok?
    ensures var (ws, reg') := DeflateSlots(h, refs, reg, target, slots).value;
      var msg := Response(caller, Absent, WList(ws), argvField, thisField);
      var spec := InflateSpec(g, services, cp, WList(ws), None);
      && spec.Ok?
      && ResponseSpec(g, services, cp, msg, None, None) == Settled(Attach(spec.value.0, spec.value.1[0]), Resolved(spec.value.1[0]))
      && RoundTrip.Received(spec.value.0, spec.value.1, h, refs, reg', cp, slots)
      && RoundTrip.NewObjects(g, spec.value.0, spec.value.1, slots)
  {
    RoundTrip.DeflateInflate(h, refs, reg, target, slots, g, services, cp);
  }

  /**
   * A service that throws a symbol of the global registry: `serialize` of
   * the error throws, the error field stays absent, and so the caller's
   * promise resolves with `undefined` instead of rejecting.
   */
  lemma ThrownRegistrySymbolResolves(h: Heap, a: nat, g: Heap, services: map<string, nat>, cp: nat, caller: string, argvField: Wire, thisField: Wire)
    requires a < |h| && h[a].Symbol? && h[a].interned
    ensures !Serializable(h, Ref(a))
    ensures ResponseSpec(g, services, cp, Response(caller, Absent, Absent, argvField, thisField), None, None) == Settled(g, Resolved(P(Undefined)))
  {
    InternedNotSerializable(h, a);
    InflateUndefined(g, services, cp);
  }

  // ---------------------------------------------------------------------
  // The context
  // ---------------------------------------------------------------------

  /** Every pending correlation id is the hex rendering of a number below `n`. */
  ghost predicate CallersBelow(requests: map<string, Pending>, n: nat) {
    forall c :: c in requests ==> IdNumber(c).Some? && IdNumber(c).value < n && Radix.Hex(IdNumber(c).value) == c
  }

  /** The next correlation id is not pending, and once it is, the ids stay below the incremented counter. */
  lemma NextCaller(requests: map<string, Pending>, n: nat, p: Pending)
    requires CallersBelow(requests, n)
    ensures Radix.Hex(n) !in requests
    ensures CallersBelow(requests[Radix.Hex(n) := p], n + 1)
  {
    Radix.ParseToRadix(n, 16);
  }


  /** `deflate(view, fn)` of an arena kept for the echo: the arena stays consistent, and a success keeps the registry consistent. */
  method Redeflate(mx: MemoryView, h: Heap, reg: Registry, target: Option<nat>) returns (r: Result<(seq<Wire>, Registry), Error>)
    requires mx.Valid() && RefsValid(h) && ValidRef(h, mx.root) && AllValid(h, mx.slots) && RegValid(reg)
    modifies mx
    ensures mx.Valid() && mx.root == old(mx.root) && AllValid(h, mx.slots)
    ensures ItemsReturn(h, old(mx.refs), mx.root) ==> r == DeflateSlots(h, mx.refs, reg, target, mx.slots)
    ensures !ItemsReturn(h, old(mx.refs), mx.root) ==> r == Err(InvalidWeakKey)
    ensures r.Ok? ==> RegValid(r.value.1)
  {
    r := DeflateView(mx, h, reg, target);
    if r.Ok? {
      DeflateSlotsRegistry(h, mx.refs, reg, target, mx.slots);
    }
  }

  class RPCContext {
    const options: Options
    /** The context object itself and `global`, as heap addresses. */
    const selfAddr: nat
    const globalAddr: nat
    var counterparts: seq<nat>
    /** One listener per `bind`: it detaches the handlers of that counterpart. */
    var listeners: seq<nat>
    /** The counterparts whose handlers have been detached, in order. */
    var detached: seq<nat>
    var reg: Registry
    var requests: map<string, Pending>
    var reqCounter: nat
    var outbox: seq<Post>
    var settled: seq<(string, Outcome)>

    /**
     * The registry is consistent, and every pending correlation id is the
     * hex rendering of a number below the request counter, so the next id is fresh.
     */
    ghost predicate Valid()
      reads this
    {
      RegValid(reg) && CallersBelow(requests, reqCounter)
    }

    /** `new RPCContext(options)`: the defaults, overridden by the options given; nothing bound, nothing registered. */
    constructor (given: Option<UserOptions>, selfAddr: nat, globalAddr: nat)
      ensures Valid()
      ensures options == AssignOptions(DefaultOptions, given)
      ensures this.selfAddr == selfAddr && this.globalAddr == globalAddr
      ensures counterparts == [] && listeners == [] && detached == []
      ensures reg == EmptyRegistry && requests == map[] && reqCounter == 0
      ensures outbox == [] && settled == []
    {
      options := AssignOptions(DefaultOptions, given);
      this.selfAddr := selfAddr;
      this.globalAddr := globalAddr;
      counterparts := [];
      listeners := [];
      detached := [];
      reg := EmptyRegistry;
      requests := map[];
      reqCounter := 0;
      outbox := [];
      settled := [];
    }

    /** `bind`: the counterpart is added, with the listener that will detach it. */
    method Bind(cp: nat)
      requires Valid()
      modifies this
      ensures Valid()
      ensures counterparts == old(counterparts) + [cp] && listeners == old(listeners) + [cp]
      ensures detached == old(detached) && reg == old(reg) && requests == old(requests) && reqCounter == old(reqCounter)
      ensures outbox == old(outbox) && settled == old(settled)
      ensures old(counterparts) == [] ==> GetCounterpart(None) == Ok(cp)
    {
      counterparts := counterparts + [cp];
      listeners := listeners + [cp];
    }

    /**
     * `reset`: the registry and the pending requests are cleared and every
     * counterpart is dropped; each listener is taken off the front in turn
     * and detaches its counterpart. Pending promises are left unsettled, and
     * both counters keep counting.
     */
    method Reset()
      requires Valid()
      modifies this
      ensures Valid()
      ensures reg == ResetRegistry(old(reg)) && requests == map[] && counterparts == [] && listeners == []
      ensures detached == old(detached) + old(listeners)
      ensures reqCounter == old(reqCounter) && outbox == old(outbox) && settled == old(settled)
    {
      reg := ResetRegistry(reg);
      requests := map[];
      counterparts := [];
      while |listeners| > 0
        invariant detached + listeners == old(detached) + old(listeners)
        invariant reg == ResetRegistry(old(reg)) && requests == map[] && counterparts == []
        invariant reqCounter == old(reqCounter) && outbox == old(outbox) && settled == old(settled)
        decreases |listeners|
      {
        var l := listeners[0];
        assert detached + listeners == (detached + [l]) + listeners[1..];
        listeners := listeners[1..];
        detached := detached + [l];
      }
    }

    /**
     * `getCounterpart`: the counterpart named, if any; otherwise the only
     * bound counterpart, and an error when there are none or several.
     */
    function GetCounterpart(cp: Option<nat>): (r: Result<nat, Error>)
      reads this
      ensures cp.Some? ==> r == Ok(cp.value)
      ensures cp.None? && |counterparts| == 1 ==> r == Ok(counterparts[0])
      ensures cp.None? && |counterparts| != 1 ==> r == Err(AmbiguousCounterpart(|counterparts|))
    {
      if cp.Some? then Ok(cp.value)
      else if |counterparts| != 1 then Err(AmbiguousCounterpart(|counterparts|))
      else Ok(counterparts[0])
    }

    /**
     * `normalizeProxyThisArg`: the receiver a proxy call carries. It is
     * dropped (made `undefined`) when it is the context itself, when the
     * receiver is not carried, or when it is `global` and `global` is not
     * carried; otherwise it is kept.
     */
    function NormalizeThis(thisArg: Value): (r: Value)
      reads this
      ensures r == thisArg || r == P(Undefined)
      ensures r == thisArg <==>
        thisArg == P(Undefined) ||
        (thisArg != Ref(selfAddr) && IsTruthy(options.carryThis) && (IsTruthy(options.carryGlobalThis) || thisArg != Ref(globalAddr)))
    {
      if thisArg == Ref(selfAddr) then P(Undefined)
      else if !IsTruthy(options.carryThis) then P(Undefined)
      else if !IsTruthy(options.carryGlobalThis) && thisArg == Ref(globalAddr) then P(Undefined)
      else thisArg
    }

    /**
     * `serialize`: a new arena for `x`, deflated towards `target`. It throws
     * exactly when `x` reaches something that cannot be held weakly, and
     * then registers nothing. Otherwise every local function met is
     * registered and the registry only grows.
     */
    method Serialize(h: Heap, x: Value, target: Option<nat>) returns (r: Result<(seq<Wire>, MemoryView), Error>)
      requires Valid() && RefsValid(h) && ValidRef(h, x)
      modifies this
      ensures Valid() && RegGrows(old(reg), reg)
      ensures r.Ok? <==> Serializable(h, x)
      ensures r.Err? ==> r.error == InvalidWeakKey && reg == old(reg)
      ensures r.Ok? ==> var (ws, mx) := r.value;
        && fresh(mx) && mx.Valid() && mx.root == x && AllValid(h, mx.slots) && AllHeldWeakly(h, mx.slots)
        && mx.slots == [x] + Unregistered(Traverse(h, [x]), RefAddrs([x]))
        && Indexed(mx.slots, mx.refs) && ChildrenRegistered(h, mx.refs, mx.slots)
        && DeflateSlots(h, mx.refs, old(reg), target, mx.slots) == Ok((ws, reg))
      ensures counterparts == old(counterparts) && listeners == old(listeners) && detached == old(detached)
      ensures requests == old(requests) && reqCounter == old(reqCounter) && outbox == old(outbox) && settled == old(settled)
    {
      var e := DeflateNew(h, reg, target, x);
      if e.Err? {
        return Err(e.error);
      }
      var (mx, ws, reg') := e.value;
      DeflateSlotsRegistry(h, mx.refs, reg, target, mx.slots);
      reg := reg';
      r := Ok((ws, mx));
    }

    /**
     * `serialize(x).catch(console.error)`: the deflated arena as a wire list
     * and the arena, or, when `serialize` throws, an absent field, no arena
     * and the registry unchanged.
     */
    method SerializeCaught(h: Heap, x: Value, target: Option<nat>) returns (field: Wire, mx: MemoryView?)
      requires Valid() && RefsValid(h) && ValidRef(h, x)
      modifies this
      ensures Valid() && RegGrows(old(reg), reg)
      ensures mx != null <==> Serializable(h, x)
      ensures mx == null ==> field == Absent && reg == old(reg)
      ensures mx != null ==>
        && fresh(mx) && mx.Valid() && mx.root == x && AllValid(h, mx.slots) && AllHeldWeakly(h, mx.slots)
        && mx.slots == [x] + Unregistered(Traverse(h, [x]), RefAddrs([x]))
        && Indexed(mx.slots, mx.refs) && ChildrenRegistered(h, mx.refs, mx.slots)
        && field.WList? && DeflateSlots(h, mx.refs, old(reg), target, mx.slots) == Ok((field.items, reg))
      ensures counterparts == old(counterparts) && listeners == old(listeners) && detached == old(detached)
      ensures requests == old(requests) && reqCounter == old(reqCounter) && outbox == old(outbox) && settled == old(settled)
    {
      var r := Serialize(h, x, target);
      match r {
        case Ok((ws, v)) =>
          field, mx := WList(ws), v;
        case Err(_) =>
          field, mx := Absent, null;
      }
    }

    /**
     * `deserialize`: inflate towards the counterpart named, or the only one
     * bound. The result is the root of the view; the arena comes with it
     * unless the root is a primitive or a symbol, and it is attached with the
     * corrected `Attach`, which a root that already carries one accepts.
     */
    method Deserialize(h: Heap, w: Wire, counterpart: Option<nat>) returns (r: Result<(Heap, Value, MemoryView?), Error>)
      ensures GetCounterpart(counterpart).Err? ==> r == Err(GetCounterpart(counterpart).error)
      ensures GetCounterpart(counterpart).Ok? ==>
        var spec := DeserializeSpec(h, reg.services, GetCounterpart(counterpart).value, w);
        && (r.Ok? <==> spec.Ok?)
        && (r.Err? ==> r.error == spec.error)
        && (r.Ok? ==> (r.value.0, r.value.1) == spec.value)
        && (r.Ok? ==> (r.value.2 != null <==> CarriesView(r.value.0, r.value.1)))
        && (r.Ok? && r.value.2 != null ==>
              && fresh(r.value.2) && r.value.2.Valid() && r.value.2.root == r.value.1
              && r.value.2.slots == InflateSpec(h, reg.services, GetCounterpart(counterpart).value, w, None).value.1)
    {
      var c := GetCounterpart(counterpart);
      if c.Err? {
        return Err(c.error);
      }
      var e := InflateView(h, reg.services, c.value, w, null);
      if e.Err? {
        return Err(e.error);
      }
      var (h', mx) := e.value;
      var v := mx.root;
      if CarriesView(h', v) {
        r := Ok((Attach(h', v), v, mx));
      } else {
        r := Ok((Attach(h', v), v, null));
      }
    }

    /**
     * `initiateRequest`: the receiver is normalized and serialized with no
     * counterpart, the arguments are serialized towards `cp`, the next
     * correlation id is taken, the request is made pending (with its arenas
     * when side effects are carried) and then posted.
     */
    method InitiateRequest(h: Heap, id: string, cp: nat, thisArg: Value, argv: Value)
      returns (caller: string, thisView: MemoryView?, argvView: MemoryView?, thisField: Wire, argvField: Wire, ghost regThis: Registry)
      requires Valid() && RefsValid(h) && ValidRef(h, thisArg) && ValidRef(h, argv)
      modifies this
      ensures Valid()
      ensures caller == Radix.Hex(old(reqCounter)) && caller !in old(requests) && reqCounter == old(reqCounter) + 1
      ensures thisView != null <==> Serializable(h, NormalizeThis(thisArg))
      ensures argvView != null <==> Serializable(h, argv)
      ensures thisView == null ==> thisField == Absent && regThis == old(reg)
      ensures argvView == null ==> argvField == Absent && reg == regThis
      ensures thisView != null ==>
        && fresh(thisView) && thisView.root == NormalizeThis(thisArg) && AllValid(h, thisView.slots)
        && thisField.WList? && DeflateSlots(h, thisView.refs, old(reg), None, thisView.slots) == Ok((thisField.items, regThis))
      ensures argvView != null ==>
        && fresh(argvView) && argvView.root == argv && AllValid(h, argvView.slots)
        && argvField.WList? && DeflateSlots(h, argvView.refs, regThis, Some(cp), argvView.slots) == Ok((argvField.items, reg))
      ensures requests == old(requests)[caller := if IsTruthy(options.carrySideEffect) then Pending(argvView, thisView) else Pending(null, null)]
      ensures outbox == old(outbox) + [Post(cp, Request(id, caller, thisField, argvField))]
      ensures counterparts == old(counterparts) && listeners == old(listeners) && detached == old(detached) && settled == old(settled)
    {
      thisView, argvView, thisField, argvField, regThis := SerializeRequest(h, cp, thisArg, argv);
      caller := Enqueue(if IsTruthy(options.carrySideEffect) then Pending(argvView, thisView) else Pending(null, null));
      outbox := outbox + [Post(cp, Request(id, caller, thisField, argvField))];
    }

    /** `this.reqCounter++` and `this.requests.set(caller, ...)`: the next correlation id, which was not pending, now is. */
    method Enqueue(p: Pending) returns (caller: string)
      requires Valid()
      modifies this
      ensures Valid()
      ensures caller == Radix.Hex(old(reqCounter)) && caller !in old(requests) && reqCounter == old(reqCounter) + 1
      ensures requests == old(requests)[caller := p]
      ensures reg == old(reg) && outbox == old(outbox)
      ensures counterparts == old(counterparts) && listeners == old(listeners) && detached == old(detached) && settled == old(settled)
    {
      NextCaller(requests, reqCounter, p);
      caller := Radix.Hex(reqCounter);
      reqCounter := reqCounter + 1;
      requests := requests[caller := p];
    }

    /** The two serializations of `initiateRequest`: the normalized receiver with no counterpart, then the arguments towards `cp`. */
    method SerializeRequest(h: Heap, cp: nat, thisArg: Value, argv: Value)
      returns (thisView: MemoryView?, argvView: MemoryView?, thisField: Wire, argvField: Wire, ghost regThis: Registry)
      requires Valid() && RefsValid(h) && ValidRef(h, thisArg) && ValidRef(h, argv)
      modifies this
      ensures Valid()
      ensures thisView != null <==> Serializable(h, NormalizeThis(thisArg))
      ensures argvView != null <==> Serializable(h, argv)
      ensures thisView == null ==> thisField == Absent && regThis == old(reg)
      ensures argvView == null ==> argvField == Absent && reg == regThis
      ensures thisView != null ==>
        && fresh(thisView) && thisView.root == NormalizeThis(thisArg) && AllValid(h, thisView.slots)
        && thisField.WList? && DeflateSlots(h, thisView.refs, old(reg), None, thisView.slots) == Ok((thisField.items, regThis))
      ensures argvView != null ==>
        && fresh(argvView) && argvView.root == argv && AllValid(h, argvView.slots)
        && argvField.WList? && DeflateSlots(h, argvView.refs, regThis, Some(cp), argvView.slots) == Ok((argvField.items, reg))
      ensures counterparts == old(counterparts) && listeners == old(listeners) && detached == old(detached) && settled == old(settled)
      ensures requests == old(requests) && reqCounter == old(reqCounter) && outbox == old(outbox)
    {
      thisField, thisView := SerializeCaught(h, NormalizeThis(thisArg), None);
      regThis := reg;
      argvField, argvView := SerializeCaught(h, argv, Some(cp));
    }

    /**
     * `handleRequest` up to the call of the service: a request for an
     * unregistered id is answered with an error naming it; otherwise the
     * receiver and then the arguments are deserialized (either failing ends
     * the request with nothing posted), and the call is set up with the
     * arenas that will carry the side effects back.
     */
    method HandleRequest(h: Heap, msg: Message, cp: nat) returns (h': Heap, call: Option<Call>)
      requires Valid() && msg.Request?
      modifies this
      ensures Valid()
      ensures counterparts == old(counterparts) && listeners == old(listeners) && detached == old(detached)
      ensures reg == old(reg) && requests == old(requests) && reqCounter == old(reqCounter) && settled == old(settled)
      ensures msg.request !in reg.services ==>
        h' == h && call.None? && outbox == old(outbox) + [Post(cp, NotFoundResponse(msg.request, msg.caller))]
      ensures msg.request in reg.services ==> outbox == old(outbox)
      ensures msg.request in reg.services ==>
        var t := DeserializeSpec(h, reg.services, cp, msg.thisArg);
        && (t.Err? ==> h' == h && call.None?)
        && (t.Ok? ==>
              var a := DeserializeSpec(t.value.0, reg.services, cp, msg.argv);
              && (a.Err? ==> h' == t.value.0 && call.None?)
              && (a.Ok? ==>
                    && h' == a.value.0
                    && call.Some? && call.value.caller == msg.caller && call.value.cp == cp
                    && call.value.callee == reg.services[msg.request]
                    && call.value.thisArg == t.value.1 && call.value.argv == a.value.1
                    && (call.value.thisView != null <==> IsTruthy(options.carrySideEffect) && CarriesView(t.value.0, t.value.1))
                    && (call.value.argvView != null <==> IsTruthy(options.carrySideEffect) && CarriesView(a.value.0, a.value.1))))
      ensures call.Some? ==>
        && (call.value.thisView != null ==> fresh(call.value.thisView) && call.value.thisView.Valid() && call.value.thisView.root == call.value.thisArg)
        && (call.value.argvView != null ==> fresh(call.value.argvView) && call.value.argvView.Valid() && call.value.argvView.root == call.value.argv)
        && (call.value.thisView != null && call.value.argvView != null ==> call.value.thisView != call.value.argvView)
    {
      if msg.request !in reg.services {
        outbox := outbox + [Post(cp, NotFoundResponse(msg.request, msg.caller))];
        return h, None;
      }
      var t := Deserialize(h, msg.thisArg, Some(cp));
      if t.Err? {
        return h, None;
      }
      var (h1, thisVal, thisView) := t.value;
      var a := Deserialize(h1, msg.argv, Some(cp));
      if a.Err? {
        return h1, None;
      }
      var (h2, argvVal, argvView) := a.value;
      var tv: MemoryView? := if IsTruthy(options.carrySideEffect) then thisView else null;
      var av: MemoryView? := if IsTruthy(options.carrySideEffect) then argvView else null;
      h' := h2;
      call := Some(Call(msg.caller, cp, reg.services[msg.request], thisVal, argvVal, tv, av));
    }

    /**
     * `handleRequest` after the service returned (`Ok`) or threw (`Err`),
     * with `h` the heap the service left: the result or the error is
     * serialized towards the requesting counterpart, then the argument and
     * receiver arenas are deflated again, and the response is posted. Each
     * step that throws leaves its field absent.
     */
    method CompleteRequest(h: Heap, call: Call, result: Result<Value, Value>)
      returns (valueView: MemoryView?, valueField: Wire, ghost reg1: Registry, ghost reg2: Registry)
      requires Valid() && RefsValid(h)
      requires ValidRef(h, if result.Ok? then result.value else result.error)
      requires call.argvView != null ==> call.argvView.Valid() && ValidRef(h, call.argvView.root) && AllValid(h, call.argvView.slots)
      requires call.thisView != null ==> call.thisView.Valid() && ValidRef(h, call.thisView.root) && AllValid(h, call.thisView.slots)
      requires call.thisView != null && call.argvView != null ==> call.thisView != call.argvView
      modifies this, call.argvView, call.thisView
      ensures Valid()
      ensures valueView != null <==> Serializable(h, if result.Ok? then result.value else result.error)
      ensures valueView == null ==> valueField == Absent && reg1 == old(reg)
      ensures valueView != null ==>
        && fresh(valueView) && AllValid(h, valueView.slots)
        && valueView.root == (if result.Ok? then result.value else result.error)
        && valueField.WList? && DeflateSlots(h, valueView.refs, old(reg), Some(call.cp), valueView.slots) == Ok((valueField.items, reg1))
      ensures call.argvView != null ==> AllValid(h, call.argvView.slots)
      ensures call.thisView != null ==> AllValid(h, call.thisView.slots)
      ensures var argvEcho := if call.argvView == null then (Absent, reg1)
          else DeflateEcho(h, call.argvView.refs, reg1, Some(call.cp), call.argvView.slots, ItemsReturn(h, old(call.argvView.refs), call.argvView.root));
        var thisEcho := if call.thisView == null then (Absent, argvEcho.1)
          else DeflateEcho(h, call.thisView.refs, argvEcho.1, Some(call.cp), call.thisView.slots, ItemsReturn(h, old(call.thisView.refs), call.thisView.root));
        && reg2 == argvEcho.1 && reg == thisEcho.1
        && outbox == old(outbox) + [Post(call.cp,
             if result.Ok? then Response(call.caller, Absent, valueField, argvEcho.0, thisEcho.0)
             else Response(call.caller, valueField, Absent, argvEcho.0, thisEcho.0))]
      ensures counterparts == old(counterparts) && listeners == old(listeners) && detached == old(detached)
      ensures requests == old(requests) && reqCounter == old(reqCounter) && settled == old(settled)
    {
      var x := if result.Ok? then result.value else result.error;
      valueField, valueView := SerializeCaught(h, x, Some(call.cp));
      reg1 := reg;
      var argvField := DeflateAgain(h, call.argvView, Some(call.cp));
      reg2 := reg;
      var thisField := DeflateAgain(h, call.thisView, Some(call.cp));
      var msg := if result.Ok? then Response(call.caller, Absent, valueField, argvField, thisField)
                 else Response(call.caller, valueField, Absent, argvField, thisField);
      outbox := outbox + [Post(call.cp, msg)];
    }

    /**
     * `$view && deflate($view, fn).catch(console.error)`: an arena that is
     * present is deflated again (its walk now registers what the service
     * attached); a failure or an absent arena gives an absent field.
     */
    method DeflateAgain(h: Heap, mx: MemoryView?, target: Option<nat>) returns (field: Wire)
      requires Valid() && RefsValid(h)
      requires mx != null ==> mx.Valid() && ValidRef(h, mx.root) && AllValid(h, mx.slots)
      modifies this, mx
      ensures Valid()
      ensures mx == null ==> field == Absent && reg == old(reg)
      ensures mx != null ==> mx.Valid() && mx.root == old(mx.root) && AllValid(h, mx.slots)
      ensures mx != null ==> (field, reg) == DeflateEcho(h, mx.refs, old(reg), target, mx.slots, ItemsReturn(h, old(mx.refs), mx.root))
      ensures counterparts == old(counterparts) && listeners == old(listeners) && detached == old(detached)
      ensures requests == old(requests) && reqCounter == old(reqCounter) && outbox == old(outbox) && settled == old(settled)
    {
      field := Absent;
      if mx != null {
        var e := Redeflate(mx, h, reg, target);
        match e {
          case Ok((ws, reg')) =>
            field := WList(ws);
            reg := reg';
          case Err(_) =>
        }
      }
    }

    /** One carryback, as `HandleResponse` runs it. */
    method CarryBackInto(h: Heap, mx: MemoryView?, rx: Wire, cp: nat) returns (r: Result<Heap, Error>)
      ensures r == CarryBack(h, reg.services, cp, rx, ViewSlots(mx))
    {
      if mx == null || !Present(rx) {
        return Ok(h);
      }
      var e := InflateView(h, reg.services, cp, rx, mx);
      if e.Err? {
        return Err(e.error);
      }
      return Ok(e.value.0);
    }

    /**
     * `handleResponse`: a response for no pending request is ignored.
     * Otherwise the side effects are carried back onto the caller's own
     * objects, argument arena first, and the promise is settled: rejected
     * with the raw error when one is present, else resolved with the
     * deserialized value; the request is then no longer pending. When an
     * inflate throws, the request stays pending.
     */
    method HandleResponse(h: Heap, msg: Message, cp: nat) returns (h': Heap)
      requires Valid() && msg.Response?
      modifies this
      ensures Valid()
      ensures counterparts == old(counterparts) && listeners == old(listeners) && detached == old(detached)
      ensures reg == old(reg) && reqCounter == old(reqCounter) && outbox == old(outbox)
      ensures msg.caller !in old(requests) ==> h' == h && requests == old(requests) && settled == old(settled)
      ensures msg.caller in old(requests) ==>
        var p := old(requests)[msg.caller];
        var s := ResponseSpec(h, old(reg).services, cp, msg, old(ViewSlots(p.argv)), old(ViewSlots(p.thisArg)));
        && h' == s.h
        && (s.Settled? ==> requests == old(requests) - {msg.caller} && settled == old(settled) + [(msg.caller, s.outcome)])
        && (s.Thrown? ==> requests == old(requests) && settled == old(settled))
    {
      if msg.caller !in requests {
        return h;
      }
      var p := requests[msg.caller];
      var r := Settlement(h, msg, cp, p);
      h' := r.h;
      Record(msg.caller, r);
    }

    /** Settling the promise of a pending request removes it; a throw keeps it pending. */
    method Record(caller: string, r: Settle)
      requires Valid() && caller in requests
      modifies this
      ensures Valid()
      ensures counterparts == old(counterparts) && listeners == old(listeners) && detached == old(detached)
      ensures reg == old(reg) && reqCounter == old(reqCounter) && outbox == old(outbox)
      ensures r.Settled? ==> requests == old(requests) - {caller} && settled == old(settled) + [(caller, r.outcome)]
      ensures r.Thrown? ==> requests == old(requests) && settled == old(settled)
    {
      if r.Settled? {
        settled := settled + [(caller, r.outcome)];
        requests := requests - {caller};
      }
    }

    /** The carrybacks and the settlement of `handleResponse`, for a pending request `p`. */
    method Settlement(h: Heap, msg: Message, cp: nat, p: Pending) returns (r: Settle)
      requires msg.Response?
      ensures r == ResponseSpec(h, reg.services, cp, msg, ViewSlots(p.argv), ViewSlots(p.thisArg))
    {
      var c1 := CarryBackInto(h, p.argv, msg.argv, cp);
      if c1.Err? {
        return Thrown(h, c1.error);
      }
      var h1 := c1.value;
      var c2 := CarryBackInto(h1, p.thisArg, msg.thisArg, cp);
      if c2.Err? {
        return Thrown(h1, c2.error);
      }
      var h2 := c2.value;
      if Present(msg.error) {
        return Settled(h2, Rejected(msg.error));
      }
      var d := Deserialize(h2, msg.value, Some(cp));
      if d.Err? {
        return Thrown(h2, d.error);
      }
      return Settled(d.value.0, Resolved(d.value.1));
    }
  }

  /**
   * A context made with `{carryThis: undefined}`: `Object.assign` copies the
   * `undefined`, so every receiver a proxy call carries is dropped, while
   * `global` and side effects keep their defaults.
   */
  lemma UndefinedCarryThis(ctx: RPCContext, thisArg: Value)
    requires ctx.options == AssignOptions(DefaultOptions, Some(UserOptions(Some(P(Undefined)), None, None)))
    ensures ctx.NormalizeThis(thisArg) == P(Undefined)
    ensures ctx.options.carryGlobalThis == DefaultOptions.carryGlobalThis && IsTruthy(ctx.options.carrySideEffect)
  {
  }

  /** A context made with `{carrySideEffect: undefined}` carries no side effects back. */
  lemma UndefinedCarrySideEffect(ctx: RPCContext)
    requires ctx.options == AssignOptions(DefaultOptions, Some(UserOptions(None, None, Some(P(Undefined)))))
    ensures !IsTruthy(ctx.options.carrySideEffect)
    ensures ctx.options.carryThis == DefaultOptions.carryThis && ctx.options.carryGlobalThis == DefaultOptions.carryGlobalThis
  {
  }
}
