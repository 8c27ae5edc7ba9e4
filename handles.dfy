/**
 * Function handles (`src/rpc-context.ts`): how a function crosses the
 * channel. A function marked simple travels as its source text (`=`); a
 * proxy travelling back to the side it came from travels as a reflection of
 * the original service (`>`); every other function is registered as a local
 * service and travels as a remote handle (`<id` or `<id:name`).
 */
module Handles {
  import opened Wrappers
  import opened Model
  import opened Wire
  import Radix

  /**
   * The service registry of one RPC context: `services` (id to function),
   * its reverse `srvIdMap` (function to id) and the id counter.
   */
  datatype Registry = Registry(services: map<string, nat>, srvIdMap: map<nat, string>, serviceCounter: nat)

  /** The number a service id denotes, when the id is a hex numeral. */
  function IdNumber(id: string): Option<nat> {
    Radix.ParseInt(id, 16)
  }

  /**
   * The registry is consistent: `services` and `srvIdMap` are inverse of
   * each other, and every id is the hex rendering of a number below the
   * counter, so the next id is fresh.
   */
  ghost predicate RegValid(reg: Registry) {
    && (forall a :: a in reg.srvIdMap ==> reg.srvIdMap[a] in reg.services && reg.services[reg.srvIdMap[a]] == a)
    && (forall id :: id in reg.services ==> reg.services[id] in reg.srvIdMap && reg.srvIdMap[reg.services[id]] == id)
    && (forall id :: id in reg.services ==>
          IdNumber(id).Some? && IdNumber(id).value < reg.serviceCounter && Radix.Hex(IdNumber(id).value) == id)
  }

  const EmptyRegistry := Registry(map[], map[], 0)

  /** The suffix a remote handle carries: `:name`, or nothing for an anonymous function. */
  function NameSuffix(name: string): (r: string)
    ensures name == [] ==> r == []
    ensures name != [] ==> r == ":" + name
  {
    if name == [] then [] else ":" + name
  }

  /** Registration as `deflateFn` performs it: a function seen before keeps its id. */
  function Register(reg: Registry, a: nat): (r: Registry) {
    if a in reg.srvIdMap then reg
    else
      var id := Radix.Hex(reg.serviceCounter);
      Registry(reg.services[id := a], reg.srvIdMap[a := id], reg.serviceCounter + 1)
  }

  /**
   * `deflateFn`: the magic string for function `f` at address `a`, sent
   * towards counterpart `target` (absent when the caller named none), and
   * the registry afterwards.
   */
  function DeflateFn(reg: Registry, a: nat, f: Node, target: Option<nat>): (r: (Registry, string))
    requires f.Func?
    ensures f.simple ==> r == (reg, "=" + f.source)
    ensures !f.simple && f.proxy.Some? && target == Some(f.proxy.value.origin) ==>
      r == (reg, ">" + f.proxy.value.id)
    ensures !f.simple && !(f.proxy.Some? && target == Some(f.proxy.value.origin)) ==>
      && a in r.0.srvIdMap
      && r.1 == "<" + r.0.srvIdMap[a] + NameSuffix(f.name)
      && (a in reg.srvIdMap ==> r.0 == reg)
      && (a !in reg.srvIdMap ==>
            && r.0.srvIdMap[a] == Radix.Hex(reg.serviceCounter)
            && r.0.services == reg.services[Radix.Hex(reg.serviceCounter) := a]
            && r.0.srvIdMap == reg.srvIdMap[a := Radix.Hex(reg.serviceCounter)]
            && r.0.serviceCounter == reg.serviceCounter + 1)
  {
    if f.simple then (reg, "=" + f.source)
    else if f.proxy.Some? && target == Some(f.proxy.value.origin) then (reg, ">" + f.proxy.value.id)
    else
      var reg' := Register(reg, a);
      (reg', "<" + reg'.srvIdMap[a] + NameSuffix(f.name))
  }

  /** Registration keeps the registry consistent and never moves an existing entry. */
  lemma RegisterValid(reg: Registry, a: nat)
    requires RegValid(reg)
    ensures RegValid(Register(reg, a))
    ensures a in Register(reg, a).srvIdMap
    ensures Register(reg, a).services[Register(reg, a).srvIdMap[a]] == a
    ensures forall b :: b in reg.srvIdMap ==> b in Register(reg, a).srvIdMap && Register(reg, a).srvIdMap[b] == reg.srvIdMap[b]
    ensures forall id :: id in reg.services ==> id in Register(reg, a).services && Register(reg, a).services[id] == reg.services[id]
  {
    if a !in reg.srvIdMap {
      var n := reg.serviceCounter;
      var id := Radix.Hex(n);
      Radix.ParseToRadix(n, 16);
      assert IdNumber(id) == Some(n);
      assert id !in reg.services;
      var reg' := Register(reg, a);
      forall b | b in reg'.srvIdMap
        ensures reg'.srvIdMap[b] in reg'.services && reg'.services[reg'.srvIdMap[b]] == b
      {
        if b != a {
          assert reg.srvIdMap[b] in reg.services;
        }
      }
    }
  }

  /** `deflateFn` keeps the registry consistent. */
  lemma DeflateFnValid(reg: Registry, a: nat, f: Node, target: Option<nat>)
    requires f.Func? && RegValid(reg)
    ensures RegValid(DeflateFn(reg, a, f, target).0)
  {
    if !f.simple && !(f.proxy.Some? && target == Some(f.proxy.value.origin)) {
      RegisterValid(reg, a);
    }
  }

  /** Whether `deflateFn` registers `f` as a local service rather than sending its source or reflecting it. */
  predicate IsLocal(f: Node, target: Option<nat>)
    requires f.Func?
  {
    !f.simple && !(f.proxy.Some? && target == Some(f.proxy.value.origin))
  }

  /** Every entry of `reg` is still in `reg'` and unchanged: ids are never reassigned. */
  ghost predicate RegGrows(reg: Registry, reg': Registry) {
    && (forall b :: b in reg.srvIdMap ==> b in reg'.srvIdMap && reg'.srvIdMap[b] == reg.srvIdMap[b])
    && (forall id :: id in reg.services ==> id in reg'.services && reg'.services[id] == reg.services[id])
  }

  /** `deflateFn` only adds to the registry, and a local function ends up registered. */
  lemma DeflateFnGrows(reg: Registry, a: nat, f: Node, target: Option<nat>)
    requires f.Func? && RegValid(reg)
    ensures RegGrows(reg, DeflateFn(reg, a, f, target).0)
    ensures IsLocal(f, target) ==> a in DeflateFn(reg, a, f, target).0.srvIdMap
  {
    if IsLocal(f, target) {
      RegisterValid(reg, a);
    }
  }

  /**
   * The handle of a registered function names a service that is that very
   * function, and encoding the same function again gives the same string
   * and registers nothing more.
   */
  lemma {:induction false} DeflateFnIdempotent(reg: Registry, a: nat, f: Node, target: Option<nat>)
    requires f.Func? && RegValid(reg)
    ensures var (reg1, m1) := DeflateFn(reg, a, f, target);
      DeflateFn(reg1, a, f, target) == (reg1, m1)
    ensures var (reg1, m1) := DeflateFn(reg, a, f, target);
      !f.simple && !(f.proxy.Some? && target == Some(f.proxy.value.origin)) ==>
        reg1.srvIdMap[a] in reg1.services && reg1.services[reg1.srvIdMap[a]] == a
  {
    if !f.simple && !(f.proxy.Some? && target == Some(f.proxy.value.origin)) {
      RegisterValid(reg, a);
    }
  }

  /** Two different functions never share a service id. */
  lemma DistinctIds(reg: Registry, a: nat, b: nat)
    requires RegValid(reg) && a in reg.srvIdMap && b in reg.srvIdMap && a != b
    ensures reg.srvIdMap[a] != reg.srvIdMap[b]
  {
    assert reg.services[reg.srvIdMap[a]] == a;
    assert reg.services[reg.srvIdMap[b]] == b;
  }

  // ---------------------------------------------------------------------
  // String.prototype.split(":")
  // ---------------------------------------------------------------------

  /** `s.split(":")`: the pieces between the colons, always at least one. */
  function Split(s: string): (r: seq<string>)
    ensures |r| >= 1
    decreases |s|
  {
    if s == [] then [[]]
    else if s[0] == ':' then [[]] + Split(s[1..])
    else
      var rest := Split(s[1..]);
      [[s[0]] + rest[0]] + rest[1..]
  }

  /** The pieces joined back with `:` in between. */
  function Join(parts: seq<string>): string
    requires |parts| >= 1
    decreases |parts|
  {
    if |parts| == 1 then parts[0] else parts[0] + ":" + Join(parts[1..])
  }

  /** Splitting loses nothing: the pieces, rejoined, are the string, and no piece holds a colon. */
  lemma {:induction false} SplitJoin(s: string)
    ensures Join(Split(s)) == s
    ensures forall k :: 0 <= k < |Split(s)| ==> ':' !in Split(s)[k]
    decreases |s|
  {
    if s != [] {
      SplitJoin(s[1..]);
      var rest := Split(s[1..]);
      if s[0] == ':' {
        assert Split(s) == [[]] + rest;
        assert Split(s)[1..] == rest;
      } else {
        var r := Split(s);
        assert r == [[s[0]] + rest[0]] + rest[1..];
        if |rest| > 1 {
          assert r[1..] == rest[1..];
          assert Join(rest) == rest[0] + ":" + Join(rest[1..]);
        }
        forall k | 0 <= k < |r| ensures ':' !in r[k] {
          if k == 0 {
            assert ':' !in rest[0];
          } else {
            assert r[k] == rest[k];
          }
        }
      }
    }
  }

  /** Splitting a string whose first piece is colon-free at a colon. */
  lemma {:induction false} SplitAtColon(x: string, y: string)
    requires ':' !in x
    ensures Split(x + ":" + y) == [x] + Split(y)
    ensures Split(x) == [x]
    decreases |x|
  {
    if x == [] {
      assert x + ":" + y == [':'] + y;
      assert ([':'] + y)[1..] == y;
    } else {
      assert (x + ":" + y)[1..] == x[1..] + ":" + y;
      assert ':' !in x[1..] by {
        forall c | c in x[1..] ensures c != ':' {
          assert c in x;
        }
      }
      SplitAtColon(x[1..], y);
      assert [x[0]] + x[1..] == x;
    }
  }

  // ---------------------------------------------------------------------
  // Decoding handles
  // ---------------------------------------------------------------------

  /** The name a proxy gets when its handle carries none. */
  const DefaultProxyName := "RPC Magic Proxy"

  /** What a proxy's `toString` shows: the body of the library's `proxy` closure (opaque to the model). */
  const ProxySource := "async function proxy(...argv) { return initiateRequest(id, cp, this, argv); }"

  /**
   * `createProxyFn`: a new function that forwards calls to service `id` over
   * channel `cp`, named after the second `:`-piece of the handle.
   */
  function CreateProxyFn(h: Heap, handle: string, cp: nat): (r: (Heap, Value))
    ensures var parts := Split(handle);
      r.0 == h + [Func(false, Some(ProxyTag(cp, parts[0])), ProxySource,
                       if |parts| >= 2 then parts[1] else DefaultProxyName, [], false)]
      && r.1 == Ref(|h|)
  {
    var parts := Split(handle);
    var name := if |parts| >= 2 then parts[1] else DefaultProxyName;
    var (h', a) := Alloc(h, Func(false, Some(ProxyTag(cp, parts[0])), ProxySource, name, [], false));
    (h', Ref(a))
  }

  /**
   * `inflateFn`: decode a function magic string received over channel `cp`.
   * `<` makes a proxy, `>` looks the local service up, `=` compiles the
   * source (the compiled function is modelled as a fresh simple function
   * carrying that source), any other string is `UnknownFnMagic`.
   */
  function InflateFn(h: Heap, services: map<string, nat>, cp: nat, magic: string): (r: Result<(Heap, Value), Error>)
    ensures magic != [] && magic[0] == '<' ==> r == Ok(CreateProxyFn(h, magic[1..], cp))
    ensures magic != [] && magic[0] == '>' ==>
      (magic[1..] in services ==> r == Ok((h, Ref(services[magic[1..]]))))
      && (magic[1..] !in services ==> r == Err(ReflectionNotFound(magic[1..])))
    ensures magic != [] && magic[0] == '=' ==> r == Ok((h + [Func(true, None, magic[1..], "", [], false)], Ref(|h|)))
    ensures (magic == [] || magic[0] !in "<>=") ==> r == Err(UnknownFnMagic(magic))
  {
    if magic == [] then Err(UnknownFnMagic(magic))
    else
      var id := magic[1..];
      match magic[0]
      case '<' => Ok(CreateProxyFn(h, id, cp))
      case '>' =>
        if id !in services then Err(ReflectionNotFound(id))
        else Ok((h, Ref(services[id])))
      case '=' =>
        var (h', a) := Alloc(h, Func(true, None, id, "", [], false));
        Ok((h', Ref(a)))
      case _ => Err(UnknownFnMagic(magic))
  }

  /**
   * A remote handle decodes to a proxy for the service it names, carrying
   * the function's name (up to its first colon), or the default name for an
   * anonymous function.
   */
  lemma RemoteHandleDecodes(h: Heap, services: map<string, nat>, cp: nat, id: string, name: string)
    requires ':' !in id
    ensures InflateFn(h, services, cp, "<" + id + NameSuffix(name))
      == Ok((h + [Func(false, Some(ProxyTag(cp, id)), ProxySource,
                       if name == [] then DefaultProxyName else Split(name)[0], [], false)], Ref(|h|)))
  {
    var m := "<" + id + NameSuffix(name);
    assert m[0] == '<';
    if name == [] {
      assert m[1..] == id;
      SplitAtColon(id, []);
    } else {
      assert m[1..] == id + ":" + name;
      SplitAtColon(id, name);
    }
  }

  /** A service id is a hex numeral, so it never contains a colon. */
  lemma HexHasNoColon(n: nat)
    ensures ':' !in Radix.Hex(n)
  {
  }

  /**
   * Reflection: a proxy travelling back over the channel it came from
   * decodes, on its home side, to exactly the service it stands for.
   */
  lemma Reflection(reg: Registry, a: nat, p: Node, home: Registry, h: Heap, cp: nat)
    requires p.Func? && !p.simple && p.proxy.Some?
    requires p.proxy.value.id in home.services
    ensures var (reg', m) := DeflateFn(reg, a, p, Some(p.proxy.value.origin));
      reg' == reg && InflateFn(h, home.services, cp, m) == Ok((h, Ref(home.services[p.proxy.value.id])))
  {
    var m := ">" + p.proxy.value.id;
    assert m[0] == '>' && m[1..] == p.proxy.value.id;
  }

  /**
   * A proxy whose handle was taken from a consistent registry reflects back
   * to the function that registry handed out.
   */
  lemma HandleRoundTrip(reg: Registry, a: nat, f: Node, target: Option<nat>, h: Heap, cp: nat)
    requires f.Func? && !f.simple && !(f.proxy.Some? && target == Some(f.proxy.value.origin)) && RegValid(reg)
    ensures var (reg', m) := DeflateFn(reg, a, f, target);
      && InflateFn(h, map[], cp, m).Ok?
      && var (h', v) := InflateFn(h, map[], cp, m).value;
         && v == Ref(|h|) && |h'| == |h| + 1 && h'[|h|].proxy == Some(ProxyTag(cp, reg'.srvIdMap[a]))
         && reg'.services[reg'.srvIdMap[a]] == a
  {
    var (reg', m) := DeflateFn(reg, a, f, target);
    RegisterValid(reg, a);
    var id := reg'.srvIdMap[a];
    assert ':' !in id by {
      assert id in reg'.services;
      assert Radix.Hex(IdNumber(id).value) == id;
      HexHasNoColon(IdNumber(id).value);
    }
    RemoteHandleDecodes(h, map[], cp, id, f.name);
  }
}
