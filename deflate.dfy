/**
 * `deflate` (`src/deflate.ts`): one wire element per arena slot, in slot
 * order. Strings are escaped with `#`, other primitives pass unchanged,
 * children that are objects become `*`-back-references to their arena
 * index, and each object kind gets its own tagged shape.
 */
module Deflate {
  import opened Wrappers
  import opened Model
  import opened Wire
  import opened Handles
  import opened Util
  import opened MemView
  import Radix

  /**
   * The child handler of `createBaseElementHandler`: a string child is
   * escaped, another primitive passes through, an object becomes `*` and its
   * hex arena index, and an object missing from the arena is `ItemNotFound`.
   */

  function ChildSlug(refs: map<nat, nat>, v: Value): (r: Result<Prim, Error>)
    ensures r.Err? <==> v.Ref? && v.addr !in refs
    ensures r.Err? ==> r.error == ItemNotFound
    ensures v.P? && v.p.Str? ==> r == Ok(Str(Escape(v.p.s)))
    ensures v.P? && !v.p.Str? ==> r == Ok(v.p)
    ensures v.Ref? && v.addr in refs ==> r == Ok(Str("*" + Radix.Hex(refs[v.addr])))
  {
    match v
    case P(p) => if p.Str? then Ok(Str(Escape(p.s))) else Ok(p)
    case Ref(a) =>
      if a in refs then Ok(Str("*" + Radix.Hex(refs[a])))
      else Err(ItemNotFound)
  }

  /** The child handler applied to each value in turn; the first failure stops it. */
  function ChildSlugs(refs: map<nat, nat>, vals: seq<Value>): (r: Result<seq<Prim>, Error>)
    ensures r.Ok? <==> RefAddrs(vals) <= refs.Keys
    ensures r.Ok? ==> |r.value| == |vals| && forall i :: 0 <= i < |vals| ==> Ok(r.value[i]) == ChildSlug(refs, vals[i])
    ensures r.Err? ==> r.error == ItemNotFound
    decreases |vals|
  {
    if vals == [] then Ok([])
    else
      assert vals == [vals[0]] + vals[1..];
      assert RefAddrs(vals) == RefAddrs([vals[0]]) + RefAddrs(vals[1..]) by {
        forall x ensures x in vals <==> x == vals[0] || x in vals[1..] {
        }
      }
      match ChildSlug(refs, vals[0])
      case Err(e) => Err(e)
      case Ok(s) =>
        match ChildSlugs(refs, vals[1..])
        case Err(e) => Err(e)
        case Ok(rest) => Ok([s] + rest)
  }

  function Prims(slugs: seq<Prim>): (r: seq<Wire>)
    ensures |r| == |slugs| && forall i :: 0 <= i < |slugs| ==> r[i] == WPrim(slugs[i])
  {
    seq(|slugs|, i requires 0 <= i < |slugs| => WPrim(slugs[i]))
  }

  /** Array iteration order: every index below `length`, holes read as `undefined`. */
  function ArrayItems(items: map<nat, Value>, length: nat): (r: seq<Value>)
    ensures |r| == length && forall i :: 0 <= i < length ==> r[i] == ItemAt(items, i)
  {
    seq(length, i requires 0 <= i < length => ItemAt(items, i))
  }

  /** `deflateSymbol`: `@name` for a symbol of the global registry, `$name` for any other. */
  function DeflateSymbol(interned: bool, name: string): string {
    (if interned then "@" else "$") + name
  }

  /**
   * One slot of the arena as a wire element, and the registry after any
   * function in it was encoded by `deflateFn`.
   */
  function DeflateItem(h: Heap, refs: map<nat, nat>, reg: Registry, target: Option<nat>, v: Value): (r: Result<(Wire, Registry), Error>)
    requires ValidRef(h, v)
    ensures r.Err? <==> v.Ref? && !(ChildAddrs(h[v.addr]) <= refs.Keys)
    ensures r.Err? ==> r.error == ItemNotFound
    ensures r.Ok? ==> r.value.1 == if v.Ref? && h[v.addr].Func? then DeflateFn(reg, v.addr, h[v.addr], target).0 else reg
  {
    ChildrenOfItem(h, v);
    match v
    case P(p) => Ok((if p.Str? then WStr(Escape(p.s)) else WPrim(p), reg))
    case Ref(a) =>
      match h[a]
      case Symbol(interned, name) => Ok((WStr(DeflateSymbol(interned, name)), reg))
      case Array(items, length) =>
        if length == 0 then Ok((WList([]), reg))
        else
          var slugs :- ChildSlugs(refs, ArrayItems(items, length));
          Ok((WList([WStr("A")] + Prims(slugs)), reg))
      case MapNode(entries) =>
        var ks :- ChildSlugs(refs, FieldKeys(entries));
        var vs :- ChildSlugs(refs, FieldValues(entries));
        Ok((WList([WStr("M")] + seq(|entries|, i requires 0 <= i < |entries| => WList([WPrim(ks[i]), WPrim(vs[i])]))), reg))
      case SetNode(elems) =>
        var slugs :- ChildSlugs(refs, elems);
        Ok((WList([WStr("S")] + Prims(slugs)), reg))
      case Record(fields) =>
        var vs :- ChildSlugs(refs, FieldValues(fields));
        Ok((WRec(seq(|fields|, i requires 0 <= i < |fields| => (fields[i].0, WPrim(vs[i])))), reg))
      case Func(_, _, _, _, extra, _) =>
        var (reg', magic) := DeflateFn(reg, a, h[a], target);
        if extra == [] then Ok((WStr(magic), reg'))
        else
          var vs :- ChildSlugs(refs, FieldValues(extra));
          Ok((WList([WStr(magic)] + seq(|extra|, i requires 0 <= i < |extra| => WList([WStr(extra[i].0), WPrim(vs[i])]))), reg'))
  }

  /** The children `deflate` visits are those the walker visits. */
  lemma ChildrenOfItem(h: Heap, v: Value)
    requires ValidRef(h, v)
    ensures v.Ref? && h[v.addr].Array? ==>
      RefAddrs(ArrayItems(h[v.addr].items, h[v.addr].length)) == ChildAddrs(h[v.addr])
    ensures v.Ref? && h[v.addr].MapNode? ==>
      ChildAddrs(h[v.addr]) == RefAddrs(FieldKeys(h[v.addr].entries)) + RefAddrs(FieldValues(h[v.addr].entries))
  {
    if v.Ref? && h[v.addr].Array? {
      var n := h[v.addr];
      var xs := ArrayItems(n.items, n.length);
      forall a ensures a in RefAddrs(xs) <==> a in ChildAddrs(n) {
        if a in RefAddrs(xs) {
          var w :| w in xs && w.Ref? && w.addr == a;
          var i :| 0 <= i < |xs| && xs[i] == w;
          assert w in PresentValues(n.items, n.length);
        }
        if a in ChildAddrs(n) {
          var w :| w in PresentValues(n.items, n.length) && w.Ref? && w.addr == a;
          var i :| 0 <= i < n.length && i in n.items && n.items[i] == w;
          assert xs[i] == w;
        }
      }
    }
    if v.Ref? && h[v.addr].MapNode? {
      var e := h[v.addr].entries;
      assert forall x :: x in FieldKeys(e) + FieldValues(e) <==> x in FieldKeys(e) || x in FieldValues(e);
    }
  }

  /** Every child of every object slot has an arena index. */
  predicate ChildrenRegistered(h: Heap, refs: map<nat, nat>, slots: seq<Value>)
    requires AllValid(h, slots)
  {
    forall v :: v in slots && v.Ref? ==> ChildAddrs(h[v.addr]) <= refs.Keys
  }

  /**
   * The whole arena deflated slot by slot, threading the registry; the
   * first missing child stops it.
   */
  function DeflateSlots(h: Heap, refs: map<nat, nat>, reg: Registry, target: Option<nat>, slots: seq<Value>): (r: Result<(seq<Wire>, Registry), Error>)
    requires AllValid(h, slots)
    ensures r.Ok? ==> |r.value.0| == |slots|
    ensures r.Ok? <==> ChildrenRegistered(h, refs, slots)
    ensures r.Err? ==> r.error == ItemNotFound
    decreases |slots|
  {
    if slots == [] then Ok(([], reg))
    else
      var n := |slots| - 1;
      assert slots[n] in slots;
      assert AllValid(h, slots[..n]) by {
        forall v | v in slots[..n] ensures ValidRef(h, v) {
          assert v in slots;
        }
      }
      var prev :- DeflateSlots(h, refs, reg, target, slots[..n]);
      assert forall v :: v in slots <==> v in slots[..n] || v == slots[n] by {
        assert slots == slots[..n] + [slots[n]];
      }
      var (w, reg') :- DeflateItem(h, refs, prev.1, target, slots[n]);
      Ok((prev.0 + [w], reg'))
  }

  /** The slots `items` leaves, whether or not it throws, are values of the heap. */
  lemma ItemsValid(h: Heap, slots: seq<Value>, refs: map<nat, nat>, root: Value)
    requires RefsValid(h) && ValidRef(h, root) && AllValid(h, slots)
    ensures AllValid(h, RegisterEach(h, slots, refs, Traverse(h, [root])).0)
  {
    var walk := Traverse(h, [root]);
    TraverseYieldsReachable(h, [root]);
    RegisterEachFrom(h, slots, refs, walk);
    forall v | v in RegisterEach(h, slots, refs, walk).0 ensures ValidRef(h, v) {
      if v !in slots {
        assert Reachable(h, [root], v.addr);
        ReachableChild(h, [root], v.addr, 0);
      }
    }
  }

  /** The loop of `deflate`: push each slot's wire element, stopping at the first failure. */
  method DeflateArena(h: Heap, refs: map<nat, nat>, reg: Registry, target: Option<nat>, items: seq<Value>) returns (r: Result<(seq<Wire>, Registry), Error>)
    requires AllValid(h, items)
    ensures r == DeflateSlots(h, refs, reg, target, items)
  {
    var out: seq<Wire> := [];
    var cur := reg;
    var i := 0;
    assert items[..0] == [];
    while i < |items|
      invariant 0 <= i <= |items|
      invariant AllValid(h, items[..i])
      invariant DeflateSlots(h, refs, reg, target, items[..i]) == Ok((out, cur))
    {
      DeflateSlotsNext(h, refs, reg, target, items, i, out, cur);
      var e := DeflateItem(h, refs, cur, target, items[i]);
      match e {
        case Err(err) => return Err(err);
        case Ok((w, cur')) =>
          out := out + [w];
          cur := cur';
      }
      i := i + 1;
    }
    assert items[..i] == items;
    return Ok((out, cur));
  }

  /** One step of `DeflateArena`: the next slot extends the prefix, or its failure is the whole arena's. */
  lemma DeflateSlotsNext(h: Heap, refs: map<nat, nat>, reg: Registry, target: Option<nat>, items: seq<Value>, i: nat,
                         out: seq<Wire>, cur: Registry)
    requires AllValid(h, items) && i < |items| && AllValid(h, items[..i])
    requires DeflateSlots(h, refs, reg, target, items[..i]) == Ok((out, cur))
    ensures ValidRef(h, items[i]) && AllValid(h, items[..i + 1])
    ensures DeflateItem(h, refs, cur, target, items[i]).Err? ==>
      DeflateSlots(h, refs, reg, target, items) == Err(DeflateItem(h, refs, cur, target, items[i]).error)
    ensures DeflateItem(h, refs, cur, target, items[i]).Ok? ==>
      var e := DeflateItem(h, refs, cur, target, items[i]).value;
      DeflateSlots(h, refs, reg, target, items[..i + 1]) == Ok((out + [e.0], e.1))
  {
    assert items[i] in items;
    assert items[..i + 1][..i] == items[..i];
    assert AllValid(h, items[..i + 1]) by {
      forall v | v in items[..i + 1] ensures ValidRef(h, v) {
        assert v in items;
      }
    }
    if DeflateItem(h, refs, cur, target, items[i]).Err? {
      assert !ChildrenRegistered(h, refs, items);
    }
  }

  /**
   * Whether `items` returns for an arena: everything reachable from the
   * root is registered already or can be held weakly.
   */
  ghost predicate ItemsReturn(h: Heap, refs: map<nat, nat>, root: Value) {
    forall a :: Reachable(h, [root], a) ==> a in refs || CanBeHeldWeakly(h, a)
  }

  /**
   * `deflate(mx, fn)`: first `mx.items()` registers everything reachable
   * from the root, then each slot is pushed as its wire element. When
   * `items` throws, so does `deflate`, and the arena keeps what was
   * registered before the throw.
   */
  method DeflateView(mx: MemoryView, h: Heap, reg: Registry, target: Option<nat>) returns (r: Result<(seq<Wire>, Registry), Error>)
    requires mx.Valid() && RefsValid(h) && ValidRef(h, mx.root) && AllValid(h, mx.slots)
    modifies mx
    ensures mx.Valid() && mx.root == old(mx.root) && AllValid(h, mx.slots)
    ensures (mx.slots, mx.refs, ItemsReturn(h, old(mx.refs), mx.root)) == RegisterEach(h, old(mx.slots), old(mx.refs), Traverse(h, [mx.root]))
    ensures !ItemsReturn(h, old(mx.refs), mx.root) ==> r == Err(InvalidWeakKey)
    ensures ItemsReturn(h, old(mx.refs), mx.root) ==>
      && mx.slots == old(mx.slots) + Unregistered(Traverse(h, [mx.root]), old(mx.refs).Keys)
      && (forall a :: Reachable(h, [mx.root], a) ==> a in mx.refs)
      && (AllHeldWeakly(h, old(mx.slots)) ==> AllHeldWeakly(h, mx.slots))
      && r == DeflateSlots(h, mx.refs, reg, target, mx.slots)
    ensures forall a :: a in old(mx.refs) ==> a in mx.refs && mx.refs[a] == old(mx.refs)[a]
    ensures Indexed(old(mx.slots), old(mx.refs)) ==> Indexed(mx.slots, mx.refs)
  {
    ItemsValid(h, mx.slots, mx.refs, mx.root);
    var items := mx.Items(h);
    if items.Err? {
      return Err(items.error);
    }
    r := DeflateArena(h, mx.refs, reg, target, items.value);
  }

  /**
   * An arena whose object slots are all reachable from its root, once
   * everything reachable is registered, has every child registered: then
   * `deflate` cannot fail.
   */
  lemma ReachableArenaRegistered(h: Heap, root: Value, slots: seq<Value>, refs: map<nat, nat>)
    requires RefsValid(h) && ValidRef(h, root) && AllValid(h, slots)
    requires forall v :: v in slots && v.Ref? ==> Reachable(h, [root], v.addr)
    requires forall a :: Reachable(h, [root], a) ==> a in refs
    ensures ChildrenRegistered(h, refs, slots)
  {
    forall v | v in slots && v.Ref? ensures ChildAddrs(h[v.addr]) <= refs.Keys {
      forall c | c in ChildAddrs(h[v.addr]) ensures c in refs {
        ReachableChild(h, [root], v.addr, c);
      }
    }
  }

  /** Whether `serialize(x)` returns: everything reachable from `x` can be held weakly. */
  ghost predicate Serializable(h: Heap, x: Value) {
    forall a :: Reachable(h, [x], a) ==> CanBeHeldWeakly(h, a)
  }

  /** A value that reaches a symbol of the global registry cannot be serialized; one that is such a symbol least of all. */
  lemma InternedNotSerializable(h: Heap, a: nat)
    requires a < |h| && h[a].Symbol? && h[a].interned
    ensures !Serializable(h, Ref(a))
  {
    RootReachable(h, [Ref(a)], 0);
  }

  /**
   * `serialize`: a fresh arena holding just `x`, deflated. It throws
   * exactly when something reachable from `x` cannot be held weakly (`x`
   * itself in `new MemoryView`, the rest in `items`). Otherwise slot 0 is
   * `x`, the others are what the walk from `x` met, each at its own index,
   * and deflating the arena succeeds.
   */
  method DeflateNew(h: Heap, reg: Registry, target: Option<nat>, x: Value)
    returns (r: Result<(MemoryView, seq<Wire>, Registry), Error>)
    requires RefsValid(h) && ValidRef(h, x)
    ensures r.Ok? <==> Serializable(h, x)
    ensures r.Err? ==> r.error == InvalidWeakKey
    ensures r.Ok? ==> var (mx, ws, reg') := r.value;
      && fresh(mx) && mx.Valid() && mx.root == x && AllValid(h, mx.slots) && AllHeldWeakly(h, mx.slots)
      && mx.slots == [x] + Unregistered(Traverse(h, [x]), RefAddrs([x]))
      && Indexed(mx.slots, mx.refs)
      && ChildrenRegistered(h, mx.refs, mx.slots)
      && DeflateSlots(h, mx.refs, reg, target, mx.slots) == Ok((ws, reg'))
  {
    var v := NewView(h, [x]);
    if v.Err? {
      RootReachable(h, [x], 0);
      return Err(v.error);
    }
    var mx := v.value;
    assert AllValid(h, mx.slots);
    assert Distinct([x]);
    ghost var willReturn := ItemsReturn(h, mx.refs, x);
    NewItemsReturn(h, mx.refs, x);
    var e := DeflateView(mx, h, reg, target);
    if willReturn {
      NewArenaRegistered(h, x, mx.slots, mx.refs);
    }
    if e.Err? {
      return Err(e.error);
    }
    r := Ok((mx, e.value.0, e.value.1));
  }

  /** The walk of a new arena for `x` returns exactly when `x` is serializable. */
  lemma NewItemsReturn(h: Heap, refs: map<nat, nat>, x: Value)
    requires refs.Keys == RefAddrs([x]) && AllHeldWeakly(h, [x])
    ensures ItemsReturn(h, refs, x) <==> Serializable(h, x)
  {
    assert x.Ref? ==> RefAddrs([x]) == {x.addr};
    assert x.P? ==> RefAddrs([x]) == {};
    if x.Ref? {
      RootReachable(h, [x], 0);
    }
  }

  /** After its walk, a new arena for `x` holds only what is reachable from `x`, and all children are registered. */
  lemma NewArenaRegistered(h: Heap, x: Value, slots: seq<Value>, refs: map<nat, nat>)
    requires RefsValid(h) && ValidRef(h, x) && AllValid(h, slots)
    requires slots == [x] + Unregistered(Traverse(h, [x]), RefAddrs([x]))
    requires forall a :: Reachable(h, [x], a) ==> a in refs
    ensures ChildrenRegistered(h, refs, slots)
  {
    TraverseYieldsReachable(h, [x]);
    UnregisteredFrom(Traverse(h, [x]), RefAddrs([x]));
    forall v | v in slots && v.Ref? ensures Reachable(h, [x], v.addr) {
      if v == x {
        RootReachable(h, [x], 0);
      }
    }
    ReachableArenaRegistered(h, x, slots, refs);
  }

  /**
   * Deflating an arena keeps the registry consistent, only adds to it, and
   * leaves every local function of the arena registered.
   */
  lemma {:induction false} DeflateSlotsRegistry(h: Heap, refs: map<nat, nat>, reg: Registry, target: Option<nat>, slots: seq<Value>)
    requires AllValid(h, slots) && RegValid(reg)
    requires DeflateSlots(h, refs, reg, target, slots).Ok?
    ensures var reg' := DeflateSlots(h, refs, reg, target, slots).value.1;
      && RegValid(reg')
      && RegGrows(reg, reg')
      && forall v :: v in slots && v.Ref? && h[v.addr].Func? && IsLocal(h[v.addr], target) ==> v.addr in reg'.srvIdMap
    decreases |slots|
  {
    if slots != [] {
      var n := |slots| - 1;
      DeflateSlotsSnoc(h, refs, reg, target, slots);
      DeflateSlotsRegistry(h, refs, reg, target, slots[..n]);
      var prev := DeflateSlots(h, refs, reg, target, slots[..n]).value.1;
      assert slots[n] in slots;
      assert DeflateSlots(h, refs, reg, target, slots).value.1 == ItemRegistry(prev, h, target, slots[n]);
      RegistryStep(h, reg, prev, target, slots);
    }
  }

  /** The registry after one slot is deflated: only a function slot changes it. */
  function ItemRegistry(reg: Registry, h: Heap, target: Option<nat>, v: Value): Registry
    requires ValidRef(h, v)
  {
    if v.Ref? && h[v.addr].Func? then DeflateFn(reg, v.addr, h[v.addr], target).0 else reg
  }

  /** The step of `DeflateSlotsRegistry`: what holds of the prefix's registry holds after the last slot. */
  lemma RegistryStep(h: Heap, reg: Registry, prev: Registry, target: Option<nat>, slots: seq<Value>)
    requires AllValid(h, slots) && slots != [] && AllValid(h, slots[..|slots| - 1])
    requires RegValid(prev) && RegGrows(reg, prev)
    requires forall v :: v in slots[..|slots| - 1] && v.Ref? && h[v.addr].Func? && IsLocal(h[v.addr], target) ==> v.addr in prev.srvIdMap
    ensures slots[|slots| - 1] in slots
    ensures var last := ItemRegistry(prev, h, target, slots[|slots| - 1]);
      && RegValid(last)
      && RegGrows(reg, last)
      && forall v :: v in slots && v.Ref? && h[v.addr].Func? && IsLocal(h[v.addr], target) ==> v.addr in last.srvIdMap
  {
    var n := |slots| - 1;
    var v := slots[n];
    assert v in slots;
    ItemRegistryFacts(reg, prev, h, target, v);
    var last := ItemRegistry(prev, h, target, v);
    assert forall u :: u in slots ==> u in slots[..n] || u == v by {
      assert slots == slots[..n] + [v];
    }
  }

  /** Deflating one slot keeps the registry consistent, only adds to it, and registers a local function. */
  lemma ItemRegistryFacts(reg: Registry, prev: Registry, h: Heap, target: Option<nat>, v: Value)
    requires ValidRef(h, v) && RegValid(prev) && RegGrows(reg, prev)
    ensures var last := ItemRegistry(prev, h, target, v);
      && RegValid(last) && RegGrows(prev, last) && RegGrows(reg, last)
      && (v.Ref? && h[v.addr].Func? && IsLocal(h[v.addr], target) ==> v.addr in last.srvIdMap)
  {
    if v.Ref? && h[v.addr].Func? {
      DeflateFnValid(prev, v.addr, h[v.addr], target);
      DeflateFnGrows(prev, v.addr, h[v.addr], target);
    }
    RegGrowsTrans(reg, prev, ItemRegistry(prev, h, target, v));
  }

  /** Growing a registry twice grows it. */
  lemma RegGrowsTrans(r1: Registry, r2: Registry, r3: Registry)
    requires RegGrows(r1, r2) && RegGrows(r2, r3)
    ensures RegGrows(r1, r3)
  {
  }

  /**
   * A slot's wire element does not change when the registry grows, once
   * its function (if local) is registered.
   */
  lemma DeflateItemStable(h: Heap, refs: map<nat, nat>, r1: Registry, r2: Registry, target: Option<nat>, v: Value)
    requires ValidRef(h, v) && RegGrows(r1, r2)
    requires v.Ref? && h[v.addr].Func? && IsLocal(h[v.addr], target) ==> v.addr in r1.srvIdMap
    requires DeflateItem(h, refs, r1, target, v).Ok?
    ensures DeflateItem(h, refs, r2, target, v).Ok?
    ensures DeflateItem(h, refs, r2, target, v).value.0 == DeflateItem(h, refs, r1, target, v).value.0
  {
  }

  /** Deflating a slot again against the registry it produced gives the same element. */
  lemma DeflateItemAgain(h: Heap, refs: map<nat, nat>, reg: Registry, target: Option<nat>, v: Value)
    requires ValidRef(h, v) && RegValid(reg)
    requires DeflateItem(h, refs, reg, target, v).Ok?
    ensures var (w, reg') := DeflateItem(h, refs, reg, target, v).value;
      DeflateItem(h, refs, reg', target, v) == Ok((w, reg'))
  {
    if v.Ref? && h[v.addr].Func? {
      DeflateFnIdempotent(reg, v.addr, h[v.addr], target);
    }
  }

  /** One more slot of the arena: the prefix's elements, then the last slot's. */
  lemma DeflateSlotsSnoc(h: Heap, refs: map<nat, nat>, reg: Registry, target: Option<nat>, slots: seq<Value>)
    requires AllValid(h, slots) && slots != []
    requires DeflateSlots(h, refs, reg, target, slots).Ok?
    ensures AllValid(h, slots[..|slots| - 1])
    ensures var p := DeflateSlots(h, refs, reg, target, slots[..|slots| - 1]);
      && p.Ok?
      && DeflateItem(h, refs, p.value.1, target, slots[|slots| - 1]).Ok?
      && var e := DeflateItem(h, refs, p.value.1, target, slots[|slots| - 1]).value;
      DeflateSlots(h, refs, reg, target, slots).value == (p.value.0 + [e.0], e.1)
  {
    var n := |slots| - 1;
    assert AllValid(h, slots[..n]) by {
      forall v | v in slots[..n] ensures ValidRef(h, v) {
        assert v in slots;
      }
    }
  }

  /**
   * Element `i` of the deflated arena is what slot `i` deflates to against
   * the final registry.
   */
  lemma {:induction false} DeflateSlotsAt(h: Heap, refs: map<nat, nat>, reg: Registry, target: Option<nat>, slots: seq<Value>)
    requires AllValid(h, slots) && RegValid(reg)
    requires DeflateSlots(h, refs, reg, target, slots).Ok?
    ensures var (ws, reg') := DeflateSlots(h, refs, reg, target, slots).value;
      forall i :: 0 <= i < |slots| ==>
        DeflateItem(h, refs, reg', target, slots[i]).Ok? && ws[i] == DeflateItem(h, refs, reg', target, slots[i]).value.0
    decreases |slots|
  {
    if slots != [] {
      var n := |slots| - 1;
      DeflateSlotsSnoc(h, refs, reg, target, slots);
      DeflateSlotsAt(h, refs, reg, target, slots[..n]);
      DeflateSlotsRegistry(h, refs, reg, target, slots[..n]);
      var (prev, regn) := DeflateSlots(h, refs, reg, target, slots[..n]).value;
      assert slots[n] in slots;
      var (w, reg') := DeflateItem(h, refs, regn, target, slots[n]).value;
      forall i | 0 <= i < n
        ensures DeflateItem(h, refs, regn, target, slots[i]).Ok? && prev[i] == DeflateItem(h, refs, regn, target, slots[i]).value.0
      {
        assert slots[..n][i] == slots[i];
      }
      SlotsAtStep(h, refs, target, slots, prev, regn, w, reg');
    }
  }

  /** The step of `DeflateSlotsAt`: the prefix's elements survive the last slot's registration, and the last slot deflates again to itself. */
  lemma SlotsAtStep(h: Heap, refs: map<nat, nat>, target: Option<nat>, slots: seq<Value>,
                    prev: seq<Wire>, regn: Registry, w: Wire, reg': Registry)
    requires AllValid(h, slots) && slots != [] && AllValid(h, slots[..|slots| - 1]) && RegValid(regn)
    requires |prev| == |slots| - 1
    requires forall i :: 0 <= i < |slots| - 1 ==>
      DeflateItem(h, refs, regn, target, slots[i]).Ok? && prev[i] == DeflateItem(h, refs, regn, target, slots[i]).value.0
    requires forall v :: v in slots[..|slots| - 1] && v.Ref? && h[v.addr].Func? && IsLocal(h[v.addr], target) ==> v.addr in regn.srvIdMap
    requires DeflateItem(h, refs, regn, target, slots[|slots| - 1]) == Ok((w, reg'))
    ensures forall i :: 0 <= i < |slots| ==>
      DeflateItem(h, refs, reg', target, slots[i]).Ok? && (prev + [w])[i] == DeflateItem(h, refs, reg', target, slots[i]).value.0
  {
    var n := |slots| - 1;
    var v := slots[n];
    assert v in slots;
    DeflateStepGrows(h, refs, regn, target, v);
    DeflateItemAgain(h, refs, regn, target, v);
    assert RegGrows(regn, reg');
    forall i | 0 <= i < |slots|
      ensures DeflateItem(h, refs, reg', target, slots[i]).Ok? && (prev + [w])[i] == DeflateItem(h, refs, reg', target, slots[i]).value.0
    {
      if i < n {
        assert slots[..n][i] == slots[i];
        assert slots[i] in slots[..n];
        DeflateItemStable(h, refs, regn, reg', target, slots[i]);
      }
    }
  }

  /** Deflating one slot only adds to the registry. */
  lemma DeflateStepGrows(h: Heap, refs: map<nat, nat>, reg: Registry, target: Option<nat>, v: Value)
    requires ValidRef(h, v) && RegValid(reg)
    requires DeflateItem(h, refs, reg, target, v).Ok?
    ensures RegGrows(reg, DeflateItem(h, refs, reg, target, v).value.1)
  {
    if v.Ref? && h[v.addr].Func? {
      DeflateFnGrows(reg, v.addr, h[v.addr], target);
    }
  }
}
