/**
 * The object graph the codec works on. A JavaScript heap is a sequence of
 * nodes addressed by position; allocation appends. Values are either
 * primitives, passed by value, or references to a node, passed by identity.
 * Garbage collection is not modelled: nothing is ever removed.
 */
module Model {
  import opened Wrappers
  import Radix

  /** Primitive values. Numbers are kept as opaque integers: they only pass through. */
  datatype Prim = Num(n: int) | Str(s: string) | Bool(b: bool) | BigInt(i: int) | Undefined | Null

  datatype Value = P(p: Prim) | Ref(addr: nat)

  /** Marker carried by a proxy function: the channel it came from and the remote service id. */
  datatype ProxyTag = ProxyTag(origin: nat, id: string)

  /**
   * One heap object. Records and function extras list their own keys in
   * JavaScript's order (array-index keys first, ascending, then the other
   * keys in creation order; see `InKeyOrder`); maps and sets keep insertion
   * order; arrays are index-keyed maps with a separate `length`, so that
   * holes and a `length` larger than the populated indices can be
   * expressed. A function carries the two markers the library attaches to
   * functions (`simple` for source-literal transport, `proxy` for remote
   * handles), and `viewed` records that `deserialize` has defined the
   * memory-view property on it. These are symbol-keyed properties, which
   * neither the walker nor `deflate` sees.
   */
  datatype Node =
    | Record(fields: seq<(string, Value)>)
    | Array(items: map<nat, Value>, length: nat)
    | MapNode(entries: seq<(Value, Value)>)
    | SetNode(elems: seq<Value>)
    | Func(simple: bool, proxy: Option<ProxyTag>, source: string, name: string, extra: seq<(string, Value)>, viewed: bool)
    | Symbol(interned: bool, name: string)

  type Heap = seq<Node>

  /** The element at index `i` of an array as iteration sees it: a hole reads as `undefined`. */
  function ItemAt(items: map<nat, Value>, i: nat): Value {
    if i in items then items[i] else P(Undefined)
  }

  /** `Object.values` of an array: the populated indices below `n`, ascending. */
  function PresentValues(items: map<nat, Value>, n: nat): (r: seq<Value>)
    ensures forall v :: v in r <==> exists i :: 0 <= i < n && i in items && items[i] == v
  {
    if n == 0 then []
    else PresentValues(items, n - 1) + (if n - 1 in items then [items[n - 1]] else [])
  }

  function FieldValues<K, V>(fields: seq<(K, V)>): (r: seq<V>)
    ensures |r| == |fields| && forall i :: 0 <= i < |fields| ==> r[i] == fields[i].1
  {
    seq(|fields|, i requires 0 <= i < |fields| => fields[i].1)
  }

  function FieldKeys<K, V>(fields: seq<(K, V)>): (r: seq<K>)
    ensures |r| == |fields| && forall i :: 0 <= i < |fields| ==> r[i] == fields[i].0
  {
    seq(|fields|, i requires 0 <= i < |fields| => fields[i].0)
  }

  /**
   * The values the graph walker descends into: a Map's keys and then its
   * values, a Set's elements, and `Object.values` of anything else (a symbol
   * has none).
   */
  function ChildValues(n: Node): seq<Value> {
    match n
    case Record(fields) => FieldValues(fields)
    case Array(items, length) => PresentValues(items, length)
    case MapNode(entries) => FieldKeys(entries) + FieldValues(entries)
    case SetNode(elems) => elems
    case Func(_, _, _, _, extra, _) => FieldValues(extra)
    case Symbol(_, _) => []
  }

  /** Addresses of the references among `vals`. */
  function RefAddrs(vals: seq<Value>): set<nat> {
    set v | v in vals && v.Ref? :: v.addr
  }

  /** The elements of a sequence of addresses, as a set. */
  function Elems(s: seq<nat>): set<nat> {
    set x | x in s
  }

  lemma ElemsSnoc(s: seq<nat>, x: nat)
    ensures Elems(s + [x]) == Elems(s) + {x}
  {
    assert forall y :: y in s + [x] <==> y in s || y == x;
  }

  lemma RefAddrsSnoc(vals: seq<Value>, v: Value)
    ensures RefAddrs(vals + [v]) == RefAddrs(vals) + (if v.Ref? then {v.addr} else {})
  {
    assert forall x :: x in vals + [v] <==> x in vals || x == v;
  }

  /** Addresses of the nodes a node points to. */
  function ChildAddrs(n: Node): set<nat> {
    RefAddrs(ChildValues(n))
  }

  predicate ValidRef(h: Heap, v: Value) {
    v.Ref? ==> v.addr < |h|
  }

  /**
   * ECMAScript's CanBeHeldWeakly (section 9.13 of ECMA-262): every object
   * and every symbol can key a `WeakMap` or be the target of a `WeakRef`,
   * except a symbol of the global registry (`Symbol.for`).
   */
  predicate CanBeHeldWeakly(h: Heap, a: nat) {
    !(a < |h| && h[a].Symbol? && h[a].interned)
  }

  /** Every reference among `vals` can be held weakly. */
  predicate AllHeldWeakly(h: Heap, vals: seq<Value>) {
    forall v :: v in vals && v.Ref? ==> CanBeHeldWeakly(h, v.addr)
  }

  /** No key occurs twice in a list of entries. */
  predicate DistinctKeys<K(==), V>(fields: seq<(K, V)>) {
    forall i, j :: 0 <= i < j < |fields| ==> fields[i].0 != fields[j].0
  }

  predicate Distinct<T(==)>(s: seq<T>) {
    forall i, j :: 0 <= i < j < |s| ==> s[i] != s[j]
  }

  /**
   * The array index a property key denotes: the key is the decimal rendering
   * of a number below 2^32 - 1 (ECMAScript's "array index"). Such keys are
   * listed before all other string keys, in ascending numeric order.
   */
  function IndexKey(k: string): (r: Option<nat>)
    ensures r.Some? ==> r.value < 0xFFFF_FFFF && k == Radix.ToRadix(r.value, 10)
  {
    match Radix.ParseInt(k, 10)
    case Some(n) => if n < 0xFFFF_FFFF && Radix.ToRadix(n, 10) == k then Some(n) else None
    case None => None
  }

  /** Every number below 2^32 - 1, written in decimal, is an array-index key and denotes that number. */
  lemma IndexKeyOf(n: nat)
    requires n < 0xFFFF_FFFF
    ensures IndexKey(Radix.ToRadix(n, 10)) == Some(n)
  {
    Radix.ParseToRadix(n, 10);
  }

  /** A key order in which different keys never share a rank. */
  ghost predicate OneToOne<K(!new)>(rank: K -> Option<nat>) {
    forall a, b :: rank(a).Some? && rank(a) == rank(b) ==> a == b
  }

  /** Different strings never denote the same array index. */
  lemma IndexKeyOneToOne()
    ensures OneToOne(IndexKey)
  {
  }

  /** The order of insertion alone, as for the keys of a `Map`: no key is ranked. */
  function Unranked<K>(k: K): Option<nat> {
    None
  }

  /**
   * `OrdinaryOwnPropertyKeys` order with respect to `rank`: the ranked keys
   * come first, in strictly ascending rank, and the unranked ones follow.
   */
  predicate InKeyOrder<K, V>(s: seq<(K, V)>, rank: K -> Option<nat>) {
    forall i, j :: 0 <= i < j < |s| && rank(s[j].0).Some? ==> rank(s[i].0).Some? && rank(s[i].0).value < rank(s[j].0).value
  }

  /** Shape facts JavaScript guarantees of every live object. */
  predicate NodeShape(n: Node) {
    match n
    case Record(fields) => DistinctKeys(fields) && InKeyOrder(fields, IndexKey)
    case Array(items, length) => forall i :: i in items ==> i < length
    case MapNode(entries) => DistinctKeys(entries)
    case SetNode(elems) => Distinct(elems)
    case Func(_, _, _, _, extra, _) => DistinctKeys(extra) && InKeyOrder(extra, IndexKey)
    case Symbol(_, _) => true
  }

  predicate IsInterned(n: Node, name: string) {
    n.Symbol? && n.interned && n.name == name
  }

  /**
   * A well-formed heap: no dangling pointers, every node has its shape, and
   * the global symbol registry (`Symbol.for`) holds at most one symbol per name.
   */
  ghost predicate WellFormed(h: Heap) {
    && (forall a :: 0 <= a < |h| ==> NodeShape(h[a]))
    && (forall a, v :: 0 <= a < |h| && v in ChildValues(h[a]) ==> ValidRef(h, v))
    && (forall a, b :: 0 <= a < |h| && 0 <= b < |h| && h[a].Symbol? && IsInterned(h[b], h[a].name) && h[a].interned ==> a == b)
  }

  /** `Symbol.for(name)` lookup: the registered symbol with that name, if any. */
  function FindInterned(h: Heap, name: string): (r: Option<nat>)
    ensures r.Some? ==> r.value < |h| && IsInterned(h[r.value], name)
    ensures r.None? ==> forall a :: 0 <= a < |h| ==> !IsInterned(h[a], name)
    decreases |h|
  {
    if h == [] then None
    else if IsInterned(h[|h| - 1], name) then Some(|h| - 1)
    else FindInterned(h[..|h| - 1], name)
  }

  /** Allocation: the new node goes at the first free address. */
  function Alloc(h: Heap, n: Node): (r: (Heap, nat))
    ensures r.1 == |h| && r.0 == h + [n]
  {
    (h + [n], |h|)
  }

  /** `h'` is `h` with more objects allocated and nothing changed. */
  predicate Extends(h: Heap, h': Heap) {
    |h| <= |h'| && h'[..|h|] == h
  }
}
