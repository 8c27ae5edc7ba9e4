/**
 * The round trip `inflate(deflate(mx))` (`src/deflate.ts`, `src/inflate.ts`):
 * what the receiving side rebuilds from a deflated arena. Every slot comes
 * back at its own index; a primitive slot is the same value; an object slot
 * becomes a distinct object of the same kind whose children are the images
 * of the sender's children, so shared children stay shared and cycles stay
 * cycles. Functions come back as proxies for the sender's services (or,
 * when marked simple, as their source text), symbols by name.
 */
module RoundTrip {
  import opened Wrappers
  import opened Model
  import opened Wire
  import opened Handles
  import opened Util
  import opened MemView
  import opened Deflate
  import opened Revive
  import opened Inflate
  import Radix

  // ---------------------------------------------------------------------
  // What the receiver should hold
  // ---------------------------------------------------------------------

  /** Where a sender's value lands: primitives are themselves, a reference is the value rebuilt at its arena index. */
  function Img(refs: map<nat, nat>, view: seq<Value>, v: Value): Value {
    match v
    case P(_) => v
    case Ref(a) => if a in refs && refs[a] < |view| then view[refs[a]] else P(Undefined)
  }

  function ImgFields<K>(refs: map<nat, nat>, view: seq<Value>, fs: seq<(K, Value)>): (r: seq<(K, Value)>)
    ensures |r| == |fs| && forall i :: 0 <= i < |fs| ==> r[i] == (fs[i].0, Img(refs, view, fs[i].1))
  {
    seq(|fs|, i requires 0 <= i < |fs| => (fs[i].0, Img(refs, view, fs[i].1)))
  }

  /** The name `createProxyFn` gives the proxy of a function called `name`. */
  function ProxyName(name: string): string {
    if name == [] then DefaultProxyName else Split(name)[0]
  }

  /** The service id a local function was registered under. */
  function IdOf(reg: Registry, a: nat): string {
    if a in reg.srvIdMap then reg.srvIdMap[a] else []
  }

  /**
   * What the first pass allocates for a sender's object: an empty object of
   * the same kind, the function the decoder makes, or the symbol by name.
   */
  function ShellNode(n: Node, id: string, cp: nat): Node {
    match n
    case Record(_) => Record([])
    case Array(_, _) => Array(map[], 0)
    case MapNode(_) => MapNode([])
    case SetNode(_) => SetNode([])
    case Func(simple, _, source, name, _, _) =>
      if simple then Func(true, None, source, "", [], false)
      else Func(false, Some(ProxyTag(cp, id)), ProxySource, ProxyName(name), [], false)
    case Symbol(interned, name) => Symbol(interned, name)
  }

  /**
   * The receiver's copy of a sender's object once both passes are done:
   * the shell with every child replaced by its image. An array comes back
   * with every index below its length set, holes reading as `undefined`.
   */
  function ImageNode(n: Node, id: string, cp: nat, refs: map<nat, nat>, view: seq<Value>): Node {
    match n
    case Record(fields) => Record(ImgFields(refs, view, fields))
    case Array(items, length) => Array(map i: nat | i < length :: Img(refs, view, ItemAt(items, i)), length)
    case MapNode(entries) =>
      MapNode(seq(|entries|, i requires 0 <= i < |entries| => (Img(refs, view, entries[i].0), Img(refs, view, entries[i].1))))
    case SetNode(elems) => SetNode(seq(|elems|, i requires 0 <= i < |elems| => Img(refs, view, elems[i])))
    case Func(simple, _, source, name, extra, _) =>
      if simple then Func(true, None, source, "", ImgFields(refs, view, extra), false)
      else Func(false, Some(ProxyTag(cp, id)), ProxySource, ProxyName(name), ImgFields(refs, view, extra), false)
    case Symbol(interned, name) => Symbol(interned, name)
  }

  // ---------------------------------------------------------------------
  // The wire, slug by slug
  // ---------------------------------------------------------------------

  /** The slug `deflate` writes for a registered child. */
  function Slug(refs: map<nat, nat>, v: Value): Prim {
    match ChildSlug(refs, v)
    case Ok(p) => p
    case Err(_) => Undefined
  }

  /** A child's slug resolves, against the rebuilt view, to the child's image. */
  lemma SlugResolves(refs: map<nat, nat>, view: seq<Value>, v: Value)
    requires v.Ref? ==> v.addr in refs && refs[v.addr] < |view|
    ensures Resolve(Slug(refs, v), view) == Img(refs, view, v)
  {
    match v
    case P(p) =>
      if p.Str? {
        ResolveEscaped(p.s, view);
      }
    case Ref(a) =>
      ResolveBackRef(refs[a], view);
  }

  function SlugFields(refs: map<nat, nat>, fs: seq<(string, Value)>): (r: seq<(string, Prim)>)
    ensures |r| == |fs| && forall i :: 0 <= i < |fs| ==> r[i] == (fs[i].0, Slug(refs, fs[i].1))
  {
    seq(|fs|, i requires 0 <= i < |fs| => (fs[i].0, Slug(refs, fs[i].1)))
  }

  /** The fill callback the first pass registers for a sender's object, with the slugs `deflate` wrote. */
  function JobFor(n: Node, subject: Value, refs: map<nat, nat>): Option<Job> {
    match n
    case Record(fields) => Some(GenericJob(subject, SlugFields(refs, fields)))
    case Array(items, length) =>
      Some(ArrayJob(subject, seq(length, i requires 0 <= i < length => Slug(refs, ItemAt(items, i)))))
    case MapNode(entries) =>
      Some(MapJob(subject, seq(|entries|, i requires 0 <= i < |entries| => (Slug(refs, entries[i].0), Slug(refs, entries[i].1)))))
    case SetNode(elems) => Some(SetJob(subject, seq(|elems|, i requires 0 <= i < |elems| => Slug(refs, elems[i]))))
    case Func(_, _, _, _, extra, _) => if extra == [] then None else Some(GenericJob(subject, SlugFields(refs, extra)))
    case Symbol(_, _) => None
  }

  /**
   * What the first pass does with the element of a sender's object: a new
   * shell at the end of the heap, except that an interned symbol is looked
   * up by name; and the fill callback `JobFor` describes.
   */
  ghost predicate ElementLands(g: Heap, n: Node, id: string, cp: nat, refs: map<nat, nat>, e: Result<(Heap, Value, Option<Job>), Error>) {
    && e.Ok?
    && var (g', subject, job) := e.value;
    && subject.Ref? && subject.addr < |g'| && g'[subject.addr] == ShellNode(n, id, cp)
    && job == JobFor(n, subject, refs)
    && (if n.Symbol? && n.interned then (g', subject) == SymbolFor(g, n.name)
        else g' == g + [ShellNode(n, id, cp)] && subject == Ref(|g|))
  }

  /** A record travels as a wire record of slugs and lands in a new `{}`. */
  lemma ElementRecord(g: Heap, services: map<string, nat>, cp: nat, h: Heap, refs: map<nat, nat>, reg: Registry, target: Option<nat>, a: nat)
    requires a < |h| && h[a].Record? && DeflateItem(h, refs, reg, target, Ref(a)).Ok?
    ensures ElementLands(g, h[a], IdOf(reg, a), cp, refs,
      Element(g, services, cp, DeflateItem(h, refs, reg, target, Ref(a)).value.0, P(Undefined)))
  {
    var fields := h[a].fields;
    var vs := ChildSlugs(refs, FieldValues(fields)).value;
    var w := DeflateItem(h, refs, reg, target, Ref(a)).value.0;
    assert w == WRec(seq(|fields|, i requires 0 <= i < |fields| => (fields[i].0, WPrim(vs[i]))));
    var data := FieldSlugs(w.fields);
    assert data.Some?;
    assert data.value == SlugFields(refs, fields);
  }

  /** A symbol deflates to its tagged name. */
  lemma DeflateSymbolWire(h: Heap, refs: map<nat, nat>, reg: Registry, target: Option<nat>, a: nat)
    requires a < |h| && h[a].Symbol? && DeflateItem(h, refs, reg, target, Ref(a)).Ok?
    ensures DeflateItem(h, refs, reg, target, Ref(a)).value.0 == WStr(DeflateSymbol(h[a].interned, h[a].name))
  {
  }

  /** A tagged symbol name lands as the same symbol: an interned one found again by name, any other new. */
  lemma SymbolWireLands(g: Heap, services: map<string, nat>, cp: nat, refs: map<nat, nat>, n: Node, id: string)
    requires n.Symbol?
    ensures ElementLands(g, n, id, cp, refs, Element(g, services, cp, WStr(DeflateSymbol(n.interned, n.name)), P(Undefined)))
  {
    var s := DeflateSymbol(n.interned, n.name);
    assert s[1..] == n.name;
    var r := InflateMagic(g, services, cp, s, P(Undefined));
    if n.interned {
      assert r == Ok((SymbolFor(g, n.name).0, SymbolFor(g, n.name).1, SymbolRule));
    } else {
      assert r == Ok((g + [Symbol(false, n.name)], Ref(|g|), SymbolRule));
    }
    assert Element(g, services, cp, WStr(s), P(Undefined)) == Ok((r.value.0, r.value.1, None));
  }

  /** A symbol travels as its tagged name; an interned one is found again by name, any other is new. */
  lemma ElementSymbol(g: Heap, services: map<string, nat>, cp: nat, h: Heap, refs: map<nat, nat>, reg: Registry, target: Option<nat>, a: nat)
    requires a < |h| && h[a].Symbol? && DeflateItem(h, refs, reg, target, Ref(a)).Ok?
    ensures ElementLands(g, h[a], IdOf(reg, a), cp, refs,
      Element(g, services, cp, DeflateItem(h, refs, reg, target, Ref(a)).value.0, P(Undefined)))
  {
    DeflateSymbolWire(h, refs, reg, target, a);
    SymbolWireLands(g, services, cp, refs, h[a], IdOf(reg, a));
  }

  /**
   * A magic list `[m, ...data]` for an array, a map or a set lands in a new
   * default shell at the end of the heap, with the callback its data decodes to.
   */
  lemma MagicListElement(g: Heap, services: map<string, nat>, cp: nat, m: char, rule: Rule, data: seq<Wire>)
    requires m in "AMS" && rule == (if m == 'A' then ArrayRule else if m == 'M' then MapRule else SetRule)
    requires MakeJob(rule, Ref(|g|), data).Ok?
    ensures Element(g, services, cp, WList([WStr([m])] + data), P(Undefined))
      == Ok((g + [DefaultShell(rule)], Ref(|g|), Some(MakeJob(rule, Ref(|g|), data).value)))
  {
    var w := WList([WStr([m])] + data);
    assert w.items[1..] == data;
    assert IsInflatable(w.items);
    var r := InflateMagic(g, services, cp, [m], P(Undefined));
    assert r == Ok((g + [DefaultShell(rule)], Ref(|g|), rule));
    assert !IsSymbol(g + [DefaultShell(rule)], Ref(|g|));
  }

  /** An array deflates to `[]` when empty and to `["A", ...slugs]` otherwise. */
  lemma DeflateArrayWire(h: Heap, refs: map<nat, nat>, reg: Registry, target: Option<nat>, a: nat)
    requires a < |h| && h[a].Array? && DeflateItem(h, refs, reg, target, Ref(a)).Ok?
    ensures ChildSlugs(refs, ArrayItems(h[a].items, h[a].length)).Ok?
    ensures var w := DeflateItem(h, refs, reg, target, Ref(a)).value.0;
      if h[a].length == 0 then w == WList([])
      else w == WList([WStr("A")] + Prims(ChildSlugs(refs, ArrayItems(h[a].items, h[a].length)).value))
  {
  }

  /** The slugs `deflate` writes for the items of an array, one per index, holes as `undefined`. */
  lemma ArraySlugs(refs: map<nat, nat>, items: map<nat, Value>, length: nat, slugs: seq<Prim>)
    requires ChildSlugs(refs, ArrayItems(items, length)) == Ok(slugs)
    ensures slugs == seq(length, i requires 0 <= i < length => Slug(refs, ItemAt(items, i)))
  {
    var expected := seq(length, i requires 0 <= i < length => Slug(refs, ItemAt(items, i)));
    var xs := ArrayItems(items, length);
    forall i | 0 <= i < |slugs| ensures slugs[i] == expected[i] {
      assert Ok(slugs[i]) == ChildSlug(refs, xs[i]);
    }
  }

  /** The wire of a non-empty array lands in a new `[]` with the callback that refills it. */
  lemma ArrayWireLands(g: Heap, services: map<string, nat>, cp: nat, refs: map<nat, nat>, n: Node, id: string, slugs: seq<Prim>)
    requires n.Array? && n.length > 0 && ChildSlugs(refs, ArrayItems(n.items, n.length)) == Ok(slugs)
    ensures ElementLands(g, n, id, cp, refs, Element(g, services, cp, WList([WStr("A")] + Prims(slugs)), P(Undefined)))
  {
    PrimsDecode(slugs);
    MagicListElement(g, services, cp, 'A', ArrayRule, Prims(slugs));
    ArraySlugs(refs, n.items, n.length, slugs);
  }

  /** The wire of an empty array lands in a new `[]` with a callback that writes nothing. */
  lemma EmptyArrayLands(g: Heap, services: map<string, nat>, cp: nat, refs: map<nat, nat>, n: Node, id: string)
    requires n.Array? && n.length == 0
    ensures ElementLands(g, n, id, cp, refs, Element(g, services, cp, WList([]), P(Undefined)))
  {
    ArraySlugs(refs, n.items, 0, []);
  }

  /** An array travels as `[]` or `["A", ...slugs]` and lands in a new `[]`. */
  lemma ElementArray(g: Heap, services: map<string, nat>, cp: nat, h: Heap, refs: map<nat, nat>, reg: Registry, target: Option<nat>, a: nat)
    requires a < |h| && h[a].Array? && DeflateItem(h, refs, reg, target, Ref(a)).Ok?
    ensures ElementLands(g, h[a], IdOf(reg, a), cp, refs,
      Element(g, services, cp, DeflateItem(h, refs, reg, target, Ref(a)).value.0, P(Undefined)))
  {
    DeflateArrayWire(h, refs, reg, target, a);
    if h[a].length == 0 {
      EmptyArrayLands(g, services, cp, refs, h[a], IdOf(reg, a));
    } else {
      ArrayWireLands(g, services, cp, refs, h[a], IdOf(reg, a), ChildSlugs(refs, ArrayItems(h[a].items, h[a].length)).value);
    }
  }

  /** The entries `deflate` writes for a map decode to the pairs of slugs of its keys and values. */
  lemma PairsDecode(refs: map<nat, nat>, e: seq<(Value, Value)>, ks: seq<Prim>, vs: seq<Prim>)
    requires ChildSlugs(refs, FieldKeys(e)) == Ok(ks) && ChildSlugs(refs, FieldValues(e)) == Ok(vs)
    ensures PairSlugs(seq(|e|, i requires 0 <= i < |e| => WList([WPrim(ks[i]), WPrim(vs[i])])))
      == Some(seq(|e|, i requires 0 <= i < |e| => (Slug(refs, e[i].0), Slug(refs, e[i].1))))
  {
    var pairs := seq(|e|, i requires 0 <= i < |e| => WList([WPrim(ks[i]), WPrim(vs[i])]));
    var expected := seq(|e|, i requires 0 <= i < |e| => (Slug(refs, e[i].0), Slug(refs, e[i].1)));
    assert forall i :: 0 <= i < |pairs| ==> IsPair(pairs[i]);
    var got := PairSlugs(pairs).value;
    forall i | 0 <= i < |e| ensures got[i] == expected[i] {
      assert Ok(ks[i]) == ChildSlug(refs, FieldKeys(e)[i]);
      assert Ok(vs[i]) == ChildSlug(refs, FieldValues(e)[i]);
      assert pairs[i] == WList([WPrim(got[i].0), WPrim(got[i].1)]);
    }
    assert got == expected;
  }

  /** The entries `deflate` writes for a map, from the slugs of its keys and of its values. */
  function PairWires(ks: seq<Prim>, vs: seq<Prim>): (r: seq<Wire>)
    requires |ks| == |vs|
    ensures |r| == |ks| && forall i :: 0 <= i < |ks| ==> r[i] == WList([WPrim(ks[i]), WPrim(vs[i])])
  {
    seq(|ks|, i requires 0 <= i < |ks| => WList([WPrim(ks[i]), WPrim(vs[i])]))
  }

  /** A map deflates to `["M", [k, v]...]`. */
  lemma DeflateMapWire(h: Heap, refs: map<nat, nat>, reg: Registry, target: Option<nat>, a: nat)
    requires a < |h| && h[a].MapNode? && DeflateItem(h, refs, reg, target, Ref(a)).Ok?
    ensures ChildSlugs(refs, FieldKeys(h[a].entries)).Ok? && ChildSlugs(refs, FieldValues(h[a].entries)).Ok?
    ensures var ks := ChildSlugs(refs, FieldKeys(h[a].entries)).value;
      var vs := ChildSlugs(refs, FieldValues(h[a].entries)).value;
      |ks| == |vs| == |h[a].entries| && DeflateItem(h, refs, reg, target, Ref(a)).value.0 == WList([WStr("M")] + PairWires(ks, vs))
  {
  }

  /** The wire of a map lands in a new `Map` with the callback that refills it. */
  lemma MapWireLands(g: Heap, services: map<string, nat>, cp: nat, refs: map<nat, nat>, n: Node, id: string, ks: seq<Prim>, vs: seq<Prim>)
    requires n.MapNode? && ChildSlugs(refs, FieldKeys(n.entries)) == Ok(ks) && ChildSlugs(refs, FieldValues(n.entries)) == Ok(vs)
    requires |ks| == |vs| == |n.entries|
    ensures ElementLands(g, n, id, cp, refs, Element(g, services, cp, WList([WStr("M")] + PairWires(ks, vs)), P(Undefined)))
  {
    PairsDecode(refs, n.entries, ks, vs);
    assert PairWires(ks, vs) == seq(|n.entries|, i requires 0 <= i < |n.entries| => WList([WPrim(ks[i]), WPrim(vs[i])]));
    MagicListElement(g, services, cp, 'M', MapRule, PairWires(ks, vs));
  }

  /** A map travels as `["M", [k, v]...]` and lands in a new `Map`. */
  lemma ElementMap(g: Heap, services: map<string, nat>, cp: nat, h: Heap, refs: map<nat, nat>, reg: Registry, target: Option<nat>, a: nat)
    requires a < |h| && h[a].MapNode? && DeflateItem(h, refs, reg, target, Ref(a)).Ok?
    ensures ElementLands(g, h[a], IdOf(reg, a), cp, refs,
      Element(g, services, cp, DeflateItem(h, refs, reg, target, Ref(a)).value.0, P(Undefined)))
  {
    DeflateMapWire(h, refs, reg, target, a);
    var ks := ChildSlugs(refs, FieldKeys(h[a].entries)).value;
    var vs := ChildSlugs(refs, FieldValues(h[a].entries)).value;
    MapWireLands(g, services, cp, refs, h[a], IdOf(reg, a), ks, vs);
  }

  /** A set deflates to `["S", ...slugs]`. */
  lemma DeflateSetWire(h: Heap, refs: map<nat, nat>, reg: Registry, target: Option<nat>, a: nat)
    requires a < |h| && h[a].SetNode? && DeflateItem(h, refs, reg, target, Ref(a)).Ok?
    ensures ChildSlugs(refs, h[a].elems).Ok?
    ensures DeflateItem(h, refs, reg, target, Ref(a)).value.0 == WList([WStr("S")] + Prims(ChildSlugs(refs, h[a].elems).value))
  {
  }

  /** The wire of a set lands in a new `Set` with the callback that refills it. */
  lemma SetWireLands(g: Heap, services: map<string, nat>, cp: nat, refs: map<nat, nat>, n: Node, id: string, slugs: seq<Prim>)
    requires n.SetNode? && ChildSlugs(refs, n.elems) == Ok(slugs)
    ensures ElementLands(g, n, id, cp, refs, Element(g, services, cp, WList([WStr("S")] + Prims(slugs)), P(Undefined)))
  {
    PrimsDecode(slugs);
    MagicListElement(g, services, cp, 'S', SetRule, Prims(slugs));
    SetSlugs(refs, n.elems, slugs);
  }

  /** The slugs `deflate` writes for the elements of a set, one per element. */
  lemma SetSlugs(refs: map<nat, nat>, elems: seq<Value>, slugs: seq<Prim>)
    requires ChildSlugs(refs, elems) == Ok(slugs)
    ensures slugs == seq(|elems|, i requires 0 <= i < |elems| => Slug(refs, elems[i]))
  {
    var expected := seq(|elems|, i requires 0 <= i < |elems| => Slug(refs, elems[i]));
    forall i | 0 <= i < |slugs| ensures slugs[i] == expected[i] {
      assert Ok(slugs[i]) == ChildSlug(refs, elems[i]);
    }
  }

  /** Primitive slugs written as wire primitives decode to themselves. */
  lemma PrimsDecode(slugs: seq<Prim>)
    ensures PrimSlugs(Prims(slugs)) == Some(slugs)
  {
    assert PrimSlugs(Prims(slugs)).value == slugs;
  }

  /** A set travels as `["S", ...slugs]` and lands in a new `Set`. */
  lemma ElementSet(g: Heap, services: map<string, nat>, cp: nat, h: Heap, refs: map<nat, nat>, reg: Registry, target: Option<nat>, a: nat)
    requires a < |h| && h[a].SetNode? && DeflateItem(h, refs, reg, target, Ref(a)).Ok?
    ensures ElementLands(g, h[a], IdOf(reg, a), cp, refs,
      Element(g, services, cp, DeflateItem(h, refs, reg, target, Ref(a)).value.0, P(Undefined)))
  {
    DeflateSetWire(h, refs, reg, target, a);
    SetWireLands(g, services, cp, refs, h[a], IdOf(reg, a), ChildSlugs(refs, h[a].elems).value);
  }

  /** What `deflateFn` sends for `f`, when `f` is not a reflected proxy. */
  lemma FnMagicDecodes(g: Heap, services: map<string, nat>, cp: nat, reg: Registry, target: Option<nat>, a: nat, f: Node)
    requires f.Func? && (f.simple || IsLocal(f, target))
    requires IsLocal(f, target) ==> a in reg.srvIdMap && ':' !in reg.srvIdMap[a]
    ensures var m := DeflateFn(reg, a, f, target).1;
      && m != [] && m[0] in "<="
      && InflateFn(g, services, cp, m) == Ok((g + [ShellNode(f, IdOf(reg, a), cp)], Ref(|g|)))
  {
    var m := DeflateFn(reg, a, f, target).1;
    if f.simple {
      assert m[1..] == f.source;
    } else {
      RemoteHandleDecodes(g, services, cp, reg.srvIdMap[a], f.name);
    }
  }

  /** The own entries `deflate` writes for a function decode to their keys and slugs. */
  lemma EntriesDecode(refs: map<nat, nat>, extra: seq<(string, Value)>, vs: seq<Prim>)
    requires ChildSlugs(refs, FieldValues(extra)) == Ok(vs)
    ensures EntrySlugs(seq(|extra|, i requires 0 <= i < |extra| => WList([WStr(extra[i].0), WPrim(vs[i])])))
      == Some(SlugFields(refs, extra))
  {
    var entries := seq(|extra|, i requires 0 <= i < |extra| => WList([WStr(extra[i].0), WPrim(vs[i])]));
    assert forall i :: 0 <= i < |entries| ==> IsEntry(entries[i]);
    var got := EntrySlugs(entries).value;
    forall i | 0 <= i < |extra| ensures got[i] == SlugFields(refs, extra)[i] {
      assert Ok(vs[i]) == ChildSlug(refs, FieldValues(extra)[i]);
      assert entries[i] == WList([WStr(got[i].0), WPrim(got[i].1)]);
    }
    assert got == SlugFields(refs, extra);
  }

  /**
   * A function travels as its magic string, or as `[magic, [k, slug]...]`
   * when it has own entries, and lands as the function the decoder makes.
   */
  lemma ElementFunc(g: Heap, services: map<string, nat>, cp: nat, h: Heap, refs: map<nat, nat>, reg: Registry, target: Option<nat>, a: nat)
    requires a < |h| && h[a].Func? && DeflateItem(h, refs, reg, target, Ref(a)).Ok?
    requires h[a].simple || IsLocal(h[a], target)
    requires IsLocal(h[a], target) ==> a in reg.srvIdMap && ':' !in reg.srvIdMap[a]
    ensures ElementLands(g, h[a], IdOf(reg, a), cp, refs,
      Element(g, services, cp, DeflateItem(h, refs, reg, target, Ref(a)).value.0, P(Undefined)))
  {
    var f := h[a];
    var m := DeflateFn(reg, a, f, target).1;
    FnMagicDecodes(g, services, cp, reg, target, a, f);
    var w := DeflateItem(h, refs, reg, target, Ref(a)).value.0;
    if f.extra == [] {
      assert w == WStr(m);
    } else {
      var vs := ChildSlugs(refs, FieldValues(f.extra)).value;
      var entries := seq(|f.extra|, i requires 0 <= i < |f.extra| => WList([WStr(f.extra[i].0), WPrim(vs[i])]));
      assert w == WList([WStr(m)] + entries);
      EntriesDecode(refs, f.extra, vs);
      ElementFuncEntries(g, services, cp, m, entries, f, IdOf(reg, a), refs);
    }
  }

  /** The list form of a function element, once its magic decodes to a new function. */
  lemma ElementFuncEntries(g: Heap, services: map<string, nat>, cp: nat, m: string, entries: seq<Wire>, f: Node, id: string, refs: map<nat, nat>)
    requires f.Func? && f.extra != [] && m != [] && m[0] in "<="
    requires InflateFn(g, services, cp, m) == Ok((g + [ShellNode(f, id, cp)], Ref(|g|)))
    requires EntrySlugs(entries) == Some(SlugFields(refs, f.extra))
    ensures ElementLands(g, f, id, cp, refs, Element(g, services, cp, WList([WStr(m)] + entries), P(Undefined)))
  {
    var items := [WStr(m)] + entries;
    assert items[0] == WStr(m) && items[1..] == entries;
    assert IsInflatable(items);
    var g' := g + [ShellNode(f, id, cp)];
    assert InflateMagic(g, services, cp, m, P(Undefined)) == Ok((g', Ref(|g|), GenericRule));
    assert !IsSymbol(g', Ref(|g|));
    assert MakeJob(GenericRule, Ref(|g|), entries) == Ok(GenericJob(Ref(|g|), SlugFields(refs, f.extra)));
    assert Element(g, services, cp, WList(items), P(Undefined)) == Ok((g', Ref(|g|), Some(GenericJob(Ref(|g|), SlugFields(refs, f.extra)))));
  }

  /** A primitive slot travels escaped (strings) or as itself and comes back unchanged. */
  lemma ElementPrim(g: Heap, services: map<string, nat>, cp: nat, h: Heap, refs: map<nat, nat>, reg: Registry, target: Option<nat>, p: Prim)
    ensures DeflateItem(h, refs, reg, target, P(p)).Ok?
    ensures Element(g, services, cp, DeflateItem(h, refs, reg, target, P(p)).value.0, P(Undefined)) == Ok((g, P(p), None))
  {
    if p.Str? {
      assert Escape(p.s)[1..] == p.s;
    }
  }

  /** A sender's object is neither a reflected proxy nor a function missing from the registry. */
  ghost predicate Sendable(n: Node, a: nat, reg: Registry, target: Option<nat>) {
    n.Func? ==> (n.simple || IsLocal(n, target)) && (IsLocal(n, target) ==> a in reg.srvIdMap && ':' !in reg.srvIdMap[a])
  }

  /** Every object slot's element lands as `ElementLands` describes. */
  lemma ElementOfSlot(g: Heap, services: map<string, nat>, cp: nat, h: Heap, refs: map<nat, nat>, reg: Registry, target: Option<nat>, a: nat)
    requires a < |h| && DeflateItem(h, refs, reg, target, Ref(a)).Ok? && Sendable(h[a], a, reg, target)
    ensures ElementLands(g, h[a], IdOf(reg, a), cp, refs,
      Element(g, services, cp, DeflateItem(h, refs, reg, target, Ref(a)).value.0, P(Undefined)))
  {
    match h[a]
    case Record(_) => ElementRecord(g, services, cp, h, refs, reg, target, a);
    case Array(_, _) => ElementArray(g, services, cp, h, refs, reg, target, a);
    case MapNode(_) => ElementMap(g, services, cp, h, refs, reg, target, a);
    case SetNode(_) => ElementSet(g, services, cp, h, refs, reg, target, a);
    case Func(_, _, _, _, _, _) => ElementFunc(g, services, cp, h, refs, reg, target, a);
    case Symbol(_, _) => ElementSymbol(g, services, cp, h, refs, reg, target, a);
  }

  // ---------------------------------------------------------------------
  // The second pass fills each shell with the images of its children
  // ---------------------------------------------------------------------

  /** Images of registered objects are distinct objects: `Img` is one-to-one. */
  ghost predicate ImgInjective(refs: map<nat, nat>, view: seq<Value>) {
    && (forall a :: a in refs ==> refs[a] < |view| && view[refs[a]].Ref?)
    && (forall a, b :: a in refs && b in refs && a != b ==> view[refs[a]] != view[refs[b]])
  }

  lemma ImgOneToOne(refs: map<nat, nat>, view: seq<Value>, u: Value, v: Value)
    requires ImgInjective(refs, view)
    requires u.Ref? ==> u.addr in refs
    requires v.Ref? ==> v.addr in refs
    ensures Img(refs, view, u) == Img(refs, view, v) ==> u == v
  {
  }

  /** Every child of `n` that is an object is registered. */
  ghost predicate ChildrenIn(n: Node, refs: map<nat, nat>) {
    forall v :: v in ChildValues(n) && v.Ref? ==> v.addr in refs
  }

  lemma ChildrenInFromAddrs(n: Node, refs: map<nat, nat>)
    requires ChildAddrs(n) <= refs.Keys
    ensures ChildrenIn(n, refs)
  {
    forall v | v in ChildValues(n) && v.Ref? ensures v.addr in refs {
      assert v.addr in ChildAddrs(n);
    }
  }

  /** Resolving the slugs of an entry list gives the entries with their values' images. */
  lemma ResolveSlugFields(refs: map<nat, nat>, view: seq<Value>, fs: seq<(string, Value)>)
    requires ImgInjective(refs, view)
    requires forall i :: 0 <= i < |fs| && fs[i].1.Ref? ==> fs[i].1.addr in refs
    requires DistinctKeys(fs) && InKeyOrder(fs, IndexKey)
    ensures GenericRevive([], SlugFields(refs, fs), view) == ImgFields(refs, view, fs)
  {
    var data := SlugFields(refs, fs);
    assert DistinctKeys(data) by {
      forall i, j | 0 <= i < j < |data| ensures data[i].0 != data[j].0 {
        assert data[i].0 == fs[i].0 && data[j].0 == fs[j].0;
      }
    }
    assert InKeyOrder(data, IndexKey) by {
      forall i, j | 0 <= i < j < |data| && IndexKey(data[j].0).Some?
        ensures IndexKey(data[i].0).Some? && IndexKey(data[i].0).value < IndexKey(data[j].0).value
      {
        assert data[i].0 == fs[i].0 && data[j].0 == fs[j].0;
      }
    }
    GenericReviveFresh(data, view);
    var r := ResolveValues(data, view);
    forall i | 0 <= i < |fs| ensures r[i] == ImgFields(refs, view, fs)[i] {
      SlugResolves(refs, view, fs[i].1);
    }
    assert r == ImgFields(refs, view, fs);
  }

  /** A record shell filled by its callback is the record's image. */
  lemma ReviveRecord(n: Node, id: string, cp: nat, refs: map<nat, nat>, view: seq<Value>, subject: Value)
    requires n.Record? && NodeShape(n) && ChildrenIn(n, refs) && ImgInjective(refs, view)
    ensures ReviveNode(ShellNode(n, id, cp), view, JobFor(n, subject, refs).value) == Some(ImageNode(n, id, cp, refs, view))
  {
    forall i | 0 <= i < |n.fields| && n.fields[i].1.Ref? ensures n.fields[i].1.addr in refs {
      assert n.fields[i].1 == FieldValues(n.fields)[i];
      assert n.fields[i].1 in ChildValues(n);
    }
    ResolveSlugFields(refs, view, n.fields);
  }

  /** A function shell filled by its callback carries the images of the function's own entries. */
  lemma ReviveFunc(n: Node, id: string, cp: nat, refs: map<nat, nat>, view: seq<Value>, subject: Value)
    requires n.Func? && NodeShape(n) && ChildrenIn(n, refs) && ImgInjective(refs, view)
    ensures JobFor(n, subject, refs).None? ==> ShellNode(n, id, cp) == ImageNode(n, id, cp, refs, view)
    ensures JobFor(n, subject, refs).Some? ==>
      ReviveNode(ShellNode(n, id, cp), view, JobFor(n, subject, refs).value) == Some(ImageNode(n, id, cp, refs, view))
  {
    forall i | 0 <= i < |n.extra| && n.extra[i].1.Ref? ensures n.extra[i].1.addr in refs {
      assert n.extra[i].1 == FieldValues(n.extra)[i];
      assert n.extra[i].1 in ChildValues(n);
    }
    if n.extra == [] {
      assert ImgFields(refs, view, n.extra) == [];
    } else {
      ResolveSlugFields(refs, view, n.extra);
    }
  }

  /** An array shell filled by its callback is the array's image, `length` included. */
  lemma ReviveArrayShell(n: Node, id: string, cp: nat, refs: map<nat, nat>, view: seq<Value>, subject: Value)
    requires n.Array? && NodeShape(n) && ChildrenIn(n, refs) && ImgInjective(refs, view)
    ensures ReviveNode(ShellNode(n, id, cp), view, JobFor(n, subject, refs).value) == Some(ImageNode(n, id, cp, refs, view))
  {
    var data := JobFor(n, subject, refs).value.elems;
    var (items', length') := ArrayRevive(map[], 0, data, view);
    var expected := ImageNode(n, id, cp, refs, view).items;
    forall i: nat | i < n.length ensures items'[i] == expected[i] {
      var v := ItemAt(n.items, i);
      if i in n.items {
        assert v in PresentValues(n.items, n.length);
      }
      SlugResolves(refs, view, v);
    }
    assert items' == expected;
  }

  /** A map shell filled by its callback is the map's image, in entry order. */
  lemma ReviveMapShell(n: Node, id: string, cp: nat, refs: map<nat, nat>, view: seq<Value>, subject: Value)
    requires n.MapNode? && NodeShape(n) && ChildrenIn(n, refs) && ImgInjective(refs, view)
    ensures ReviveNode(ShellNode(n, id, cp), view, JobFor(n, subject, refs).value) == Some(ImageNode(n, id, cp, refs, view))
  {
    var e := n.entries;
    var data := JobFor(n, subject, refs).value.pairs;
    var r := ResolvePairs(data, view);
    var expected := ImageNode(n, id, cp, refs, view).entries;
    forall i | 0 <= i < |e| ensures r[i] == expected[i] && (e[i].0.Ref? ==> e[i].0.addr in refs) {
      assert e[i].0 == FieldKeys(e)[i] && e[i].1 == FieldValues(e)[i];
      assert e[i].0 in ChildValues(n) && e[i].1 in ChildValues(n);
      SlugResolves(refs, view, e[i].0);
      SlugResolves(refs, view, e[i].1);
    }
    assert r == expected;
    assert DistinctKeys(r) by {
      forall i, j | 0 <= i < j < |r| ensures r[i].0 != r[j].0 {
        ImgOneToOne(refs, view, e[i].0, e[j].0);
      }
    }
    MapReviveFacts(data, view);
  }

  /** A set shell filled by its callback is the set's image, in insertion order. */
  lemma ReviveSetShell(n: Node, id: string, cp: nat, refs: map<nat, nat>, view: seq<Value>, subject: Value)
    requires n.SetNode? && NodeShape(n) && ChildrenIn(n, refs) && ImgInjective(refs, view)
    ensures ReviveNode(ShellNode(n, id, cp), view, JobFor(n, subject, refs).value) == Some(ImageNode(n, id, cp, refs, view))
  {
    var el := n.elems;
    var data := JobFor(n, subject, refs).value.elems;
    var r := ResolveAll(data, view);
    var expected := ImageNode(n, id, cp, refs, view).elems;
    forall i | 0 <= i < |el| ensures r[i] == expected[i] && (el[i].Ref? ==> el[i].addr in refs) {
      assert el[i] in ChildValues(n);
      SlugResolves(refs, view, el[i]);
    }
    assert r == expected;
    assert Distinct(r) by {
      forall i, j | 0 <= i < j < |r| ensures r[i] != r[j] {
        ImgOneToOne(refs, view, el[i], el[j]);
      }
    }
    SetReviveFacts(data, view);
  }

  /**
   * Every shell, once its callback (if any) has run, is the image of the
   * sender's object.
   */
  lemma ReviveShell(n: Node, id: string, cp: nat, refs: map<nat, nat>, view: seq<Value>, subject: Value)
    requires NodeShape(n) && ChildAddrs(n) <= refs.Keys && ImgInjective(refs, view)
    ensures JobFor(n, subject, refs).None? ==> ShellNode(n, id, cp) == ImageNode(n, id, cp, refs, view)
    ensures JobFor(n, subject, refs).Some? ==>
      ReviveNode(ShellNode(n, id, cp), view, JobFor(n, subject, refs).value) == Some(ImageNode(n, id, cp, refs, view))
  {
    ChildrenInFromAddrs(n, refs);
    match n
    case Record(_) => ReviveRecord(n, id, cp, refs, view, subject);
    case Array(_, _) => ReviveArrayShell(n, id, cp, refs, view, subject);
    case MapNode(_) => ReviveMapShell(n, id, cp, refs, view, subject);
    case SetNode(_) => ReviveSetShell(n, id, cp, refs, view, subject);
    case Func(_, _, _, _, _, _) => ReviveFunc(n, id, cp, refs, view, subject);
    case Symbol(_, _) =>
  }

  // ---------------------------------------------------------------------
  // The first pass over a deflated arena
  // ---------------------------------------------------------------------

  /** `ws` is the deflated arena: element `i` is what slot `i` deflates to. */
  ghost predicate Deflated(h: Heap, refs: map<nat, nat>, reg: Registry, target: Option<nat>, slots: seq<Value>, ws: seq<Wire>) {
    && AllValid(h, slots)
    && |ws| == |slots|
    && forall i :: 0 <= i < |slots| ==>
         DeflateItem(h, refs, reg, target, slots[i]).Ok? && ws[i] == DeflateItem(h, refs, reg, target, slots[i]).value.0
  }

  /** The sender's side of the round trip: a consistent arena over a well-formed heap, no reflected proxies. */
  ghost predicate SenderOk(h: Heap, refs: map<nat, nat>, reg: Registry, target: Option<nat>, slots: seq<Value>) {
    && WellFormed(h)
    && AllValid(h, slots)
    && ViewValid(slots, refs)
    && Indexed(slots, refs)
    && forall i :: 0 <= i < |slots| && slots[i].Ref? && slots[i].addr < |h| ==> Sendable(h[slots[i].addr], slots[i].addr, reg, target)
  }

  /**
   * After the first `k` elements: primitive slots are back, every object slot
   * has its shell and its callback, and no two object slots share a shell.
   */
  ghost predicate Landed(g1: Heap, view: seq<Value>, jobs: seq<Option<Job>>, h: Heap, refs: map<nat, nat>, reg: Registry, cp: nat, slots: seq<Value>, k: nat) {
    && k <= |slots| && |view| == k && |jobs| == k
    && (forall i :: 0 <= i < k && slots[i].P? ==> view[i] == slots[i] && jobs[i].None?)
    && (forall i :: 0 <= i < k && slots[i].Ref? && slots[i].addr < |h| ==>
          && view[i].Ref? && view[i].addr < |g1|
          && g1[view[i].addr] == ShellNode(h[slots[i].addr], IdOf(reg, slots[i].addr), cp)
          && jobs[i] == JobFor(h[slots[i].addr], view[i], refs))
    && (forall i, j :: 0 <= i < k && 0 <= j < k && i != j && slots[i].Ref? && slots[j].Ref? ==> view[i] != view[j])
  }

  /** A shell is an interned symbol only when the sender's object was one of that name. */
  lemma ShellInterned(n: Node, id: string, cp: nat, name: string)
    requires IsInterned(ShellNode(n, id, cp), name)
    ensures IsInterned(n, name)
  {
  }

  /** A primitive slot adds itself and no callback. */
  lemma LandedPrim(g1: Heap, view: seq<Value>, jobs: seq<Option<Job>>, h: Heap, refs: map<nat, nat>, reg: Registry, cp: nat, slots: seq<Value>, k: nat)
    requires Landed(g1, view, jobs, h, refs, reg, cp, slots, k) && k < |slots| && slots[k].P?
    ensures Landed(g1, view + [slots[k]], jobs + [None], h, refs, reg, cp, slots, k + 1)
  {
  }

  /**
   * An object slot adds its shell. The shell is new, unless it is an interned
   * symbol already met, and then only the same sender symbol, at the same
   * slot, could have met it.
   */
  lemma LandedRef(g1: Heap, g2: Heap, view: seq<Value>, jobs: seq<Option<Job>>, subject: Value, job: Option<Job>,
                  h: Heap, refs: map<nat, nat>, reg: Registry, cp: nat, slots: seq<Value>, k: nat)
    requires Landed(g1, view, jobs, h, refs, reg, cp, slots, k) && k < |slots| && slots[k].Ref? && slots[k].addr < |h|
    requires WellFormed(h) && Indexed(slots, refs) && AllValid(h, slots)
    requires ElementLands(g1, h[slots[k].addr], IdOf(reg, slots[k].addr), cp, refs, Ok((g2, subject, job)))
    ensures Landed(g2, view + [subject], jobs + [job], h, refs, reg, cp, slots, k + 1)
  {
    var a := slots[k].addr;
    assert Extends(g1, g2) by {
      if h[a].Symbol? && h[a].interned {
        assert (g2, subject) == SymbolFor(g1, h[a].name);
      }
    }
    forall i | 0 <= i < k && slots[i].Ref?
      ensures view[i] != subject
    {
      assert slots[i] in slots;
      SharedShell(g1, g2, view[i], subject, job, h, refs, reg, cp, slots[i].addr, a);
    }
  }

  /** Only the sender's own object could have left the shell that an element lands on. */
  lemma SharedShell(g1: Heap, g2: Heap, v: Value, subject: Value, job: Option<Job>,
                    h: Heap, refs: map<nat, nat>, reg: Registry, cp: nat, b: nat, a: nat)
    requires WellFormed(h) && a < |h| && b < |h|
    requires v.Ref? && v.addr < |g1| && g1[v.addr] == ShellNode(h[b], IdOf(reg, b), cp)
    requires ElementLands(g1, h[a], IdOf(reg, a), cp, refs, Ok((g2, subject, job)))
    ensures v == subject ==> b == a
  {
    if v == subject {
      assert !(g2 == g1 + [ShellNode(h[a], IdOf(reg, a), cp)] && subject == Ref(|g1|));
      assert IsInterned(g1[subject.addr], h[a].name);
      ShellInterned(h[b], IdOf(reg, b), cp, h[a].name);
    }
  }

  /** One more element of the first pass keeps `Landed`. */
  lemma Pass1Step(g: Heap, services: map<string, nat>, cp: nat, h: Heap, refs: map<nat, nat>, reg: Registry, target: Option<nat>,
                  slots: seq<Value>, ws: seq<Wire>, k: nat)
    requires SenderOk(h, refs, reg, target, slots) && Deflated(h, refs, reg, target, slots, ws)
    requires k < |slots| && Pass1(g, services, cp, ws[..k], None).Ok?
    requires var (g1, view, jobs) := Pass1(g, services, cp, ws[..k], None).value;
      Landed(g1, view, jobs, h, refs, reg, cp, slots, k)
    ensures Pass1(g, services, cp, ws[..k + 1], None).Ok?
    ensures var (g2, view', jobs') := Pass1(g, services, cp, ws[..k + 1], None).value;
      Landed(g2, view', jobs', h, refs, reg, cp, slots, k + 1)
  {
    var (g1, view, jobs) := Pass1(g, services, cp, ws[..k], None).value;
    Pass1Snoc(g, services, cp, ws, None, k);
    assert slots[k] in slots;
    match slots[k]
    case P(p) =>
      ElementPrim(g1, services, cp, h, refs, reg, target, p);
      LandedPrim(g1, view, jobs, h, refs, reg, cp, slots, k);
    case Ref(a) =>
      ElementOfSlot(g1, services, cp, h, refs, reg, target, a);
      var (g2, subject, job) := Element(g1, services, cp, ws[k], P(Undefined)).value;
      LandedRef(g1, g2, view, jobs, subject, job, h, refs, reg, cp, slots, k);
  }

  /** The first pass over the first `k` elements of a deflated arena ends in `Landed`. */
  lemma {:induction false} Pass1Lands(g: Heap, services: map<string, nat>, cp: nat, h: Heap, refs: map<nat, nat>, reg: Registry,
                                      target: Option<nat>, slots: seq<Value>, ws: seq<Wire>, k: nat)
    requires SenderOk(h, refs, reg, target, slots) && Deflated(h, refs, reg, target, slots, ws) && k <= |slots|
    ensures Pass1(g, services, cp, ws[..k], None).Ok?
    ensures var (g1, view, jobs) := Pass1(g, services, cp, ws[..k], None).value;
      Landed(g1, view, jobs, h, refs, reg, cp, slots, k)
    decreases k
  {
    if k > 0 {
      Pass1Lands(g, services, cp, h, refs, reg, target, slots, ws, k - 1);
      Pass1Step(g, services, cp, h, refs, reg, target, slots, ws, k - 1);
    }
  }

  // ---------------------------------------------------------------------
  // The round trip
  // ---------------------------------------------------------------------

  /**
   * What the receiver holds for a deflated arena: one value per slot,
   * primitives as sent, every object at an address of its own (that the
   * address is new is `NewObjects`), and that address holding the sender's object with each child replaced by the
   * receiver's value for that child's slot.
   */
  ghost predicate Received(g2: Heap, view: seq<Value>, h: Heap, refs: map<nat, nat>, reg: Registry, cp: nat, slots: seq<Value>) {
    && |view| == |slots|
    && (forall i :: 0 <= i < |slots| && slots[i].P? ==> view[i] == slots[i])
    && (forall i :: 0 <= i < |slots| && slots[i].Ref? && slots[i].addr < |h| ==>
          && view[i].Ref? && view[i].addr < |g2|
          && g2[view[i].addr] == ImageNode(h[slots[i].addr], IdOf(reg, slots[i].addr), cp, refs, view))
    && (forall i, j :: 0 <= i < |slots| && 0 <= j < |slots| && i != j && slots[i].Ref? && slots[j].Ref? ==> view[i] != view[j])
  }

  /**
   * The receiver's copy is made of new objects only: the heap it had before
   * is untouched, and every object slot lands past its old end.
   */
  ghost predicate NewObjects(g: Heap, g2: Heap, view: seq<Value>, slots: seq<Value>) {
    && |view| == |slots|
    && Extends(g, g2)
    && forall i :: 0 <= i < |slots| && slots[i].Ref? ==> view[i].Ref? && |g| <= view[i].addr
  }

  /**
   * Without a `Symbol.for` symbol among the slots, the first pass lands
   * every object slot on a shell it allocates, past the receiver's old heap.
   */
  lemma {:induction false} Pass1Fresh(g: Heap, services: map<string, nat>, cp: nat, h: Heap, refs: map<nat, nat>, reg: Registry,
                                      target: Option<nat>, slots: seq<Value>, ws: seq<Wire>, k: nat)
    requires SenderOk(h, refs, reg, target, slots) && Deflated(h, refs, reg, target, slots, ws) && k <= |slots|
    requires AllHeldWeakly(h, slots)
    ensures Pass1(g, services, cp, ws[..k], None).Ok?
    ensures var view := Pass1(g, services, cp, ws[..k], None).value.1;
      |view| == k && forall i :: 0 <= i < k && slots[i].Ref? ==> view[i].Ref? && |g| <= view[i].addr
    decreases k
  {
    Pass1Lands(g, services, cp, h, refs, reg, target, slots, ws, k);
    if k > 0 {
      Pass1Fresh(g, services, cp, h, refs, reg, target, slots, ws, k - 1);
      var (g1, view, jobs) := Pass1(g, services, cp, ws[..k - 1], None).value;
      Pass1Snoc(g, services, cp, ws, None, k - 1);
      var e := Element(g1, services, cp, ws[k - 1], P(Undefined));
      assert e.Ok?;
      assert slots[k - 1] in slots;
      if slots[k - 1].Ref? {
        var a := slots[k - 1].addr;
        ElementOfSlot(g1, services, cp, h, refs, reg, target, a);
        FreshShell(g, g1, h[a], IdOf(reg, a), cp, refs, e);
      }
      FreshSnoc(g, view, e.value.1, slots, k - 1);
    }
  }

  /** An element that is not an interned symbol lands past every heap its pass started from. */
  lemma FreshShell(g: Heap, g1: Heap, n: Node, id: string, cp: nat, refs: map<nat, nat>, e: Result<(Heap, Value, Option<Job>), Error>)
    requires Extends(g, g1) && !(n.Symbol? && n.interned) && ElementLands(g1, n, id, cp, refs, e)
    ensures e.value.1.Ref? && |g| <= e.value.1.addr
  {
  }

  /** One more slot keeps every object slot past the old end. */
  lemma FreshSnoc(g: Heap, view: seq<Value>, v: Value, slots: seq<Value>, k: nat)
    requires k < |slots| && |view| == k
    requires forall i :: 0 <= i < k && slots[i].Ref? ==> view[i].Ref? && |g| <= view[i].addr
    requires slots[k].Ref? ==> v.Ref? && |g| <= v.addr
    ensures forall i :: 0 <= i < k + 1 && slots[i].Ref? ==> (view + [v])[i].Ref? && |g| <= (view + [v])[i].addr
  {
  }

  /** A second pass that writes only the new shells leaves the receiver's old heap as it was. */
  lemma KeepsOld(g: Heap, g1: Heap, g2: Heap, view: seq<Value>, slots: seq<Value>)
    requires Extends(g, g1) && |g2| == |g1| && |view| == |slots|
    requires forall i :: 0 <= i < |slots| && slots[i].Ref? ==> view[i].Ref? && |g| <= view[i].addr
    requires forall a :: 0 <= a < |g1| && (forall i :: 0 <= i < |slots| && slots[i].Ref? ==> view[i] != Ref(a)) ==> g2[a] == g1[a]
    ensures NewObjects(g, g2, view, slots)
  {
    forall a | 0 <= a < |g| ensures g2[a] == g[a] {
      assert g1[a] == g1[..|g|][a];
      assert forall i :: 0 <= i < |slots| && slots[i].Ref? ==> view[i] != Ref(a);
    }
    assert g2[..|g|] == g;
  }

  /** The shells of a landed arena map registered identities one-to-one. */
  lemma LandedInjective(g1: Heap, view: seq<Value>, jobs: seq<Option<Job>>, h: Heap, refs: map<nat, nat>, reg: Registry, cp: nat, slots: seq<Value>)
    requires AllValid(h, slots) && ViewValid(slots, refs) && Landed(g1, view, jobs, h, refs, reg, cp, slots, |slots|)
    ensures ImgInjective(refs, view)
  {
    forall a | a in refs ensures refs[a] < |view| && view[refs[a]].Ref? {
      assert slots[refs[a]] in slots;
    }
    forall a, b | a in refs && b in refs && a != b ensures view[refs[a]] != view[refs[b]] {
      assert slots[refs[a]] == Ref(a) && slots[refs[b]] == Ref(b);
    }
  }

  /** Every object slot's shell, filled by its callback (if it has one), is its image. */
  lemma ShellsRevive(g1: Heap, view: seq<Value>, jobs: seq<Option<Job>>, h: Heap, refs: map<nat, nat>, reg: Registry, cp: nat, slots: seq<Value>)
    requires WellFormed(h) && AllValid(h, slots) && ViewValid(slots, refs) && ChildrenRegistered(h, refs, slots)
    requires Landed(g1, view, jobs, h, refs, reg, cp, slots, |slots|)
    ensures forall i :: 0 <= i < |slots| && slots[i].Ref? && slots[i].addr < |h| && jobs[i].None? ==>
      g1[view[i].addr] == ImageNode(h[slots[i].addr], IdOf(reg, slots[i].addr), cp, refs, view)
    ensures forall i :: 0 <= i < |slots| && jobs[i].Some? ==>
      && slots[i].Ref? && slots[i].addr < |h| && Applicable(g1, view, jobs[i].value) && jobs[i].value.subject == view[i]
      && ReviveNode(g1[view[i].addr], view, jobs[i].value) == Some(ImageNode(h[slots[i].addr], IdOf(reg, slots[i].addr), cp, refs, view))
  {
    LandedInjective(g1, view, jobs, h, refs, reg, cp, slots);
    forall i | 0 <= i < |slots| && slots[i].Ref? && slots[i].addr < |h| && jobs[i].None?
      ensures g1[view[i].addr] == ImageNode(h[slots[i].addr], IdOf(reg, slots[i].addr), cp, refs, view)
    {
      ShellRevivesAt(g1, view, jobs, h, refs, reg, cp, slots, i);
    }
    forall i | 0 <= i < |slots| && jobs[i].Some?
      ensures slots[i].Ref? && slots[i].addr < |h| && Applicable(g1, view, jobs[i].value) && jobs[i].value.subject == view[i]
      ensures ReviveNode(g1[view[i].addr], view, jobs[i].value) == Some(ImageNode(h[slots[i].addr], IdOf(reg, slots[i].addr), cp, refs, view))
    {
      ShellRevivesAt(g1, view, jobs, h, refs, reg, cp, slots, i);
    }
  }

  /** The shell of object slot `i`, filled by its callback (if it has one), is its image. */
  lemma ShellRevivesAt(g1: Heap, view: seq<Value>, jobs: seq<Option<Job>>, h: Heap, refs: map<nat, nat>, reg: Registry, cp: nat, slots: seq<Value>, i: nat)
    requires WellFormed(h) && AllValid(h, slots) && ViewValid(slots, refs) && ChildrenRegistered(h, refs, slots)
    requires Landed(g1, view, jobs, h, refs, reg, cp, slots, |slots|) && ImgInjective(refs, view) && i < |slots|
    ensures jobs[i].Some? ==> slots[i].Ref?
    ensures slots[i].Ref? ==> slots[i].addr < |h| && view[i].Ref? && view[i].addr < |g1|
    ensures slots[i].Ref? && jobs[i].None? ==>
      g1[view[i].addr] == ImageNode(h[slots[i].addr], IdOf(reg, slots[i].addr), cp, refs, view)
    ensures jobs[i].Some? ==>
      && Applicable(g1, view, jobs[i].value) && jobs[i].value.subject == view[i]
      && ReviveNode(g1[view[i].addr], view, jobs[i].value) == Some(ImageNode(h[slots[i].addr], IdOf(reg, slots[i].addr), cp, refs, view))
  {
    assert slots[i] in slots;
    if slots[i].Ref? {
      assert NodeShape(h[slots[i].addr]);
      ReviveShell(h[slots[i].addr], IdOf(reg, slots[i].addr), cp, refs, view, view[i]);
    }
  }

  /** The layout `Landed` gives the first pass's results, without the shells' contents. */
  ghost predicate Laid(g1: Heap, view: seq<Value>, jobs: seq<Option<Job>>, slots: seq<Value>) {
    && |view| == |slots| && |jobs| == |slots|
    && (forall i :: 0 <= i < |slots| && slots[i].P? ==> view[i] == slots[i] && jobs[i].None?)
    && (forall i :: 0 <= i < |slots| && slots[i].Ref? ==> view[i].Ref? && view[i].addr < |g1|)
    && (forall i, j :: 0 <= i < |slots| && 0 <= j < |slots| && i != j && slots[i].Ref? && slots[j].Ref? ==> view[i] != view[j])
  }

  /** The second pass over a landed arena succeeds and leaves every object slot holding its image. */
  lemma ApplyLanded(g1: Heap, view: seq<Value>, jobs: seq<Option<Job>>, h: Heap, refs: map<nat, nat>, reg: Registry, cp: nat, slots: seq<Value>)
    requires Laid(g1, view, jobs, slots)
    requires forall i :: 0 <= i < |slots| && slots[i].Ref? && slots[i].addr < |h| && jobs[i].None? ==>
      g1[view[i].addr] == ImageNode(h[slots[i].addr], IdOf(reg, slots[i].addr), cp, refs, view)
    requires forall i :: 0 <= i < |slots| && jobs[i].Some? ==>
      && slots[i].Ref? && slots[i].addr < |h| && Applicable(g1, view, jobs[i].value) && jobs[i].value.subject == view[i]
      && ReviveNode(g1[view[i].addr], view, jobs[i].value) == Some(ImageNode(h[slots[i].addr], IdOf(reg, slots[i].addr), cp, refs, view))
    ensures ApplyJobs(g1, view, jobs).Ok?
    ensures Received(ApplyJobs(g1, view, jobs).value, view, h, refs, reg, cp, slots)
    ensures forall a :: 0 <= a < |g1| && (forall i :: 0 <= i < |slots| && slots[i].Ref? ==> view[i] != Ref(a)) ==>
      ApplyJobs(g1, view, jobs).value[a] == g1[a]
  {
    ApplyJobsDistinct(g1, view, jobs);
    var g2 := ApplyJobs(g1, view, jobs).value;
    forall i | 0 <= i < |slots| && slots[i].Ref? && slots[i].addr < |h|
      ensures g2[view[i].addr] == ImageNode(h[slots[i].addr], IdOf(reg, slots[i].addr), cp, refs, view)
    {
      if jobs[i].None? {
        assert forall j :: 0 <= j < |jobs| && jobs[j].Some? ==> jobs[j].value.subject != view[i];
      }
    }
  }

  /**
   * Inflating a deflated arena on a fresh channel succeeds, and the receiver
   * holds a copy of the sender's object graph, shared structure and cycles
   * included. Every arena holds only values that can be held weakly, and
   * so does its copy, so the receiver's `new MemoryView` does not throw.
   */
  lemma InflateDeflated(g: Heap, services: map<string, nat>, cp: nat, h: Heap, refs: map<nat, nat>, reg: Registry,
                        target: Option<nat>, slots: seq<Value>, ws: seq<Wire>)
    requires SenderOk(h, refs, reg, target, slots) && Deflated(h, refs, reg, target, slots, ws)
    requires ChildrenRegistered(h, refs, slots) && AllHeldWeakly(h, slots)
    ensures InflateSpec(g, services, cp, WList(ws), None).Ok?
    ensures Received(InflateSpec(g, services, cp, WList(ws), None).value.0, InflateSpec(g, services, cp, WList(ws), None).value.1,
                     h, refs, reg, cp, slots)
    ensures NewObjects(g, InflateSpec(g, services, cp, WList(ws), None).value.0, InflateSpec(g, services, cp, WList(ws), None).value.1, slots)
  {
    Pass1Lands(g, services, cp, h, refs, reg, target, slots, ws, |slots|);
    assert ws[..|slots|] == ws;
    var (g1, view, jobs) := Pass1(g, services, cp, ws, None).value;
    ShellsRevive(g1, view, jobs, h, refs, reg, cp, slots);
    assert Laid(g1, view, jobs, slots) by {
      forall i | 0 <= i < |slots| && slots[i].Ref? ensures view[i].Ref? && view[i].addr < |g1| {
        assert slots[i] in slots;
      }
    }
    ApplyLanded(g1, view, jobs, h, refs, reg, cp, slots);
    ArenaNew(g, services, cp, h, refs, reg, target, slots, ws, g1, view, jobs, ApplyJobs(g1, view, jobs).value);
    ReceivedHeldWeakly(ApplyJobs(g1, view, jobs).value, view, h, refs, reg, cp, slots);
  }

  /** Both passes together leave the receiver's old heap alone and put the copy past it. */
  lemma ArenaNew(g: Heap, services: map<string, nat>, cp: nat, h: Heap, refs: map<nat, nat>, reg: Registry,
                 target: Option<nat>, slots: seq<Value>, ws: seq<Wire>, g1: Heap, view: seq<Value>, jobs: seq<Option<Job>>, g2: Heap)
    requires SenderOk(h, refs, reg, target, slots) && Deflated(h, refs, reg, target, slots, ws) && AllHeldWeakly(h, slots)
    requires Pass1(g, services, cp, ws, None) == Ok((g1, view, jobs)) && |g2| == |g1|
    requires forall a :: 0 <= a < |g1| && (forall i :: 0 <= i < |slots| && slots[i].Ref? ==> view[i] != Ref(a)) ==> g2[a] == g1[a]
    ensures NewObjects(g, g2, view, slots)
  {
    Pass1Fresh(g, services, cp, h, refs, reg, target, slots, ws, |slots|);
    assert ws[..|slots|] == ws;
    KeepsOld(g, g1, g2, view, slots);
  }

  /** A copy is an interned symbol only where the original is one, so a copy of holdable values is holdable. */
  lemma ReceivedHeldWeakly(g2: Heap, view: seq<Value>, h: Heap, refs: map<nat, nat>, reg: Registry, cp: nat, slots: seq<Value>)
    requires AllValid(h, slots) && AllHeldWeakly(h, slots) && Received(g2, view, h, refs, reg, cp, slots)
    ensures AllHeldWeakly(g2, view)
  {
    forall v | v in view && v.Ref? ensures CanBeHeldWeakly(g2, v.addr) {
      var i :| 0 <= i < |view| && view[i] == v;
      assert slots[i] in slots;
    }
  }

  /** No object slot is a proxy that would travel back over its own channel. */
  ghost predicate NoReflection(h: Heap, target: Option<nat>, slots: seq<Value>) {
    forall i :: 0 <= i < |slots| && slots[i].Ref? && slots[i].addr < |h| && h[slots[i].addr].Func? ==>
      h[slots[i].addr].simple || IsLocal(h[slots[i].addr], target)
  }

  /**
   * The round trip: a consistent arena over a well-formed heap deflates
   * without error, and inflating the result on the other side of a channel
   * rebuilds the same graph, with each local function replaced by a proxy
   * for the service id it was registered under.
   */
  lemma DeflateInflate(h: Heap, refs: map<nat, nat>, reg: Registry, target: Option<nat>, slots: seq<Value>,
                       g: Heap, services: map<string, nat>, cp: nat)
    requires WellFormed(h) && AllValid(h, slots) && ViewValid(slots, refs) && Indexed(slots, refs)
    requires ChildrenRegistered(h, refs, slots) && RegValid(reg) && NoReflection(h, target, slots) && AllHeldWeakly(h, slots)
    ensures DeflateSlots(h, refs, reg, target, slots).Ok?
    ensures var (ws, reg') := DeflateSlots(h, refs, reg, target, slots).value;
      && InflateSpec(g, services, cp, WList(ws), None).Ok?
      && Received(InflateSpec(g, services, cp, WList(ws), None).value.0, InflateSpec(g, services, cp, WList(ws), None).value.1,
                  h, refs, reg', cp, slots)
      && NewObjects(g, InflateSpec(g, services, cp, WList(ws), None).value.0, InflateSpec(g, services, cp, WList(ws), None).value.1, slots)
  {
    var (ws, reg') := DeflateSlots(h, refs, reg, target, slots).value;
    DeflateSlotsAt(h, refs, reg, target, slots);
    DeflateSlotsRegistry(h, refs, reg, target, slots);
    SlotsSendable(h, reg', target, slots);
    InflateDeflated(g, services, cp, h, refs, reg', target, slots, ws);
  }

  /** Once deflated, every object slot can be sent: each local function has an id, which has no colon. */
  lemma SlotsSendable(h: Heap, reg: Registry, target: Option<nat>, slots: seq<Value>)
    requires AllValid(h, slots) && RegValid(reg) && NoReflection(h, target, slots)
    requires forall v :: v in slots && v.Ref? && h[v.addr].Func? && IsLocal(h[v.addr], target) ==> v.addr in reg.srvIdMap
    ensures forall i :: 0 <= i < |slots| && slots[i].Ref? ==> Sendable(h[slots[i].addr], slots[i].addr, reg, target)
  {
    forall i | 0 <= i < |slots| && slots[i].Ref? ensures slots[i].addr < |h| && Sendable(h[slots[i].addr], slots[i].addr, reg, target) {
      assert slots[i] in slots;
      var a := slots[i].addr;
      if h[a].Func? && IsLocal(h[a], target) {
        var id := reg.srvIdMap[a];
        HexHasNoColon(IdNumber(id).value);
      }
    }
  }
}
