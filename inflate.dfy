/**
 * `inflate` (`src/inflate.ts`): rebuild an arena from its wire elements in
 * two passes. The first pass makes one value per element (a primitive, a
 * symbol, a function, or an empty shell object) and notes, for every shell,
 * the revive job that will fill it. The second pass runs the jobs in
 * element order, resolving `*` back-references against the complete view,
 * so forward and self references find their shells.
 *
 * With an override arena (the caller's `mx`), slot `i` starts from the live
 * value `mx[i]` instead of a new one, and the objects it names are patched
 * in place.
 */
module Inflate {
  import opened Wrappers
  import opened Model
  import opened Wire
  import opened Handles
  import opened Revive
  import MemView

  /** `mx?.[i]?.deref()`: the live value at slot `i` of the override arena, `undefined` past its end or without one. */
  function Override(mx: Option<seq<Value>>, i: nat): (r: Value)
    ensures mx.Some? && i < |mx.value| ==> r == mx.value[i]
    ensures (mx.None? || i >= |mx.value|) ==> r == P(Undefined)
  {
    if mx.Some? && i < |mx.value| then mx.value[i] else P(Undefined)
  }

  /** `undefined` or `null`: the values `??` replaces. */
  predicate Nullish(v: Value) {
    v == P(Undefined) || v == P(Null)
  }

  /** `o ?? v`. */
  function OrElse(o: Value, v: Value): (r: Value)
    ensures Nullish(o) ==> r == v
    ensures !Nullish(o) ==> r == o
  {
    if Nullish(o) then v else o
  }

  /** The revive rules of `src/revive.ts`. */
  datatype Rule = GenericRule | ArrayRule | MapRule | SetRule | SymbolRule

  /** A fill callback of the second pass: a rule's subject and the slugs it will write. */
  datatype Job =
    | GenericJob(subject: Value, entries: seq<(string, Prim)>)
    | ArrayJob(subject: Value, elems: seq<Prim>)
    | MapJob(subject: Value, pairs: seq<(Prim, Prim)>)
    | SetJob(subject: Value, elems: seq<Prim>)

  /** The default parameter of each rule: `{}`, `[]`, `new Map()`, `new Set()`. */
  function DefaultShell(rule: Rule): (n: Node)
    requires !rule.SymbolRule?
    ensures rule.GenericRule? ==> n == Record([])
    ensures rule.ArrayRule? ==> n == Array(map[], 0)
    ensures rule.MapRule? ==> n == MapNode([])
    ensures rule.SetRule? ==> n == SetNode([])
  {
    match rule
    case GenericRule => Record([])
    case ArrayRule => Array(map[], 0)
    case MapRule => MapNode([])
    case SetRule => SetNode([])
  }

  /**
   * `R.X(override)`: the override itself, or a new default shell when it is
   * `undefined` (a default parameter does not replace `null`).
   */
  function Shell(h: Heap, rule: Rule, o: Value): (r: (Heap, Value))
    requires !rule.SymbolRule?
    ensures o == P(Undefined) ==> r == (h + [DefaultShell(rule)], Ref(|h|))
    ensures o != P(Undefined) ==> r == (h, o)
  {
    if o == P(Undefined) then (h + [DefaultShell(rule)], Ref(|h|)) else (h, o)
  }

  /**
   * `Symbol.for(name)`: the registered symbol with that name, or a new one
   * registered under it.
   */
  function SymbolFor(h: Heap, name: string): (r: (Heap, Value))
    ensures Extends(h, r.0) && r.1.Ref? && r.1.addr < |r.0| && IsInterned(r.0[r.1.addr], name)
    ensures FindInterned(h, name).Some? ==> r == (h, Ref(FindInterned(h, name).value))
    ensures FindInterned(h, name).None? ==> r == (h + [Symbol(true, name)], Ref(|h|))
  {
    match FindInterned(h, name)
    case Some(a) => (h, Ref(a))
    case None => (h + [Symbol(true, name)], Ref(|h|))
  }

  /** Asking for the same name again finds the symbol the first call returned. */
  lemma SymbolForShared(h: Heap, name: string)
    requires WellFormed(h)
    ensures var (h1, s1) := SymbolFor(h, name);
      SymbolFor(h1, name) == (h1, s1)
  {
    var (h1, s1) := SymbolFor(h, name);
    var found := FindInterned(h1, name);
    assert found.Some?;
    if FindInterned(h, name).Some? {
      var a := FindInterned(h, name).value;
      assert h[found.value].Symbol? && h[a].interned && IsInterned(h[found.value], h[a].name);
    }
  }

  /**
   * `inflateMagic`: dispatch on the first character of a magic string to a
   * revive rule and its subject. Functions and symbols are made only when
   * the override is nullish; `A`, `O`, `M`, `S` give a shell of their kind.
   */
  function InflateMagic(h: Heap, services: map<string, nat>, cp: nat, s: string, o: Value): (r: Result<(Heap, Value, Rule), Error>)
    ensures (s == [] || s[0] !in "<>=@$AOMS") <==> r.Err? && r.error == UnknownMagic(s)
    ensures r.Ok? && !Nullish(o) ==> r.value.0 == h && r.value.1 == o
    ensures r.Ok? ==> Extends(h, r.value.0)
    ensures s != [] && s[0] in "<>=" ==> (r.Ok? ==> r.value.2 == GenericRule) && (Nullish(o) ==>
      match InflateFn(h, services, cp, s)
      case Ok((h', f)) => r == Ok((h', f, GenericRule))
      case Err(e) => r == Err(e))
    ensures s != [] && s[0] == '@' && Nullish(o) ==> r == Ok((SymbolFor(h, s[1..]).0, SymbolFor(h, s[1..]).1, SymbolRule))
    ensures s != [] && s[0] == '$' && Nullish(o) ==> r == Ok((h + [Symbol(false, s[1..])], Ref(|h|), SymbolRule))
    ensures s != [] && s[0] in "AOMS" ==> (
      && r.Ok? && !r.value.2.SymbolRule?
      && r.value.2 == (if s[0] == 'A' then ArrayRule else if s[0] == 'O' then GenericRule else if s[0] == 'M' then MapRule else SetRule)
      && (r.value.0, r.value.1) == Shell(h, r.value.2, o))
  {
    if s == [] then Err(UnknownMagic(s))
    else
      match s[0]
      case '<' => InflateFnMagic(h, services, cp, s, o)
      case '>' => InflateFnMagic(h, services, cp, s, o)
      case '=' => InflateFnMagic(h, services, cp, s, o)
      case '@' =>
        if Nullish(o) then
          var (h', v) := SymbolFor(h, s[1..]);
          Ok((h', v, SymbolRule))
        else Ok((h, o, SymbolRule))
      case '$' =>
        if Nullish(o) then Ok((h + [Symbol(false, s[1..])], Ref(|h|), SymbolRule))
        else Ok((h, o, SymbolRule))
      case 'A' => var (h', v) := Shell(h, ArrayRule, o); Ok((h', v, ArrayRule))
      case 'O' => var (h', v) := Shell(h, GenericRule, o); Ok((h', v, GenericRule))
      case 'M' => var (h', v) := Shell(h, MapRule, o); Ok((h', v, MapRule))
      case 'S' => var (h', v) := Shell(h, SetRule, o); Ok((h', v, SetRule))
      case _ => Err(UnknownMagic(s))
  }

  /** `R.Generic(override ?? fn(s))`: the function decoder runs only without an override. */
  function InflateFnMagic(h: Heap, services: map<string, nat>, cp: nat, s: string, o: Value): (r: Result<(Heap, Value, Rule), Error>)
    requires s != [] && s[0] in "<>="
    ensures r.Ok? ==> Extends(h, r.value.0)
    ensures r.Err? ==> r.error != UnknownMagic(s)
  {
    if Nullish(o) then
      var (h', f) :- InflateFn(h, services, cp, s);
      Ok((h', f, GenericRule))
    else Ok((h, o, GenericRule))
  }

  /** Whether `v` is a symbol, the one kind of subject `inflate` registers no callback for. */
  predicate IsSymbol(h: Heap, v: Value) {
    v.Ref? && v.addr < |h| && h[v.addr].Symbol?
  }

  /** Slugs of an array or a set: each must be a primitive. */
  function PrimSlugs(ws: seq<Wire>): (r: Option<seq<Prim>>)
    ensures r.Some? <==> forall i :: 0 <= i < |ws| ==> ws[i].WPrim?
    ensures r.Some? ==> |r.value| == |ws| && (forall i :: 0 <= i < |ws| ==> ws[i] == WPrim(r.value[i]))
  {
    if forall i :: 0 <= i < |ws| ==> ws[i].WPrim? then Some(seq(|ws|, i requires 0 <= i < |ws| => ws[i].p))
    else None
  }

  /** A map entry on the wire: a two-item list of primitive slugs. */
  predicate IsPair(w: Wire) {
    w.WList? && |w.items| == 2 && w.items[0].WPrim? && w.items[1].WPrim?
  }

  function PairSlugs(ws: seq<Wire>): (r: Option<seq<(Prim, Prim)>>)
    ensures r.Some? <==> forall i :: 0 <= i < |ws| ==> IsPair(ws[i])
    ensures r.Some? ==> (
      && |r.value| == |ws|
      && forall i :: 0 <= i < |ws| ==> ws[i] == WList([WPrim(r.value[i].0), WPrim(r.value[i].1)]))
  {
    if forall i :: 0 <= i < |ws| ==> IsPair(ws[i]) then
      Some(seq(|ws|, i requires 0 <= i < |ws| => (ws[i].items[0].p, ws[i].items[1].p)))
    else None
  }

  /** An own entry of a function on the wire: a string key and a primitive slug. */
  predicate IsEntry(w: Wire) {
    w.WList? && |w.items| == 2 && w.items[0].WPrim? && w.items[0].p.Str? && w.items[1].WPrim?
  }

  function EntrySlugs(ws: seq<Wire>): (r: Option<seq<(string, Prim)>>)
    ensures r.Some? <==> forall i :: 0 <= i < |ws| ==> IsEntry(ws[i])
    ensures r.Some? ==> (
      && |r.value| == |ws|
      && forall i :: 0 <= i < |ws| ==> ws[i] == WList([WStr(r.value[i].0), WPrim(r.value[i].1)]))
  {
    if forall i :: 0 <= i < |ws| ==> IsEntry(ws[i]) then
      Some(seq(|ws|, i requires 0 <= i < |ws| => (ws[i].items[0].p.s, ws[i].items[1].p)))
    else None
  }

  /** `Object.entries` of a wire record: every value must be a primitive slug. */
  function FieldSlugs(fields: seq<(string, Wire)>): (r: Option<seq<(string, Prim)>>)
    ensures r.Some? <==> forall i :: 0 <= i < |fields| ==> fields[i].1.WPrim?
    ensures r.Some? ==> (
      && |r.value| == |fields|
      && forall i :: 0 <= i < |fields| ==> fields[i] == (r.value[i].0, WPrim(r.value[i].1)))
  {
    if forall i :: 0 <= i < |fields| ==> fields[i].1.WPrim? then
      Some(seq(|fields|, i requires 0 <= i < |fields| => (fields[i].0, fields[i].1.p)))
    else None
  }

  /** The callback `revive(data)` of a non-symbol rule, with its slugs decoded. */
  function MakeJob(rule: Rule, subject: Value, data: seq<Wire>): (r: Result<Job, Error>)
    requires !rule.SymbolRule?
    ensures r.Err? ==> r.error == Malformed
    ensures r.Ok? ==> r.value.subject == subject
    ensures r.Ok? ==> match rule
      case GenericRule => r.value.GenericJob? && EntrySlugs(data) == Some(r.value.entries)
      case ArrayRule => r.value.ArrayJob? && PrimSlugs(data) == Some(r.value.elems)
      case MapRule => r.value.MapJob? && PairSlugs(data) == Some(r.value.pairs)
      case SetRule => r.value.SetJob? && PrimSlugs(data) == Some(r.value.elems)
  {
    match rule
    case GenericRule =>
      (match EntrySlugs(data) case Some(d) => Ok(GenericJob(subject, d)) case None => Err(Malformed))
    case ArrayRule =>
      (match PrimSlugs(data) case Some(d) => Ok(ArrayJob(subject, d)) case None => Err(Malformed))
    case MapRule =>
      (match PairSlugs(data) case Some(d) => Ok(MapJob(subject, d)) case None => Err(Malformed))
    case SetRule =>
      (match PrimSlugs(data) case Some(d) => Ok(SetJob(subject, d)) case None => Err(Malformed))
  }

  /** `isInflatableArray`: the first item is a string that does not start with `#`. */
  predicate IsInflatable(items: seq<Wire>) {
    |items| > 0 && items[0].WPrim? && items[0].p.Str? && !(|items[0].p.s| > 0 && items[0].p.s[0] == '#')
  }

  /**
   * The first-pass callback of `inflate` for one element `w` with override
   * `o`: the slot's value, and the fill job registered for it, if any.
   */
  function Element(h: Heap, services: map<string, nat>, cp: nat, w: Wire, o: Value): (r: Result<(Heap, Value, Option<Job>), Error>)
    ensures r.Ok? ==> Extends(h, r.value.0)
    ensures r.Ok? && !Nullish(o) ==> r.value.0 == h && r.value.1 == o
    ensures r.Ok? && r.value.2.Some? ==> r.value.2.value.subject == r.value.1
  {
    match w
    case WList(items) =>
      if IsInflatable(items) then
        var (h', subject, rule) :- InflateMagic(h, services, cp, items[0].p.s, o);
        if rule.SymbolRule? || IsSymbol(h', subject) then Ok((h', subject, None))
        else
          var job :- MakeJob(rule, subject, items[1..]);
          Ok((h', subject, Some(job)))
      else
        var (h', subject) := Shell(h, ArrayRule, o);
        var data :- OkOr(PrimSlugs(items));
        Ok((h', subject, Some(ArrayJob(subject, data))))
    case WRec(fields) =>
      var (h', subject) := Shell(h, GenericRule, o);
      var data :- OkOr(FieldSlugs(fields));
      Ok((h', subject, Some(GenericJob(subject, data))))
    case WPrim(p) =>
      if p.Str? && |p.s| > 0 && p.s[0] == '#' then Ok((h, OrElse(o, P(Str(p.s[1..]))), None))
      else if p.Str? then
        var (h', subject, _) :- InflateMagic(h, services, cp, p.s, o);
        Ok((h', subject, None))
      else Ok((h, OrElse(o, P(p)), None))
  }

  /** An undecodable slug list is `Malformed`. */
  function OkOr<T>(x: Option<T>): (r: Result<T, Error>)
    ensures x.Some? ==> r == Ok(x.value)
    ensures x.None? ==> r == Err(Malformed)
  {
    match x
    case Some(v) => Ok(v)
    case None => Err(Malformed)
  }

  /**
   * The first pass over the elements, in order: the heap after every shell
   * is allocated, the view (one value per element) and the jobs (one entry
   * per element, `None` where no callback was registered).
   */
  function Pass1(h: Heap, services: map<string, nat>, cp: nat, elems: seq<Wire>, mx: Option<seq<Value>>): (r: Result<(Heap, seq<Value>, seq<Option<Job>>), Error>)
    ensures r.Ok? ==> Extends(h, r.value.0) && |r.value.1| == |elems| && |r.value.2| == |elems|
    ensures r.Ok? ==> forall i :: 0 <= i < |elems| && !Nullish(Override(mx, i)) ==> r.value.1[i] == Override(mx, i)
    ensures r.Ok? ==> forall i :: 0 <= i < |elems| && r.value.2[i].Some? ==> r.value.2[i].value.subject == r.value.1[i]
    decreases |elems|
  {
    if elems == [] then Ok((h, [], []))
    else
      var n := |elems| - 1;
      var (h1, view, jobs) :- Pass1(h, services, cp, elems[..n], mx);
      var (h2, v, job) :- Element(h1, services, cp, elems[n], Override(mx, n));
      Ok((h2, view + [v], jobs + [job]))
  }

  /**
   * The state a fill callback leaves its subject in, when the subject is an
   * object of the rule's kind: `Generic` fills records and functions,
   * `Array` arrays, `Map` maps, `Set` sets.
   */
  function ReviveNode(n: Node, view: seq<Value>, job: Job): (r: Option<Node>)
    ensures r.Some? <==> match job
      case GenericJob(_, _) => n.Record? || n.Func?
      case ArrayJob(_, _) => n.Array?
      case MapJob(_, _) => n.MapNode?
      case SetJob(_, _) => n.SetNode?
  {
    match job
    case GenericJob(_, data) =>
      (match n
       case Record(fields) => Some(Record(GenericRevive(fields, data, view)))
       case Func(simple, proxy, source, name, extra, viewed) => Some(Func(simple, proxy, source, name, GenericRevive(extra, data, view), viewed))
       case _ => None)
    case ArrayJob(_, data) =>
      (match n
       case Array(items, length) =>
         var (items', length') := ArrayRevive(items, length, data, view);
         Some(Array(items', length'))
       case _ => None)
    case MapJob(_, data) => if n.MapNode? then Some(MapNode(MapRevive(data, view))) else None
    case SetJob(_, data) => if n.SetNode? then Some(SetNode(SetRevive(data, view))) else None
  }

  /**
   * A fill callback run on the heap: only its subject changes. A subject
   * that is not an object of the rule's kind is a `Mismatch`.
   */
  function ApplyJob(h: Heap, view: seq<Value>, job: Job): (r: Result<Heap, Error>)
    ensures r.Ok? <==> job.subject.Ref? && job.subject.addr < |h| && ReviveNode(h[job.subject.addr], view, job).Some?
    ensures r.Ok? ==> r.value == h[job.subject.addr := ReviveNode(h[job.subject.addr], view, job).value]
    ensures r.Err? ==> r.error == Mismatch
  {
    var s := job.subject;
    if !(s.Ref? && s.addr < |h|) then Err(Mismatch)
    else
      match ReviveNode(h[s.addr], view, job)
      case Some(n) => Ok(h[s.addr := n])
      case None => Err(Mismatch)
  }

  /** The second pass: every registered callback in registration order, against the full view. */
  function ApplyJobs(h: Heap, view: seq<Value>, jobs: seq<Option<Job>>): (r: Result<Heap, Error>)
    ensures r.Ok? ==> |r.value| == |h|
    ensures r.Err? ==> r.error == Mismatch
    decreases |jobs|
  {
    if jobs == [] then Ok(h)
    else
      var n := |jobs| - 1;
      var h1 :- ApplyJobs(h, view, jobs[..n]);
      if jobs[n].None? then Ok(h1) else ApplyJob(h1, view, jobs[n].value)
  }

  /** The callback can run: its subject is an object of the rule's kind. */
  predicate Applicable(h: Heap, view: seq<Value>, job: Job) {
    job.subject.Ref? && job.subject.addr < |h| && ReviveNode(h[job.subject.addr], view, job).Some?
  }

  /**
   * When no two callbacks share a subject, the second pass succeeds, each
   * subject ends up as its own callback leaves it, and every other object is
   * untouched: the order of the callbacks does not matter.
   */
  lemma ApplyJobsDistinct(h: Heap, view: seq<Value>, jobs: seq<Option<Job>>)
    requires forall i, j :: 0 <= i < j < |jobs| && jobs[i].Some? && jobs[j].Some? ==> jobs[i].value.subject != jobs[j].value.subject
    requires forall i :: 0 <= i < |jobs| && jobs[i].Some? ==> Applicable(h, view, jobs[i].value)
    ensures ApplyJobs(h, view, jobs).Ok?
    ensures forall i :: 0 <= i < |jobs| && jobs[i].Some? && Applicable(h, view, jobs[i].value) ==>
      ApplyJobs(h, view, jobs).value[jobs[i].value.subject.addr] == ReviveNode(h[jobs[i].value.subject.addr], view, jobs[i].value).value
    ensures forall a :: 0 <= a < |h| && (forall i :: 0 <= i < |jobs| && jobs[i].Some? ==> jobs[i].value.subject != Ref(a)) ==>
      ApplyJobs(h, view, jobs).value[a] == h[a]
  {
    ApplyJobsFrame(h, view, jobs);
    ApplyJobsRevived(h, view, jobs);
  }

  /** With distinct applicable subjects the second pass succeeds and leaves every object that is no subject untouched. */
  lemma {:induction false} ApplyJobsFrame(h: Heap, view: seq<Value>, jobs: seq<Option<Job>>)
    requires forall i, j :: 0 <= i < j < |jobs| && jobs[i].Some? && jobs[j].Some? ==> jobs[i].value.subject != jobs[j].value.subject
    requires forall i :: 0 <= i < |jobs| && jobs[i].Some? ==> Applicable(h, view, jobs[i].value)
    ensures ApplyJobs(h, view, jobs).Ok?
    ensures forall a :: 0 <= a < |h| && (forall i :: 0 <= i < |jobs| && jobs[i].Some? ==> jobs[i].value.subject != Ref(a)) ==>
      ApplyJobs(h, view, jobs).value[a] == h[a]
    decreases |jobs|
  {
    if jobs != [] {
      var n := |jobs| - 1;
      var pre := jobs[..n];
      assert forall i :: 0 <= i < n ==> pre[i] == jobs[i];
      ApplyJobsFrame(h, view, pre);
      var h1 := ApplyJobs(h, view, pre).value;
      if jobs[n].Some? {
        var s := jobs[n].value.subject;
        assert h1[s.addr] == h[s.addr] by {
          forall i | 0 <= i < n && pre[i].Some? ensures pre[i].value.subject != Ref(s.addr) {
            assert jobs[i].value.subject != jobs[n].value.subject;
          }
        }
      }
    }
  }

  /** With distinct applicable subjects each subject ends up as its own callback leaves it. */
  lemma ApplyJobsRevived(h: Heap, view: seq<Value>, jobs: seq<Option<Job>>)
    requires forall i, j :: 0 <= i < j < |jobs| && jobs[i].Some? && jobs[j].Some? ==> jobs[i].value.subject != jobs[j].value.subject
    requires forall i :: 0 <= i < |jobs| && jobs[i].Some? ==> Applicable(h, view, jobs[i].value)
    ensures ApplyJobs(h, view, jobs).Ok?
    ensures forall i :: 0 <= i < |jobs| && jobs[i].Some? && Applicable(h, view, jobs[i].value) ==>
      ApplyJobs(h, view, jobs).value[jobs[i].value.subject.addr] == ReviveNode(h[jobs[i].value.subject.addr], view, jobs[i].value).value
  {
    ApplyJobsFrame(h, view, jobs);
    forall i | 0 <= i < |jobs| && jobs[i].Some? && Applicable(h, view, jobs[i].value)
      ensures ApplyJobs(h, view, jobs).value[jobs[i].value.subject.addr] == ReviveNode(h[jobs[i].value.subject.addr], view, jobs[i].value).value
    {
      ApplyJobsOne(h, view, jobs, i);
    }
  }

  /** The subject of callback `i` ends up as that callback leaves it. */
  lemma {:induction false} ApplyJobsOne(h: Heap, view: seq<Value>, jobs: seq<Option<Job>>, i: nat)
    requires forall i, j :: 0 <= i < j < |jobs| && jobs[i].Some? && jobs[j].Some? ==> jobs[i].value.subject != jobs[j].value.subject
    requires forall i :: 0 <= i < |jobs| && jobs[i].Some? ==> Applicable(h, view, jobs[i].value)
    requires i < |jobs| && jobs[i].Some? && Applicable(h, view, jobs[i].value)
    ensures ApplyJobs(h, view, jobs).Ok?
    ensures ApplyJobs(h, view, jobs).value[jobs[i].value.subject.addr] == ReviveNode(h[jobs[i].value.subject.addr], view, jobs[i].value).value
    decreases |jobs|
  {
    ApplyJobsFrame(h, view, jobs);
    var n := |jobs| - 1;
    var pre := jobs[..n];
    assert forall k :: 0 <= k < n ==> pre[k] == jobs[k];
    ApplyJobsFrame(h, view, pre);
    var h1 := ApplyJobs(h, view, pre).value;
    var t := jobs[i].value.subject;
    if i == n {
      assert h1[t.addr] == h[t.addr] by {
        forall k | 0 <= k < n && pre[k].Some? ensures pre[k].value.subject != Ref(t.addr) {
          assert jobs[k].value.subject != jobs[n].value.subject;
        }
      }
    } else {
      ApplyJobsOne(h, view, pre, i);
      if jobs[n].Some? {
        assert jobs[n].value.subject != t;
      }
    }
  }

  /** The elements of the input: a list is the arena, anything else a one-element arena. */
  function Elements(input: Wire): (r: seq<Wire>)
    ensures input.WList? ==> r == input.items
    ensures !input.WList? ==> r == [input]
  {
    if input.WList? then input.items else [input]
  }

  /**
   * `inflate(argv, fn, mx)`: the heap after both passes and the
   * reconstructed view. Without an override arena the view goes into
   * `new MemoryView(...view)`, which throws when it holds a value that
   * cannot be held weakly (a symbol from `Symbol.for`).
   */
  function InflateSpec(h: Heap, services: map<string, nat>, cp: nat, input: Wire, mx: Option<seq<Value>>): (r: Result<(Heap, seq<Value>), Error>)
    ensures r.Ok? ==> |r.value.0| >= |h| && |r.value.1| == |Elements(input)|
    ensures r.Ok? && mx.None? ==> AllHeldWeakly(r.value.0, r.value.1)
  {
    var (h1, view, jobs) :- Pass1(h, services, cp, Elements(input), mx);
    var h2 :- ApplyJobs(h1, view, jobs);
    if mx.None? && !AllHeldWeakly(h2, view) then Err(InvalidWeakKey)
    else Ok((h2, view))
  }

  /** `inflate(undefined)` leaves the heap alone and gives the view `[undefined]`. */
  lemma InflateUndefined(h: Heap, services: map<string, nat>, cp: nat)
    ensures InflateSpec(h, services, cp, WPrim(Undefined), None) == Ok((h, [P(Undefined)]))
  {
    var elems := [WPrim(Undefined)];
    Pass1Undefined(h, services, cp);
    var (h1, view, jobs) := Pass1(h, services, cp, elems, None).value;
    assert jobs[..0] == [];
    assert ApplyJobs(h1, view, jobs) == Ok(h);
  }

  /** The first pass over `[undefined]` allocates nothing and schedules no callback. */
  lemma Pass1Undefined(h: Heap, services: map<string, nat>, cp: nat)
    ensures Pass1(h, services, cp, [WPrim(Undefined)], None) == Ok((h, [P(Undefined)], [None]))
  {
    var elems := [WPrim(Undefined)];
    assert elems[..0] == [];
    assert Element(h, services, cp, elems[0], Override(None, 0)) == Ok((h, P(Undefined), None));
    var r := Pass1(h, services, cp, elems, None);
    assert r.Ok?;
    var (h1, view, jobs) := r.value;
    assert h1 == h;
    assert view == [P(Undefined)];
    assert jobs == [None];
  }

  /** A list holding one back-reference to service `id` inflates to that very service, allocating nothing. */
  lemma InflateReflected(h: Heap, services: map<string, nat>, cp: nat, id: string)
    requires id in services && services[id] < |h| && h[services[id]].Func?
    ensures InflateSpec(h, services, cp, WList([WStr(">" + id)]), None) == Ok((h, [Ref(services[id])]))
  {
    Pass1Reflected(h, services, cp, id);
    var none: seq<Option<Job>> := [None];
    assert none[..0] == [];
    assert ApplyJobs(h, [Ref(services[id])], none) == Ok(h);
  }

  /** The first pass over `[">" + id]` gives back the live service and schedules no callback. */
  lemma Pass1Reflected(h: Heap, services: map<string, nat>, cp: nat, id: string)
    requires id in services
    ensures Pass1(h, services, cp, [WStr(">" + id)], None) == Ok((h, [Ref(services[id])], [None]))
  {
    var m := ">" + id;
    assert m[0] == '>' && m[1..] == id;
    var elems := [WStr(m)];
    assert elems[..0] == [];
    assert InflateFn(h, services, cp, m) == Ok((h, Ref(services[id])));
    assert Element(h, services, cp, elems[0], Override(None, 0)) == Ok((h, Ref(services[id]), None));
    assert Pass1(h, services, cp, elems[..|elems| - 1], None) == Ok((h, [], []));
    var r := Pass1(h, services, cp, elems, None);
    assert r.Ok?;
    var (h1, view, jobs) := r.value;
    assert h1 == h;
    assert view == [Ref(services[id])];
    assert jobs == [None];
  }

  /** Once a prefix of the elements fails, the first pass fails with the same error. */
  lemma {:induction false} Pass1Stops(h: Heap, services: map<string, nat>, cp: nat, elems: seq<Wire>, mx: Option<seq<Value>>, k: nat)
    requires k <= |elems| && Pass1(h, services, cp, elems[..k], mx).Err?
    ensures Pass1(h, services, cp, elems, mx) == Pass1(h, services, cp, elems[..k], mx)
    decreases |elems|
  {
    if k < |elems| {
      var n := |elems| - 1;
      assert elems[..n][..k] == elems[..k];
      Pass1Stops(h, services, cp, elems[..n], mx, k);
      assert Pass1(h, services, cp, elems[..n], mx) == Pass1(h, services, cp, elems[..k], mx);
      Pass1Last(h, services, cp, elems, mx);
    } else {
      assert elems[..k] == elems;
    }
  }

  /** A failure before the last element is the failure of the whole pass. */
  lemma Pass1Last(h: Heap, services: map<string, nat>, cp: nat, elems: seq<Wire>, mx: Option<seq<Value>>)
    requires elems != [] && Pass1(h, services, cp, elems[..|elems| - 1], mx).Err?
    ensures Pass1(h, services, cp, elems, mx) == Pass1(h, services, cp, elems[..|elems| - 1], mx)
  {
  }

  /** Once a prefix of the jobs fails, the second pass fails. */
  lemma {:induction false} ApplyJobsStops(h: Heap, view: seq<Value>, jobs: seq<Option<Job>>, k: nat)
    requires k <= |jobs| && ApplyJobs(h, view, jobs[..k]).Err?
    ensures ApplyJobs(h, view, jobs).Err?
    decreases |jobs|
  {
    if k < |jobs| {
      var n := |jobs| - 1;
      assert jobs[..n][..k] == jobs[..k];
      ApplyJobsStops(h, view, jobs[..n], k);
      ApplyJobsLast(h, view, jobs);
    } else {
      assert jobs[..k] == jobs;
    }
  }

  /** A failure before the last callback is the failure of the whole pass. */
  lemma ApplyJobsLast(h: Heap, view: seq<Value>, jobs: seq<Option<Job>>)
    requires jobs != [] && ApplyJobs(h, view, jobs[..|jobs| - 1]).Err?
    ensures ApplyJobs(h, view, jobs) == ApplyJobs(h, view, jobs[..|jobs| - 1])
  {
  }

  /** One more element of the first pass. */
  lemma Pass1Snoc(h: Heap, services: map<string, nat>, cp: nat, elems: seq<Wire>, mx: Option<seq<Value>>, i: nat)
    requires i < |elems| && Pass1(h, services, cp, elems[..i], mx).Ok?
    ensures var (h1, view, jobs) := Pass1(h, services, cp, elems[..i], mx).value;
      Pass1(h, services, cp, elems[..i + 1], mx) ==
        match Element(h1, services, cp, elems[i], Override(mx, i))
        case Ok((h2, v, job)) => Ok((h2, view + [v], jobs + [job]))
        case Err(e) => Err(e)
  {
    assert elems[..i + 1][..i] == elems[..i];
  }

  /** One step of the first pass: the next element either extends the prefix's result or ends the pass with its error. */
  lemma Pass1Next(h: Heap, services: map<string, nat>, cp: nat, elems: seq<Wire>, mx: Option<seq<Value>>, i: nat,
                  heap: Heap, view: seq<Value>, jobs: seq<Option<Job>>)
    requires i < |elems| && Pass1(h, services, cp, elems[..i], mx) == Ok((heap, view, jobs))
    ensures var e := Element(heap, services, cp, elems[i], Override(mx, i));
      && (e.Err? ==> Pass1(h, services, cp, elems, mx) == Err(e.error))
      && (e.Ok? ==> Pass1(h, services, cp, elems[..i + 1], mx) == Ok((e.value.0, view + [e.value.1], jobs + [e.value.2])))
  {
    Pass1Snoc(h, services, cp, elems, mx, i);
    if Element(heap, services, cp, elems[i], Override(mx, i)).Err? {
      Pass1Stops(h, services, cp, elems, mx, i + 1);
    }
  }

  /** The first pass as `argv.map` runs it, pushing the callbacks as it goes. */
  method InflatePass1(h: Heap, services: map<string, nat>, cp: nat, elems: seq<Wire>, mx: Option<seq<Value>>)
    returns (r: Result<(Heap, seq<Value>, seq<Option<Job>>), Error>)
    ensures r == Pass1(h, services, cp, elems, mx)
  {
    var heap := h;
    var view: seq<Value> := [];
    var callbacks: seq<Option<Job>> := [];
    var i := 0;
    assert elems[..0] == [];
    while i < |elems|
      invariant 0 <= i <= |elems|
      invariant Pass1(h, services, cp, elems[..i], mx) == Ok((heap, view, callbacks))
    {
      var e := Element(heap, services, cp, elems[i], Override(mx, i));
      Pass1Next(h, services, cp, elems, mx, i, heap, view, callbacks);
      match e {
        case Err(err) =>
          return Err(err);
        case Ok((heap', v, job)) =>
          heap, view, callbacks := heap', view + [v], callbacks + [job];
      }
      i := i + 1;
    }
    assert elems[..i] == elems;
    return Ok((heap, view, callbacks));
  }

  /** One fill callback, running the revive loops of `src/revive.ts` on the subject. */
  method ReviveJob(h: Heap, view: seq<Value>, job: Job) returns (r: Result<Heap, Error>)
    ensures r == ApplyJob(h, view, job)
  {
    var s := job.subject;
    if !(s.Ref? && s.addr < |h|) {
      return Err(Mismatch);
    }
    var n: Node := h[s.addr];
    match job {
      case GenericJob(_, data) =>
        match n {
          case Record(fields) =>
            var fields' := ReviveGeneric(fields, data, view);
            n := Record(fields');
          case Func(simple, proxy, source, name, extra, viewed) =>
            var extra' := ReviveGeneric(extra, data, view);
            n := Func(simple, proxy, source, name, extra', viewed);
          case _ =>
            return Err(Mismatch);
        }
      case ArrayJob(_, data) =>
        match n {
          case Array(items, length) =>
            var items', length' := ReviveArray(items, length, data, view);
            n := Array(items', length');
          case _ =>
            return Err(Mismatch);
        }
      case MapJob(_, data) =>
        match n {
          case MapNode(entries) =>
            var entries' := ReviveMap(entries, data, view);
            n := MapNode(entries');
          case _ =>
            return Err(Mismatch);
        }
      case SetJob(_, data) =>
        match n {
          case SetNode(elems) =>
            var elems' := ReviveSet(elems, data, view);
            n := SetNode(elems');
          case _ =>
            return Err(Mismatch);
        }
    }
    r := Ok(h[s.addr := n]);
  }

  /** The second pass: `callbacks.forEach((revive) => revive(view, fn))`. */
  method RevivePass(h: Heap, view: seq<Value>, jobs: seq<Option<Job>>) returns (r: Result<Heap, Error>)
    ensures r == ApplyJobs(h, view, jobs)
  {
    var heap := h;
    var i := 0;
    assert jobs[..0] == [];
    while i < |jobs|
      invariant 0 <= i <= |jobs|
      invariant ApplyJobs(h, view, jobs[..i]) == Ok(heap)
    {
      assert jobs[..i + 1][..i] == jobs[..i];
      if jobs[i].Some? {
        var e := ReviveJob(heap, view, jobs[i].value);
        if e.Err? {
          ApplyJobsStops(h, view, jobs, i + 1);
          return Err(e.error);
        }
        heap := e.value;
      }
      i := i + 1;
    }
    assert jobs[..i] == jobs;
    return Ok(heap);
  }

  /** Both passes over the elements of `input`. */
  method InflateArena(h: Heap, services: map<string, nat>, cp: nat, input: Wire, mx: Option<seq<Value>>)
    returns (r: Result<(Heap, seq<Value>), Error>)
    ensures InflateSpec(h, services, cp, input, mx) ==
      if r.Ok? && mx.None? && !AllHeldWeakly(r.value.0, r.value.1) then Err(InvalidWeakKey) else r
  {
    var argv := if input.WList? then input.items else [input];
    var p := InflatePass1(h, services, cp, argv, mx);
    if p.Err? {
      return Err(p.error);
    }
    var (h1, view, callbacks) := p.value;
    var q := RevivePass(h1, view, callbacks);
    if q.Err? {
      return Err(q.error);
    }
    return Ok((q.value, view));
  }

  /**
   * `inflate(argv, fn, mx)`: with an override arena the objects it names are
   * patched and that same arena is returned; without one a new arena holds
   * the reconstructed view.
   */
  method InflateView(h: Heap, services: map<string, nat>, cp: nat, input: Wire, mx: MemView.MemoryView?)
    returns (r: Result<(Heap, MemView.MemoryView), Error>)
    ensures var spec := InflateSpec(h, services, cp, input, if mx == null then None else Some(old(mx.slots)));
      && (r.Ok? <==> spec.Ok?)
      && (r.Err? ==> r.error == spec.error)
      && (r.Ok? ==> r.value.0 == spec.value.0)
      && (r.Ok? && mx != null ==> r.value.1 == mx)
      && (r.Ok? && mx == null ==> fresh(r.value.1) && r.value.1.slots == spec.value.1 && r.value.1.Valid())
      && (r.Ok? && mx == null ==> r.value.1.root == if spec.value.1 == [] then P(Undefined) else spec.value.1[0])
  {
    var overrides := if mx == null then None else Some(mx.slots);
    var e := InflateArena(h, services, cp, input, overrides);
    if e.Err? {
      return Err(e.error);
    }
    var (h', view) := e.value;
    if mx != null {
      return Ok((h', mx));
    }
    var arena := MemView.NewView(h', view);
    if arena.Err? {
      return Err(arena.error);
    }
    return Ok((h', arena.value));
  }
}
