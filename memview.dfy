/**
 * `MemoryView` (`src/mem-view.ts`): the arena that gives each distinct
 * reference value a stable index. The JavaScript class extends `Array<Ref>`;
 * here `slots` holds what each `Ref` dereferences to, `refs` is the
 * identity-to-index `WeakMap` (kept strong), and `root` is the value the
 * arena was built for. A `WeakMap` rejects a key that cannot be held weakly
 * (a symbol from `Symbol.for`), so registering one throws.
 */
module MemView {
  import opened Wrappers
  import opened Model
  import opened Util
  import opened Wire

  /** The references among `walk` not yet in `known`, in walk order, as arena slots. */
  function Unregistered(walk: seq<nat>, known: set<nat>): seq<Value> {
    if walk == [] then []
    else (if walk[0] in known then [] else [Ref(walk[0])]) + Unregistered(walk[1..], known)
  }

  /** Every registered identity sits at its index, and every reference slot is registered. */
  ghost predicate ViewValid(slots: seq<Value>, refs: map<nat, nat>) {
    && (forall a :: a in refs ==> refs[a] < |slots| && slots[refs[a]] == Ref(a))
    && (forall i :: 0 <= i < |slots| && slots[i].Ref? ==> slots[i].addr in refs)
  }

  /**
   * Every reference slot sits at the index registered for it; in particular
   * no reference occupies two slots. `register` keeps this, and so does the
   * constructor when its values are unique, as its callers guarantee.
   */
  ghost predicate Indexed(slots: seq<Value>, refs: map<nat, nat>) {
    forall i :: 0 <= i < |slots| && slots[i].Ref? ==> slots[i].addr in refs && refs[slots[i].addr] == i
  }

  /**
   * `register` applied to each address of `walk` in turn, on plain values:
   * the slots and the index map afterwards, and whether every `register`
   * returned. The first new address that cannot be held weakly throws,
   * leaving what was registered before it.
   */
  function RegisterEach(h: Heap, slots: seq<Value>, refs: map<nat, nat>, walk: seq<nat>): (seq<Value>, map<nat, nat>, bool)
    decreases |walk|
  {
    if walk == [] then (slots, refs, true)
    else if walk[0] in refs then RegisterEach(h, slots, refs, walk[1..])
    else if !CanBeHeldWeakly(h, walk[0]) then (slots, refs, false)
    else RegisterEach(h, slots + [Ref(walk[0])], refs[walk[0] := |slots|], walk[1..])
  }

  class MemoryView {
    var slots: seq<Value>
    var refs: map<nat, nat>
    var root: Value

    /** Every registered identity sits at its index, and every reference slot is registered. */
    ghost predicate Valid()
      reads this
    {
      ViewValid(slots, refs)
    }

    /**
     * `new MemoryView(...values)`: one slot per value, in order. Primitive
     * slots get no `refs` entry. The values are trusted to be unique; when
     * they are, each reference's index is its position (with repeats, the
     * last position wins, as with `WeakMap.set`).
     */
    constructor (values: seq<Value>)
      ensures Valid()
      ensures slots == values
      ensures root == if values == [] then P(Undefined) else values[0]
      ensures refs.Keys == RefAddrs(values)
      ensures Distinct(values) ==> forall i :: 0 <= i < |values| && values[i].Ref? ==> refs[values[i].addr] == i
    {
      var s: seq<Value> := [];
      var r: map<nat, nat> := map[];
      var i := 0;
      while i < |values|
        invariant 0 <= i <= |values|
        invariant s == values[..i]
        invariant r.Keys == RefAddrs(values[..i])
        invariant forall a :: a in r ==> r[a] < i && values[r[a]] == Ref(a)
        invariant Distinct(values) ==> forall j :: 0 <= j < i && values[j].Ref? ==> r[values[j].addr] == j
      {
        assert values[..i + 1] == values[..i] + [values[i]];
        RefAddrsSnoc(values[..i], values[i]);
        if values[i].Ref? {
          r := r[values[i].addr := i];
        }
        s := s + [values[i]];
        i := i + 1;
      }
      assert values[..i] == values;
      slots := s;
      refs := r;
      root := if values == [] then P(Undefined) else values[0];
      new;
      forall j | 0 <= j < |slots| && slots[j].Ref? ensures slots[j].addr in refs {
        assert slots[j] in values;
      }
    }

    /** `refIndex`: the index of a reference value; primitives have none. */
    function RefIndex(v: Value): (r: Option<nat>)
      reads this
      requires Valid()
      ensures v.P? ==> r.None?
      ensures r.Some? ==> r.value < |slots| && slots[r.value] == v
      ensures v.Ref? && r.None? ==> v !in slots
    {
      if v.Ref? && v.addr in refs then Some(refs[v.addr]) else None
    }

    /**
     * `register`: a new identity gets the next index and one slot is
     * appended; an identity already present keeps its index and nothing
     * changes; a new one that cannot be held weakly makes `refs.set` throw
     * before anything changes.
     */
    method Register(h: Heap, a: nat) returns (r: Result<nat, Error>)
      requires Valid()
      modifies this
      ensures Valid() && root == old(root)
      ensures a in old(refs) ==> r == Ok(old(refs)[a]) && slots == old(slots) && refs == old(refs)
      ensures a !in old(refs) && !CanBeHeldWeakly(h, a) ==> r == Err(InvalidWeakKey) && slots == old(slots) && refs == old(refs)
      ensures a !in old(refs) && CanBeHeldWeakly(h, a) ==>
        r == Ok(|old(slots)|) && slots == old(slots) + [Ref(a)] && refs == old(refs)[a := |old(slots)|]
    {
      if a !in refs {
        if !CanBeHeldWeakly(h, a) {
          return Err(InvalidWeakKey);
        }
        refs := refs[a := |slots|];
        slots := slots + [Ref(a)];
      }
      r := Ok(refs[a]);
    }

    /** The loop of `items`: `register` each walked value in turn, stopping at the first that throws. */
    method RegisterAll(h: Heap, walk: seq<nat>) returns (ok: bool)
      requires Valid()
      modifies this
      ensures Valid() && root == old(root)
      ensures (slots, refs, ok) == RegisterEach(h, old(slots), old(refs), walk)
    {
      ghost var s0, r0 := slots, refs;
      var j := 0;
      assert walk[j..] == walk;
      while j < |walk|
        invariant 0 <= j <= |walk|
        invariant Valid() && root == old(root)
        invariant RegisterEach(h, slots, refs, walk[j..]) == RegisterEach(h, s0, r0, walk)
      {
        ghost var rest := walk[j..];
        assert rest[0] == walk[j] && rest[1..] == walk[j + 1..];
        var r := Register(h, walk[j]);
        if r.Err? {
          return false;
        }
        j := j + 1;
      }
      return true;
    }

    /**
     * `items`: walk the graph from the root, registering every value met,
     * then return every slot's value in index order. It throws exactly when
     * something reachable is neither registered nor holdable weakly. On
     * success existing slots keep their indices, the new ones are the walk's
     * unregistered values in walk order, and everything reachable from the
     * root has an index.
     */
    method Items(h: Heap) returns (r: Result<seq<Value>, Error>)
      requires Valid() && RefsValid(h) && ValidRef(h, root)
      modifies this
      ensures Valid() && root == old(root)
      ensures (slots, refs, r.Ok?) == RegisterEach(h, old(slots), old(refs), Traverse(h, [root]))
      ensures r.Ok? <==> forall a :: Reachable(h, [root], a) ==> a in old(refs) || CanBeHeldWeakly(h, a)
      ensures r.Err? ==> r.error == InvalidWeakKey
      ensures r.Ok? ==> r.value == slots
      ensures r.Ok? ==> slots == old(slots) + Unregistered(Traverse(h, [root]), old(refs).Keys)
      ensures forall a :: a in old(refs) ==> a in refs && refs[a] == old(refs)[a]
      ensures r.Ok? ==> refs.Keys == old(refs).Keys + Elems(Traverse(h, [root]))
      ensures r.Ok? ==> forall a :: Reachable(h, [root], a) ==> a in refs
      ensures r.Ok? && AllHeldWeakly(h, old(slots)) ==> AllHeldWeakly(h, slots)
      ensures Indexed(old(slots), old(refs)) ==> Indexed(slots, refs)
    {
      var walk, _ := TraverseFrom(h, [root], {});
      TraverseYieldsReachable(h, [root]);
      RegisterEachFacts(h, slots, refs, walk);
      if Indexed(slots, refs) {
        RegisterEachIndexed(h, slots, refs, walk);
      }
      UnregisteredFrom(walk, refs.Keys);
      ghost var s0 := slots;
      var ok := RegisterAll(h, walk);
      if ok {
        r := Ok(slots);
        assert AllHeldWeakly(h, s0) ==> AllHeldWeakly(h, slots) by {
          forall v | v in slots && v.Ref? && AllHeldWeakly(h, s0) ensures CanBeHeldWeakly(h, v.addr) {
            if v !in s0 {
              assert v in Unregistered(walk, old(refs).Keys);
            }
          }
        }
      } else {
        r := Err(InvalidWeakKey);
      }
    }
  }

  /**
   * `new MemoryView(...values)`: it throws a `TypeError` when a value cannot
   * be held weakly, since `refs.set` rejects it; otherwise the arena holds
   * the values in order.
   */
  method NewView(h: Heap, values: seq<Value>) returns (r: Result<MemoryView, Error>)
    ensures r.Ok? <==> AllHeldWeakly(h, values)
    ensures r.Err? ==> r.error == InvalidWeakKey
    ensures r.Ok? ==> fresh(r.value) && r.value.Valid() && r.value.slots == values
    ensures r.Ok? ==> r.value.root == (if values == [] then P(Undefined) else values[0])
    ensures r.Ok? ==> r.value.refs.Keys == RefAddrs(values)
    ensures r.Ok? && Distinct(values) ==> forall i :: 0 <= i < |values| && values[i].Ref? ==> r.value.refs[values[i].addr] == i
  {
    if !AllHeldWeakly(h, values) {
      return Err(InvalidWeakKey);
    }
    var mx := new MemoryView(values);
    return Ok(mx);
  }

  /** Unregistered values do not depend on addresses that the walk never mentions. */
  lemma {:induction false} UnregisteredIgnores(walk: seq<nat>, known: set<nat>, a: nat)
    requires a !in walk
    ensures Unregistered(walk, known + {a}) == Unregistered(walk, known)
    decreases |walk|
  {
    if walk != [] {
      assert walk[0] in walk;
      assert forall x :: x in walk[1..] ==> x in walk;
      UnregisteredIgnores(walk[1..], known, a);
    }
  }

  /**
   * Registering a walk of distinct addresses keeps the view valid and every
   * old index; it succeeds exactly when every walked address is registered
   * already or can be held weakly, and then it registers exactly the walk's
   * addresses and appends the unregistered ones in walk order.
   */
  lemma RegisterEachFacts(h: Heap, slots: seq<Value>, refs: map<nat, nat>, walk: seq<nat>)
    requires ViewValid(slots, refs) && Distinct(walk)
    ensures var (s, r, ok) := RegisterEach(h, slots, refs, walk);
      && ViewValid(s, r)
      && (ok <==> forall a :: a in walk ==> a in refs || CanBeHeldWeakly(h, a))
      && (ok ==> s == slots + Unregistered(walk, refs.Keys))
      && (forall a :: a in refs ==> a in r && r[a] == refs[a])
      && (ok ==> r.Keys == refs.Keys + Elems(walk))
  {
    RegisterEachValid(h, slots, refs, walk);
    RegisterEachOk(h, slots, refs, walk);
    RegisterEachSlots(h, slots, refs, walk);
    RegisterEachKeys(h, slots, refs, walk);
  }

  /** Registering one new address keeps the view valid. */
  lemma RegisterOneValid(slots: seq<Value>, refs: map<nat, nat>, a: nat)
    requires ViewValid(slots, refs) && a !in refs
    ensures ViewValid(slots + [Ref(a)], refs[a := |slots|])
  {
  }

  /** Registration keeps the view valid, whether or not it throws. */
  lemma {:induction false} RegisterEachValid(h: Heap, slots: seq<Value>, refs: map<nat, nat>, walk: seq<nat>)
    requires ViewValid(slots, refs)
    ensures ViewValid(RegisterEach(h, slots, refs, walk).0, RegisterEach(h, slots, refs, walk).1)
    decreases |walk|
  {
    if walk != [] {
      if walk[0] in refs {
        RegisterEachValid(h, slots, refs, walk[1..]);
      } else if CanBeHeldWeakly(h, walk[0]) {
        RegisterOneValid(slots, refs, walk[0]);
        RegisterEachValid(h, slots + [Ref(walk[0])], refs[walk[0] := |slots|], walk[1..]);
      }
    }
  }

  /** Registration throws exactly when the walk meets a new address that cannot be held weakly. */
  lemma {:induction false} RegisterEachOk(h: Heap, slots: seq<Value>, refs: map<nat, nat>, walk: seq<nat>)
    ensures RegisterEach(h, slots, refs, walk).2 <==> forall a :: a in walk ==> a in refs || CanBeHeldWeakly(h, a)
    decreases |walk|
  {
    if walk != [] {
      var a := walk[0];
      assert forall x :: x in walk <==> x == a || x in walk[1..] by {
        assert walk == [a] + walk[1..];
      }
      if a in refs {
        RegisterEachOk(h, slots, refs, walk[1..]);
      } else if CanBeHeldWeakly(h, a) {
        RegisterEachOk(h, slots + [Ref(a)], refs[a := |slots|], walk[1..]);
      }
    }
  }

  /** Registration that succeeds appends the walk's unregistered addresses, in walk order. */
  lemma {:induction false} RegisterEachSlots(h: Heap, slots: seq<Value>, refs: map<nat, nat>, walk: seq<nat>)
    requires Distinct(walk)
    ensures RegisterEach(h, slots, refs, walk).2 ==> RegisterEach(h, slots, refs, walk).0 == slots + Unregistered(walk, refs.Keys)
    decreases |walk|
  {
    if walk != [] {
      var a := walk[0];
      DistinctTail(walk);
      if a in refs {
        assert Unregistered(walk, refs.Keys) == Unregistered(walk[1..], refs.Keys);
        RegisterEachSlots(h, slots, refs, walk[1..]);
      } else if CanBeHeldWeakly(h, a) {
        RegisterEachSlots(h, slots + [Ref(a)], refs[a := |slots|], walk[1..]);
        RegisterSlotsFresh(h, slots, refs, walk);
      }
    }
  }

  /** The step of `RegisterEachSlots` for an address not yet registered. */
  lemma RegisterSlotsFresh(h: Heap, slots: seq<Value>, refs: map<nat, nat>, walk: seq<nat>)
    requires walk != [] && walk[0] !in refs && walk[0] !in walk[1..] && CanBeHeldWeakly(h, walk[0])
    requires var r1 := refs[walk[0] := |slots|];
      RegisterEach(h, slots + [Ref(walk[0])], r1, walk[1..]).2 ==>
      RegisterEach(h, slots + [Ref(walk[0])], r1, walk[1..]).0 == slots + [Ref(walk[0])] + Unregistered(walk[1..], r1.Keys)
    ensures RegisterEach(h, slots, refs, walk).2 ==> RegisterEach(h, slots, refs, walk).0 == slots + Unregistered(walk, refs.Keys)
  {
    var a := walk[0];
    var r1 := refs[a := |slots|];
    var rest := Unregistered(walk[1..], refs.Keys);
    assert Unregistered(walk, refs.Keys) == [Ref(a)] + rest;
    assert r1.Keys == refs.Keys + {a};
    UnregisteredIgnores(walk[1..], refs.Keys, a);
    assert slots + [Ref(a)] + rest == slots + ([Ref(a)] + rest);
  }

  /** A walk without repeats stays so after its head, which does not recur. */
  lemma DistinctTail(walk: seq<nat>)
    requires walk != [] && Distinct(walk)
    ensures Distinct(walk[1..]) && walk[0] !in walk[1..]
  {
  }

  /** Registration keeps every old index and, when it succeeds, registers exactly the walk's addresses. */
  lemma {:induction false} RegisterEachKeys(h: Heap, slots: seq<Value>, refs: map<nat, nat>, walk: seq<nat>)
    ensures var r := RegisterEach(h, slots, refs, walk);
      && (forall a :: a in refs ==> a in r.1 && r.1[a] == refs[a])
      && (r.2 ==> r.1.Keys == refs.Keys + Elems(walk))
    decreases |walk|
  {
    if walk != [] {
      var a := walk[0];
      assert Elems(walk) == {a} + Elems(walk[1..]);
      if a in refs {
        RegisterEachKeys(h, slots, refs, walk[1..]);
      } else if CanBeHeldWeakly(h, a) {
        RegisterEachKeys(h, slots + [Ref(a)], refs[a := |slots|], walk[1..]);
      }
    }
  }

  /** Registration puts every new reference at the index it registers. */
  lemma {:induction false} RegisterEachIndexed(h: Heap, slots: seq<Value>, refs: map<nat, nat>, walk: seq<nat>)
    requires Indexed(slots, refs)
    ensures Indexed(RegisterEach(h, slots, refs, walk).0, RegisterEach(h, slots, refs, walk).1)
    decreases |walk|
  {
    if walk != [] {
      var a := walk[0];
      if a in refs {
        RegisterEachIndexed(h, slots, refs, walk[1..]);
      } else if CanBeHeldWeakly(h, a) {
        var s1, r1 := slots + [Ref(a)], refs[a := |slots|];
        assert Indexed(s1, r1) by {
          forall i | 0 <= i < |s1| && s1[i].Ref? ensures s1[i].addr in r1 && r1[s1[i].addr] == i {
            if i < |slots| {
              assert s1[i] == slots[i];
            }
          }
        }
        RegisterEachIndexed(h, s1, r1, walk[1..]);
      }
    }
  }

  /** Registration, even when it throws, adds only references to walked addresses. */
  lemma {:induction false} RegisterEachFrom(h: Heap, slots: seq<Value>, refs: map<nat, nat>, walk: seq<nat>)
    ensures forall v :: v in RegisterEach(h, slots, refs, walk).0 ==> v in slots || (v.Ref? && v.addr in walk)
    decreases |walk|
  {
    if walk != [] {
      var a := walk[0];
      assert forall x :: x in walk[1..] ==> x in walk;
      if a in refs {
        RegisterEachFrom(h, slots, refs, walk[1..]);
      } else if CanBeHeldWeakly(h, a) {
        RegisterEachFrom(h, slots + [Ref(a)], refs[a := |slots|], walk[1..]);
      }
    }
  }

  /** The new slots are references to walked addresses outside `known`. */
  lemma {:induction false} UnregisteredFrom(walk: seq<nat>, known: set<nat>)
    ensures forall v :: v in Unregistered(walk, known) ==> v.Ref? && v.addr in walk && v.addr !in known
    decreases |walk|
  {
    if walk != [] {
      UnregisteredFrom(walk[1..], known);
      forall x | x in walk[1..] ensures x in walk {
      }
    }
  }
}
