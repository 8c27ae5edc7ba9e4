/**
 * The helpers of `src/util.ts`: primitive classification, string escaping,
 * the big-integer JSON replacer, and the graph walker `traverse`.
 */
module Util {
  import opened Wrappers
  import opened Model
  import Radix

  /** The answers `typeof` can give for a modelled value. */
  datatype JsType = Number | String | Boolean | Bigint | UndefinedType | Object | Function | SymbolType

  function TypeOf(h: Heap, v: Value): JsType {
    match v
    case P(p) =>
      (match p
       case Num(_) => Number
       case Str(_) => String
       case Bool(_) => Boolean
       case BigInt(_) => Bigint
       case Undefined => UndefinedType
       case Null => Object)
    case Ref(a) =>
      if a < |h| && h[a].Func? then Function
      else if a < |h| && h[a].Symbol? then SymbolType
      else Object
  }

  /**
   * `isPrimitive`: `typeof` is number, string, boolean, bigint or undefined,
   * or the value is `null`. This is exactly the primitive half of `Value`:
   * objects, functions and symbols are never primitive.
   */
  predicate IsPrimitive(h: Heap, v: Value)
    ensures IsPrimitive(h, v) <==> v.P?
  {
    TypeOf(h, v) in {Number, String, Boolean, Bigint, UndefinedType} || v == P(Null)
  }

  /** `escape`: a `#` in front; it can always be undone. */
  function Escape(s: string): (r: string)
    ensures |r| > 0 && r[0] == '#'
    ensures Unescape(r) == s
  {
    "#" + s
  }

  /** `unescape`: `str.slice(1)`, which maps the empty string to itself. */
  function Unescape(s: string): string {
    if s == [] then [] else s[1..]
  }

  /**
   * `bigint2str`, a replacer for `JSON.stringify`: a big
   * integer becomes `"n"` followed by its decimal rendering, which reads
   * back to the same integer; every other value is returned unchanged.
   */
  function BigIntToStr(v: Value): (r: Value)
    ensures v.P? && v.p.BigInt? ==>
      r.P? && r.p.Str? && |r.p.s| > 0 && r.p.s[0] == 'n' && Radix.ParseDecimal(r.p.s[1..]) == Some(v.p.i)
    ensures !(v.P? && v.p.BigInt?) ==> r == v
  {
    if v.P? && v.p.BigInt? then
      Radix.DecimalRoundTrip(v.p.i);
      var s := "n" + Radix.Decimal(v.p.i);
      assert s[1..] == Radix.Decimal(v.p.i);
      P(Str(s))
    else v
  }

  // ---------------------------------------------------------------------
  // Graph walker
  // ---------------------------------------------------------------------

  /** Every reference stored in a heap node is a valid address. */
  ghost predicate RefsValid(h: Heap) {
    forall a, v :: 0 <= a < |h| && v in ChildValues(h[a]) ==> ValidRef(h, v)
  }

  predicate AllValid(h: Heap, vals: seq<Value>) {
    forall v :: v in vals ==> ValidRef(h, v)
  }

  /** Addresses the walk has not marked yet; its size bounds the remaining work. */
  function Unvisited(h: Heap, visited: set<nat>): set<nat> {
    set a | 0 <= a < |h| && a !in visited
  }

  lemma {:induction false} SubsetCard(a: set<nat>, b: set<nat>)
    requires a <= b
    ensures |a| <= |b|
    decreases |b|
  {
    if a != {} {
      var x :| x in a;
      SubsetCard(a - {x}, b - {x});
    }
  }

  lemma UnvisitedShrinks(h: Heap, visited: set<nat>, more: set<nat>, x: nat)
    requires x < |h| && x !in visited && x in more && visited <= more
    ensures |Unvisited(h, more)| < |Unvisited(h, visited)|
  {
    assert Unvisited(h, more) <= Unvisited(h, visited) - {x};
    SubsetCard(Unvisited(h, more), Unvisited(h, visited) - {x});
  }

  /**
   * `$traverse(vals, visited)`: for each value in order, skip primitives and
   * values already visited; otherwise mark it, yield it, and walk its
   * children before moving on. Returns what was yielded and the final
   * visited set. Termination on cycles follows from marking before descending.
   */
  function Walk(h: Heap, vals: seq<Value>, visited: set<nat>): (r: (seq<nat>, set<nat>))
    requires RefsValid(h) && AllValid(h, vals)
    ensures visited <= r.1
    decreases |Unvisited(h, visited)|, |vals|
  {
    if vals == [] then ([], visited)
    else
      var v := vals[0];
      assert v in vals;
      if v.P? || v.addr in visited then Walk(h, vals[1..], visited)
      else
        var a := v.addr;
        UnvisitedShrinks(h, visited, visited + {a}, a);
        var (o1, v1) := Walk(h, ChildValues(h[a]), visited + {a});
        UnvisitedShrinks(h, visited, v1, a);
        var (o2, v2) := Walk(h, vals[1..], v1);
        ([a] + o1 + o2, v2)
  }

  /** `traverse(...roots)`: a walk started with an empty visited set. */
  function Traverse(h: Heap, roots: seq<Value>): seq<nat>
    requires RefsValid(h) && AllValid(h, roots)
  {
    Walk(h, roots, {}).0
  }

  /** A set of addresses that contains the children of each of its members. */
  ghost predicate Closed(h: Heap, s: set<nat>) {
    forall a :: a in s ==> a < |h| && ChildAddrs(h[a]) <= s
  }

  /** `a` is reachable from `roots`: it belongs to every closed set containing the roots. */
  ghost predicate Reachable(h: Heap, roots: seq<Value>, a: nat) {
    forall s :: Closed(h, s) && RefAddrs(roots) <= s ==> a in s
  }

  lemma {:induction false} WalkFacts(h: Heap, vals: seq<Value>, visited: set<nat>)
    requires RefsValid(h) && AllValid(h, vals)
    ensures var (out, vis) := Walk(h, vals, visited);
      && (forall a :: a in vis <==> a in visited || a in out)
      && Distinct(out)
      && (forall a :: a in out ==> a !in visited && a < |h| && ChildAddrs(h[a]) <= vis)
      && RefAddrs(vals) <= vis
      && (vals != [] && vals[0].Ref? && vals[0].addr !in visited ==> |out| > 0 && out[0] == vals[0].addr)
    decreases |Unvisited(h, visited)|, |vals|
  {
    if vals != [] {
      var v := vals[0];
      assert v in vals;
      if v.P? || v.addr in visited {
        WalkFacts(h, vals[1..], visited);
        assert vals == [v] + vals[1..];
      } else {
        var a := v.addr;
        UnvisitedShrinks(h, visited, visited + {a}, a);
        var (o1, v1) := Walk(h, ChildValues(h[a]), visited + {a});
        WalkFacts(h, ChildValues(h[a]), visited + {a});
        UnvisitedShrinks(h, visited, v1, a);
        var (o2, v2) := Walk(h, vals[1..], v1);
        WalkFacts(h, vals[1..], v1);
        var out := [a] + o1 + o2;
        assert Walk(h, vals, visited) == (out, v2);
        assert vals == [v] + vals[1..];
        forall i, j | 0 <= i < j < |out| ensures out[i] != out[j] {
          if i == 0 {
            assert out[j] in o1 || out[j] in o2;
          } else if i <= |o1| && j > |o1| {
            assert out[i] in o1 && out[j] in o2;
          } else if i <= |o1| {
            assert out[i] == o1[i - 1] && out[j] == o1[j - 1];
          } else {
            assert out[i] == o2[i - 1 - |o1|] && out[j] == o2[j - 1 - |o1|];
          }
        }
      }
    }
  }

  lemma {:induction false} WalkSound(h: Heap, vals: seq<Value>, visited: set<nat>, s: set<nat>)
    requires RefsValid(h) && AllValid(h, vals)
    requires Closed(h, s) && RefAddrs(vals) <= s
    ensures forall a :: a in Walk(h, vals, visited).0 ==> a in s
    decreases |Unvisited(h, visited)|, |vals|
  {
    if vals != [] {
      var v := vals[0];
      assert v in vals;
      assert RefAddrs(vals[1..]) <= RefAddrs(vals);
      if v.P? || v.addr in visited {
        WalkSound(h, vals[1..], visited, s);
      } else {
        var a := v.addr;
        assert a in s;
        UnvisitedShrinks(h, visited, visited + {a}, a);
        var (o1, v1) := Walk(h, ChildValues(h[a]), visited + {a});
        WalkSound(h, ChildValues(h[a]), visited + {a}, s);
        UnvisitedShrinks(h, visited, v1, a);
        WalkSound(h, vals[1..], v1, s);
      }
    }
  }

  /**
   * The walk yields every value reachable from the roots, each exactly once,
   * and nothing else; the first root, when it is a reference, comes first.
   */
  lemma TraverseYieldsReachable(h: Heap, roots: seq<Value>)
    requires RefsValid(h) && AllValid(h, roots)
    ensures Distinct(Traverse(h, roots))
    ensures forall a :: a in Traverse(h, roots) <==> Reachable(h, roots, a)
    ensures roots != [] && roots[0].Ref? ==> |Traverse(h, roots)| > 0 && Traverse(h, roots)[0] == roots[0].addr
  {
    var (out, vis) := Walk(h, roots, {});
    WalkFacts(h, roots, {});
    assert Closed(h, vis);
    forall a | a in out ensures Reachable(h, roots, a) {
      forall s | Closed(h, s) && RefAddrs(roots) <= s ensures a in s {
        WalkSound(h, roots, {}, s);
      }
    }
  }

  /** Reachability is closed under taking children, and stays inside the heap. */
  lemma ReachableChild(h: Heap, roots: seq<Value>, a: nat, c: nat)
    requires RefsValid(h) && AllValid(h, roots)
    requires Reachable(h, roots, a)
    ensures a < |h|
    ensures c in ChildAddrs(h[a]) ==> Reachable(h, roots, c)
  {
    var all := Unvisited(h, {});
    assert Closed(h, all) by {
      forall x | x in all ensures x < |h| && ChildAddrs(h[x]) <= all {
        forall y | y in ChildAddrs(h[x]) ensures y in all {
          var v :| v in ChildValues(h[x]) && v.Ref? && v.addr == y;
          assert ValidRef(h, v);
        }
      }
    }
    assert RefAddrs(roots) <= all by {
      forall y | y in RefAddrs(roots) ensures y in all {
        var v :| v in roots && v.Ref? && v.addr == y;
      }
    }
  }

  /** A reference root is reachable from itself. */
  lemma RootReachable(h: Heap, roots: seq<Value>, i: nat)
    requires i < |roots| && roots[i].Ref?
    ensures Reachable(h, roots, roots[i].addr)
  {
    assert roots[i] in roots;
  }

  /**
   * The generator itself: a loop over `vals` that threads the shared
   * visited set and recurses into children, proved to produce what `Walk` specifies.
   */
  method TraverseFrom(h: Heap, vals: seq<Value>, visited: set<nat>) returns (out: seq<nat>, vis: set<nat>)
    requires RefsValid(h) && AllValid(h, vals)
    ensures (out, vis) == Walk(h, vals, visited)
    decreases |Unvisited(h, visited)|, |vals|
  {
    out, vis := [], visited;
    var i := 0;
    assert vals[0..] == vals;
    assert [] + Walk(h, vals, visited).0 == Walk(h, vals, visited).0;
    while i < |vals|
      invariant 0 <= i <= |vals|
      invariant visited <= vis
      invariant AllValid(h, vals[i..])
      invariant out + Walk(h, vals[i..], vis).0 == Walk(h, vals, visited).0
      invariant Walk(h, vals[i..], vis).1 == Walk(h, vals, visited).1
    {
      var v := vals[i];
      assert v in vals;
      assert vals[i..][0] == v && vals[i..][1..] == vals[i + 1..];
      if v.Ref? && v.addr !in vis {
        var a := v.addr;
        UnvisitedShrinks(h, visited, vis + {a}, a);
        var o, w := TraverseFrom(h, ChildValues(h[a]), vis + {a});
        ghost var rest := Walk(h, vals[i + 1..], w);
        assert Walk(h, vals[i..], vis) == ([a] + o + rest.0, rest.1);
        assert out + ([a] + o + rest.0) == (out + [a] + o) + rest.0;
        out, vis := out + [a] + o, w;
      } else {
        assert Walk(h, vals[i..], vis) == Walk(h, vals[i + 1..], vis);
      }
      i := i + 1;
    }
    assert vals[i..] == [];
    assert out + [] == out;
  }
}
