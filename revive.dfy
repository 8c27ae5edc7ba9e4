/**
 * The revive rules of `src/revive.ts`: how a shell object is filled from
 * the slugs of its wire element once every shell exists. A slug is resolved
 * against the new view by `ref`; records and functions (`Generic`) get
 * their own keys set and stale keys deleted, arrays get their indices set
 * and stale indices deleted without shrinking `length`, maps and sets are
 * cleared and refilled.
 */
module Revive {
  import opened Wrappers
  import opened Model
  import Radix

  // ---------------------------------------------------------------------
  // ref
  // ---------------------------------------------------------------------

  /**
   * `ref`: a `#`-string is a literal string, a `*`-string an index into the
   * view (a `NaN` or out-of-range index reads `undefined`), and anything
   * else stands for itself.
   */
  function Resolve(slug: Prim, view: seq<Value>): Value {
    if slug.Str? && |slug.s| > 0 && slug.s[0] == '#' then P(Str(slug.s[1..]))
    else if slug.Str? && |slug.s| > 0 && slug.s[0] == '*' then
      match Radix.ParseInt(slug.s[1..], 16)
      case Some(k) => if k < |view| then view[k] else P(Undefined)
      case None => P(Undefined)
    else P(slug)
  }

  /** An escaped string resolves to the string itself. */
  lemma ResolveEscaped(s: string, view: seq<Value>)
    ensures Resolve(Str("#" + s), view) == P(Str(s))
  {
    assert ("#" + s)[1..] == s;
  }

  /** A back-reference written as `*` and the hex index finds the view slot, or `undefined` past the end. */
  lemma ResolveBackRef(k: nat, view: seq<Value>)
    ensures Resolve(Str("*" + Radix.Hex(k)), view) == if k < |view| then view[k] else P(Undefined)
  {
    assert ("*" + Radix.Hex(k))[1..] == Radix.Hex(k);
    Radix.ParseToRadix(k, 16);
  }

  /** A primitive that is not a string is never rewritten. */
  lemma ResolveOther(p: Prim, view: seq<Value>)
    requires !p.Str?
    ensures Resolve(p, view) == P(p)
  {
  }

  // ---------------------------------------------------------------------
  // Keyed lists: own properties of an object, entries of a Map
  // ---------------------------------------------------------------------

  /** Position of the first entry with key `k`. */
  function IndexOf<K(==,!new), V>(s: seq<(K, V)>, k: K): (r: Option<nat>)
    ensures r.Some? ==> r.value < |s| && s[r.value].0 == k && forall j :: 0 <= j < r.value ==> s[j].0 != k
    ensures r.None? ==> forall j :: 0 <= j < |s| ==> s[j].0 != k
    decreases |s|
  {
    if s == [] then None
    else if s[0].0 == k then Some(0)
    else match IndexOf(s[1..], k)
      case None => None
      case Some(i) => Some(i + 1)
  }

  /** Property read / `Map.prototype.get`: the value under `k`, if present. */
  function Get<K(==,!new), V>(s: seq<(K, V)>, k: K): Option<V> {
    match IndexOf(s, k)
    case Some(i) => Some(s[i].1)
    case None => None
  }

  function KeysOf<K, V>(s: seq<(K, V)>): set<K> {
    set i | 0 <= i < |s| :: s[i].0
  }

  lemma GetAt<K(!new), V>(s: seq<(K, V)>, i: nat)
    requires DistinctKeys(s) && i < |s|
    ensures Get(s, s[i].0) == Some(s[i].1)
  {
  }

  lemma GetPresent<K(!new), V>(s: seq<(K, V)>, k: K)
    ensures Get(s, k).Some? <==> k in KeysOf(s)
  {
    if k in KeysOf(s) {
      var i :| 0 <= i < |s| && s[i].0 == k;
    }
  }

  /** Two duplicate-free lists with the same keys in the same order and the same lookups are equal. */
  lemma KeyedExt<K(!new), V>(x: seq<(K, V)>, y: seq<(K, V)>)
    requires DistinctKeys(x) && DistinctKeys(y)
    requires FieldKeys(x) == FieldKeys(y)
    requires forall k :: Get(x, k) == Get(y, k)
    ensures x == y
  {
    assert |x| == |FieldKeys(x)| == |y|;
    forall i | 0 <= i < |x| ensures x[i] == y[i] {
      assert FieldKeys(x)[i] == x[i].0 && FieldKeys(y)[i] == y[i].0;
      GetAt(x, i);
      GetAt(y, i);
    }
  }

  /**
   * The number of leading entries ranked below `n`: where a new key of rank
   * `n` goes in a list that is in key order.
   */
  function RankPos<K, V>(s: seq<(K, V)>, n: nat, rank: K -> Option<nat>): (p: nat)
    ensures p <= |s|
    ensures forall i :: 0 <= i < p ==> rank(s[i].0).Some? && rank(s[i].0).value < n
    ensures p < |s| ==> rank(s[p].0).None? || rank(s[p].0).value >= n
    decreases |s|
  {
    if s == [] || rank(s[0].0).None? || rank(s[0].0).value >= n then 0
    else 1 + RankPos(s[1..], n, rank)
  }

  /**
   * Assignment of `v` under key `k`, as both `obj[k] = v` and `map.set(k, v)`
   * do it: an existing key keeps its position and takes the new value. A new
   * key goes to the end, except that a ranked key (an array index, for an
   * object) goes after the keys ranked below it and before all others.
   */
  function Assign<K(==,!new), V>(s: seq<(K, V)>, k: K, v: V, rank: K -> Option<nat>): (r: seq<(K, V)>)
    ensures KeysOf(r) == KeysOf(s) + {k}
    ensures Get(r, k) == Some(v)
    ensures forall j :: j != k ==> Get(r, j) == Get(s, j)
    ensures k in KeysOf(s) ==> FieldKeys(r) == FieldKeys(s)
    ensures k !in KeysOf(s) && rank(k).None? ==> r == s + [(k, v)]
    ensures k !in KeysOf(s) && rank(k).Some? ==>
      var p := RankPos(s, rank(k).value, rank); r == s[..p] + [(k, v)] + s[p..]
    ensures DistinctKeys(s) ==> DistinctKeys(r)
    ensures InKeyOrder(s, rank) && OneToOne(rank) ==> InKeyOrder(r, rank)
  {
    GetPresent(s, k);
    match IndexOf(s, k)
    case Some(i) =>
      var r := s[i := (k, v)];
      AssignAtFacts(s, k, v, i, rank);
      r
    case None =>
      if rank(k).None? then
        var r := s + [(k, v)];
        AppendFacts(s, k, v, rank);
        r
      else
        var p := RankPos(s, rank(k).value, rank);
        var r := s[..p] + [(k, v)] + s[p..];
        InsertFacts(s, k, v, p, rank);
        r
  }

  /** Writing key "5" into `{a: x}` lists "5" first, as the engine's own key order does. */
  lemma AssignIndexKeyFirst<V>(x: V, y: V)
    ensures Assign([("a", x)], "5", y, IndexKey) == [("5", y), ("a", x)]
  {
    assert IndexKey("5") == Some(5) by {
      IndexKeyOf(5);
    }
    assert IndexKey("a").None?;
    var s := [("a", x)];
    assert "5" !in KeysOf(s) by {
      forall m | 0 <= m < |s| ensures s[m].0 != "5" {
        assert s[m].0 == "a";
      }
    }
    assert RankPos(s, 5, IndexKey) == 0;
    assert s[..0] + [("5", y)] + s[0..] == [("5", y), ("a", x)];
  }

  lemma AssignAtFacts<K(!new), V>(s: seq<(K, V)>, k: K, v: V, i: nat, rank: K -> Option<nat>)
    requires IndexOf(s, k) == Some(i)
    ensures var r := s[i := (k, v)];
      && KeysOf(r) == KeysOf(s) + {k}
      && Get(r, k) == Some(v)
      && (forall j :: j != k ==> Get(r, j) == Get(s, j))
      && FieldKeys(r) == FieldKeys(s)
      && (DistinctKeys(s) ==> DistinctKeys(r))
      && (InKeyOrder(s, rank) ==> InKeyOrder(r, rank))
  {
    var r := s[i := (k, v)];
    assert FieldKeys(r) == FieldKeys(s);
    assert KeysOf(r) == KeysOf(s) by {
      forall x ensures x in KeysOf(r) <==> x in KeysOf(s) {
        if x in KeysOf(r) {
          var m :| 0 <= m < |r| && r[m].0 == x;
          assert s[m].0 == x;
        }
        if x in KeysOf(s) {
          var m :| 0 <= m < |s| && s[m].0 == x;
          assert r[m].0 == x;
        }
      }
    }
    IndexOfSameKeys(s, r, k);
    forall j | j != k ensures Get(r, j) == Get(s, j) {
      IndexOfSameKeys(s, r, j);
    }
  }

  /** `IndexOf` only looks at keys. */
  lemma IndexOfSameKeys<K(!new), V>(s: seq<(K, V)>, r: seq<(K, V)>, k: K)
    requires FieldKeys(r) == FieldKeys(s)
    ensures IndexOf(r, k) == IndexOf(s, k)
    decreases |s|
  {
    assert |r| == |s|;
    if s != [] {
      assert r[0].0 == FieldKeys(r)[0] == s[0].0;
      assert FieldKeys(r[1..]) == FieldKeys(r)[1..] == FieldKeys(s)[1..] == FieldKeys(s[1..]);
      IndexOfSameKeys(s[1..], r[1..], k);
    }
  }

  lemma AppendFacts<K(!new), V>(s: seq<(K, V)>, k: K, v: V, rank: K -> Option<nat>)
    requires IndexOf(s, k).None? && rank(k).None?
    ensures var r := s + [(k, v)];
      && KeysOf(r) == KeysOf(s) + {k}
      && Get(r, k) == Some(v)
      && (forall j :: j != k ==> Get(r, j) == Get(s, j))
      && (DistinctKeys(s) ==> DistinctKeys(r))
      && (InKeyOrder(s, rank) ==> InKeyOrder(r, rank))
  {
    var r := s + [(k, v)];
    assert KeysOf(r) == KeysOf(s) + {k} by {
      forall x ensures x in KeysOf(r) <==> x in KeysOf(s) + {k} {
        if x in KeysOf(r) {
          var m :| 0 <= m < |r| && r[m].0 == x;
          if m < |s| { assert s[m].0 == x; }
        }
        if x in KeysOf(s) {
          var m :| 0 <= m < |s| && s[m].0 == x;
          assert r[m].0 == x;
        }
        if x == k {
          assert r[|s|].0 == k;
        }
      }
    }
    IndexOfAppend(s, k, v, k);
    forall j | j != k ensures Get(r, j) == Get(s, j) {
      IndexOfAppend(s, k, v, j);
    }
    if InKeyOrder(s, rank) {
      forall i, j | 0 <= i < j < |r| && rank(r[j].0).Some?
        ensures rank(r[i].0).Some? && rank(r[i].0).value < rank(r[j].0).value
      {
        assert r[i] == s[i] && r[j] == s[j];
      }
    }
  }

  lemma IndexOfAppend<K(!new), V>(s: seq<(K, V)>, k: K, v: V, j: K)
    ensures IndexOf(s + [(k, v)], j) ==
      if IndexOf(s, j).Some? then IndexOf(s, j) else if j == k then Some(|s|) else None
    decreases |s|
  {
    if s != [] {
      assert (s + [(k, v)])[1..] == s[1..] + [(k, v)];
      IndexOfAppend(s[1..], k, v, j);
    }
  }

  /** A new ranked key inserted at its rank position: the lookups, the key set and the key order. */
  lemma InsertFacts<K(!new), V>(s: seq<(K, V)>, k: K, v: V, p: nat, rank: K -> Option<nat>)
    requires IndexOf(s, k).None? && rank(k).Some? && p == RankPos(s, rank(k).value, rank)
    ensures var r := s[..p] + [(k, v)] + s[p..];
      && KeysOf(r) == KeysOf(s) + {k}
      && Get(r, k) == Some(v)
      && (forall j :: j != k ==> Get(r, j) == Get(s, j))
      && (DistinctKeys(s) ==> DistinctKeys(r))
      && (InKeyOrder(s, rank) && OneToOne(rank) ==> InKeyOrder(r, rank))
  {
    InsertKeys(s, k, v, p);
    IndexOfInsert(s, k, v, p, k);
    forall j | j != k ensures Get(s[..p] + [(k, v)] + s[p..], j) == Get(s, j) {
      IndexOfInsert(s, k, v, p, j);
    }
    if DistinctKeys(s) {
      InsertDistinct(s, k, v, p);
    }
    if InKeyOrder(s, rank) && OneToOne(rank) {
      InsertOrder(s, k, v, p, rank);
    }
  }

  lemma InsertKeys<K, V>(s: seq<(K, V)>, k: K, v: V, p: nat)
    requires p <= |s|
    ensures KeysOf(s[..p] + [(k, v)] + s[p..]) == KeysOf(s) + {k}
  {
    var r := s[..p] + [(k, v)] + s[p..];
    forall x ensures x in KeysOf(r) <==> x in KeysOf(s) + {k} {
      if x in KeysOf(r) {
        var m :| 0 <= m < |r| && r[m].0 == x;
        if m < p { assert r[m] == s[m]; }
        if m > p { assert r[m] == s[m - 1]; }
      }
      if x in KeysOf(s) {
        var m :| 0 <= m < |s| && s[m].0 == x;
        if m < p { assert r[m] == s[m]; } else { assert r[m + 1] == s[m]; }
      }
      if x == k {
        assert r[p] == (k, v);
      }
    }
  }

  lemma InsertDistinct<K(!new), V>(s: seq<(K, V)>, k: K, v: V, p: nat)
    requires p <= |s| && IndexOf(s, k).None? && DistinctKeys(s)
    ensures DistinctKeys(s[..p] + [(k, v)] + s[p..])
  {
    GetPresent(s, k);
    InsertAt(s, (k, v), p);
    ShiftedDistinct(s, s[..p] + [(k, v)] + s[p..], p);
  }

  /** Where the elements of `s[..p] + [kv] + s[p..]` come from. */
  lemma InsertAt<T>(s: seq<T>, kv: T, p: nat)
    requires p <= |s|
    ensures var r := s[..p] + [kv] + s[p..];
      && |r| == |s| + 1 && r[p] == kv
      && (forall m :: 0 <= m < p ==> r[m] == s[m])
      && (forall m :: p < m < |r| ==> r[m] == s[m - 1])
  {
  }

  /** `r` is `s` with one element inserted at `p`, whose key is new: keys stay distinct. */
  lemma ShiftedDistinct<K, V>(s: seq<(K, V)>, r: seq<(K, V)>, p: nat)
    requires p <= |s| && |r| == |s| + 1 && DistinctKeys(s) && r[p].0 !in KeysOf(s)
    requires forall m :: 0 <= m < p ==> r[m] == s[m]
    requires forall m :: p < m < |r| ==> r[m] == s[m - 1]
    ensures DistinctKeys(r)
  {
    forall i, j | 0 <= i < j < |r| ensures r[i].0 != r[j].0 {
      var si := if i < p then i else i - 1;
      var sj := if j <= p then j else j - 1;
      if i != p && j != p {
        assert r[i] == s[si] && r[j] == s[sj] && si < sj;
      } else if i == p {
        assert r[j] == s[sj];
      } else {
        assert r[i] == s[si];
      }
    }
  }

  lemma InsertOrder<K(!new), V>(s: seq<(K, V)>, k: K, v: V, p: nat, rank: K -> Option<nat>)
    requires IndexOf(s, k).None? && rank(k).Some? && p == RankPos(s, rank(k).value, rank)
    requires InKeyOrder(s, rank) && OneToOne(rank)
    ensures InKeyOrder(s[..p] + [(k, v)] + s[p..], rank)
  {
    var n := rank(k).value;
    GetPresent(s, k);
    forall m | p <= m < |s| && rank(s[m].0).Some? ensures rank(s[m].0).value > n {
      assert s[m].0 != k;
      assert rank(s[p].0).Some?;
    }
    InsertAt(s, (k, v), p);
    ShiftedOrder(s, s[..p] + [(k, v)] + s[p..], p, rank);
  }

  /**
   * `r` is `s` with one element inserted at `p`, ranked above everything
   * before `p` and below every ranked key after it: key order is kept.
   */
  lemma ShiftedOrder<K, V>(s: seq<(K, V)>, r: seq<(K, V)>, p: nat, rank: K -> Option<nat>)
    requires p <= |s| && |r| == |s| + 1 && InKeyOrder(s, rank) && rank(r[p].0).Some?
    requires forall m :: 0 <= m < p ==> rank(s[m].0).Some? && rank(s[m].0).value < rank(r[p].0).value
    requires forall m :: p <= m < |s| && rank(s[m].0).Some? ==> rank(s[m].0).value > rank(r[p].0).value
    requires forall m :: 0 <= m < p ==> r[m] == s[m]
    requires forall m :: p < m < |r| ==> r[m] == s[m - 1]
    ensures InKeyOrder(r, rank)
  {
    forall i, j | 0 <= i < j < |r| && rank(r[j].0).Some?
      ensures rank(r[i].0).Some? && rank(r[i].0).value < rank(r[j].0).value
    {
      var si := if i < p then i else i - 1;
      var sj := if j <= p then j else j - 1;
      if i != p && j != p {
        assert r[i] == s[si] && r[j] == s[sj] && si < sj;
      } else if i == p {
        assert r[j] == s[sj];
      } else {
        assert r[i] == s[si];
      }
    }
  }

  /** Inserting a new key leaves every other key's first position where it was, relative to the rest. */
  lemma {:induction false} IndexOfInsert<K(!new), V>(s: seq<(K, V)>, k: K, v: V, p: nat, j: K)
    requires p <= |s| && IndexOf(s, k).None?
    ensures j == k ==> IndexOf(s[..p] + [(k, v)] + s[p..], j) == Some(p)
    ensures j != k ==> Get(s[..p] + [(k, v)] + s[p..], j) == Get(s, j)
    decreases p
  {
    var r := s[..p] + [(k, v)] + s[p..];
    if p == 0 {
      assert r == [(k, v)] + s && r[1..] == s;
    } else {
      assert r[0] == s[0] && s[0].0 != k;
      assert r[1..] == s[1..][..p - 1] + [(k, v)] + s[1..][p - 1..];
      IndexOfInsert(s[1..], k, v, p - 1, j);
    }
  }

  /** Every pair written in turn, left to right. */
  function AssignEach<K(==,!new), V>(s: seq<(K, V)>, pairs: seq<(K, V)>, rank: K -> Option<nat>): seq<(K, V)>
    decreases |pairs|
  {
    if pairs == [] then s
    else var n := |pairs| - 1; Assign(AssignEach(s, pairs[..n], rank), pairs[n].0, pairs[n].1, rank)
  }

  /** The value written last under `k`, if any pair has that key. */
  function LastValue<K(==,!new), V>(pairs: seq<(K, V)>, k: K): (r: Option<V>)
    ensures r.Some? <==> k in KeysOf(pairs)
    decreases |pairs|
  {
    if pairs == [] then None
    else
      var n := |pairs| - 1;
      assert KeysOf(pairs) == KeysOf(pairs[..n]) + {pairs[n].0} by {
        forall x ensures x in KeysOf(pairs) <==> x in KeysOf(pairs[..n]) + {pairs[n].0} {
          if x in KeysOf(pairs) {
            var m :| 0 <= m < |pairs| && pairs[m].0 == x;
            if m < n { assert pairs[..n][m].0 == x; }
          }
          if x in KeysOf(pairs[..n]) {
            var m :| 0 <= m < n && pairs[..n][m].0 == x;
            assert pairs[m].0 == x;
          }
        }
      }
      if pairs[n].0 == k then Some(pairs[n].1) else LastValue(pairs[..n], k)
  }

  /**
   * After assigning every pair: the keys are the old ones plus the pairs'
   * keys, each key holds the value written to it last (or its old value
   * when no pair names it), no key appears twice, and the key order is kept.
   */
  lemma {:induction false} AssignEachFacts<K(!new), V>(s: seq<(K, V)>, pairs: seq<(K, V)>, rank: K -> Option<nat>)
    ensures KeysOf(AssignEach(s, pairs, rank)) == KeysOf(s) + KeysOf(pairs)
    ensures forall k :: Get(AssignEach(s, pairs, rank), k) == if k in KeysOf(pairs) then LastValue(pairs, k) else Get(s, k)
    ensures DistinctKeys(s) ==> DistinctKeys(AssignEach(s, pairs, rank))
    ensures InKeyOrder(s, rank) && OneToOne(rank) ==> InKeyOrder(AssignEach(s, pairs, rank), rank)
    decreases |pairs|
  {
    if pairs != [] {
      var n := |pairs| - 1;
      AssignEachFacts(s, pairs[..n], rank);
      assert LastValue(pairs, pairs[n].0).Some?;
      assert KeysOf(pairs) == KeysOf(pairs[..n]) + {pairs[n].0} by {
        assert LastValue(pairs, pairs[n].0).Some?;
        forall x ensures x in KeysOf(pairs) <==> x in KeysOf(pairs[..n]) + {pairs[n].0} {
          assert LastValue(pairs, x).Some? <==> x in KeysOf(pairs);
          assert LastValue(pairs[..n], x).Some? <==> x in KeysOf(pairs[..n]);
        }
      }
    }
  }

  /** Assigning keys that are all present already keeps the key order. */
  lemma {:induction false} AssignEachKeepsOrder<K(!new), V>(s: seq<(K, V)>, pairs: seq<(K, V)>, rank: K -> Option<nat>)
    requires KeysOf(pairs) <= KeysOf(s)
    ensures FieldKeys(AssignEach(s, pairs, rank)) == FieldKeys(s)
    decreases |pairs|
  {
    if pairs != [] {
      var n := |pairs| - 1;
      assert pairs[n].0 in KeysOf(pairs);
      assert KeysOf(pairs[..n]) <= KeysOf(pairs) by {
        forall x | x in KeysOf(pairs[..n]) ensures x in KeysOf(pairs) {
          var m :| 0 <= m < n && pairs[..n][m].0 == x;
          assert pairs[m].0 == x;
        }
      }
      AssignEachFacts(s, pairs[..n], rank);
      AssignEachKeepsOrder(s, pairs[..n], rank);
    }
  }

  /**
   * Assigning distinct keys that are already in key order to an empty
   * object lists them in that order.
   */
  lemma {:induction false} AssignEachFresh<K(!new), V>(pairs: seq<(K, V)>, rank: K -> Option<nat>)
    requires DistinctKeys(pairs) && InKeyOrder(pairs, rank)
    ensures AssignEach([], pairs, rank) == pairs
    decreases |pairs|
  {
    if pairs != [] {
      var n := |pairs| - 1;
      FreshPrefix(pairs, rank);
      AssignEachFresh(pairs[..n], rank);
      AssignEachLast(pairs, rank);
    }
  }

  /** Dropping the last pair keeps keys distinct and in key order, and the dropped key is not among the rest. */
  lemma FreshPrefix<K, V>(pairs: seq<(K, V)>, rank: K -> Option<nat>)
    requires pairs != [] && DistinctKeys(pairs) && InKeyOrder(pairs, rank)
    ensures var n := |pairs| - 1;
      DistinctKeys(pairs[..n]) && InKeyOrder(pairs[..n], rank) && pairs[n].0 !in KeysOf(pairs[..n])
  {
    var n := |pairs| - 1;
    assert DistinctKeys(pairs[..n]);
    assert InKeyOrder(pairs[..n], rank) by {
      forall i, j | 0 <= i < j < n && rank(pairs[..n][j].0).Some?
        ensures rank(pairs[..n][i].0).Some? && rank(pairs[..n][i].0).value < rank(pairs[..n][j].0).value
      {
        assert pairs[..n][i] == pairs[i] && pairs[..n][j] == pairs[j];
      }
    }
    forall m | 0 <= m < n ensures pairs[..n][m].0 != pairs[n].0 {
      assert pairs[..n][m] == pairs[m];
    }
  }

  /** Once all but the last pair have been assigned in order, assigning the last one appends it. */
  lemma AssignEachLast<K(!new), V>(pairs: seq<(K, V)>, rank: K -> Option<nat>)
    requires pairs != [] && InKeyOrder(pairs, rank)
    requires var n := |pairs| - 1; AssignEach([], pairs[..n], rank) == pairs[..n] && pairs[n].0 !in KeysOf(pairs[..n])
    ensures AssignEach([], pairs, rank) == pairs
  {
    var n := |pairs| - 1;
    assert pairs[..n] + [pairs[n]] == pairs;
    AssignLast(pairs[..n], pairs[n], rank);
  }

  /** A new key whose place in key order is last is appended. */
  lemma AssignLast<K(!new), V>(s: seq<(K, V)>, kv: (K, V), rank: K -> Option<nat>)
    requires kv.0 !in KeysOf(s) && InKeyOrder(s + [kv], rank)
    ensures Assign(s, kv.0, kv.1, rank) == s + [kv]
  {
    if rank(kv.0).Some? {
      var p := RankPos(s, rank(kv.0).value, rank);
      var t := s + [kv];
      assert t[|s|] == kv;
      forall i | 0 <= i < |s| ensures rank(s[i].0).Some? && rank(s[i].0).value < rank(kv.0).value {
        assert t[i] == s[i];
      }
      assert p == |s|;
      assert s[..p] == s && s[p..] == [];
    }
  }

  /** Delete every own key outside `keep`. */
  function KeepKeys<K, V>(s: seq<(K, V)>, keep: set<K>): (r: seq<(K, V)>)
    ensures KeysOf(r) == KeysOf(s) * keep
    ensures KeysOf(s) <= keep ==> r == s
    decreases |s|
  {
    if s == [] then []
    else
      var rest := KeepKeys(s[1..], keep);
      assert KeysOf(s) == {s[0].0} + KeysOf(s[1..]) by {
        forall x ensures x in KeysOf(s) <==> x in {s[0].0} + KeysOf(s[1..]) {
          if x in KeysOf(s) {
            var m :| 0 <= m < |s| && s[m].0 == x;
            if m > 0 { assert s[1..][m - 1].0 == x; }
          }
          if x in KeysOf(s[1..]) {
            var m :| 0 <= m < |s| - 1 && s[1..][m].0 == x;
            assert s[m + 1].0 == x;
          }
        }
      }
      if s[0].0 in keep then
        var r := [s[0]] + rest;
        assert KeysOf(r) == {s[0].0} + KeysOf(rest) by {
          forall x ensures x in KeysOf(r) <==> x in {s[0].0} + KeysOf(rest) {
            if x in KeysOf(r) {
              var m :| 0 <= m < |r| && r[m].0 == x;
              if m > 0 { assert r[m] == rest[m - 1]; }
            }
            if x in KeysOf(rest) {
              var m :| 0 <= m < |rest| && rest[m].0 == x;
              assert r[m + 1] == rest[m];
            }
            if x == s[0].0 {
              assert r[0] == s[0];
            }
          }
        }
        assert KeysOf(s) <= keep ==> r == s by {
          if KeysOf(s) <= keep {
            assert [s[0]] + s[1..] == s;
          }
        }
        r
      else
        rest
  }

  lemma {:induction false} KeepKeysGet<K(!new), V>(s: seq<(K, V)>, keep: set<K>, k: K)
    ensures Get(KeepKeys(s, keep), k) == if k in keep then Get(s, k) else None
    ensures DistinctKeys(s) ==> DistinctKeys(KeepKeys(s, keep))
    decreases |s|
  {
    GetPresent(KeepKeys(s, keep), k);
    if s != [] {
      KeepKeysGet(s[1..], keep, k);
      var rest := KeepKeys(s[1..], keep);
      if DistinctKeys(s) {
        assert DistinctKeys(s[1..]);
        if s[0].0 in keep {
          var r := [s[0]] + rest;
          assert s[0].0 !in KeysOf(s[1..]) by {
            forall m | 0 <= m < |s| - 1 ensures s[1..][m].0 != s[0].0 {
              assert s[1..][m] == s[m + 1];
            }
          }
          assert s[0].0 !in KeysOf(rest);
          forall i, j | 0 <= i < j < |r| ensures r[i].0 != r[j].0 {
            if i == 0 {
              assert r[j] == rest[j - 1];
            } else {
              assert r[i] == rest[i - 1] && r[j] == rest[j - 1];
            }
          }
        }
      }
      if s[0].0 in keep {
        var r := [s[0]] + rest;
        assert r[1..] == rest;
      }
    }
  }

  /** Deleting keys keeps the survivors in their order, so key order is kept. */
  lemma {:induction false} KeepKeysOrder<K, V>(s: seq<(K, V)>, keep: set<K>, rank: K -> Option<nat>)
    requires InKeyOrder(s, rank)
    ensures forall x :: x in KeepKeys(s, keep) ==> x in s
    ensures InKeyOrder(KeepKeys(s, keep), rank)
    decreases |s|
  {
    if s != [] {
      assert InKeyOrder(s[1..], rank) by {
        forall i, j | 0 <= i < j < |s| - 1 && rank(s[1..][j].0).Some?
          ensures rank(s[1..][i].0).Some? && rank(s[1..][i].0).value < rank(s[1..][j].0).value
        {
          assert s[1..][i] == s[i + 1] && s[1..][j] == s[j + 1];
        }
      }
      KeepKeysOrder(s[1..], keep, rank);
      var rest := KeepKeys(s[1..], keep);
      forall x | x in rest ensures x in s {
        assert x in s[1..];
      }
      if s[0].0 in keep {
        var r := [s[0]] + rest;
        forall i, j | 0 <= i < j < |r| && rank(r[j].0).Some?
          ensures rank(r[i].0).Some? && rank(r[i].0).value < rank(r[j].0).value
        {
          assert r[j] == rest[j - 1];
          if i == 0 {
            assert r[j] in s[1..];
            var m :| 0 <= m < |s[1..]| && s[1..][m] == r[j];
            assert s[m + 1] == r[j];
          } else {
            assert r[i] == rest[i - 1];
          }
        }
      }
    }
  }

  // ---------------------------------------------------------------------
  // The Generic rule (objects and functions)
  // ---------------------------------------------------------------------

  /** The data pairs with their slugs resolved against the view. */
  function ResolveValues(data: seq<(string, Prim)>, view: seq<Value>): (r: seq<(string, Value)>)
    ensures |r| == |data| && forall i :: 0 <= i < |data| ==> r[i] == (data[i].0, Resolve(data[i].1, view))
  {
    seq(|data|, i requires 0 <= i < |data| => (data[i].0, Resolve(data[i].1, view)))
  }

  /**
   * `Generic` revive: every data key written its resolved slug, in data
   * order, then every previous own key that the data does not name deleted.
   */
  function GenericRevive(fields: seq<(string, Value)>, data: seq<(string, Prim)>, view: seq<Value>): seq<(string, Value)> {
    KeepKeys(AssignEach(fields, ResolveValues(data, view), IndexKey), KeysOf(data))
  }

  lemma ResolveValuesKeys(data: seq<(string, Prim)>, view: seq<Value>)
    ensures KeysOf(ResolveValues(data, view)) == KeysOf(data)
    ensures FieldKeys(ResolveValues(data, view)) == FieldKeys(data)
  {
    var r := ResolveValues(data, view);
    forall x ensures x in KeysOf(r) <==> x in KeysOf(data) {
      if x in KeysOf(r) {
        var m :| 0 <= m < |r| && r[m].0 == x;
        assert data[m].0 == x;
      }
      if x in KeysOf(data) {
        var m :| 0 <= m < |data| && data[m].0 == x;
        assert r[m].0 == x;
      }
    }
  }

  /**
   * After a `Generic` revive the subject's own keys are exactly the data's
   * keys, each holding the resolved slug written to it last, and no key
   * appears twice.
   */
  lemma GenericReviveFacts(fields: seq<(string, Value)>, data: seq<(string, Prim)>, view: seq<Value>)
    requires DistinctKeys(fields)
    ensures KeysOf(GenericRevive(fields, data, view)) == KeysOf(data)
    ensures forall k :: Get(GenericRevive(fields, data, view), k) == LastValue(ResolveValues(data, view), k)
    ensures DistinctKeys(GenericRevive(fields, data, view))
    ensures InKeyOrder(fields, IndexKey) ==> InKeyOrder(GenericRevive(fields, data, view), IndexKey)
  {
    var pairs := ResolveValues(data, view);
    ResolveValuesKeys(data, view);
    AssignEachFacts(fields, pairs, IndexKey);
    forall k ensures Get(GenericRevive(fields, data, view), k) == LastValue(pairs, k) {
      KeepKeysGet(AssignEach(fields, pairs, IndexKey), KeysOf(data), k);
    }
    KeepKeysGet(AssignEach(fields, pairs, IndexKey), KeysOf(data), "");
    if InKeyOrder(fields, IndexKey) {
      IndexKeyOneToOne();
      KeepKeysOrder(AssignEach(fields, pairs, IndexKey), KeysOf(data), IndexKey);
    }
  }

  /** Reviving the same data twice leaves the subject as the first revive left it. */
  lemma GenericReviveIdempotent(fields: seq<(string, Value)>, data: seq<(string, Prim)>, view: seq<Value>)
    requires DistinctKeys(fields)
    ensures GenericRevive(GenericRevive(fields, data, view), data, view) == GenericRevive(fields, data, view)
  {
    var r1 := GenericRevive(fields, data, view);
    var pairs := ResolveValues(data, view);
    GenericReviveFacts(fields, data, view);
    ResolveValuesKeys(data, view);
    var a := AssignEach(r1, pairs, IndexKey);
    AssignEachFacts(r1, pairs, IndexKey);
    AssignEachKeepsOrder(r1, pairs, IndexKey);
    forall k ensures Get(a, k) == Get(r1, k) {
    }
    KeyedExt(a, r1);
    assert KeysOf(a) <= KeysOf(data);
  }

  /**
   * Reviving an empty object from duplicate-free data already in key order
   * gives exactly the resolved pairs, in that order.
   */
  lemma GenericReviveFresh(data: seq<(string, Prim)>, view: seq<Value>)
    requires DistinctKeys(data) && InKeyOrder(data, IndexKey)
    ensures GenericRevive([], data, view) == ResolveValues(data, view)
  {
    var pairs := ResolveValues(data, view);
    ResolveValuesKeys(data, view);
    assert DistinctKeys(pairs) by {
      forall i, j | 0 <= i < j < |pairs| ensures pairs[i].0 != pairs[j].0 {
        assert data[i].0 != data[j].0;
      }
    }
    assert InKeyOrder(pairs, IndexKey) by {
      forall i, j | 0 <= i < j < |pairs| && IndexKey(pairs[j].0).Some?
        ensures IndexKey(pairs[i].0).Some? && IndexKey(pairs[i].0).value < IndexKey(pairs[j].0).value
      {
        assert pairs[i].0 == data[i].0 && pairs[j].0 == data[j].0;
      }
    }
    AssignEachFresh(pairs, IndexKey);
  }

  lemma KeysOfSnoc<K, V>(s: seq<(K, V)>, x: (K, V))
    ensures KeysOf(s + [x]) == KeysOf(s) + {x.0}
  {
    var r := s + [x];
    forall k ensures k in KeysOf(r) <==> k in KeysOf(s) + {x.0} {
      if k in KeysOf(r) {
        var m :| 0 <= m < |r| && r[m].0 == k;
        if m < |s| { assert s[m].0 == k; }
      }
      if k in KeysOf(s) {
        var m :| 0 <= m < |s| && s[m].0 == k;
        assert r[m].0 == k;
      }
      if k == x.0 {
        assert r[|s|].0 == k;
      }
    }
  }

  /** Deleting in two rounds keeps what both rounds keep. */
  lemma {:induction false} KeepKeysTwice<K, V>(s: seq<(K, V)>, x: set<K>, y: set<K>)
    ensures KeepKeys(KeepKeys(s, x), y) == KeepKeys(s, x * y)
    decreases |s|
  {
    if s != [] {
      KeepKeysTwice(s[1..], x, y);
      if s[0].0 in x {
        assert ([s[0]] + KeepKeys(s[1..], x))[1..] == KeepKeys(s[1..], x);
      }
    }
  }

  /** Only the keys actually present matter to `KeepKeys`. */
  lemma {:induction false} KeepKeysPresent<K, V>(s: seq<(K, V)>, x: set<K>, y: set<K>)
    requires x * KeysOf(s) == y * KeysOf(s)
    ensures KeepKeys(s, x) == KeepKeys(s, y)
    decreases |s|
  {
    if s != [] {
      assert s[0].0 in KeysOf(s);
      assert KeysOf(s[1..]) <= KeysOf(s) by {
        forall k | k in KeysOf(s[1..]) ensures k in KeysOf(s) {
          var m :| 0 <= m < |s| - 1 && s[1..][m].0 == k;
          assert s[m + 1].0 == k;
        }
      }
      assert x * KeysOf(s[1..]) == y * KeysOf(s[1..]) by {
        forall k | k in KeysOf(s[1..]) ensures k in x <==> k in y {
          assert k in x * KeysOf(s) <==> k in y * KeysOf(s);
        }
      }
      assert s[0].0 in x <==> s[0].0 in y by {
        assert s[0].0 in x * KeysOf(s) <==> s[0].0 in y * KeysOf(s);
      }
      KeepKeysPresent(s[1..], x, y);
    }
  }

  /** One more deletion, for the loop of `DeleteKeys`. */
  lemma DeleteStep<K, V>(s: seq<(K, V)>, gone: set<K>, key: K)
    ensures var r := KeepKeys(s, KeysOf(s) - gone);
      KeepKeys(r, KeysOf(r) - {key}) == KeepKeys(s, KeysOf(s) - (gone + {key}))
  {
    var r := KeepKeys(s, KeysOf(s) - gone);
    KeepKeysTwice(s, KeysOf(s) - gone, KeysOf(r) - {key});
    KeepKeysPresent(s, (KeysOf(s) - gone) * (KeysOf(r) - {key}), KeysOf(s) - (gone + {key}));
  }

  /** `for (const key of keys) delete subject[key]`. */
  method DeleteKeys<K, V>(s: seq<(K, V)>, keys: set<K>) returns (r: seq<(K, V)>)
    ensures r == KeepKeys(s, KeysOf(s) - keys)
  {
    r := s;
    var todo := keys;
    ghost var gone: set<K> := {};
    assert KeepKeys(s, KeysOf(s) - gone) == s;
    while todo != {}
      invariant gone + todo == keys
      invariant r == KeepKeys(s, KeysOf(s) - gone)
      decreases todo
    {
      var key :| key in todo;
      DeleteStep(s, gone, key);
      r := KeepKeys(r, KeysOf(r) - {key});
      gone := gone + {key};
      todo := todo - {key};
    }
  }

  /**
   * The `Generic` revive loop: assign each data key its resolved slug,
   * striking it from the set of previous keys, then delete whatever
   * previous keys remain.
   */
  method ReviveGeneric(fields: seq<(string, Value)>, data: seq<(string, Prim)>, view: seq<Value>)
    returns (r: seq<(string, Value)>)
    ensures r == GenericRevive(fields, data, view)
  {
    var keys := KeysOf(fields);
    r := fields;
    ghost var pairs := ResolveValues(data, view);
    var i := 0;
    while i < |data|
      invariant 0 <= i <= |data|
      invariant r == AssignEach(fields, pairs[..i], IndexKey)
      invariant keys == KeysOf(fields) - KeysOf(data[..i])
    {
      var (key, slug) := data[i];
      GenericStep(fields, data, view, i);
      keys := keys - {key};
      r := Assign(r, key, Resolve(slug, view), IndexKey);
      i := i + 1;
    }
    assert pairs[..i] == pairs;
    assert data[..i] == data;
    r := DeleteKeys(r, keys);
    GenericFinish(fields, data, view, keys);
  }

  /** One write of the `Generic` loop: the data key leaves the previous keys and its resolved slug is assigned. */
  lemma GenericStep(fields: seq<(string, Value)>, data: seq<(string, Prim)>, view: seq<Value>, i: nat)
    requires i < |data|
    ensures KeysOf(data[..i + 1]) == KeysOf(data[..i]) + {data[i].0}
    ensures var pairs := ResolveValues(data, view);
      AssignEach(fields, pairs[..i + 1], IndexKey) == Assign(AssignEach(fields, pairs[..i], IndexKey), data[i].0, Resolve(data[i].1, view), IndexKey)
  {
    assert data[..i + 1] == data[..i] + [data[i]];
    KeysOfSnoc(data[..i], data[i]);
    var pairs := ResolveValues(data, view);
    assert pairs[..i + 1][..i] == pairs[..i];
  }

  /** Deleting the previous keys the data never named, after all writes, gives the `Generic` revive. */
  lemma GenericFinish(fields: seq<(string, Value)>, data: seq<(string, Prim)>, view: seq<Value>, keys: set<string>)
    requires keys == KeysOf(fields) - KeysOf(data)
    ensures var written := AssignEach(fields, ResolveValues(data, view), IndexKey);
      KeepKeys(written, KeysOf(written) - keys) == GenericRevive(fields, data, view)
  {
    var written := AssignEach(fields, ResolveValues(data, view), IndexKey);
    AssignEachFacts(fields, ResolveValues(data, view), IndexKey);
    ResolveValuesKeys(data, view);
    KeepKeysPresent(written, KeysOf(written) - keys, KeysOf(data));
  }

  // ---------------------------------------------------------------------
  // The Array rule
  // ---------------------------------------------------------------------

  /**
   * `Array` revive: index `i` holds the resolved `data[i]` for every
   * `i < |data|`, every other index is deleted, and `length` grows to fit
   * the data but is never reduced.
   */
  function ArrayRevive(items: map<nat, Value>, length: nat, data: seq<Prim>, view: seq<Value>): (r: (map<nat, Value>, nat))
    ensures forall i: nat :: i in r.0 <==> i < |data|
    ensures forall i: nat :: i < |data| ==> r.0[i] == Resolve(data[i], view)
    ensures r.1 >= length && r.1 >= |data| && (r.1 == length || r.1 == |data|)
  {
    (map i: nat | i < |data| :: Resolve(data[i], view), if length < |data| then |data| else length)
  }

  /** Reviving the same data twice leaves the array as the first revive left it. */
  lemma ArrayReviveIdempotent(items: map<nat, Value>, length: nat, data: seq<Prim>, view: seq<Value>)
    ensures var (items1, length1) := ArrayRevive(items, length, data, view);
      ArrayRevive(items1, length1, data, view) == (items1, length1)
  {
  }

  /**
   * The `Array` revive loop: assign each index, which extends `length` when
   * the index is past the end, striking it from the previous keys; then
   * delete the previous keys that remain.
   */
  method ReviveArray(items: map<nat, Value>, length: nat, data: seq<Prim>, view: seq<Value>)
    returns (items': map<nat, Value>, length': nat)
    ensures (items', length') == ArrayRevive(items, length, data, view)
  {
    var keys := items.Keys;
    items', length' := items, length;
    var i := 0;
    while i < |data|
      invariant 0 <= i <= |data|
      invariant forall j: nat :: j in keys <==> j in items && j >= i
      invariant forall j: nat :: j < i ==> j in items' && items'[j] == Resolve(data[j], view)
      invariant forall j: nat :: j in items' <==> j in items || j < i
      invariant length' == if length < i then i else length
    {
      keys := keys - {i};
      items' := items'[i := Resolve(data[i], view)];
      if i >= length' {
        length' := i + 1;
      }
      i := i + 1;
    }
    while keys != {}
      invariant keys <= items.Keys
      invariant forall j: nat :: j < |data| ==> j in items' && items'[j] == Resolve(data[j], view) && j !in keys
      invariant forall j: nat :: j in items' <==> j < |data| || j in keys
      decreases keys
    {
      var key :| key in keys;
      items' := items' - {key};
      keys := keys - {key};
    }
    ghost var expected := ArrayRevive(items, length, data, view).0;
    assert items'.Keys == expected.Keys;
    assert forall j :: j in items' ==> items'[j] == expected[j];
    assert items' == expected;
    assert length' == ArrayRevive(items, length, data, view).1;
  }

  // ---------------------------------------------------------------------
  // The Map and Set rules
  // ---------------------------------------------------------------------

  function ResolvePairs(data: seq<(Prim, Prim)>, view: seq<Value>): (r: seq<(Value, Value)>)
    ensures |r| == |data| && forall i :: 0 <= i < |data| ==> r[i] == (Resolve(data[i].0, view), Resolve(data[i].1, view))
  {
    seq(|data|, i requires 0 <= i < |data| => (Resolve(data[i].0, view), Resolve(data[i].1, view)))
  }

  /** `Map` revive: the map cleared, then every resolved pair `set` in order. */
  function MapRevive(data: seq<(Prim, Prim)>, view: seq<Value>): seq<(Value, Value)> {
    AssignEach([], ResolvePairs(data, view), Unranked)
  }

  /**
   * After a `Map` revive the keys are exactly the resolved keys, each with
   * the value set last, no key twice; when the resolved keys are already
   * distinct, the entries are the resolved pairs in order.
   */
  lemma MapReviveFacts(data: seq<(Prim, Prim)>, view: seq<Value>)
    ensures KeysOf(MapRevive(data, view)) == KeysOf(ResolvePairs(data, view))
    ensures forall k :: Get(MapRevive(data, view), k) == LastValue(ResolvePairs(data, view), k)
    ensures DistinctKeys(MapRevive(data, view))
    ensures DistinctKeys(ResolvePairs(data, view)) ==> MapRevive(data, view) == ResolvePairs(data, view)
  {
    AssignEachFacts([], ResolvePairs(data, view), Unranked);
    if DistinctKeys(ResolvePairs(data, view)) {
      AssignEachFresh(ResolvePairs(data, view), Unranked);
    }
  }

  /** The `Map` revive loop: `clear`, then `set` each resolved pair. */
  method ReviveMap(entries: seq<(Value, Value)>, data: seq<(Prim, Prim)>, view: seq<Value>)
    returns (r: seq<(Value, Value)>)
    ensures r == MapRevive(data, view)
  {
    r := [];
    ghost var pairs := ResolvePairs(data, view);
    var i := 0;
    while i < |data|
      invariant 0 <= i <= |data|
      invariant r == AssignEach([], pairs[..i], Unranked)
    {
      var (a, b) := data[i];
      MapStep(data, view, i);
      r := Assign(r, Resolve(a, view), Resolve(b, view), Unranked);
      i := i + 1;
    }
    assert pairs[..i] == pairs;
  }

  /** One `set` of the `Map` loop assigns the next resolved pair. */
  lemma MapStep(data: seq<(Prim, Prim)>, view: seq<Value>, i: nat)
    requires i < |data|
    ensures var pairs := ResolvePairs(data, view);
      AssignEach([], pairs[..i + 1], Unranked) == Assign(AssignEach([], pairs[..i], Unranked), Resolve(data[i].0, view), Resolve(data[i].1, view), Unranked)
  {
    var pairs := ResolvePairs(data, view);
    assert pairs[..i + 1][..i] == pairs[..i];
  }

  /** `set.add(v)`: a value already present is not added again. */
  function Add(s: seq<Value>, v: Value): (r: seq<Value>)
    ensures forall x :: x in r <==> x in s || x == v
    ensures Distinct(s) ==> Distinct(r)
  {
    if v in s then s else s + [v]
  }

  function AddEach(s: seq<Value>, vals: seq<Value>): seq<Value>
    decreases |vals|
  {
    if vals == [] then s else var n := |vals| - 1; Add(AddEach(s, vals[..n]), vals[n])
  }

  function ResolveAll(data: seq<Prim>, view: seq<Value>): (r: seq<Value>)
    ensures |r| == |data| && forall i :: 0 <= i < |data| ==> r[i] == Resolve(data[i], view)
  {
    seq(|data|, i requires 0 <= i < |data| => Resolve(data[i], view))
  }

  /** `Set` revive: the set cleared, then every resolved element added in order. */
  function SetRevive(data: seq<Prim>, view: seq<Value>): seq<Value> {
    AddEach([], ResolveAll(data, view))
  }

  lemma {:induction false} AddEachFacts(vals: seq<Value>)
    ensures forall x :: x in AddEach([], vals) <==> x in vals
    ensures Distinct(AddEach([], vals))
    ensures Distinct(vals) ==> AddEach([], vals) == vals
    decreases |vals|
  {
    if vals != [] {
      var n := |vals| - 1;
      AddEachFacts(vals[..n]);
      assert vals[..n] + [vals[n]] == vals;
      forall x ensures x in vals <==> x in vals[..n] || x == vals[n] {
        assert x in vals[..n] ==> x in vals;
      }
      if Distinct(vals) {
        assert Distinct(vals[..n]);
        assert vals[n] !in vals[..n];
      }
    }
  }

  /**
   * After a `Set` revive the elements are exactly the resolved slugs, each
   * once; when those are already distinct they appear in data order.
   */
  lemma SetReviveFacts(data: seq<Prim>, view: seq<Value>)
    ensures forall x :: x in SetRevive(data, view) <==> x in ResolveAll(data, view)
    ensures Distinct(SetRevive(data, view))
    ensures Distinct(ResolveAll(data, view)) ==> SetRevive(data, view) == ResolveAll(data, view)
  {
    AddEachFacts(ResolveAll(data, view));
  }

  /** The `Set` revive loop: `clear`, then `add` each resolved slug. */
  method ReviveSet(elems: seq<Value>, data: seq<Prim>, view: seq<Value>) returns (r: seq<Value>)
    ensures r == SetRevive(data, view)
  {
    r := [];
    ghost var vals := ResolveAll(data, view);
    var i := 0;
    while i < |data|
      invariant 0 <= i <= |data|
      invariant r == AddEach([], vals[..i])
    {
      r := Add(r, Resolve(data[i], view));
      assert vals[..i + 1][..i] == vals[..i];
      i := i + 1;
    }
    assert vals[..i] == vals;
  }
}
