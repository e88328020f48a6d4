/** Python's stable sort by a text key, and dictionaries rebuilt from sorted values. */
module Sorting {
  import opened Text
  import opened Dictionaries
  import opened Wrappers

  function Insert<T>(x: T, xs: seq<T>, key: T -> string): seq<T> {
    if xs == [] || Leq(key(x), key(xs[0])) then [x] + xs else [xs[0]] + Insert(x, xs[1..], key)
  }

  function Sort<T>(xs: seq<T>, key: T -> string): seq<T> {
    if xs == [] then [] else Insert(xs[0], Sort(xs[1..], key), key)
  }

  ghost predicate Ascending<T>(xs: seq<T>, key: T -> string) {
    forall i, j :: 0 <= i < j < |xs| ==> Leq(key(xs[i]), key(xs[j]))
  }

  ghost predicate AllAbove<T>(xs: seq<T>, key: T -> string, low: string) {
    forall x :: x in xs ==> Leq(low, key(x))
  }

  lemma LeqTransitive(a: string, b: string, c: string)
    requires Leq(a, b) && Leq(b, c)
    ensures Leq(a, c)
  {
    if a != b && b != c {
      LessTransitive(a, b, c);
    }
  }

  lemma {:induction false} InsertMember<T>(x: T, xs: seq<T>, key: T -> string, y: T)
    ensures y in Insert(x, xs, key) <==> y == x || y in xs
  {
    if xs != [] && !Leq(key(x), key(xs[0])) {
      InsertMember(x, xs[1..], key, y);
      assert xs == [xs[0]] + xs[1..];
    }
  }

  lemma {:induction false} SortMember<T>(xs: seq<T>, key: T -> string, y: T)
    ensures y in Sort(xs, key) <==> y in xs
  {
    if xs != [] {
      SortMember(xs[1..], key, y);
      InsertMember(xs[0], Sort(xs[1..], key), key, y);
      assert xs == [xs[0]] + xs[1..];
    }
  }

  lemma {:induction false} SortLength<T>(xs: seq<T>, key: T -> string)
    ensures |Sort(xs, key)| == |xs|
  {
    if xs != [] {
      SortLength(xs[1..], key);
      InsertLength(xs[0], Sort(xs[1..], key), key);
    }
  }

  lemma {:induction false} InsertLength<T>(x: T, xs: seq<T>, key: T -> string)
    ensures |Insert(x, xs, key)| == |xs| + 1
  {
    if xs != [] && !Leq(key(x), key(xs[0])) {
      InsertLength(x, xs[1..], key);
    }
  }

  lemma FirstAscends<T>(x: T, xs: seq<T>, key: T -> string)
    requires Ascending(xs, key) && AllAbove(xs, key, key(x))
    ensures Ascending([x] + xs, key)
  {
    var all := [x] + xs;
    forall i, j | 0 <= i < j < |all| ensures Leq(key(all[i]), key(all[j])) {
      assert all[j] == xs[j - 1];
      if i > 0 {
        assert all[i] == xs[i - 1];
      }
    }
  }

  lemma HeadBelow<T>(xs: seq<T>, key: T -> string, low: string)
    requires Ascending(xs, key) && xs != [] && Leq(low, key(xs[0]))
    ensures AllAbove(xs, key, low)
  {
    forall x | x in xs ensures Leq(low, key(x)) {
      var i :| 0 <= i < |xs| && xs[i] == x;
      if i > 0 {
        LeqTransitive(low, key(xs[0]), key(x));
      }
    }
  }

  lemma {:induction false} InsertAscends<T>(x: T, xs: seq<T>, key: T -> string, low: string)
    requires Ascending(xs, key) && AllAbove(xs, key, low) && Leq(low, key(x))
    ensures Ascending(Insert(x, xs, key), key) && AllAbove(Insert(x, xs, key), key, low)
  {
    if xs == [] {
    } else if Leq(key(x), key(xs[0])) {
      HeadBelow(xs, key, key(x));
      FirstAscends(x, xs, key);
    } else {
      LessTrichotomy(key(x), key(xs[0]));
      HeadBelow(xs, key, key(xs[0]));
      InsertAscends(x, xs[1..], key, key(xs[0]));
      FirstAscends(xs[0], Insert(x, xs[1..], key), key);
      forall y | y in Insert(x, xs, key) ensures Leq(low, key(y)) {
        InsertMember(x, xs, key, y);
      }
    }
  }

  lemma {:induction false} SortAscends<T>(xs: seq<T>, key: T -> string)
    ensures Ascending(Sort(xs, key), key)
  {
    if xs != [] {
      SortAscends(xs[1..], key);
      assert Leq("", key(xs[0])) && AllAbove(Sort(xs[1..], key), key, "");
      InsertAscends(xs[0], Sort(xs[1..], key), key, "");
    }
  }

  /** Sorting what is sorted changes nothing, ties included. */
  lemma {:induction false} SortKeepsAscending<T>(xs: seq<T>, key: T -> string)
    requires Ascending(xs, key)
    ensures Sort(xs, key) == xs
  {
    if xs != [] {
      SortKeepsAscending(xs[1..], key);
      assert xs == [xs[0]] + xs[1..];
    }
  }

  lemma SortTwice<T>(xs: seq<T>, key: T -> string)
    ensures Sort(Sort(xs, key), key) == Sort(xs, key)
  {
    SortAscends(xs, key);
    SortKeepsAscending(Sort(xs, key), key);
  }

  // The values of one key, in order
  function OfKey<T>(xs: seq<T>, key: T -> string, k: string): seq<T> {
    if xs == [] then [] else (if key(xs[0]) == k then [xs[0]] else []) + OfKey(xs[1..], key, k)
  }

  lemma OfKeyFirst<T>(x: T, xs: seq<T>, key: T -> string, k: string)
    ensures OfKey([x] + xs, key, k) == (if key(x) == k then [x] else []) + OfKey(xs, key, k)
  {
    assert ([x] + xs)[1..] == xs;
  }

  lemma {:induction false} InsertIsStable<T>(x: T, xs: seq<T>, key: T -> string, k: string)
    ensures OfKey(Insert(x, xs, key), key, k) == (if key(x) == k then [x] else []) + OfKey(xs, key, k)
  {
    OfKeyFirst(x, xs, key, k);
    if xs != [] && !Leq(key(x), key(xs[0])) {
      InsertIsStable(x, xs[1..], key, k);
      OfKeyFirst(xs[0], Insert(x, xs[1..], key), key, k);
    }
  }

  /** Values of one key keep their order, and none is lost. */
  lemma {:induction false} SortIsStable<T>(xs: seq<T>, key: T -> string, k: string)
    ensures OfKey(Sort(xs, key), key, k) == OfKey(xs, key, k)
  {
    if xs != [] {
      SortIsStable(xs[1..], key, k);
      InsertIsStable(xs[0], Sort(xs[1..], key), key, k);
    }
  }

  lemma {:induction false} InsertCommutes<T>(x: T, y: T, xs: seq<T>, key: T -> string)
    requires key(x) != key(y)
    ensures Insert(x, Insert(y, xs, key), key) == Insert(y, Insert(x, xs, key), key)
  {
    LessTrichotomy(key(x), key(y));
    if xs != [] {
      var head := xs[0];
      if !Leq(key(x), key(head)) && !Leq(key(y), key(head)) {
        InsertCommutes(x, y, xs[1..], key);
      } else if Leq(key(x), key(head)) && !Leq(key(y), key(head)) {
        if Leq(key(y), key(x)) {
          LeqTransitive(key(y), key(x), key(head));
        }
      } else if Leq(key(y), key(head)) && !Leq(key(x), key(head)) {
        if Leq(key(x), key(y)) {
          LeqTransitive(key(x), key(y), key(head));
        }
      }
    }
  }

  /* Dictionaries. */

  function ValuesIn<V>(order: seq<string>, m: map<string, V>): (vs: seq<V>)
    requires forall k :: k in order ==> k in m
    ensures |vs| == |order| && forall i :: 0 <= i < |order| ==> vs[i] == m[order[i]]
  {
    if order == [] then [] else [m[order[0]]] + ValuesIn(order[1..], m)
  }

  // The values of a dictionary in insertion order
  function Values<V>(d: Dict<V>): seq<V>
    requires d.Valid()
  {
    ValuesIn(d.order, d.values)
  }

  ghost predicate DistinctKeys<V>(m: map<string, V>, key: V -> string) {
    forall j, k :: j in m && k in m && j != k ==> key(m[j]) != key(m[k])
  }

  // Moving a key to the front does not show after sorting by distinct keys
  lemma {:induction false} SortFrontKey<V>(order: seq<string>, m: map<string, V>, key: V -> string, k: string)
    requires Distinct(order) && k in order && (forall j :: j in order ==> j in m) && DistinctKeys(m, key)
    requires forall j :: j in Dropped(order, k) ==> j in m
    ensures Sort(ValuesIn(order, m), key) == Insert(m[k], Sort(ValuesIn(Dropped(order, k), m), key), key)
  {
    var first, rest := order[0], order[1..];
    assert order == [first] + rest;
    assert ValuesIn(order, m)[1..] == ValuesIn(rest, m);
    if first == k {
      DroppedFirst(k, rest);
    } else {
      DistinctTail(order);
      DropKeepsIn(rest, k);
      SortFrontKey(rest, m, key, k);
      assert Dropped(order, k) == [first] + Dropped(rest, k);
      assert ValuesIn(Dropped(order, k), m)[1..] == ValuesIn(Dropped(rest, k), m);
      InsertCommutes(m[first], m[k], Sort(ValuesIn(Dropped(rest, k), m), key), key);
    }
  }

  lemma DistinctTail(order: seq<string>)
    requires Distinct(order) && order != []
    ensures Distinct(order[1..]) && order[0] !in order[1..]
  {
  }

  lemma DropKeepsIn(order: seq<string>, k: string)
    ensures forall j :: j in Dropped(order, k) <==> j in order && j != k
  {
    forall j ensures j in Dropped(order, k) <==> j in order && j != k {
      DroppedMembers(order, k, j);
    }
  }

  /** Sorted by distinct keys, the values come in one order however they were inserted. */
  lemma {:induction false} SortForgetsOrder<V>(a: seq<string>, b: seq<string>, m: map<string, V>, key: V -> string)
    requires Distinct(a) && Distinct(b) && (forall k :: k in a <==> k in b) && (forall k :: k in a ==> k in m)
    requires DistinctKeys(m, key)
    ensures Sort(ValuesIn(a, m), key) == Sort(ValuesIn(b, m), key)
  {
    if a == [] {
      assert forall k :: k !in b;
    } else {
      DropKeepsIn(b, a[0]);
      DroppedDistinct(b, a[0]);
      DistinctTail(a);
      assert a == [a[0]] + a[1..];
      SortForgetsOrder(a[1..], Dropped(b, a[0]), m, key);
      SortFrontKey(b, m, key, a[0]);
      assert ValuesIn(a, m)[1..] == ValuesIn(a[1..], m);
    }
  }

  // Each value assigned to its own key
  function Loaded<V>(d: Dict<V>, vs: seq<V>, idOf: V -> string): Dict<V>
    decreases |vs|
  {
    if vs == [] then d else Loaded(d.Assigned(idOf(vs[0]), vs[0]), vs[1..], idOf)
  }

  ghost predicate DistinctIds<V>(vs: seq<V>, idOf: V -> string) {
    forall i, j :: 0 <= i < j < |vs| ==> idOf(vs[i]) != idOf(vs[j])
  }

  // The id is that of no value
  ghost predicate NewId<V>(vs: seq<V>, idOf: V -> string, id: string) {
    forall v :: v in vs ==> idOf(v) != id
  }

  lemma NewIdFirst<V>(x: V, vs: seq<V>, idOf: V -> string)
    requires DistinctIds(vs, idOf) && NewId(vs, idOf, idOf(x))
    ensures DistinctIds([x] + vs, idOf)
  {
  }

  lemma DistinctIdsTail<V>(vs: seq<V>, idOf: V -> string)
    requires DistinctIds(vs, idOf) && vs != []
    ensures DistinctIds(vs[1..], idOf) && NewId(vs[1..], idOf, idOf(vs[0]))
  {
    forall v | v in vs[1..] ensures idOf(v) != idOf(vs[0]) {
      var i :| 0 <= i < |vs| - 1 && vs[1..][i] == v;
      assert vs[i + 1] == v;
    }
  }

  lemma {:induction false} InsertKeepsDistinct<V>(x: V, vs: seq<V>, key: V -> string, idOf: V -> string)
    requires DistinctIds(vs, idOf) && NewId(vs, idOf, idOf(x))
    ensures DistinctIds(Insert(x, vs, key), idOf)
  {
    if vs == [] || Leq(key(x), key(vs[0])) {
      NewIdFirst(x, vs, idOf);
    } else {
      DistinctIdsTail(vs, idOf);
      InsertKeepsDistinct(x, vs[1..], key, idOf);
      forall v | v in Insert(x, vs[1..], key) ensures idOf(v) != idOf(vs[0]) {
        InsertMember(x, vs[1..], key, v);
      }
      NewIdFirst(vs[0], Insert(x, vs[1..], key), idOf);
    }
  }

  lemma {:induction false} SortKeepsDistinct<V>(vs: seq<V>, key: V -> string, idOf: V -> string)
    requires DistinctIds(vs, idOf)
    ensures DistinctIds(Sort(vs, key), idOf)
  {
    if vs != [] {
      DistinctIdsTail(vs, idOf);
      SortKeepsDistinct(vs[1..], key, idOf);
      forall v | v in Sort(vs[1..], key) ensures idOf(v) != idOf(vs[0]) {
        SortMember(vs[1..], key, v);
      }
      InsertKeepsDistinct(vs[0], Sort(vs[1..], key), key, idOf);
    }
  }

  // One more value under a new key
  lemma AssignedNew<V>(d: Dict<V>, id: string, v: V)
    requires d.Valid() && id !in d.values
    ensures d.Assigned(id, v).Valid() && Values(d.Assigned(id, v)) == Values(d) + [v]
    ensures d.Assigned(id, v).values == d.values[id := v]
  {
    AssignedValid(d, id, v);
  }

  ghost predicate AllNew<V>(d: Dict<V>, vs: seq<V>, idOf: V -> string) {
    forall v :: v in vs ==> idOf(v) !in d.values
  }

  lemma AllNewAfterFirst<V>(d: Dict<V>, vs: seq<V>, idOf: V -> string)
    requires AllNew(d, vs, idOf) && DistinctIds(vs, idOf) && vs != []
    ensures AllNew(d.Assigned(idOf(vs[0]), vs[0]), vs[1..], idOf) && idOf(vs[0]) !in d.values
  {
    DistinctIdsTail(vs, idOf);
    assert forall v :: v in vs[1..] ==> v in vs;
  }

  lemma FirstThenRest<V>(a: seq<V>, vs: seq<V>)
    requires vs != []
    ensures a + [vs[0]] + vs[1..] == a + vs
  {
  }

  lemma {:induction false} LoadedDistinct<V>(d: Dict<V>, vs: seq<V>, idOf: V -> string)
    requires d.Valid() && DistinctIds(vs, idOf) && AllNew(d, vs, idOf)
    ensures Loaded(d, vs, idOf).Valid() && Values(Loaded(d, vs, idOf)) == Values(d) + vs
    decreases |vs|
  {
    if vs == [] {
      assert Values(d) + vs == Values(d);
    } else {
      DistinctIdsTail(vs, idOf);
      AllNewAfterFirst(d, vs, idOf);
      AssignedNew(d, idOf(vs[0]), vs[0]);
      LoadedDistinct(d.Assigned(idOf(vs[0]), vs[0]), vs[1..], idOf);
      FirstThenRest(Values(d), vs);
    }
  }

  // What a load leaves under a key
  lemma {:induction false} LoadedLookup<V>(d: Dict<V>, vs: seq<V>, idOf: V -> string, k: string)
    requires DistinctIds(vs, idOf)
    ensures NewId(vs, idOf, k) ==> Loaded(d, vs, idOf).Lookup(k) == d.Lookup(k)
    ensures forall i :: 0 <= i < |vs| && idOf(vs[i]) == k ==> Loaded(d, vs, idOf).Lookup(k) == Some(vs[i])
    decreases |vs|
  {
    if vs != [] {
      DistinctIdsTail(vs, idOf);
      LoadedLookup(d.Assigned(idOf(vs[0]), vs[0]), vs[1..], idOf, k);
      assert forall i :: 1 <= i < |vs| ==> vs[i] == vs[1..][i - 1];
    }
  }

  /** A dictionary whose values know their keys comes back from its sorted values with the same entries, and
      in sorted order. */
  lemma LoadSorted<V>(d: Dict<V>, key: V -> string, idOf: V -> string)
    requires d.Valid() && KnowKeys(d, idOf)
    ensures Loaded(Dict([], map[]), Sort(Values(d), key), idOf).Valid()
    ensures Loaded(Dict([], map[]), Sort(Values(d), key), idOf).values == d.values
    ensures Values(Loaded(Dict([], map[]), Sort(Values(d), key), idOf)) == Sort(Values(d), key)
  {
    var sorted := Sort(Values(d), key);
    var empty: Dict<V> := Dict([], map[]);
    ValuesDistinct(d, idOf);
    SortKeepsDistinct(Values(d), key, idOf);
    LoadedDistinct(empty, sorted, idOf);
    assert Values(empty) + sorted == sorted;
    forall k ensures Loaded(empty, sorted, idOf).Lookup(k) == d.Lookup(k) {
      LoadedLookup(empty, sorted, idOf, k);
      SortedHas(d, key, idOf, k);
    }
    SameLookups(Loaded(empty, sorted, idOf), d);
  }

  ghost predicate KnowKeys<V>(d: Dict<V>, idOf: V -> string) {
    forall k :: k in d.values ==> idOf(d.values[k]) == k
  }

  lemma ValuesDistinct<V>(d: Dict<V>, idOf: V -> string)
    requires d.Valid() && KnowKeys(d, idOf)
    ensures DistinctIds(Values(d), idOf)
  {
    assert forall i :: 0 <= i < |d.order| ==> d.order[i] in d.values && idOf(Values(d)[i]) == d.order[i];
  }

  lemma SortedHas<V>(d: Dict<V>, key: V -> string, idOf: V -> string, k: string)
    requires d.Valid() && KnowKeys(d, idOf)
    ensures k in d.values ==> exists i :: 0 <= i < |d.order| && i < |Sort(Values(d), key)| && Sort(Values(d), key)[i] == d.values[k]
    ensures k !in d.values ==> NewId(Sort(Values(d), key), idOf, k)
  {
    SortLength(Values(d), key);
    if k in d.values {
      assert k in d.order;
      var i :| 0 <= i < |d.order| && d.order[i] == k;
      assert Values(d)[i] == d.values[k];
      SortMember(Values(d), key, d.values[k]);
    } else {
      forall v | v in Sort(Values(d), key) ensures idOf(v) != k {
        SortMember(Values(d), key, v);
        var i :| 0 <= i < |d.order| && Values(d)[i] == v;
        assert d.order[i] in d.values;
      }
    }
  }

  lemma SameLookups<V>(a: Dict<V>, b: Dict<V>)
    requires forall k :: a.Lookup(k) == b.Lookup(k)
    ensures a.values == b.values
  {
    forall k ensures (k in a.values <==> k in b.values) && (k in a.values ==> a.values[k] == b.values[k]) {
      assert a.Lookup(k) == b.Lookup(k);
    }
  }
}
