/** Python's dictionaries, which keep their keys in insertion order. */
module Dictionaries {
  import opened Wrappers

  predicate Distinct(keys: seq<string>) {
    forall i, j :: 0 <= i < j < |keys| ==> keys[i] != keys[j]
  }

  function Dropped(keys: seq<string>, key: string): (rest: seq<string>) {
    if keys == [] then []
    else (if keys[0] == key then [] else [keys[0]]) + Dropped(keys[1..], key)
  }

  datatype Dict<V> = Dict(order: seq<string>, values: map<string, V>) {
    ghost predicate Valid() {
      Distinct(order) && forall k :: k in order <==> k in values
    }

    function Lookup(key: string): Option<V> {
      if key in values then Some(values[key]) else None
    }

    function Popped(key: string): Dict<V> {
      Dict(Dropped(order, key), values - {key})
    }

    // Assigning to a present key keeps its place
    function Assigned(key: string, value: V): Dict<V> {
      Dict(if key in values then order else order + [key], values[key := value])
    }

    // What a get of the query cache leaves behind
    function Touched(key: string): Dict<V> {
      if key in values then Popped(key).Assigned(key, values[key]) else this
    }

    // What a set of the query cache leaves behind
    function Stored(maxsize: nat, key: string, value: V): Dict<V>
      requires maxsize > 0
    {
      (if |order| >= maxsize then Popped(order[0]) else this).Assigned(key, value)
    }
  }

  lemma {:induction false} DroppedMembers(keys: seq<string>, key: string, k: string)
    ensures k in Dropped(keys, key) <==> k in keys && k != key
  {
    if keys != [] {
      DroppedMembers(keys[1..], key, k);
    }
  }

  lemma {:induction false} DroppedDistinct(keys: seq<string>, key: string)
    requires Distinct(keys)
    ensures Distinct(Dropped(keys, key))
    ensures |Dropped(keys, key)| == if key in keys then |keys| - 1 else |keys|
  {
    if keys != [] {
      DroppedDistinct(keys[1..], key);
      DroppedMembers(keys[1..], key, keys[0]);
      var rest := Dropped(keys[1..], key);
      assert keys[0] !in keys[1..];
      assert Dropped(keys, key) == if keys[0] == key then rest else [keys[0]] + rest;
    }
  }

  lemma {:induction false} DroppedAbsent(keys: seq<string>, key: string)
    requires key !in keys
    ensures Dropped(keys, key) == keys
  {
    if keys != [] {
      DroppedAbsent(keys[1..], key);
    }
  }

  lemma {:induction false} DroppedConcat(a: seq<string>, b: seq<string>, key: string)
    ensures Dropped(a + b, key) == Dropped(a, key) + Dropped(b, key)
  {
    if a == [] {
      assert a + b == b;
    } else {
      DroppedConcat(a[1..], b, key);
      var head := if a[0] == key then [] else [a[0]];
      assert (a + b)[1..] == a[1..] + b;
      assert Dropped(a + b, key) == head + (Dropped(a[1..], key) + Dropped(b, key));
    }
  }

  lemma DroppedFirst(key: string, rest: seq<string>)
    requires key !in rest
    ensures Dropped([key] + rest, key) == rest
  {
    assert ([key] + rest)[1..] == rest;
    DroppedAbsent(rest, key);
  }

  lemma PoppedValid<V>(d: Dict<V>, key: string)
    requires d.Valid() && key in d.values
    ensures d.Popped(key).Valid() && |d.Popped(key).order| == |d.order| - 1
  {
    DroppedDistinct(d.order, key);
    forall k ensures k in d.Popped(key).order <==> k in d.Popped(key).values {
      DroppedMembers(d.order, key, k);
    }
  }

  lemma AssignedValid<V>(d: Dict<V>, key: string, value: V)
    requires d.Valid()
    ensures d.Assigned(key, value).Valid()
    ensures |d.Assigned(key, value).order| == if key in d.values then |d.order| else |d.order| + 1
  {
  }
}
