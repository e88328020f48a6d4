/**
 FTS5QueryCache of agent_workspace/long_term_memory.py: a dictionary whose
 insertion order is used as recency order.
 */
module QueryCache {
  import opened Wrappers
  import opened Dictionaries

  class FTS5QueryCache<V> {
    const maxsize: nat
    var cache: Dict<V>

    ghost predicate Valid()
      reads this
    {
      maxsize > 0 && cache.Valid() && |cache.order| <= maxsize
    }

    constructor (maxsize: nat)
      requires maxsize > 0
      ensures Valid() && this.maxsize == maxsize && cache == Dict([], map[])
    {
      this.maxsize := maxsize;
      cache := Dict([], map[]);
    }

    method Get(key: string) returns (r: Option<V>)
      requires Valid()
      modifies this`cache
      ensures Valid() && r == old(cache).Lookup(key) && cache == old(cache).Touched(key)
    {
      if key !in cache.values {
        return None;
      }
      var val := cache.values[key];
      PoppedValid(cache, key);
      cache := cache.Popped(key);
      AssignedValid(cache, key, val);
      cache := cache.Assigned(key, val);
      r := Some(val);
    }

    method Set(key: string, value: V)
      requires Valid()
      modifies this`cache
      ensures Valid() && cache == old(cache).Stored(maxsize, key, value)
    {
      if |cache.order| >= maxsize {
        var firstKey := cache.order[0];
        PoppedValid(cache, firstKey);
        cache := cache.Popped(firstKey);
      }
      AssignedValid(cache, key, value);
      cache := cache.Assigned(key, value);
    }

    method Clear()
      requires Valid()
      modifies this`cache
      ensures Valid() && cache == Dict([], map[])
    {
      cache := Dict([], map[]);
    }
  }

  /* Recency. */

  // The distinct keys of a trace of touches, least recently touched first
  function Recency(trace: seq<string>): seq<string> {
    if trace == [] then []
    else
      var key := trace[|trace| - 1];
      Dropped(Recency(trace[..|trace| - 1]), key) + [key]
  }

  function LastOf(keys: seq<string>, n: nat): seq<string> {
    if |keys| <= n then keys else keys[|keys| - n..]
  }

  // The dictionary order is recency order, and the cache holds the last maxsize distinct keys touched
  ghost predicate IsLru<V>(d: Dict<V>, maxsize: nat, trace: seq<string>) {
    d.Valid() && maxsize > 0 && d.order == LastOf(Recency(trace), maxsize)
  }

  lemma {:induction false} RecencyDistinct(trace: seq<string>)
    ensures Distinct(Recency(trace))
  {
    if trace != [] {
      var key, before := trace[|trace| - 1], Recency(trace[..|trace| - 1]);
      RecencyDistinct(trace[..|trace| - 1]);
      DroppedDistinct(before, key);
      DroppedMembers(before, key, key);
    }
  }

  /** Recency lists every key touched, and one key before another exactly when its last touch is earlier. */
  lemma {:induction false} RecencyOrdersByLastTouch(trace: seq<string>, a: string, b: string)
    requires a != b
    ensures a in Recency(trace) <==> a in trace
    ensures LastIndex(Recency(trace), a) < LastIndex(Recency(trace), b) <==> LastIndex(trace, a) < LastIndex(trace, b)
  {
    if trace != [] {
      var key, earlier := trace[|trace| - 1], trace[..|trace| - 1];
      RecencyOrdersByLastTouch(earlier, a, b);
      DroppedMembers(Recency(earlier), key, a);
      DroppedMembers(Recency(earlier), key, b);
      if key == a || key == b {
        LastIndexBound(Dropped(Recency(earlier), key), a);
        LastIndexBound(Dropped(Recency(earlier), key), b);
        LastIndexBound(earlier, a);
        LastIndexBound(earlier, b);
      } else {
        DroppedKeepsOrder(Recency(earlier), key, a, b);
      }
      LastIndexAppend(Dropped(Recency(earlier), key), key, a);
      LastIndexAppend(Dropped(Recency(earlier), key), key, b);
      assert earlier + [key] == trace;
      LastIndexAppend(earlier, key, a);
      LastIndexAppend(earlier, key, b);
    }
  }

  // The last position of a key, -1 if it is absent
  function LastIndex(keys: seq<string>, key: string): int {
    if keys == [] then -1
    else if keys[|keys| - 1] == key then |keys| - 1
    else LastIndex(keys[..|keys| - 1], key)
  }

  lemma {:induction false} LastIndexBound(keys: seq<string>, key: string)
    ensures -1 <= LastIndex(keys, key) < |keys|
    ensures LastIndex(keys, key) >= 0 <==> key in keys
  {
    if keys != [] {
      LastIndexBound(keys[..|keys| - 1], key);
      assert keys == keys[..|keys| - 1] + [keys[|keys| - 1]];
    }
  }

  lemma LastIndexAppend(keys: seq<string>, last: string, key: string)
    ensures LastIndex(keys + [last], key) == if last == key then |keys| else LastIndex(keys, key)
  {
    assert (keys + [last])[..|keys|] == keys;
  }

  lemma {:induction false} DroppedKeepsOrder(keys: seq<string>, key: string, a: string, b: string)
    requires key != a && key != b && a != b
    ensures LastIndex(Dropped(keys, key), a) < LastIndex(Dropped(keys, key), b)
       <==> LastIndex(keys, a) < LastIndex(keys, b)
  {
    if keys != [] {
      var last, init := keys[|keys| - 1], keys[..|keys| - 1];
      DroppedKeepsOrder(init, key, a, b);
      assert keys == init + [last];
      DroppedConcat(init, [last], key);
      assert Dropped([last], key) == if last == key then [] else [last];
      assert Dropped(init, key) + [] == Dropped(init, key);
      LastIndexAppend(Dropped(init, key), last, a);
      LastIndexAppend(Dropped(init, key), last, b);
      LastIndexBound(Dropped(init, key), a);
      LastIndexBound(Dropped(init, key), b);
      LastIndexBound(init, a);
      LastIndexBound(init, b);
    }
  }

  // The early keys of an order and its last n
  ghost predicate Parts(early: seq<string>, last: seq<string>, n: nat) {
    |last| == n || (|last| <= n && early == [])
  }

  lemma LastOfParts(order: seq<string>, n: nat) returns (early: seq<string>, last: seq<string>)
    ensures order == early + last && Parts(early, last, n) && last == LastOf(order, n)
  {
    last := LastOf(order, n);
    early := order[..|order| - |last|];
  }

  lemma LastOfConcat(early: seq<string>, last: seq<string>, n: nat)
    requires Parts(early, last, n)
    ensures LastOf(early + last, n) == last
  {
    assert (early + last)[|early|..] == last;
  }

  lemma Apart(early: seq<string>, last: seq<string>, key: string)
    requires Distinct(early + last) && key in last
    ensures key !in early && Distinct(last)
  {
    var j :| 0 <= j < |last| && last[j] == key;
    assert (early + last)[|early| + j] == key;
    assert forall i :: 0 <= i < |early| ==> (early + last)[i] == early[i];
    assert forall i :: 0 <= i < |last| ==> (early + last)[|early| + i] == last[i];
  }

  // Touching a key that is among the last n of the order
  lemma TouchRecent(early: seq<string>, last: seq<string>, n: nat, key: string)
    requires Distinct(early + last) && Parts(early, last, n) && key in last
    ensures LastOf(Dropped(early + last, key) + [key], n) == Dropped(last, key) + [key]
  {
    Apart(early, last, key);
    DroppedConcat(early, last, key);
    DroppedAbsent(early, key);
    DroppedDistinct(last, key);
    var touched := Dropped(last, key) + [key];
    assert early + Dropped(last, key) + [key] == early + touched;
    LastOfConcat(early, touched, n);
  }

  lemma EvictedOldest(early: seq<string>, oldest: string, rest: seq<string>, n: nat, key: string)
    requires |rest| + 1 == n
    ensures LastOf(early + ([oldest] + rest) + [key], n) == rest + [key]
  {
    assert early + ([oldest] + rest) + [key] == (early + [oldest]) + (rest + [key]);
    LastOfConcat(early + [oldest], rest + [key], n);
  }

  // Touching a key that is not, with the last n full or not
  lemma TouchEvicts(early: seq<string>, oldest: string, rest: seq<string>, n: nat, key: string)
    requires |rest| + 1 == n && key != oldest && key !in rest
    ensures LastOf(Dropped(early + ([oldest] + rest), key) + [key], n) == rest + [key]
  {
    DroppedConcat(early, [oldest] + rest, key);
    DroppedAbsent([oldest] + rest, key);
    EvictedOldest(Dropped(early, key), oldest, rest, n, key);
  }

  lemma TouchOther(early: seq<string>, last: seq<string>, n: nat, key: string)
    requires n > 0 && Parts(early, last, n) && key !in last
    ensures LastOf(Dropped(early + last, key) + [key], n) == (if |last| >= n then last[1..] else last) + [key]
  {
    if |last| >= n {
      assert last == [last[0]] + last[1..];
      TouchEvicts(early, last[0], last[1..], n, key);
    } else {
      assert early + last == last;
      DroppedAbsent(last, key);
    }
  }

  lemma RecencyAfter(trace: seq<string>, key: string)
    ensures Recency(trace + [key]) == Dropped(Recency(trace), key) + [key]
  {
    assert (trace + [key])[..|trace|] == trace;
  }

  lemma TouchedOrder<V>(d: Dict<V>, key: string)
    requires d.Valid() && key in d.values
    ensures d.Touched(key).Valid() && d.Touched(key).order == Dropped(d.order, key) + [key]
  {
    PoppedValid(d, key);
    AssignedValid(d.Popped(key), key, d.values[key]);
  }

  // The keys that survive making room
  function Kept(order: seq<string>, maxsize: nat): seq<string>
    requires maxsize > 0
  {
    if |order| >= maxsize then order[1..] else order
  }

  function WithKey(order: seq<string>, key: string): seq<string> {
    if key in order then order else order + [key]
  }

  lemma MakeRoom<V>(d: Dict<V>, key: string)
    requires d.Valid() && d.order != []
    ensures d.Popped(d.order[0]).Valid() && d.Popped(d.order[0]).order == d.order[1..]
  {
    PoppedValid(d, d.order[0]);
    assert d.order == [d.order[0]] + d.order[1..];
    DroppedFirst(d.order[0], d.order[1..]);
  }

  lemma StoredOrder<V>(d: Dict<V>, maxsize: nat, key: string, value: V)
    requires d.Valid() && maxsize > 0
    ensures d.Stored(maxsize, key, value).Valid()
    ensures d.Stored(maxsize, key, value).order == WithKey(Kept(d.order, maxsize), key)
  {
    if |d.order| >= maxsize {
      MakeRoom(d, key);
      AssignedValid(d.Popped(d.order[0]), key, value);
    } else {
      AssignedValid(d, key, value);
    }
  }

  /** A hit makes its key the most recent and evicts nothing. */
  lemma HitKeepsLru<V>(d: Dict<V>, maxsize: nat, trace: seq<string>, key: string)
    requires IsLru(d, maxsize, trace) && key in d.values
    ensures IsLru(d.Touched(key), maxsize, trace + [key])
  {
    RecencyDistinct(trace);
    RecencyAfter(trace, key);
    var early, last := LastOfParts(Recency(trace), maxsize);
    TouchRecent(early, last, maxsize, key);
    TouchedOrder(d, key);
  }

  /** Storing a missing key evicts exactly the least recently touched key of a full cache. */
  lemma MissKeepsLru<V>(d: Dict<V>, maxsize: nat, trace: seq<string>, key: string, value: V)
    requires IsLru(d, maxsize, trace) && key !in d.values
    ensures IsLru(d.Stored(maxsize, key, value), maxsize, trace + [key])
  {
    RecencyAfter(trace, key);
    var early, last := LastOfParts(Recency(trace), maxsize);
    TouchOther(early, last, maxsize, key);
    StoredOrder(d, maxsize, key, value);
  }

  lemma TouchOldest(order: seq<string>, key: string)
    requires Distinct(order) && order != [] && order[0] == key
    ensures Dropped(order, key) + [key] == order[1..] + [key]
  {
    assert order == [key] + order[1..];
    DroppedFirst(key, order[1..]);
  }

  lemma TouchNewest(order: seq<string>, key: string)
    requires Distinct(order) && order != [] && order[|order| - 1] == key
    ensures Dropped(order, key) + [key] == order
  {
    var init := order[..|order| - 1];
    assert order == init + [key];
    DroppedConcat(init, [key], key);
    DroppedAbsent(init, key);
    assert Dropped([key], key) == [];
    assert init + [] == init;
  }

  lemma OldestAlone(order: seq<string>)
    requires Distinct(order) && order != []
    ensures order[0] !in order[1..]
    ensures forall k :: k in order && k != order[0] ==> k in order[1..]
  {
    assert order == [order[0]] + order[1..];
  }

  // What storing does with a present key, against what recency calls for
  lemma PresentStored(order: seq<string>, maxsize: nat, key: string)
    requires Distinct(order) && key in order && maxsize > 0
    ensures WithKey(Kept(order, maxsize), key) == Dropped(order, key) + [key]
       <==> if |order| >= maxsize then order[0] == key else order[|order| - 1] == key
  {
    DroppedDistinct(order, key);
    OldestAlone(order);
    if order[0] == key {
      TouchOldest(order, key);
    }
    if order[|order| - 1] == key {
      TouchNewest(order, key);
    }
  }

  lemma RecentOrder<V>(d: Dict<V>, maxsize: nat, trace: seq<string>, key: string)
    requires IsLru(d, maxsize, trace) && key in d.values
    ensures LastOf(Recency(trace + [key]), maxsize) == Dropped(d.order, key) + [key]
  {
    RecencyDistinct(trace);
    RecencyAfter(trace, key);
    var early, last := LastOfParts(Recency(trace), maxsize);
    TouchRecent(early, last, maxsize, key);
  }

  /** Storing a present key keeps recency order only if the cache is full and the key its oldest, or not
      full and the key its newest. */
  lemma StorePresentLruExactly<V>(d: Dict<V>, maxsize: nat, trace: seq<string>, key: string, value: V)
    requires IsLru(d, maxsize, trace) && key in d.values
    ensures IsLru(d.Stored(maxsize, key, value), maxsize, trace + [key])
       <==> if |d.order| >= maxsize then d.order[0] == key else d.order[|d.order| - 1] == key
  {
    RecentOrder(d, maxsize, trace, key);
    StoredOrder(d, maxsize, key, value);
    PresentStored(d.order, maxsize, key);
  }
}
