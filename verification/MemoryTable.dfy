/**
 The memory_records table of agent_workspace/memory_backends.py as the store
 of agent_workspace/long_term_memory.py uses it: its rows, reads and writes.
 */
module MemoryTable {
  import opened Wrappers
  import opened Text

  datatype MemoryRecord = MemoryRecord(
    id: string, sessionId: string, createdAt: string, source: string, sourceHash: string, summary: string,
    keywords: seq<string>, messageCount: int, payload: string, domain: string, confidence: real,
    citations: seq<string>, expiresAt: Option<string>, privacyLevel: string, category: string)

  // A row of the memory_records table
  datatype StoredRow = StoredRow(sessionId: string, key: string, value: MemoryRecord)

  type Backend = seq<StoredRow>

  // What the backend and the query parser compute; search yields None where it raises
  datatype Engine = Engine(
    search: (Backend, string, Option<string>, nat) -> Option<seq<MemoryRecord>>,
    parse: string -> string,
    isVector: bool,
    keywords: string -> seq<string>,
    embed: MemoryRecord -> string)

  /* The table. */

  function RowIndex(b: Backend, sessionId: string, key: string): (i: nat)
    ensures i <= |b|
    ensures i < |b| ==> b[i].sessionId == sessionId && b[i].key == key
    ensures forall j :: 0 <= j < i ==> !(b[j].sessionId == sessionId && b[j].key == key)
  {
    if b == [] || (b[0].sessionId == sessionId && b[0].key == key) then 0 else 1 + RowIndex(b[1..], sessionId, key)
  }

  function Read(b: Backend, sessionId: string, key: string): Option<MemoryRecord> {
    var i := RowIndex(b, sessionId, key);
    if i < |b| then Some(b[i].value) else None
  }

  // INSERT ... ON CONFLICT DO UPDATE
  function Write(b: Backend, sessionId: string, key: string, value: MemoryRecord): Backend {
    var i := RowIndex(b, sessionId, key);
    if i < |b| then b[i := StoredRow(sessionId, key, value)] else b + [StoredRow(sessionId, key, value)]
  }

  // The rows without the one at position i
  function WithoutAt(b: Backend, i: nat): (after: Backend)
    requires i < |b|
    ensures |after| == |b| - 1 && forall j :: 0 <= j < |after| ==> after[j] == b[if j < i then j else j + 1]
  {
    b[..i] + b[i + 1..]
  }

  function Delete(b: Backend, sessionId: string, key: string): Backend {
    var i := RowIndex(b, sessionId, key);
    if i < |b| then WithoutAt(b, i) else b
  }

  predicate Expired(r: MemoryRecord, now: string) {
    r.expiresAt.Some? && r.expiresAt.value != "" && Less(r.expiresAt.value, now)
  }

  function Pruned(b: Backend, rows: seq<StoredRow>, now: string): Backend
    decreases |rows|
  {
    if rows == [] then b
    else
      var r := rows[0].value;
      Pruned(if Expired(r, now) then Delete(b, r.sessionId, r.id) else b, rows[1..], now)
  }

  // The embedding is added to the payload
  function Embedded(e: Engine, r: MemoryRecord): MemoryRecord {
    r.(payload := e.embed(r))
  }

  function Revised(e: Engine, existing: MemoryRecord, key: string, sessionId: string, summary: string, domain: string,
                   category: string, confidence: real, expiresAt: Option<string>, citations: seq<string>): MemoryRecord
  {
    Embedded(e, MemoryRecord(key, sessionId, existing.createdAt, existing.source, existing.sourceHash, summary,
                             e.keywords(summary), existing.messageCount, existing.payload, domain, confidence,
                             citations, expiresAt, "session", category))
  }

  function Moved(r: MemoryRecord, sessionId: string, key: string, category: string): MemoryRecord {
    r.(id := key, sessionId := sessionId, privacyLevel := "session", category := category)
  }

  // What is left of the table after one item
  function MovedOne(b: Backend, item: (string, string), category: string): Backend {
    var existing := if item.0 == "" || item.1 == "" then None else Read(b, item.0, item.1);
    match existing
    case Some(r) => Write(b, item.0, item.1, Moved(r, item.0, item.1, category))
    case None => b
  }

  function MovedAll(b: Backend, items: seq<(string, string)>, category: string): Backend
    decreases |items|
  {
    if items == [] then b else MovedAll(MovedOne(b, items[0], category), items[1..], category)
  }

  // Stored rows named by an item with neither part blank
  function Movable(b: Backend, items: seq<(string, string)>): nat {
    if items == [] then 0
    else
      var (sessionId, key) := items[0];
      (if sessionId != "" && key != "" && Read(b, sessionId, key).Some? then 1 else 0) + Movable(b, items[1..])
  }

  // Which of the items name a stored row, with neither part blank
  function NamedRows(b: Backend, items: seq<(string, string)>): (found: seq<bool>)
    ensures |found| == |items|
    ensures forall i :: 0 <= i < |items| ==>
      found[i] == (items[i].0 != "" && items[i].1 != "" && Read(b, items[i].0, items[i].1).Some?)
  {
    seq(|items|, i requires 0 <= i < |items| =>
                   items[i].0 != "" && items[i].1 != "" && Read(b, items[i].0, items[i].1).Some?)
  }

  lemma {:induction false} MovableCounts(b: Backend, items: seq<(string, string)>)
    ensures Movable(b, items) == multiset(NamedRows(b, items))[true]
  {
    if items != [] {
      MovableCounts(b, items[1..]);
      assert NamedRows(b, items) == [NamedRows(b, items)[0]] + NamedRows(b, items[1..]);
    }
  }

  lemma RewriteKeepsRow(b: Backend, sessionId: string, key: string, value: MemoryRecord, s: string, k: string)
    requires Read(b, sessionId, key).Some?
    ensures RowIndex(Write(b, sessionId, key, value), s, k) == RowIndex(b, s, k)
  {
    var after := Write(b, sessionId, key, value);
    var i, j := RowIndex(b, s, k), RowIndex(after, s, k);
    assert forall n :: 0 <= n < |b| ==> after[n].sessionId == b[n].sessionId && after[n].key == b[n].key;
    assert i == j;
  }

  lemma {:induction false} RewriteKeepsMovable(b: Backend, sessionId: string, key: string, value: MemoryRecord,
                                               items: seq<(string, string)>)
    requires Read(b, sessionId, key).Some?
    ensures Movable(Write(b, sessionId, key, value), items) == Movable(b, items)
  {
    if items != [] {
      RewriteKeepsRow(b, sessionId, key, value, items[0].0, items[0].1);
      RewriteKeepsMovable(b, sessionId, key, value, items[1..]);
    }
  }

  /* Laws of the table. */

  // The primary key
  predicate OneRowEach(b: Backend) {
    forall i, j :: 0 <= i < j < |b| ==> b[i].sessionId != b[j].sessionId || b[i].key != b[j].key
  }

  // Each record is stored under its own session and id
  predicate Keyed(b: Backend) {
    OneRowEach(b) && forall r :: r in b ==> r.value.sessionId == r.sessionId && r.value.id == r.key
  }

  /** A write is read back under its key and leaves every other key alone. */
  lemma ReadAfterWrite(b: Backend, sessionId: string, key: string, value: MemoryRecord, s: string, k: string)
    ensures Read(Write(b, sessionId, key, value), s, k)
         == if s == sessionId && k == key then Some(value) else Read(b, s, k)
  {
    var after := Write(b, sessionId, key, value);
    var i, n := RowIndex(b, sessionId, key), RowIndex(b, s, k);
    if i < |b| {
      RewriteKeepsRow(b, sessionId, key, value, s, k);
    } else {
      assert after[|b|] == StoredRow(sessionId, key, value);
      assert forall j :: 0 <= j < |b| ==> after[j] == b[j];
      assert RowIndex(after, s, k) == if n == |b| && !(s == sessionId && k == key) then |b| + 1 else n;
    }
  }

  // Position i is that of the first row with the key, the end if there is none
  predicate FirstAt(b: Backend, s: string, k: string, i: nat) {
    && i <= |b| && (i < |b| ==> b[i].sessionId == s && b[i].key == k)
    && forall j :: 0 <= j < i ==> b[j].sessionId != s || b[j].key != k
  }

  lemma FirstIsIndex(b: Backend, s: string, k: string, i: nat)
    requires FirstAt(b, s, k, i)
    ensures RowIndex(b, s, k) == i
  {
  }

  lemma FirstWithout(b: Backend, i: nat, s: string, k: string)
    requires OneRowEach(b) && i < |b|
    ensures RowIndex(WithoutAt(b, i), s, k)
         == if b[i].sessionId == s && b[i].key == k then |b| - 1
            else if RowIndex(b, s, k) < i then RowIndex(b, s, k) else RowIndex(b, s, k) - 1
  {
    var n := RowIndex(b, s, k);
    var m := if b[i].sessionId == s && b[i].key == k then |b| - 1 else if n < i then n else n - 1;
    FirstIsIndex(WithoutAt(b, i), s, k, m);
  }

  lemma ReadWithout(b: Backend, i: nat, s: string, k: string)
    requires OneRowEach(b) && i < |b|
    ensures Read(WithoutAt(b, i), s, k) == if b[i].sessionId == s && b[i].key == k then None else Read(b, s, k)
  {
    FirstWithout(b, i, s, k);
  }

  /** A deleted key is gone and every other key is as it was. */
  lemma ReadAfterDelete(b: Backend, sessionId: string, key: string, s: string, k: string)
    requires OneRowEach(b)
    ensures Read(Delete(b, sessionId, key), s, k) == if s == sessionId && k == key then None else Read(b, s, k)
  {
    var i := RowIndex(b, sessionId, key);
    if i < |b| {
      ReadWithout(b, i, s, k);
    }
  }

  lemma DeleteKeepsRows(b: Backend, sessionId: string, key: string, r: StoredRow)
    requires OneRowEach(b)
    ensures OneRowEach(Delete(b, sessionId, key))
    ensures r in Delete(b, sessionId, key) <==> r in b && !(r.sessionId == sessionId && r.key == key)
  {
    var i := RowIndex(b, sessionId, key);
    if i < |b| {
      var after := WithoutAt(b, i);
      if r in b && !(r.sessionId == sessionId && r.key == key) {
        var j :| 0 <= j < |b| && b[j] == r;
        assert after[if j < i then j else j - 1] == r;
      }
    }
  }

  lemma DeleteKeepsKeyed(b: Backend, sessionId: string, key: string)
    requires Keyed(b)
    ensures Keyed(Delete(b, sessionId, key))
  {
    forall r | r in Delete(b, sessionId, key) ensures r.value.sessionId == r.sessionId && r.value.id == r.key {
      DeleteKeepsRows(b, sessionId, key, r);
    }
    DeleteKeepsRows(b, sessionId, key, StoredRow(sessionId, key, Blank()));
  }

  function Blank(): MemoryRecord {
    MemoryRecord("", "", "", "", "", "", [], 0, "", "", 1.0, [], None, "", "")
  }

  lemma WriteKeepsKeyed(b: Backend, value: MemoryRecord)
    requires Keyed(b)
    ensures Keyed(Write(b, value.sessionId, value.id, value))
  {
    var i, after := RowIndex(b, value.sessionId, value.id), Write(b, value.sessionId, value.id, value);
    assert forall j :: 0 <= j < |b| && j != i ==> after[j] == b[j];
    forall r | r in after ensures r.value.sessionId == r.sessionId && r.value.id == r.key {
      var j :| 0 <= j < |after| && after[j] == r;
      assert j != i ==> b[j] in b;
    }
  }

  // An expired record among the rows has the key of this row
  predicate Condemned(rows: seq<StoredRow>, now: string, r: StoredRow) {
    exists i :: 0 <= i < |rows| && Condemns(rows[i].value, now, r)
  }

  predicate Condemns(record: MemoryRecord, now: string, r: StoredRow) {
    Expired(record, now) && record.sessionId == r.sessionId && record.id == r.key
  }

  lemma {:induction false} PrunedRows(b: Backend, rows: seq<StoredRow>, now: string, r: StoredRow)
    requires OneRowEach(b)
    ensures OneRowEach(Pruned(b, rows, now))
    ensures r in Pruned(b, rows, now) <==> r in b && !Condemned(rows, now, r)
    decreases |rows|
  {
    if rows != [] {
      var first, rest := rows[0].value, rows[1..];
      var next := if Expired(first, now) then Delete(b, first.sessionId, first.id) else b;
      DeleteKeepsRows(b, first.sessionId, first.id, r);
      PrunedRows(next, rest, now, r);
      CondemnedFirst(rows, now, r);
    }
  }

  lemma CondemnedFirst(rows: seq<StoredRow>, now: string, r: StoredRow)
    requires rows != []
    ensures Condemned(rows, now, r) <==> Condemns(rows[0].value, now, r) || Condemned(rows[1..], now, r)
  {
    if Condemned(rows[1..], now, r) {
      var i :| 0 <= i < |rows[1..]| && Condemns(rows[1..][i].value, now, r);
      assert Condemns(rows[i + 1].value, now, r);
    }
    if Condemned(rows, now, r) {
      var i :| 0 <= i < |rows| && Condemns(rows[i].value, now, r);
      assert i > 0 ==> rows[1..][i - 1] == rows[i];
    }
  }

  /** Pruning a keyed table removes exactly the expired rows. */
  lemma PrunedExactly(b: Backend, now: string, r: StoredRow)
    requires Keyed(b)
    ensures r in Pruned(b, b, now) <==> r in b && !Expired(r.value, now)
  {
    PrunedRows(b, b, now, r);
    if r in b {
      var n :| 0 <= n < |b| && b[n] == r;
      assert Condemned(b, now, r) <==> Expired(r.value, now) by {
        if Expired(r.value, now) {
          assert Condemns(b[n].value, now, r);
        }
        if Condemned(b, now, r) {
          var i :| 0 <= i < |b| && Condemns(b[i].value, now, r);
          assert b[i] in b;
          assert i == n;
        }
      }
    }
  }

  lemma PruneKeepsKeyed(b: Backend, now: string)
    requires Keyed(b)
    ensures Keyed(Pruned(b, b, now))
  {
    forall r | r in Pruned(b, b, now) ensures r.value.sessionId == r.sessionId && r.value.id == r.key {
      PrunedExactly(b, now, r);
    }
    PrunedRows(b, b, now, StoredRow("", "", Blank()));
  }

  // What a move leaves of the record under a key
  function AfterMove(before: Option<MemoryRecord>, items: seq<(string, string)>, category: string, s: string, k: string):
    Option<MemoryRecord>
  {
    if before.Some? && s != "" && k != "" && (s, k) in items
    then Some(before.value.(id := k, sessionId := s, privacyLevel := "session", category := category))
    else before
  }

  lemma MovedOneExactly(b: Backend, item: (string, string), category: string, s: string, k: string)
    ensures Read(MovedOne(b, item, category), s, k) == AfterMove(Read(b, s, k), [item], category, s, k)
  {
    var existing := if item.0 == "" || item.1 == "" then None else Read(b, item.0, item.1);
    if existing.Some? {
      ReadAfterWrite(b, item.0, item.1, Moved(existing.value, item.0, item.1, category), s, k);
    }
  }

  lemma AfterMoves(before: Option<MemoryRecord>, item: (string, string), rest: seq<(string, string)>, category: string,
                   s: string, k: string)
    ensures AfterMove(AfterMove(before, [item], category, s, k), rest, category, s, k)
         == AfterMove(before, [item] + rest, category, s, k)
  {
  }

  /** A move puts every record found under an item in the new category and leaves all others. */
  lemma {:induction false} MovedExactly(b: Backend, items: seq<(string, string)>, category: string, s: string, k: string)
    ensures Read(MovedAll(b, items, category), s, k) == AfterMove(Read(b, s, k), items, category, s, k)
    decreases |items|
  {
    if items != [] {
      MovedOneExactly(b, items[0], category, s, k);
      MovedExactly(MovedOne(b, items[0], category), items[1..], category, s, k);
      AfterMoves(Read(b, s, k), items[0], items[1..], category, s, k);
      assert items == [items[0]] + items[1..];
    }
  }
}
