/**
 The ledger table and its operations.  The table is the sequence of its rows
 in id order, which is what every query of the ledger asks for.
 */
module AuditLedger {
  import opened Wrappers
  import opened Hashing
  import opened MerkleTree
  import opened MerkleProofs
  import opened AuditChain

  const DEFAULT_TENANT := "default_tenant"

  predicate SortedById(rows: seq<Row>) {
    forall i, j :: 0 <= i < j < |rows| ==> rows[i].id < rows[j].id
  }

  // AUTOINCREMENT without deletions
  function NextId(rows: seq<Row>): (id: int)
    requires SortedById(rows)
    ensures id >= 1 && forall i :: 0 <= i < |rows| ==> rows[i].id < id
  {
    if rows == [] || rows[|rows| - 1].id < 0 then 1 else rows[|rows| - 1].id + 1
  }

  function NewRow(c: Codec, rows: seq<Row>, eventType: string, payload: string, timestamp: string, tenantId: string): Row
    requires SortedById(rows)
  {
    var previousHash := PrevHash(rows, |rows|);
    Row(NextId(rows), eventType, payload, previousHash,
        c.sha256(previousHash + payload + timestamp), timestamp, tenantId)
  }

  datatype Event = Event(eventType: string, payload: map<string, Json>, timestamp: string, tenantId: string)

  // The row says what was recorded, and its seal covers payload and time
  predicate HoldsEvent(c: Codec, r: Row, e: Event) {
    && r.eventType == e.eventType && r.timestamp == e.timestamp && r.tenantId == e.tenantId
    && r.payload == c.dumps(Object(e.payload))
    && r.currentHash == c.sha256(r.previousHash + r.payload + r.timestamp)
  }

  // The table has one row more, which holds the event and continues the last hash, or 64 zeros
  predicate Appends(c: Codec, before: seq<Row>, after: seq<Row>, e: Event) {
    && |after| == |before| + 1 && after[..|before|] == before
    && HoldsEvent(c, after[|before|], e)
    && after[|before|].previousHash == if before == [] then ZeroHash() else before[|before| - 1].currentHash
  }

  function Recorded(c: Codec, rows: seq<Row>, eventType: string, payload: Json, timestamp: string, tenantId: string): (after: seq<Row>)
    requires SortedById(rows)
    ensures SortedById(after)
  {
    rows + [NewRow(c, rows, eventType, c.dumps(payload), timestamp, tenantId)]
  }

  lemma RecordedAppends(c: Codec, rows: seq<Row>, e: Event)
    requires SortedById(rows)
    ensures Appends(c, rows, Recorded(c, rows, e.eventType, Object(e.payload), e.timestamp, e.tenantId), e)
  {
  }

  // The number of rows before a given id
  function Position(rows: seq<Row>, id: int): (n: nat)
    requires SortedById(rows)
    ensures n <= |rows|
    ensures forall i :: 0 <= i < |rows| ==> (rows[i].id < id <==> i < n)
    decreases |rows|
  {
    if rows != [] && rows[|rows| - 1].id >= id then Position(rows[..|rows| - 1], id) else |rows|
  }

  // INSERT OR REPLACE
  function Upsert(rows: seq<Row>, r: Row): (after: seq<Row>)
    requires SortedById(rows)
    ensures SortedById(after)
  {
    var n := Position(rows, r.id);
    rows[..n] + [r] + rows[if n < |rows| && rows[n].id == r.id then n + 1 else n..]
  }

  lemma InParts(rows: seq<Row>, n: nat, x: Row)
    requires n <= |rows|
    ensures x in rows <==> x in rows[..n] || x in rows[n..]
  {
    assert rows == rows[..n] + rows[n..];
  }

  /** Afterwards the id maps to the new row and every other id to what it mapped to before. */
  lemma UpsertContents(rows: seq<Row>, r: Row, x: Row)
    requires SortedById(rows)
    ensures x in Upsert(rows, r) <==> x == r || (x in rows && x.id != r.id)
  {
    var n := Position(rows, r.id);
    var m := if n < |rows| && rows[n].id == r.id then n + 1 else n;
    InParts(rows, n, x);
    InParts(rows, m, x);
    assert x in rows[..n] ==> x.id < r.id;
    assert x in rows[m..] ==> x.id > r.id;
    assert x in rows[n..] && x.id != r.id ==> x in rows[m..] by {
      if m == n + 1 {
        assert rows[n..] == [rows[n]] + rows[m..];
      }
    }
  }

  function UpsertAll(rows: seq<Row>, batch: seq<Row>): (after: seq<Row>)
    requires SortedById(rows)
    ensures SortedById(after)
    decreases |batch|
  {
    if batch == [] then rows else UpsertAll(Upsert(rows, batch[0]), batch[1..])
  }

  lemma UpsertLast(rows: seq<Row>, r: Row)
    requires SortedById(rows) && forall i :: 0 <= i < |rows| ==> rows[i].id < r.id
    ensures Upsert(rows, r) == rows + [r]
  {
    assert Position(rows, r.id) == |rows|;
  }

  /** A batch extends the table, replacing nothing, exactly when its ids go on from the table's. */
  lemma {:induction false} BatchAppendsExactly(rows: seq<Row>, batch: seq<Row>)
    requires SortedById(rows)
    ensures UpsertAll(rows, batch) == rows + batch <==> SortedById(rows + batch)
  {
    if SortedById(rows + batch) {
      SortedBatchAppends(rows, batch);
    }
  }

  lemma {:induction false} SortedBatchAppends(rows: seq<Row>, batch: seq<Row>)
    requires SortedById(rows) && SortedById(rows + batch)
    ensures UpsertAll(rows, batch) == rows + batch
    decreases |batch|
  {
    if batch == [] {
      assert rows + batch == rows;
    } else {
      forall i | 0 <= i < |rows| ensures rows[i].id < batch[0].id {
        assert (rows + batch)[i] == rows[i] && (rows + batch)[|rows|] == batch[0];
      }
      UpsertLast(rows, batch[0]);
      assert rows + batch == (rows + [batch[0]]) + batch[1..];
      SortedBatchAppends(rows + [batch[0]], batch[1..]);
    }
  }

  predicate Wanted(r: Row, eventType: string, tenantId: string) {
    r.tenantId == tenantId && (eventType == "" || r.eventType == eventType)
  }

  function Select(rows: seq<Row>, eventType: string, tenantId: string): (selected: seq<Row>)
    ensures forall r :: r in selected <==> r in rows && Wanted(r, eventType, tenantId)
    ensures SortedById(rows) ==> SortedById(selected)
  {
    if rows == [] then []
    else if Wanted(rows[0], eventType, tenantId)
    then SortedTail(rows); [rows[0]] + Select(rows[1..], eventType, tenantId)
    else SortedTail(rows); Select(rows[1..], eventType, tenantId)
  }

  function After(rows: seq<Row>, afterId: int): (later: seq<Row>)
    ensures forall r :: r in later <==> r in rows && r.id > afterId
    ensures SortedById(rows) ==> SortedById(later)
  {
    if rows == [] then []
    else if rows[0].id > afterId then SortedTail(rows); [rows[0]] + After(rows[1..], afterId)
    else SortedTail(rows); After(rows[1..], afterId)
  }

  // The rows after the first are in order and have greater ids
  lemma SortedTail(rows: seq<Row>)
    requires rows != []
    ensures SortedById(rows) ==> SortedById(rows[1..]) && forall r :: r in rows[1..] ==> rows[0].id < r.id
  {
  }

  // One row further in a selection
  lemma SelectStep(rows: seq<Row>, i: nat, done: seq<Row>, eventType: string, tenantId: string)
    requires i < |rows|
    ensures done + Select(rows[i..], eventType, tenantId)
         == (if Wanted(rows[i], eventType, tenantId) then done + [rows[i]] else done)
            + Select(rows[i + 1..], eventType, tenantId)
  {
    assert rows[i..][0] == rows[i] && rows[i..][1..] == rows[i + 1..];
  }

  lemma AfterStep(rows: seq<Row>, i: nat, done: seq<Row>, afterId: int)
    requires i < |rows|
    ensures done + After(rows[i..], afterId)
         == (if rows[i].id > afterId then done + [rows[i]] else done) + After(rows[i + 1..], afterId)
  {
    assert rows[i..][0] == rows[i] && rows[i..][1..] == rows[i + 1..];
  }

  datatype Integrity =
    | Intact(merkleRoot: string)
    | Tampered(tamperedId: int, error: string)
  {
    // status.get("merkle_root")
    function Root(): string {
      if Intact? then merkleRoot else ZeroHash()
    }
  }

  function RootReport(c: Codec, rows: seq<Row>): string {
    if Chain(c, rows) then MerkleRoot(c.sha256, Hashes(rows)) else ZeroHash()
  }

  // Row i is the first whose link or content hash fails, and the status names it
  ghost predicate FirstFault(c: Codec, rows: seq<Row>, i: nat, status: Integrity) {
    && i < |rows| && !RowOk(c, rows, i)
    && (forall k: nat :: k < i ==> RowOk(c, rows, k))
    && status == Tampered(rows[i].id, if rows[i].previousHash != PrevHash(rows, i)
                                      then "previous_hash mismatch" else "current_hash mismatch")
  }

  datatype MerkleProof = MerkleProof(proof: seq<ProofStep>, rootHash: string, eventHash: string)

  class AuditLedger {
    const codec: Codec
    var rows: seq<Row>

    ghost predicate Valid()
      reads this
    {
      SortedById(rows)
    }

    constructor (codec: Codec)
      ensures Valid() && rows == [] && this.codec == codec
    {
      this.codec := codec;
      rows := [];
    }

    method RecordEvent(eventType: string, payload: map<string, Json>, timestamp: string, tenantId: string) returns (id: int)
      requires Valid()
      modifies this`rows
      ensures Valid() && rows == Recorded(codec, old(rows), eventType, Object(payload), timestamp, tenantId)
      ensures Appends(codec, old(rows), rows, Event(eventType, payload, timestamp, tenantId))
      ensures id == rows[|rows| - 1].id && forall r :: r in old(rows) ==> r.id < id
    {
      var payloadStr := codec.dumps(Object(payload));
      var previousHash := if rows != [] then rows[|rows| - 1].currentHash else ZeroHash();
      var currentHash := codec.sha256(previousHash + payloadStr + timestamp);
      id := NextId(rows);
      rows := rows + [Row(id, eventType, payloadStr, previousHash, currentHash, timestamp, tenantId)];
    }

    // Intact exactly on chains; otherwise the first row whose link or content fails, link before content
    method VerifyChainIntegrity() returns (status: Integrity)
      requires Valid()
      ensures status.Intact? <==> Chain(codec, rows)
      ensures status.Root() == RootReport(codec, rows)
      ensures status.Root() == if Chain(codec, rows) then MerkleRoot(codec.sha256, Hashes(rows)) else ZeroHash()
      ensures status.Tampered? ==> exists i: nat :: FirstFault(codec, rows, i, status)
    {
      var expectedPreviousHash := ZeroHash();
      var currentHashes := [];
      for i := 0 to |rows|
        invariant expectedPreviousHash == PrevHash(rows, i)
        invariant |currentHashes| == i && forall k :: 0 <= k < i ==> currentHashes[k] == rows[k].currentHash
        invariant forall k: nat :: k < i ==> RowOk(codec, rows, k)
      {
        var row := rows[i];
        if row.previousHash != expectedPreviousHash {
          status := Tampered(row.id, "previous_hash mismatch");
          assert !RowOk(codec, rows, i) && FirstFault(codec, rows, i, status);
          return;
        }
        var payloadStr := match codec.loads(row.payload)
                          case Some(v) => codec.dumps(v)
                          case None => row.payload;
        var recalculatedHash := codec.sha256(row.previousHash + payloadStr + row.timestamp);
        if row.currentHash != recalculatedHash {
          status := Tampered(row.id, "current_hash mismatch");
          assert !RowOk(codec, rows, i) && FirstFault(codec, rows, i, status);
          return;
        }
        assert RowOk(codec, rows, i);
        expectedPreviousHash := row.currentHash;
        currentHashes := currentHashes + [row.currentHash];
      }
      assert currentHashes == Hashes(rows);
      var merkleRoot := BuildTree(codec.sha256, currentHashes);
      status := Intact(merkleRoot);
    }

    method GetLogs(eventType: string, tenantId: string) returns (records: seq<Row>)
      requires Valid()
      ensures records == Select(rows, eventType, tenantId)
      ensures forall r :: r in records <==>
        r in rows && r.tenantId == tenantId && (eventType != "" ==> r.eventType == eventType)
      ensures SortedById(records)
    {
      records := [];
      for i := 0 to |rows|
        invariant records + Select(rows[i..], eventType, tenantId) == Select(rows, eventType, tenantId)
      {
        SelectStep(rows, i, records, eventType, tenantId);
        if Wanted(rows[i], eventType, tenantId) {
          records := records + [rows[i]];
        }
      }
    }

    method GetLogsAfter(afterId: int) returns (records: seq<Row>)
      requires Valid()
      ensures records == After(rows, afterId)
      ensures forall r :: r in records <==> r in rows && r.id > afterId
      ensures SortedById(records)
    {
      records := [];
      for i := 0 to |rows|
        invariant records + After(rows[i..], afterId) == After(rows, afterId)
      {
        AfterStep(rows, i, records, afterId);
        if rows[i].id > afterId {
          records := records + [rows[i]];
        }
      }
    }

    // The id now maps to the new row, and every other row is as it was
    method InsertRawEvent(r: Row)
      requires Valid()
      modifies this`rows
      ensures Valid() && rows == Upsert(old(rows), r)
      ensures forall x :: x in rows <==> x == r || (x in old(rows) && x.id != r.id)
    {
      forall x ensures x in Upsert(rows, r) <==> x == r || (x in rows && x.id != r.id) {
        UpsertContents(rows, r, x);
      }
      rows := Upsert(rows, r);
    }

    // None exactly for an unknown id; otherwise a proof that verification accepts for the tree's own root
    method GenerateMerkleProof(eventId: int) returns (r: Option<MerkleProof>)
      requires Valid()
      ensures r.None? <==> forall row :: row in rows ==> row.id != eventId
      ensures r.Some? ==>
        && r.value.rootHash == MerkleRoot(codec.sha256, Hashes(rows))
        && (exists i :: 0 <= i < |rows| && rows[i].id == eventId && rows[i].currentHash == r.value.eventHash)
        && (r.value.eventHash != "" ==>
              Accepts(codec.sha256, r.value.eventHash, r.value.proof, r.value.rootHash))
    {
      var targetIdx := 0;
      while targetIdx < |rows| && rows[targetIdx].id != eventId
        invariant targetIdx <= |rows|
        invariant forall i :: 0 <= i < targetIdx ==> rows[i].id != eventId
      {
        targetIdx := targetIdx + 1;
      }
      if targetIdx == |rows| {
        return None;
      }
      var h := codec.sha256;
      var eventHashes := Hashes(rows);
      var levels := BuildLevels(h, LeafLevel(h, eventHashes));
      RootOfTower(h, eventHashes, levels);
      TowerHalves(h, levels);
      var proof := ProofPath(levels, targetIdx);
      var eventHash := eventHashes[targetIdx];
      if eventHash != "" {
        PathAccepted(h, eventHashes, levels, 0, targetIdx, proof, eventHash);
      }
      r := Some(MerkleProof(proof, levels[|levels| - 1][0], eventHash));
    }
  }

  /* What recording keeps. */

  lemma RecordKeepsChain(c: Codec, rows: seq<Row>, eventType: string, payload: map<string, Json>, timestamp: string, tenantId: string)
    requires c.Lawful() && SortedById(rows) && Chain(c, rows)
    ensures Chain(c, Recorded(c, rows, eventType, Object(payload), timestamp, tenantId))
  {
    var after := Recorded(c, rows, eventType, Object(payload), timestamp, tenantId);
    DumpsCanonical(c, Object(payload));
    forall i: nat | i < |after| ensures RowOk(c, after, i) {
      assert i < |rows| ==> RowOk(c, rows, i);
    }
  }

  lemma DumpsCanonical(c: Codec, v: Json)
    requires c.Lawful()
    ensures c.Canonical(c.dumps(v)) == c.dumps(v)
    ensures v.Object? ==> ClosedByBrace(c.dumps(v))
  {
  }

  function RecordAll(c: Codec, rows: seq<Row>, events: seq<Event>): (after: seq<Row>)
    requires SortedById(rows)
    ensures SortedById(after)
    decreases |events|
  {
    if events == [] then rows
    else
      var e := events[0];
      RecordAll(c, Recorded(c, rows, e.eventType, Object(e.payload), e.timestamp, e.tenantId), events[1..])
  }

  /** Any sequence of record_event calls from an empty ledger leaves a chain with ids 1..n. */
  lemma RecordedLedgersAreChains(c: Codec, events: seq<Event>)
    requires c.Lawful()
    ensures Chain(c, RecordAll(c, [], events))
    ensures Numbered(RecordAll(c, [], events))
  {
    RecordAllKeepsChain(c, [], events);
  }

  /** They hold the events recorded, each one in its row, and its payload is read back. */
  lemma EventsReadBack(c: Codec, events: seq<Event>)
    requires c.Lawful()
    ensures |RecordAll(c, [], events)| == |events|
    ensures forall i :: 0 <= i < |events| ==>
      && HoldsEvent(c, RecordAll(c, [], events)[i], events[i])
      && c.loads(RecordAll(c, [], events)[i].payload) == Some(Object(events[i].payload))
  {
    RecordAllAppends(c, [], events);
  }

  lemma {:induction false} RecordAllAppends(c: Codec, rows: seq<Row>, events: seq<Event>)
    requires SortedById(rows)
    ensures |RecordAll(c, rows, events)| == |rows| + |events| && rows <= RecordAll(c, rows, events)
    ensures forall i :: 0 <= i < |events| ==> HoldsEvent(c, RecordAll(c, rows, events)[|rows| + i], events[i])
    decreases |events|
  {
    if events != [] {
      var e := events[0];
      var next := Recorded(c, rows, e.eventType, Object(e.payload), e.timestamp, e.tenantId);
      RecordedAppends(c, rows, e);
      RecordAllAppends(c, next, events[1..]);
      assert forall i :: 1 <= i < |events| ==> events[i] == events[1..][i - 1];
    }
  }

  predicate Numbered(rows: seq<Row>) {
    forall i :: 0 <= i < |rows| ==> rows[i].id == i + 1
  }

  lemma {:induction false} RecordAllKeepsChain(c: Codec, rows: seq<Row>, events: seq<Event>)
    requires c.Lawful() && SortedById(rows) && Chain(c, rows) && Numbered(rows)
    ensures Chain(c, RecordAll(c, rows, events)) && Numbered(RecordAll(c, rows, events))
    decreases |events|
  {
    if events != [] {
      var e := events[0];
      RecordKeepsChain(c, rows, e.eventType, e.payload, e.timestamp, e.tenantId);
      RecordAllKeepsChain(c, Recorded(c, rows, e.eventType, Object(e.payload), e.timestamp, e.tenantId), events[1..]);
    }
  }
}
