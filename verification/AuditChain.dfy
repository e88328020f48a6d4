/**
 The hash chain of agent_workspace/core/audit_ledger.py on values: what a
 record's hash covers, what a well-formed chain is, and what equal hashes say
 about histories.
 */
module AuditChain {
  import opened Basics
  import opened Wrappers
  import opened Hashing
  import opened MerkleTree

  datatype Json = Text(text: string) | Number(n: int) | Object(fields: map<string, Json>) | Other(source: string)

  // The library functions the ledger calls; loads yields None where it raises
  datatype Codec = Codec(sha256: Sha256, loads: string -> Option<Json>, dumps: Json -> string) {
    // What a dictionary becomes when it is stored, and what it becomes when read back
    ghost predicate Lawful() {
      forall v :: loads(dumps(v)) == Some(v) && (v.Object? ==> ClosedByBrace(dumps(v)))
    }

    // json.dumps(json.loads(s), sort_keys=True), or s itself if it does not parse
    function Canonical(s: string): string {
      match loads(s)
      case Some(v) => dumps(v)
      case None => s
    }
  }

  datatype Row = Row(id: int, eventType: string, payload: string, previousHash: string,
                     currentHash: string, timestamp: string, tenantId: string)

  // The text whose hash seals a record: event type, tenant and id are not part of it
  function Preimage(c: Codec, r: Row): string {
    r.previousHash + c.Canonical(r.payload) + r.timestamp
  }

  function PrevHash(rows: seq<Row>, i: nat): string
    requires i <= |rows|
  {
    if i == 0 then ZeroHash() else rows[i - 1].currentHash
  }

  predicate RowOk(c: Codec, rows: seq<Row>, i: nat) {
    && i < |rows|
    && rows[i].previousHash == PrevHash(rows, i)
    && rows[i].currentHash == c.sha256(Preimage(c, rows[i]))
  }

  predicate Chain(c: Codec, rows: seq<Row>) {
    forall i: nat :: i < |rows| ==> RowOk(c, rows, i)
  }

  function Hashes(rows: seq<Row>): (hashes: seq<string>)
    ensures |hashes| == |rows|
    ensures forall i :: 0 <= i < |rows| ==> hashes[i] == rows[i].currentHash
  {
    if rows == [] then [] else [rows[0].currentHash] + Hashes(rows[1..])
  }

  lemma HashesPrefix(rows: seq<Row>, n: nat)
    requires n <= |rows|
    ensures Hashes(rows[..n]) == Hashes(rows)[..n]
  {
  }

  lemma ChainHashes(c: Codec, rows: seq<Row>)
    requires Chain(c, rows)
    ensures AllHashes(Hashes(rows))
  {
    forall i: nat | i < |rows| ensures |Hashes(rows)[i]| == 64 {
      assert RowOk(c, rows, i);
    }
  }

  lemma ChainPrefix(c: Codec, rows: seq<Row>, n: nat)
    requires Chain(c, rows) && n <= |rows|
    ensures Chain(c, rows[..n])
  {
    forall i: nat | i < n ensures RowOk(c, rows[..n], i) {
      assert RowOk(c, rows, i);
    }
  }

  // A chain continues with the part of another that follows the same hash
  lemma ChainJoin(c: Codec, a: seq<Row>, b: seq<Row>, n: nat)
    requires Chain(c, a) && Chain(c, b) && n <= |b| && PrevHash(a, |a|) == PrevHash(b, n)
    ensures Chain(c, a + b[n..])
  {
    var joined := a + b[n..];
    forall i: nat | i < |joined| ensures RowOk(c, joined, i) {
      if i < |a| {
        assert RowOk(c, a, i);
      } else {
        assert RowOk(c, b, n + (i - |a|));
      }
    }
  }

  /* Equal hashes, equal histories. */

  ghost predicate InputsWithin(c: Codec, rows: seq<Row>, u: iset<string>) {
    forall i: nat :: i < |rows| ==> InputWithin(c, rows, i, u)
  }

  ghost predicate InputWithin(c: Codec, rows: seq<Row>, i: nat, u: iset<string>) {
    i < |rows| && Preimage(c, rows[i]) in u
  }

  // Record i of both chains was sealed over the same text
  ghost predicate SameAt(c: Codec, a: seq<Row>, b: seq<Row>, i: nat) {
    && i < |a| && i < |b|
    && a[i].previousHash == b[i].previousHash && a[i].currentHash == b[i].currentHash
    && c.Canonical(a[i].payload) + a[i].timestamp == c.Canonical(b[i].payload) + b[i].timestamp
  }

  ghost predicate SameUpTo(c: Codec, a: seq<Row>, b: seq<Row>, n: nat) {
    forall i: nat :: i < n ==> SameAt(c, a, b, i)
  }

  lemma SameInput(c: Codec, a: seq<Row>, i: nat, b: seq<Row>, j: nat, u: iset<string>)
    requires Chain(c, a) && Chain(c, b) && InputsWithin(c, a, u) && InputsWithin(c, b, u)
    requires CollisionFree(c.sha256, u)
    requires i < |a| && j < |b| && a[i].currentHash == b[j].currentHash
    ensures a[i].previousHash == b[j].previousHash
    ensures c.Canonical(a[i].payload) + a[i].timestamp == c.Canonical(b[j].payload) + b[j].timestamp
  {
    assert RowOk(c, a, i) && RowOk(c, b, j) && InputWithin(c, a, i, u) && InputWithin(c, b, j, u);
    assert i > 0 ==> RowOk(c, a, i - 1);
    assert j > 0 ==> RowOk(c, b, j - 1);
    var ra, rb := a[i], b[j];
    assert Preimage(c, ra) == ra.previousHash + (c.Canonical(ra.payload) + ra.timestamp);
    assert Preimage(c, rb) == rb.previousHash + (c.Canonical(rb.payload) + rb.timestamp);
    SplitEqual(ra.previousHash, c.Canonical(ra.payload) + ra.timestamp,
               rb.previousHash, c.Canonical(rb.payload) + rb.timestamp);
  }

  /** A hash occurs at one position only and fixes everything before it. */
  lemma {:induction false} HashFixesHistory(c: Codec, a: seq<Row>, i: nat, b: seq<Row>, j: nat, u: iset<string>)
    requires Chain(c, a) && Chain(c, b) && InputsWithin(c, a, u) && InputsWithin(c, b, u)
    requires CollisionFree(c.sha256, u) && AvoidsZero(c.sha256, u)
    requires i < |a| && j < |b| && a[i].currentHash == b[j].currentHash
    ensures i == j && SameUpTo(c, a, b, i + 1)
    decreases i
  {
    SameInput(c, a, i, b, j, u);
    assert RowOk(c, a, i) && RowOk(c, b, j);
    if i > 0 && j > 0 {
      HashFixesHistory(c, a, i - 1, b, j - 1, u);
    } else if i > 0 {
      NotZero(c, a, i - 1, u);
    } else if j > 0 {
      NotZero(c, b, j - 1, u);
    }
    forall k: nat | k < i + 1 ensures SameAt(c, a, b, k) {
      assert k < i ==> SameAt(c, a, b, k);
    }
  }

  lemma NotZero(c: Codec, rows: seq<Row>, i: nat, u: iset<string>)
    requires Chain(c, rows) && InputsWithin(c, rows, u) && AvoidsZero(c.sha256, u) && i < |rows|
    ensures rows[i].currentHash != ZeroHash()
  {
    assert RowOk(c, rows, i) && InputWithin(c, rows, i, u);
  }

  /** Two chains that would be continued from the same hash are the same history, empty or not. */
  lemma TipFixesHistory(c: Codec, a: seq<Row>, m: nat, b: seq<Row>, n: nat, u: iset<string>)
    requires Chain(c, a) && Chain(c, b) && InputsWithin(c, a, u) && InputsWithin(c, b, u)
    requires CollisionFree(c.sha256, u) && AvoidsZero(c.sha256, u)
    requires m <= |a| && n <= |b| && PrevHash(a, m) == PrevHash(b, n)
    ensures m == n && SameUpTo(c, a, b, m)
  {
    if m > 0 && n > 0 {
      HashFixesHistory(c, a, m - 1, b, n - 1, u);
    } else if m > 0 {
      NotZero(c, a, m - 1, u);
    } else if n > 0 {
      NotZero(c, b, n - 1, u);
    }
  }

  /* What the text says about payload and timestamp separately. */

  predicate ClosedByBrace(s: string) {
    s != "" && s[|s| - 1] == '}'
  }

  // A record as record_event makes it: a stored dictionary, an ISO-8601 time
  predicate Genuine(c: Codec, r: Row) {
    c.Canonical(r.payload) == r.payload && ClosedByBrace(r.payload) && '}' !in r.timestamp
  }

  lemma SplitAtLastBrace(p: string, t: string, q: string, s: string)
    requires ClosedByBrace(p) && ClosedByBrace(q) && '}' !in t && '}' !in s && p + t == q + s
    ensures p == q && t == s
  {
    var whole := p + t;
    assert whole == q + s;
    assert whole[|p| - 1] == '}' && whole[|q| - 1] == '}';
    assert forall k :: |p| <= k < |whole| ==> whole[k] == t[k - |p|] != '}';
    assert forall k :: |q| <= k < |whole| ==> whole[k] == s[k - |q|] != '}';
    SplitEqual(p, t, q, s);
  }

  /** Genuine records sealed over the same text have the same payload and timestamp. */
  lemma GenuineAgree(c: Codec, a: seq<Row>, b: seq<Row>, i: nat)
    requires SameAt(c, a, b, i) && Genuine(c, a[i]) && Genuine(c, b[i])
    ensures a[i].payload == b[i].payload && a[i].timestamp == b[i].timestamp
  {
    SplitAtLastBrace(a[i].payload, a[i].timestamp, b[i].payload, b[i].timestamp);
  }

  /* Detecting changes. */

  function Rewritten(rows: seq<Row>, i: nat, payload: string, timestamp: string): seq<Row>
    requires i < |rows|
  {
    rows[i := rows[i].(payload := payload, timestamp := timestamp)]
  }

  /** Rewriting a record in place goes unnoticed exactly when canonical payload and
      timestamp still run together to the same text. */
  lemma RewriteUnnoticedExactly(c: Codec, rows: seq<Row>, i: nat, payload: string, timestamp: string)
    requires Chain(c, rows) && i < |rows|
    requires CollisionFree(c.sha256, iset{Preimage(c, rows[i]), Preimage(c, Rewritten(rows, i, payload, timestamp)[i])})
    ensures Chain(c, Rewritten(rows, i, payload, timestamp))
       <==> c.Canonical(payload) + timestamp == c.Canonical(rows[i].payload) + rows[i].timestamp
  {
    var rewritten := Rewritten(rows, i, payload, timestamp);
    var before, after := rows[i], rewritten[i];
    assert Preimage(c, before) == before.previousHash + (c.Canonical(before.payload) + before.timestamp);
    assert Preimage(c, after) == before.previousHash + (c.Canonical(payload) + timestamp);
    assert RowOk(c, rows, i);
    if Chain(c, rewritten) {
      assert RowOk(c, rewritten, i);
      SplitEqual(before.previousHash, c.Canonical(payload) + timestamp,
                 before.previousHash, c.Canonical(before.payload) + before.timestamp);
    }
    if c.Canonical(payload) + timestamp == c.Canonical(before.payload) + before.timestamp {
      forall k: nat | k < |rewritten| ensures RowOk(c, rewritten, k) {
        assert RowOk(c, rows, k);
      }
    }
  }

  /** So a genuine record cannot be replaced by a different genuine one unnoticed. */
  lemma GenuineRewriteNoticed(c: Codec, rows: seq<Row>, i: nat, payload: string, timestamp: string)
    requires Chain(c, rows) && i < |rows| && Genuine(c, rows[i])
    requires Genuine(c, Rewritten(rows, i, payload, timestamp)[i])
    requires CollisionFree(c.sha256, iset{Preimage(c, rows[i]), Preimage(c, Rewritten(rows, i, payload, timestamp)[i])})
    ensures Chain(c, Rewritten(rows, i, payload, timestamp))
       <==> payload == rows[i].payload && timestamp == rows[i].timestamp
  {
    RewriteUnnoticedExactly(c, rows, i, payload, timestamp);
    if c.Canonical(payload) + timestamp == c.Canonical(rows[i].payload) + rows[i].timestamp {
      SplitAtLastBrace(payload, timestamp, rows[i].payload, rows[i].timestamp);
    }
  }

  /** But moving the first character of the time to the end of the payload is not noticed. */
  lemma BoundaryShiftUnnoticed(c: Codec, rows: seq<Row>, i: nat)
    requires Chain(c, rows) && i < |rows| && Genuine(c, rows[i]) && rows[i].timestamp != ""
    requires c.loads(rows[i].payload + [rows[i].timestamp[0]]) == None
    ensures Chain(c, Rewritten(rows, i, rows[i].payload + [rows[i].timestamp[0]], rows[i].timestamp[1..]))
  {
    var shifted := Rewritten(rows, i, rows[i].payload + [rows[i].timestamp[0]], rows[i].timestamp[1..]);
    assert [rows[i].timestamp[0]] + rows[i].timestamp[1..] == rows[i].timestamp;
    assert Preimage(c, shifted[i]) == Preimage(c, rows[i]);
    forall k: nat | k < |shifted| ensures RowOk(c, shifted, k) {
      assert RowOk(c, rows, k);
    }
  }

  /** Event type, tenant and id are not sealed: changing them never changes whether the chain is valid. */
  lemma MetadataUnsealed(c: Codec, rows: seq<Row>, i: nat, id: int, eventType: string, tenantId: string)
    requires i < |rows|
    ensures Chain(c, rows[i := rows[i].(id := id, eventType := eventType, tenantId := tenantId)]) <==> Chain(c, rows)
  {
    var changed := rows[i := rows[i].(id := id, eventType := eventType, tenantId := tenantId)];
    forall k: nat | k < |rows| ensures RowOk(c, changed, k) <==> RowOk(c, rows, k) {
      assert changed[k].currentHash == rows[k].currentHash && PrevHash(changed, k) == PrevHash(rows, k);
      assert Preimage(c, changed[k]) == Preimage(c, rows[k]);
    }
  }
}
