/**
 N honest nodes replicating their ledgers over an unreliable network.  The
 wire is the set of all envelopes ever published: an envelope may be delivered
 to a node at any later time, any number of times, in any order, or never.
 */
module ReplicationProtocol {
  import opened Hashing
  import opened MerkleTree
  import opened AuditChain
  import opened AuditLedger
  import opened AuditConsensus

  datatype System = System(nodes: map<string, NodeState>, wire: set<Envelope>)

  datatype Step =
    | Record(node: string, eventType: string, payload: map<string, Json>, timestamp: string)
    | Broadcast(node: string)
    | ManualSync(node: string)
    | Deliver(node: string, envelope: Envelope, seenAt: string, recordedAt: string)
    | Restart(node: string)

  predicate Init(s: System) {
    s.wire == {} && forall n :: n in s.nodes ==> s.nodes[n] == NodeState([], map[], {})
  }

  // What a node does with an envelope, given the channels it subscribes to
  function Receive(c: Codec, me: string, st: NodeState, e: Envelope, seenAt: string, recordedAt: string): Outcome
    requires SortedById(st.rows)
  {
    match e.channel
    case Check => OnPing(c, me, st, e.message, seenAt, recordedAt)
    case Request => OnRequest(me, st, e.message)
    case Response(n) => if n == me then OnResponse(c, me, st, e.message, recordedAt) else Outcome(st, [])
  }

  function Perform(c: Codec, st: NodeState, step: Step): Outcome
    requires SortedById(st.rows)
  {
    match step
    case Record(_, eventType, payload, timestamp) =>
      Outcome(st.(rows := Recorded(c, st.rows, eventType, Object(payload), timestamp, DEFAULT_TENANT)), [])
    case Broadcast(me) => Outcome(st, [StatusPing(c, me, st.rows)])
    case ManualSync(me) => Outcome(st, [Envelope(Check, SyncQuery(me)), StatusPing(c, me, st.rows)])
    case Deliver(me, e, seenAt, recordedAt) => Receive(c, me, st, e, seenAt, recordedAt)
    case Restart(_) => Outcome(NodeState(st.rows, map[], {}), [])
  }

  predicate IsTime(t: string) {
    '}' !in t
  }

  predicate Enabled(s: System, step: Step) {
    && step.node in s.nodes && SortedById(s.nodes[step.node].rows)
    && (step.Record? ==> IsTime(step.timestamp))
    && (step.Deliver? ==> step.envelope in s.wire && IsTime(step.recordedAt))
  }

  ghost predicate Next(c: Codec, s: System, t: System, step: Step) {
    && Enabled(s, step)
    && var out := Perform(c, s.nodes[step.node], step);
       t == System(s.nodes[step.node := out.state], s.wire + set e | e in out.sent)
  }

  /* The invariant. */

  predicate HonestAt(c: Codec, rows: seq<Row>, i: nat) {
    i < |rows| && rows[i].id == i + 1 && rows[i].tenantId == DEFAULT_TENANT && Genuine(c, rows[i])
  }

  predicate HonestLedger(c: Codec, rows: seq<Row>) {
    Chain(c, rows) && forall i: nat :: i < |rows| ==> HonestAt(c, rows, i)
  }

  ghost predicate IsSlice(rows: seq<Row>, a: nat, b: nat, logs: seq<Row>) {
    a <= b <= |rows| && logs == rows[a..b]
  }

  // What the wire says of a node was true of some prefix of its ledger
  ghost predicate MessageOk(c: Codec, s: System, m: Message) {
    match m
    case SyncQuery(_) => true
    case SyncPing(p, root, n) =>
      p in s.nodes && 0 <= n <= |s.nodes[p].rows| && root == RootReport(c, s.nodes[p].rows[..n])
    case LogsRequest(_, _, afterId) => afterId >= 0
    case LogsResponse(p, logs) => p in s.nodes && exists a: nat, b: nat :: IsSlice(s.nodes[p].rows, a, b, logs)
  }

  ghost predicate Inv(c: Codec, s: System) {
    && (forall n :: n in s.nodes ==> HonestLedger(c, s.nodes[n].rows))
    && (forall e :: e in s.wire ==> MessageOk(c, s, e.message))
  }

  ghost predicate Within(c: Codec, s: System, u: iset<string>) {
    forall n :: n in s.nodes ==> InputsWithin(c, s.nodes[n].rows, u)
  }

  ghost predicate Grows(s: System, t: System) {
    s.nodes.Keys == t.nodes.Keys && forall n :: n in s.nodes ==> s.nodes[n].rows <= t.nodes[n].rows
  }

  /* Ledgers with ids 1..n of one tenant. */

  lemma HonestSorted(c: Codec, rows: seq<Row>)
    requires HonestLedger(c, rows)
    ensures SortedById(rows) && NextId(rows) == |rows| + 1
  {
    forall i, j | 0 <= i < j < |rows| ensures rows[i].id < rows[j].id {
      assert HonestAt(c, rows, i) && HonestAt(c, rows, j);
    }
    assert rows != [] ==> HonestAt(c, rows, |rows| - 1);
  }

  lemma {:induction false} SelectAll(rows: seq<Row>)
    requires forall i :: 0 <= i < |rows| ==> rows[i].tenantId == DEFAULT_TENANT
    ensures LocalLogs(rows) == rows
  {
    if rows != [] {
      SelectAll(rows[1..]);
    }
  }

  lemma HonestLocal(c: Codec, rows: seq<Row>)
    requires HonestLedger(c, rows)
    ensures LocalLogs(rows) == rows
  {
    forall i | 0 <= i < |rows| ensures rows[i].tenantId == DEFAULT_TENANT {
      assert HonestAt(c, rows, i);
    }
    SelectAll(rows);
  }

  function Clamp(n: int, high: nat): nat {
    if n <= 0 then 0 else if n < high then n else high
  }

  lemma {:induction false} AfterIsSuffix(rows: seq<Row>, base: nat, afterId: nat)
    requires forall i :: 0 <= i < |rows| ==> rows[i].id == base + i + 1
    ensures After(rows, afterId) == rows[Clamp(afterId - base, |rows|)..]
  {
    if rows != [] {
      AfterIsSuffix(rows[1..], base + 1, afterId);
      assert [rows[0]] + rows[1..] == rows;
      assert rows[1..][Clamp(afterId - base - 1, |rows| - 1)..] == rows[1 + Clamp(afterId - base - 1, |rows| - 1)..];
    }
  }

  lemma TailIsSlice(rows: seq<Row>, a: nat)
    requires a <= |rows|
    ensures IsSlice(rows, a, |rows|, rows[a..])
  {
  }

  lemma HonestAfter(c: Codec, rows: seq<Row>, afterId: nat)
    requires HonestLedger(c, rows)
    ensures exists a: nat, b: nat :: IsSlice(rows, a, b, After(rows, afterId))
  {
    HonestIds(c, rows);
    AfterIsSuffix(rows, 0, afterId);
    TailIsSlice(rows, Clamp(afterId, |rows|));
  }

  lemma HonestIds(c: Codec, rows: seq<Row>)
    requires HonestLedger(c, rows)
    ensures Numbered(rows)
  {
    forall i | 0 <= i < |rows| ensures rows[i].id == i + 1 {
      assert HonestAt(c, rows, i);
    }
  }

  lemma HonestPrefix(c: Codec, rows: seq<Row>, n: nat)
    requires HonestLedger(c, rows) && n <= |rows|
    ensures HonestLedger(c, rows[..n])
  {
    ChainPrefix(c, rows, n);
    forall i: nat | i < n ensures HonestAt(c, rows[..n], i) {
      assert HonestAt(c, rows, i);
    }
  }

  lemma RecordHonest(c: Codec, rows: seq<Row>, eventType: string, payload: map<string, Json>, timestamp: string)
    requires c.Lawful() && HonestLedger(c, rows) && IsTime(timestamp) && SortedById(rows)
    ensures HonestLedger(c, Recorded(c, rows, eventType, Object(payload), timestamp, DEFAULT_TENANT))
    ensures rows <= Recorded(c, rows, eventType, Object(payload), timestamp, DEFAULT_TENANT)
  {
    var after := Recorded(c, rows, eventType, Object(payload), timestamp, DEFAULT_TENANT);
    RecordKeepsChain(c, rows, eventType, payload, timestamp, DEFAULT_TENANT);
    DumpsCanonical(c, Object(payload));
    HonestSorted(c, rows);
    forall i: nat | i < |after| ensures HonestAt(c, after, i) {
      assert i < |rows| ==> HonestAt(c, rows, i);
    }
  }

  /* Accepting a response. */

  lemma BatchLinks(c: Codec, lastHash: string, rows: seq<Row>, a: nat, b: nat)
    requires Chain(c, rows) && a < b <= |rows|
    ensures BatchOk(c, lastHash, rows[a..b]) <==> lastHash == PrevHash(rows, a)
  {
    var logs := rows[a..b];
    assert RowOk(c, rows, a);
    if BatchOk(c, lastHash, logs) {
      assert LinkOk(c, lastHash, logs, 0);
    }
    if lastHash == PrevHash(rows, a) {
      forall i: nat | i < |logs| ensures LinkOk(c, lastHash, logs, i) {
        assert RowOk(c, rows, a + i);
      }
    }
  }

  /** A slice of an honest ledger is accepted exactly by the nodes whose whole history is the part before it. */
  lemma AcceptedExactly(c: Codec, local: seq<Row>, peer: seq<Row>, a: nat, b: nat, u: iset<string>)
    requires HonestLedger(c, local) && HonestLedger(c, peer) && a < b <= |peer|
    requires InputsWithin(c, local, u) && InputsWithin(c, peer, u)
    requires CollisionFree(c.sha256, u) && AvoidsZero(c.sha256, u)
    ensures BatchOk(c, LastHash(local), peer[a..b]) <==> |local| == a && SameUpTo(c, local, peer, a)
  {
    HonestLocal(c, local);
    BatchLinks(c, LastHash(local), peer, a, b);
    if LastHash(local) == PrevHash(peer, a) {
      TipFixesHistory(c, local, |local|, peer, a, u);
    }
    if |local| == a && SameUpTo(c, local, peer, a) {
      assert a > 0 ==> SameAt(c, local, peer, a - 1);
    }
  }

  /** Then its ids go on from the local ids, so nothing is replaced and the ledger stays honest. */
  lemma AcceptedAppends(c: Codec, local: seq<Row>, peer: seq<Row>, a: nat, b: nat, u: iset<string>)
    requires HonestLedger(c, local) && HonestLedger(c, peer) && a < b <= |peer| && SortedById(local)
    requires InputsWithin(c, local, u) && InputsWithin(c, peer, u)
    requires CollisionFree(c.sha256, u) && AvoidsZero(c.sha256, u)
    requires BatchOk(c, LastHash(local), peer[a..b])
    ensures UpsertAll(local, peer[a..b]) == local + peer[a..b]
    ensures HonestLedger(c, local + peer[a..b])
  {
    AcceptedExactly(c, local, peer, a, b, u);
    var cut := peer[..b];
    HonestPrefix(c, peer, b);
    assert peer[a..b] == cut[a..];
    assert PrevHash(local, |local|) == PrevHash(cut, a) by {
      assert a > 0 ==> SameAt(c, local, peer, a - 1);
    }
    ChainJoin(c, local, cut, a);
    var joined := local + cut[a..];
    forall i: nat | i < |joined| ensures HonestAt(c, joined, i) {
      assert if i < a then HonestAt(c, local, i) else HonestAt(c, cut, i);
    }
    HonestSorted(c, joined);
    SortedBatchAppends(local, cut[a..]);
  }

  /* One step. */

  lemma ReceiveResponse(c: Codec, s: System, me: string, m: Message, recordedAt: string, u: iset<string>)
    requires c.Lawful() && Inv(c, s) && Within(c, s, u) && CollisionFree(c.sha256, u) && AvoidsZero(c.sha256, u)
    requires me in s.nodes && SortedById(s.nodes[me].rows) && MessageOk(c, s, m) && IsTime(recordedAt)
    ensures var out := OnResponse(c, me, s.nodes[me], m, recordedAt);
            s.nodes[me].rows <= out.state.rows && HonestLedger(c, out.state.rows) && out.sent == []
  {
    var rows := s.nodes[me].rows;
    if m.LogsResponse? && m.logs != [] {
      if BatchOk(c, LastHash(rows), m.logs) {
        var peer := s.nodes[m.providerId].rows;
        var a: nat, b: nat :| IsSlice(peer, a, b, m.logs);
        assert HonestLedger(c, peer) && InputsWithin(c, peer, u) && InputsWithin(c, rows, u);
        AcceptedAppends(c, rows, peer, a, b, u);
        HonestSorted(c, rows + m.logs);
        RecordHonest(c, rows + m.logs, "CONSENSUS_RECOVERY", RecoveryPayload(m.providerId, |m.logs|), recordedAt);
      } else {
        RecordHonest(c, rows, "SOC2_VIOLATION", RejectionPayload(m.providerId, m.logs[0].id), recordedAt);
      }
    }
  }

  lemma StatusOk(c: Codec, s: System, me: string)
    requires Inv(c, s) && me in s.nodes
    ensures MessageOk(c, s, StatusPing(c, me, s.nodes[me].rows).message)
  {
    var rows := s.nodes[me].rows;
    HonestLocal(c, rows);
    assert rows[..|rows|] == rows;
  }

  // A ping leaves the ledger alone or records one violation, and asks at most for what is missing
  lemma PingOutcome(c: Codec, me: string, st: NodeState, m: Message, seenAt: string, recordedAt: string)
    requires SortedById(st.rows) && m.SyncPing?
    ensures var out := OnPing(c, me, st, m, seenAt, recordedAt);
            && (out.state.rows == st.rows
                || exists p :: out.state.rows == Recorded(c, st.rows, "SOC2_VIOLATION", Object(p), recordedAt, DEFAULT_TENANT))
            && (out.sent == []
                || out.sent == [Envelope(Request, LogsRequest(me, m.nodeId, |LocalLogs(st.rows)|))])
  {
  }

  lemma ReceivePing(c: Codec, s: System, me: string, m: Message, seenAt: string, recordedAt: string)
    requires c.Lawful() && Inv(c, s) && me in s.nodes && SortedById(s.nodes[me].rows) && IsTime(recordedAt)
    ensures var out := OnPing(c, me, s.nodes[me], m, seenAt, recordedAt);
            && s.nodes[me].rows <= out.state.rows && HonestLedger(c, out.state.rows)
            && forall e :: e in out.sent ==> MessageOk(c, s, e.message)
  {
    var rows := s.nodes[me].rows;
    StatusOk(c, s, me);
    if m.SyncPing? {
      PingOutcome(c, me, s.nodes[me], m, seenAt, recordedAt);
      var after := OnPing(c, me, s.nodes[me], m, seenAt, recordedAt).state.rows;
      if after != rows {
        var p :| after == Recorded(c, rows, "SOC2_VIOLATION", Object(p), recordedAt, DEFAULT_TENANT);
        RecordHonest(c, rows, "SOC2_VIOLATION", p, recordedAt);
      }
    }
  }

  lemma PerformKeeps(c: Codec, s: System, step: Step, u: iset<string>)
    requires c.Lawful() && Inv(c, s) && Within(c, s, u) && CollisionFree(c.sha256, u) && AvoidsZero(c.sha256, u)
    requires Enabled(s, step)
    ensures var st := s.nodes[step.node];
            var out := Perform(c, st, step);
            && st.rows <= out.state.rows && HonestLedger(c, out.state.rows)
            && forall e :: e in out.sent ==> MessageOk(c, s, e.message)
  {
    var me := step.node;
    var rows := s.nodes[me].rows;
    match step
    case Record(_, eventType, payload, timestamp) => RecordHonest(c, rows, eventType, payload, timestamp);
    case Broadcast(_) => StatusOk(c, s, me);
    case ManualSync(_) => StatusOk(c, s, me);
    case Restart(_) =>
    case Deliver(_, e, seenAt, recordedAt) =>
      match e.channel {
        case Check => ReceivePing(c, s, me, e.message, seenAt, recordedAt);
        case Request =>
          if e.message.LogsRequest? {
            assert MessageOk(c, s, e.message);
            HonestAfter(c, rows, e.message.afterId);
          }
        case Response(n) => ReceiveResponse(c, s, me, e.message, recordedAt, u);
      }
  }

  // Growing ledgers keep every message on the wire true
  lemma MessageStays(c: Codec, s: System, t: System, m: Message)
    requires Grows(s, t) && MessageOk(c, s, m)
    ensures MessageOk(c, t, m)
  {
    match m
    case SyncPing(p, root, n) =>
      assert s.nodes[p].rows[..n] == t.nodes[p].rows[..n];
    case LogsResponse(p, logs) =>
      var a: nat, b: nat :| IsSlice(s.nodes[p].rows, a, b, logs);
      assert s.nodes[p].rows[a..b] == t.nodes[p].rows[a..b];
      assert IsSlice(t.nodes[p].rows, a, b, logs);
    case _ =>
  }

  lemma NextKeeps(c: Codec, s: System, t: System, step: Step, u: iset<string>)
    requires c.Lawful() && Inv(c, s) && Within(c, s, u) && CollisionFree(c.sha256, u) && AvoidsZero(c.sha256, u)
    requires Next(c, s, t, step)
    ensures Inv(c, t) && Grows(s, t)
  {
    PerformKeeps(c, s, step, u);
    var out := Perform(c, s.nodes[step.node], step);
    forall e | e in t.wire ensures MessageOk(c, t, e.message) {
      assert e in s.wire || e in out.sent;
      MessageStays(c, s, t, e.message);
    }
  }

  /* Whole runs. */

  ghost predicate CanStep(c: Codec, s: System, t: System) {
    exists step :: Next(c, s, t, step)
  }

  ghost predicate StepAt(c: Codec, run: seq<System>, i: nat) {
    i + 1 < |run| && CanStep(c, run[i], run[i + 1])
  }

  ghost predicate Run(c: Codec, run: seq<System>) {
    run != [] && Init(run[0]) && forall i: nat :: i < |run| - 1 ==> StepAt(c, run, i)
  }

  // s was hashed to seal record k of node n in state i of the run
  ghost predicate SealedIn(c: Codec, run: seq<System>, i: nat, n: string, k: nat, s: string) {
    i < |run| && n in run[i].nodes && k < |run[i].nodes[n].rows| && s == Preimage(c, run[i].nodes[n].rows[k])
  }

  ghost function RunInputs(c: Codec, run: seq<System>): iset<string> {
    iset s | SealedInRun(c, run, s)
  }

  ghost predicate SealedInRun(c: Codec, run: seq<System>, s: string) {
    exists i: nat, n: string, k: nat :: SealedIn(c, run, i, n, k, s)
  }

  // No two of the texts the nodes sealed collide, and none hashes to 64 zeros
  ghost predicate NoCollisionIn(c: Codec, run: seq<System>) {
    CollisionFree(c.sha256, RunInputs(c, run)) && AvoidsZero(c.sha256, RunInputs(c, run))
  }

  lemma RunWithin(c: Codec, run: seq<System>, i: nat)
    requires i < |run|
    ensures Within(c, run[i], RunInputs(c, run))
  {
    var u := RunInputs(c, run);
    forall n | n in run[i].nodes ensures InputsWithin(c, run[i].nodes[n].rows, u) {
      forall k: nat | k < |run[i].nodes[n].rows| ensures InputWithin(c, run[i].nodes[n].rows, k, u) {
        assert SealedIn(c, run, i, n, k, Preimage(c, run[i].nodes[n].rows[k]));
      }
    }
  }

  /** In every state of every run each ledger is a chain of genuine records with ids 1..n,
      and the wire holds only what was once true of its senders. */
  lemma {:induction false} RunInvariant(c: Codec, run: seq<System>, i: nat)
    requires c.Lawful() && Run(c, run) && NoCollisionIn(c, run) && i < |run|
    ensures Inv(c, run[i])
    ensures i > 0 ==> Grows(run[i - 1], run[i])
  {
    if i > 0 {
      RunInvariant(c, run, i - 1);
      RunStepKeeps(c, run, i - 1);
    }
  }

  lemma RunStepKeeps(c: Codec, run: seq<System>, i: nat)
    requires c.Lawful() && NoCollisionIn(c, run) && StepAt(c, run, i) && Inv(c, run[i])
    ensures Inv(c, run[i + 1]) && Grows(run[i], run[i + 1])
  {
    RunWithin(c, run, i);
    var step :| Next(c, run[i], run[i + 1], step);
    NextKeeps(c, run[i], run[i + 1], step, RunInputs(c, run));
  }

  /** Ledgers only grow by appending: INSERT OR REPLACE never replaces a row. */
  lemma {:induction false} RunAppendOnly(c: Codec, run: seq<System>, i: nat, j: nat)
    requires c.Lawful() && Run(c, run) && NoCollisionIn(c, run) && i <= j < |run|
    ensures Grows(run[i], run[j])
    decreases j - i
  {
    if i < j {
      RunInvariant(c, run, i + 1);
      RunAppendOnly(c, run, i + 1, j);
    }
  }

  /** Log matching, across nodes and across time: records with the same hash sit at the same id,
      and they and all earlier records agree in hashes, payload and timestamp. */
  lemma LogMatching(c: Codec, run: seq<System>, i: nat, n: string, p: nat, j: nat, m: string, q: nat)
    requires c.Lawful() && Run(c, run) && NoCollisionIn(c, run) && i < |run| && j < |run|
    requires n in run[i].nodes && p < |run[i].nodes[n].rows|
    requires m in run[j].nodes && q < |run[j].nodes[m].rows|
    requires run[i].nodes[n].rows[p].currentHash == run[j].nodes[m].rows[q].currentHash
    ensures p == q
    ensures forall k: nat :: k <= p ==> Matches(run[i].nodes[n].rows, run[j].nodes[m].rows, k)
  {
    RunInvariant(c, run, i);
    RunInvariant(c, run, j);
    RunWithin(c, run, i);
    RunWithin(c, run, j);
    var a, b := run[i].nodes[n].rows, run[j].nodes[m].rows;
    HashFixesHistory(c, a, p, b, q, RunInputs(c, run));
    forall k: nat | k <= p ensures Matches(a, b, k) {
      assert SameAt(c, a, b, k) && HonestAt(c, a, k) && HonestAt(c, b, k);
      GenuineAgree(c, a, b, k);
    }
  }

  predicate Matches(a: seq<Row>, b: seq<Row>, k: nat) {
    && k < |a| && k < |b| && a[k].id == b[k].id
    && a[k].previousHash == b[k].previousHash && a[k].currentHash == b[k].currentHash
    && a[k].payload == b[k].payload && a[k].timestamp == b[k].timestamp
  }

  /* What a ping tells. */

  predicate SingleTenant(rows: seq<Row>) {
    forall i :: 0 <= i < |rows| ==> rows[i].tenantId == DEFAULT_TENANT
  }

  lemma PingReaction(c: Codec, me: string, st: NodeState, m: Message, seenAt: string, recordedAt: string)
    requires SortedById(st.rows) && m.SyncPing? && m.nodeId != "" && m.nodeId != me
    ensures var out := OnPing(c, me, st, m, seenAt, recordedAt);
            var root, count := RootReport(c, st.rows), |LocalLogs(st.rows)|;
            && m.nodeId in out.state.peers
            && out.state.peers[m.nodeId].status == Classify(root, count, m.merkleRoot, m.eventCount)
            && (|out.state.rows| != |st.rows| <==> count == m.eventCount && root != m.merkleRoot)
            && (out.state.rows != st.rows ==> |out.state.rows| != |st.rows|)
            && (out.sent != [] <==> count < m.eventCount && (m.nodeId, count) !in st.pending)
  {
  }

  lemma ReportsAgree(c: Codec, a: seq<Row>, b: seq<Row>, u: iset<string>)
    requires Chain(c, a) && SingleTenant(a) && Chain(c, b) && SingleTenant(b)
    requires TreeInputs(c.sha256, Hashes(a)) <= u && TreeInputs(c.sha256, Hashes(b)) <= u
    requires CollisionFree(c.sha256, u)
    ensures LocalLogs(a) == a && LocalLogs(b) == b
    ensures |a| == |b| ==> (RootReport(c, a) == RootReport(c, b) <==> Hashes(a) == Hashes(b))
  {
    SelectAll(a);
    SelectAll(b);
    ChainHashes(c, a);
    ChainHashes(c, b);
    if |a| == |b| {
      RootBindsLeaves(c.sha256, Hashes(a), Hashes(b), u);
    }
  }

  /** For two valid single-tenant ledgers: "synchronized" exactly when their hashes are the same sequence;
      a fork event exactly when they have one length and differ; a request exactly when the peer has more
      and none is pending. */
  lemma PingClassifiesExactly(c: Codec, me: string, st: NodeState, peer: string, theirs: seq<Row>,
                              seenAt: string, recordedAt: string, u: iset<string>)
    requires SortedById(st.rows) && Chain(c, st.rows) && SingleTenant(st.rows)
    requires Chain(c, theirs) && SingleTenant(theirs) && peer != "" && peer != me
    requires TreeInputs(c.sha256, Hashes(st.rows)) <= u && TreeInputs(c.sha256, Hashes(theirs)) <= u
    requires CollisionFree(c.sha256, u)
    ensures var out := OnPing(c, me, st, StatusPing(c, peer, theirs).message, seenAt, recordedAt);
            var same := Hashes(st.rows) == Hashes(theirs);
            && peer in out.state.peers
            && (out.state.peers[peer].status == Synchronized <==> same)
            && (out.state.rows != st.rows <==> |st.rows| == |theirs| && !same)
            && (out.sent != [] <==> |st.rows| < |theirs| && (peer, |st.rows|) !in st.pending)
  {
    ReportsAgree(c, st.rows, theirs, u);
    PingReaction(c, me, st, StatusPing(c, peer, theirs).message, seenAt, recordedAt);
  }

  // What an honest node once reported
  lemma HonestPast(c: Codec, node: string, rows: seq<Row>, n: nat)
    requires HonestLedger(c, rows) && n <= |rows|
    ensures Chain(c, rows[..n]) && SingleTenant(rows[..n]) && Hashes(rows[..n]) == Hashes(rows)[..n]
    ensures StatusPing(c, node, rows[..n]).message == SyncPing(node, RootReport(c, rows[..n]), n)
  {
    HonestPrefix(c, rows, n);
    HonestLocal(c, rows[..n]);
    HonestTenant(c, rows[..n]);
    HashesPrefix(rows, n);
  }

  /** In every reachable state a delivered ping records a fork event exactly when the node's history
      differs from the history of that length which the peer really has. */
  lemma ForkEventsAreReal(c: Codec, s: System, me: string, m: Message, seenAt: string, recordedAt: string, u: iset<string>)
    requires Inv(c, s) && me in s.nodes && SortedById(s.nodes[me].rows)
    requires m.SyncPing? && MessageOk(c, s, m) && m.nodeId != "" && m.nodeId != me
    requires TreeInputs(c.sha256, Hashes(s.nodes[me].rows)) <= u
    requires TreeInputs(c.sha256, Hashes(s.nodes[m.nodeId].rows[..m.eventCount])) <= u
    requires CollisionFree(c.sha256, u)
    ensures OnPing(c, me, s.nodes[me], m, seenAt, recordedAt).state.rows != s.nodes[me].rows
       <==> |s.nodes[me].rows| == m.eventCount
            && Hashes(s.nodes[me].rows) != Hashes(s.nodes[m.nodeId].rows)[..m.eventCount]
  {
    var st, theirs := s.nodes[me], s.nodes[m.nodeId].rows;
    HonestTenant(c, st.rows);
    HonestPast(c, m.nodeId, theirs, m.eventCount);
    PingClassifiesExactly(c, me, st, m.nodeId, theirs[..m.eventCount], seenAt, recordedAt, u);
  }

  lemma HonestTenant(c: Codec, rows: seq<Row>)
    requires HonestLedger(c, rows)
    ensures SingleTenant(rows)
  {
    forall i | 0 <= i < |rows| ensures rows[i].tenantId == DEFAULT_TENANT {
      assert HonestAt(c, rows, i);
    }
  }
}
