/**
 What whole runs of the replication protocol say about requests and about
 convergence.
 */
module ReplicationHistory {
  import opened Hashing
  import opened AuditChain
  import opened AuditLedger
  import opened AuditConsensus
  import opened ReplicationProtocol

  // A run with the steps that made it
  ghost predicate TakenAt(c: Codec, run: seq<System>, steps: seq<Step>, i: nat) {
    i < |steps| && i + 1 < |run| && Next(c, run[i], run[i + 1], steps[i])
  }

  ghost predicate Taken(c: Codec, run: seq<System>, steps: seq<Step>) {
    |run| == |steps| + 1 && Init(run[0]) && forall i: nat :: i < |steps| ==> TakenAt(c, run, steps, i)
  }

  lemma TakenIsRun(c: Codec, run: seq<System>, steps: seq<Step>)
    requires Taken(c, run, steps)
    ensures Run(c, run)
  {
    forall i: nat | i < |run| - 1 ensures StepAt(c, run, i) {
      assert TakenAt(c, run, steps, i);
    }
  }

  /* Requests. */

  predicate Publishes(c: Codec, s: System, step: Step, node: string, peer: string, afterId: int) {
    && Enabled(s, step) && step.node == node
    && Envelope(Request, LogsRequest(node, peer, afterId)) in Perform(c, s.nodes[node], step).sent
  }

  // The request is pending, or the ledger has grown past it
  predicate Settled(st: NodeState, peer: string, afterId: int) {
    (peer, afterId) in st.pending || |st.rows| > afterId
  }

  lemma PublishedOnce(c: Codec, s: System, step: Step, node: string, peer: string, afterId: int)
    requires Inv(c, s) && Publishes(c, s, step, node, peer, afterId)
    ensures !Settled(s.nodes[node], peer, afterId)
    ensures Settled(Perform(c, s.nodes[node], step).state, peer, afterId)
  {
    HonestLocal(c, s.nodes[node].rows);
  }

  lemma UpsertNotShorter(rows: seq<Row>, r: Row)
    requires SortedById(rows)
    ensures |Upsert(rows, r)| >= |rows|
  {
  }

  lemma {:induction false} UpsertAllNotShorter(rows: seq<Row>, batch: seq<Row>)
    requires SortedById(rows)
    ensures |UpsertAll(rows, batch)| >= |rows|
    decreases |batch|
  {
    if batch != [] {
      UpsertNotShorter(rows, batch[0]);
      UpsertAllNotShorter(Upsert(rows, batch[0]), batch[1..]);
    }
  }

  lemma ResponseSettles(c: Codec, me: string, st: NodeState, m: Message, recordedAt: string, peer: string, afterId: int)
    requires SortedById(st.rows) && LocalLogs(st.rows) == st.rows && Settled(st, peer, afterId)
    ensures Settled(OnResponse(c, me, st, m, recordedAt).state, peer, afterId)
  {
    if m.LogsResponse? && m.logs != [] {
      ResponseOutcome(c, me, st, m, recordedAt);
      UpsertAllNotShorter(st.rows, m.logs);
    }
  }

  lemma PingSettles(c: Codec, me: string, st: NodeState, m: Message, seenAt: string, recordedAt: string,
                    peer: string, afterId: int)
    requires SortedById(st.rows) && Settled(st, peer, afterId)
    ensures Settled(OnPing(c, me, st, m, seenAt, recordedAt).state, peer, afterId)
  {
  }

  lemma StaysSettled(c: Codec, s: System, t: System, step: Step, node: string, peer: string, afterId: int)
    requires Inv(c, s) && Next(c, s, t, step) && node in s.nodes
    requires Settled(s.nodes[node], peer, afterId) && step != Restart(node)
    ensures Settled(t.nodes[node], peer, afterId)
  {
    if step.node == node {
      var st := s.nodes[node];
      HonestLocal(c, st.rows);
      if step.Deliver? {
        match step.envelope.channel {
          case Check => PingSettles(c, node, st, step.envelope.message, step.seenAt, step.recordedAt, peer, afterId);
          case Request =>
          case Response(n) => ResponseSettles(c, node, st, step.envelope.message, step.recordedAt, peer, afterId);
        }
      }
    }
  }

  lemma {:induction false} SettledUntil(c: Codec, run: seq<System>, steps: seq<Step>, i: nat, j: nat,
                                        node: string, peer: string, afterId: int)
    requires c.Lawful() && Taken(c, run, steps) && NoCollisionIn(c, run) && i <= j < |run|
    requires node in run[i].nodes && Settled(run[i].nodes[node], peer, afterId)
    requires forall k: nat :: i <= k < j ==> steps[k] != Restart(node)
    ensures node in run[j].nodes && Settled(run[j].nodes[node], peer, afterId)
    decreases j - i
  {
    if i < j {
      TakenIsRun(c, run, steps);
      RunInvariant(c, run, i);
      assert TakenAt(c, run, steps, i);
      StaysSettled(c, run[i], run[i + 1], steps[i], node, peer, afterId);
      SettledUntil(c, run, steps, i + 1, j, node, peer, afterId);
    }
  }

  /** Between its restarts a node publishes at most one request for a peer and a length: a lost request or
      response is not asked for again until the ledger has grown. */
  lemma OneRequestBetweenRestarts(c: Codec, run: seq<System>, steps: seq<Step>, i: nat, j: nat,
                                  node: string, peer: string, afterId: int)
    requires c.Lawful() && Taken(c, run, steps) && NoCollisionIn(c, run) && i < j < |steps|
    requires Publishes(c, run[i], steps[i], node, peer, afterId)
    requires Publishes(c, run[j], steps[j], node, peer, afterId)
    ensures exists k: nat :: i < k < j && steps[k] == Restart(node)
  {
    if forall k: nat :: i < k < j ==> steps[k] != Restart(node) {
      TakenIsRun(c, run, steps);
      RunInvariant(c, run, i);
      RunInvariant(c, run, j);
      assert TakenAt(c, run, steps, i);
      PublishedOnce(c, run[i], steps[i], node, peer, afterId);
      SettledUntil(c, run, steps, i + 1, j, node, peer, afterId);
      PublishedOnce(c, run[j], steps[j], node, peer, afterId);
      assert false;
    }
  }

  /* Convergence. */

  // When the node itself would record an event in a step
  function OwnTime(step: Step): string {
    match step
    case Record(_, _, _, timestamp) => timestamp
    case Deliver(_, _, _, recordedAt) => recordedAt
    case _ => ""
  }

  // The last of the rows was sealed in the step, over the rows before it
  ghost predicate Seals(c: Codec, step: Step, rows: seq<Row>) {
    exists base: seq<Row>, eventType: string, payload: map<string, Json> :: SealedOver(c, step, rows, base, eventType, payload)
  }

  ghost predicate SealedOver(c: Codec, step: Step, rows: seq<Row>, base: seq<Row>, eventType: string,
                             payload: map<string, Json>)
  {
    SortedById(base) && rows == Recorded(c, base, eventType, Object(payload), OwnTime(step), DEFAULT_TENANT)
  }

  lemma PingSeals(c: Codec, me: string, st: NodeState, step: Step)
    requires SortedById(st.rows) && step.Deliver?
    ensures var rows := OnPing(c, me, st, step.envelope.message, step.seenAt, step.recordedAt).state.rows;
      rows == st.rows || Seals(c, step, rows)
  {
    var m := step.envelope.message;
    if m.SyncPing? {
      PingOutcome(c, me, st, m, step.seenAt, step.recordedAt);
      var rows := OnPing(c, me, st, m, step.seenAt, step.recordedAt).state.rows;
      if rows != st.rows {
        var p :| rows == Recorded(c, st.rows, "SOC2_VIOLATION", Object(p), step.recordedAt, DEFAULT_TENANT);
        assert SealedOver(c, step, rows, st.rows, "SOC2_VIOLATION", p);
      }
    }
  }

  lemma ResponseSeals(c: Codec, me: string, st: NodeState, step: Step)
    requires SortedById(st.rows) && step.Deliver?
    ensures var rows := OnResponse(c, me, st, step.envelope.message, step.recordedAt).state.rows;
      rows == st.rows || Seals(c, step, rows)
  {
    var m := step.envelope.message;
    if m.LogsResponse? && m.logs != [] {
      ResponseOutcome(c, me, st, m, step.recordedAt);
      var rows := OnResponse(c, me, st, m, step.recordedAt).state.rows;
      if BatchOk(c, LastHash(st.rows), m.logs) {
        assert SealedOver(c, step, rows, UpsertAll(st.rows, m.logs), "CONSENSUS_RECOVERY",
                          RecoveryPayload(m.providerId, |m.logs|));
      } else {
        assert SealedOver(c, step, rows, st.rows, "SOC2_VIOLATION", RejectionPayload(m.providerId, m.logs[0].id));
      }
    }
  }

  // A step changes no ledger but by an event of the node's own, which comes last
  lemma ChangeIsSealed(c: Codec, s: System, t: System, step: Step, node: string)
    requires Next(c, s, t, step) && node in s.nodes
    ensures t.nodes[node].rows == s.nodes[node].rows || (step.node == node && Seals(c, step, t.nodes[node].rows))
  {
    if step.node == node {
      var st := s.nodes[node];
      match step {
        case Record(_, eventType, payload, timestamp) =>
          assert SealedOver(c, step, t.nodes[node].rows, st.rows, eventType, payload);
        case Deliver(_, e, _, _) =>
          PingSeals(c, node, st, step);
          ResponseSeals(c, node, st, step);
        case _ =>
      }
    }
  }

  // Step j of the run is the node's own and sealed the last row of its ledger in state i
  ghost predicate SealedAt(c: Codec, run: seq<System>, steps: seq<Step>, i: nat, node: string, j: nat) {
    && j < i < |run| && j < |steps| && steps[j].node == node && node in run[i].nodes
    && Seals(c, steps[j], run[i].nodes[node].rows)
  }

  /** The last row of a ledger is always one its own node sealed. */
  lemma {:induction false} LastRowIsOwn(c: Codec, run: seq<System>, steps: seq<Step>, i: nat, node: string)
    requires Taken(c, run, steps) && i < |run| && node in run[i].nodes && run[i].nodes[node].rows != []
    ensures exists j: nat :: SealedAt(c, run, steps, i, node, j)
  {
    if i == 0 {
      assert false;
    }
    assert TakenAt(c, run, steps, i - 1);
    ChangeIsSealed(c, run[i - 1], run[i], steps[i - 1], node);
    if run[i].nodes[node].rows == run[i - 1].nodes[node].rows {
      LastRowIsOwn(c, run, steps, i - 1, node);
      var j: nat :| SealedAt(c, run, steps, i - 1, node, j);
      assert SealedAt(c, run, steps, i, node, j);
    } else {
      assert SealedAt(c, run, steps, i, node, i - 1);
    }
  }

  lemma SealedTime(c: Codec, step: Step, rows: seq<Row>)
    requires Seals(c, step, rows)
    ensures rows != [] && rows[|rows| - 1].timestamp == OwnTime(step)
  {
    var base, eventType, payload :| SealedOver(c, step, rows, base, eventType, payload);
  }

  /** Replicas agree only by coincidence: two nodes with the same ledger, which has rows, have each sealed its
      last row themselves, with the same payload at the same time over the same history. */
  lemma AgreementIsCoincidence(c: Codec, run: seq<System>, steps: seq<Step>, i: nat, n: string, m: string)
    requires Taken(c, run, steps) && i < |run| && n in run[i].nodes && m in run[i].nodes && n != m
    requires run[i].nodes[n].rows == run[i].nodes[m].rows != []
    ensures exists j: nat, k: nat ::
      && SealedAt(c, run, steps, i, n, j) && SealedAt(c, run, steps, i, m, k)
      && j != k && OwnTime(steps[j]) == OwnTime(steps[k])
  {
    LastRowIsOwn(c, run, steps, i, n);
    LastRowIsOwn(c, run, steps, i, m);
    var j: nat :| SealedAt(c, run, steps, i, n, j);
    var k: nat :| SealedAt(c, run, steps, i, m, k);
    SealedTime(c, steps[j], run[i].nodes[n].rows);
    SealedTime(c, steps[k], run[i].nodes[m].rows);
  }
}
