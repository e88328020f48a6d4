/**
 The consensus daemon: what one node does with a ping, a request and a
 response.  Each handler is a method on the daemon's fields, proved against a
 function on node states; the replication protocol is built from those.
 */
module AuditConsensus {
  import opened Wrappers
  import opened Hashing
  import opened MerkleTree
  import opened AuditChain
  import opened AuditLedger

  datatype PeerStatus = Synchronized | PeerAhead | LocalAhead

  datatype PeerState = PeerState(lastSeen: string, eventCount: int, merkleRoot: string, status: PeerStatus)

  datatype Message =
    | SyncQuery(senderId: string)
    | SyncPing(nodeId: string, merkleRoot: string, eventCount: int)
    | LogsRequest(requesterId: string, providerId: string, afterId: int)
    | LogsResponse(providerId: string, logs: seq<Row>)

  datatype Channel = Check | Request | Response(nodeId: string)

  datatype Envelope = Envelope(channel: Channel, message: Message)

  // A pending request is the pair that makes up its text key "peer:count"
  datatype NodeState = NodeState(rows: seq<Row>, peers: map<string, PeerState>, pending: set<(string, int)>)

  datatype Outcome = Outcome(state: NodeState, sent: seq<Envelope>)

  function LocalLogs(rows: seq<Row>): (logs: seq<Row>)
    ensures forall r :: r in logs <==> r in rows && r.tenantId == DEFAULT_TENANT
  {
    Select(rows, "", DEFAULT_TENANT)
  }

  function StatusPing(c: Codec, me: string, rows: seq<Row>): Envelope {
    Envelope(Check, SyncPing(me, RootReport(c, rows), |LocalLogs(rows)|))
  }

  function Classify(localRoot: string, localCount: int, peerRoot: string, peerCount: int): PeerStatus {
    if peerCount == localCount && peerRoot == localRoot then Synchronized
    else if localCount < peerCount then PeerAhead
    else LocalAhead
  }

  function ForkPayload(peer: string, localRoot: string, peerRoot: string, count: int): map<string, Json> {
    map["error" := Text("Merkle root mismatch with equal event count / unresolvable fork detected"),
        "peer_node_id" := Text(peer), "local_root" := Text(localRoot),
        "peer_root" := Text(peerRoot), "event_count" := Number(count)]
  }

  function RejectionPayload(provider: string, firstId: int): map<string, Json> {
    map["error" := Text("Replicated logs failed cryptographic verification"),
        "provider_node_id" := Text(provider), "first_incoming_id" := Number(firstId)]
  }

  function RecoveryPayload(provider: string, restored: int): map<string, Json> {
    map["message" := Text("Self-healing replication completed successfully"),
        "logs_restored" := Number(restored), "provider_node_id" := Text(provider)]
  }

  function OnPing(c: Codec, me: string, st: NodeState, message: Message, seenAt: string, recordedAt: string): Outcome
    requires SortedById(st.rows)
  {
    match message
    case SyncQuery(_) => Outcome(st, [StatusPing(c, me, st.rows)])
    case SyncPing(peer, peerRoot, peerCount) =>
      if peer == "" || peer == me then Outcome(st, []) else
      var localRoot, localCount := RootReport(c, st.rows), |LocalLogs(st.rows)|;
      var seen := st.(peers := st.peers[peer := PeerState(seenAt, peerCount, peerRoot,
                                                          Classify(localRoot, localCount, peerRoot, peerCount))]);
      if localCount < peerCount then
        if (peer, localCount) in st.pending then Outcome(seen, [])
        else Outcome(seen.(pending := st.pending + {(peer, localCount)}),
                     [Envelope(Request, LogsRequest(me, peer, localCount))])
      else if peerCount == localCount && peerRoot != localRoot then
        Outcome(seen.(rows := Recorded(c, st.rows, "SOC2_VIOLATION",
                                       Object(ForkPayload(peer, localRoot, peerRoot, localCount)),
                                       recordedAt, DEFAULT_TENANT)), [])
      else
        Outcome(seen, [])
    case _ => Outcome(st, [])
  }

  /** What a ping does, in full: the peer's state is what it reported, with the status the comparison gives; a fork
      is recorded with both roots; rows the peer has more of are asked for once. */
  lemma PingExactly(c: Codec, me: string, st: NodeState, m: Message, seenAt: string, recordedAt: string)
    requires SortedById(st.rows) && m.SyncPing? && m.nodeId != "" && m.nodeId != me
    ensures
      var out := OnPing(c, me, st, m, seenAt, recordedAt);
      var root := if Chain(c, st.rows) then MerkleRoot(c.sha256, Hashes(st.rows)) else ZeroHash();
      var count := |LocalLogs(st.rows)|;
      var asks := count < m.eventCount && (m.nodeId, count) !in st.pending;
      var forked := count == m.eventCount && root != m.merkleRoot;
      var status := if count < m.eventCount then PeerAhead
                    else if count > m.eventCount || forked then LocalAhead
                    else Synchronized;
      && out.state.peers == st.peers[m.nodeId := PeerState(seenAt, m.eventCount, m.merkleRoot, status)]
      && out.state.pending == (if asks then st.pending + {(m.nodeId, count)} else st.pending)
      && out.sent == (if asks then [Envelope(Request, LogsRequest(me, m.nodeId, count))] else [])
      && if !forked then out.state.rows == st.rows
         else
           Appends(c, st.rows, out.state.rows,
                   Event("SOC2_VIOLATION",
                         map["error" := Text("Merkle root mismatch with equal event count / unresolvable fork detected"),
                             "peer_node_id" := Text(m.nodeId), "local_root" := Text(root),
                             "peer_root" := Text(m.merkleRoot), "event_count" := Number(count)],
                         recordedAt, DEFAULT_TENANT))
  {
    RecordedAppends(c, st.rows, Event("SOC2_VIOLATION",
                                      ForkPayload(m.nodeId, RootReport(c, st.rows), m.merkleRoot, |LocalLogs(st.rows)|),
                                      recordedAt, DEFAULT_TENANT));
  }

  function OnRequest(me: string, st: NodeState, message: Message): Outcome {
    if message.LogsRequest? && message.providerId == me then
      Outcome(st, [Envelope(Response(message.requesterId), LogsResponse(me, After(st.rows, message.afterId)))])
    else
      Outcome(st, [])
  }

  // One answer to the requester, with exactly the rows after the one it named, in id order
  ghost predicate Answers(request: Message, rows: seq<Row>, sent: seq<Envelope>)
    requires request.LogsRequest?
  {
    && |sent| == 1 && sent[0].channel == Response(request.requesterId)
    && sent[0].message.LogsResponse? && sent[0].message.providerId == request.providerId
    && SortedById(sent[0].message.logs)
    && forall r :: r in sent[0].message.logs <==> r in rows && r.id > request.afterId
  }

  // Incoming record i continues the one before it, the first one the local history
  predicate LinkOk(c: Codec, lastHash: string, logs: seq<Row>, i: nat) {
    && i < |logs|
    && logs[i].previousHash == (if i == 0 then lastHash else logs[i - 1].currentHash)
    && logs[i].currentHash == c.sha256(Preimage(c, logs[i]))
  }

  predicate BatchOk(c: Codec, lastHash: string, logs: seq<Row>) {
    forall i: nat :: i < |logs| ==> LinkOk(c, lastHash, logs, i)
  }

  function LastHash(rows: seq<Row>): string {
    var logs := LocalLogs(rows);
    PrevHash(logs, |logs|)
  }

  function OnResponse(c: Codec, me: string, st: NodeState, message: Message, recordedAt: string): Outcome
    requires SortedById(st.rows)
  {
    if !message.LogsResponse? || message.logs == [] then Outcome(st, [])
    else if !BatchOk(c, LastHash(st.rows), message.logs) then
      Outcome(st.(rows := Recorded(c, st.rows, "SOC2_VIOLATION",
                                   Object(RejectionPayload(message.providerId, message.logs[0].id)),
                                   recordedAt, DEFAULT_TENANT)), [])
    else
      Outcome(st.(rows := Recorded(c, UpsertAll(st.rows, message.logs), "CONSENSUS_RECOVERY",
                                   Object(RecoveryPayload(message.providerId, |message.logs|)),
                                   recordedAt, DEFAULT_TENANT),
                  pending := st.pending - {(message.providerId, |LocalLogs(st.rows)|)}), [])
  }

  lemma ResponseOutcome(c: Codec, me: string, st: NodeState, m: Message, recordedAt: string)
    requires SortedById(st.rows) && m.LogsResponse? && m.logs != []
    ensures !BatchOk(c, LastHash(st.rows), m.logs) ==>
      OnResponse(c, me, st, m, recordedAt)
      == Outcome(st.(rows := Recorded(c, st.rows, "SOC2_VIOLATION",
                                      Object(RejectionPayload(m.providerId, m.logs[0].id)), recordedAt, DEFAULT_TENANT)), [])
    ensures BatchOk(c, LastHash(st.rows), m.logs) ==>
      OnResponse(c, me, st, m, recordedAt)
      == Outcome(st.(rows := Recorded(c, UpsertAll(st.rows, m.logs), "CONSENSUS_RECOVERY",
                                      Object(RecoveryPayload(m.providerId, |m.logs|)), recordedAt, DEFAULT_TENANT),
                     pending := st.pending - {(m.providerId, |LocalLogs(st.rows)|)}), [])
  {
  }

  class AuditConsensusDaemon {
    const ledger: AuditLedger
    const nodeId: string
    var peerStates: map<string, PeerState>
    var pendingRequests: set<(string, int)>

    ghost predicate Valid()
      reads this, ledger
    {
      ledger.Valid()
    }

    function State(): NodeState
      reads this, ledger
    {
      NodeState(ledger.rows, peerStates, pendingRequests)
    }

    constructor (ledger: AuditLedger, nodeId: string)
      requires ledger.Valid()
      ensures Valid() && this.ledger == ledger && this.nodeId == nodeId
      ensures State() == NodeState(ledger.rows, map[], {})
    {
      this.ledger := ledger;
      this.nodeId := nodeId;
      peerStates := map[];
      pendingRequests := {};
    }

    method BroadcastStatus() returns (sent: seq<Envelope>)
      requires Valid()
      ensures sent == [StatusPing(ledger.codec, nodeId, ledger.rows)]
      ensures sent == [Envelope(Check, SyncPing(nodeId,
                                                if Chain(ledger.codec, ledger.rows)
                                                then MerkleRoot(ledger.codec.sha256, Hashes(ledger.rows)) else ZeroHash(),
                                                |LocalLogs(ledger.rows)|))]
    {
      var status := ledger.VerifyChainIntegrity();
      var logs := ledger.GetLogs("", DEFAULT_TENANT);
      sent := [Envelope(Check, SyncPing(nodeId, status.Root(), |logs|))];
    }

    method ProcessPing(message: Message, seenAt: string, recordedAt: string) returns (sent: seq<Envelope>)
      requires Valid()
      modifies this, ledger`rows
      ensures Valid()
      ensures Outcome(State(), sent) == OnPing(ledger.codec, nodeId, old(State()), message, seenAt, recordedAt)
      ensures !message.SyncPing? || message.nodeId == "" || message.nodeId == nodeId ==> State() == old(State())
      ensures message.SyncQuery? ==> sent == [StatusPing(ledger.codec, nodeId, ledger.rows)]
      ensures !message.SyncQuery? && (!message.SyncPing? || message.nodeId == "" || message.nodeId == nodeId) ==> sent == []
    {
      sent := [];
      if message.SyncQuery? {
        sent := BroadcastStatus();
      } else if message.SyncPing? {
        var peerId, peerRoot, peerCount := message.nodeId, message.merkleRoot, message.eventCount;
        if peerId == "" || peerId == nodeId {
          return;
        }
        var status := ledger.VerifyChainIntegrity();
        var localRoot := status.Root();
        var logs := ledger.GetLogs("", DEFAULT_TENANT);
        var localCount := |logs|;
        var peerStatus := LocalAhead;
        if peerCount == localCount && peerRoot == localRoot {
          peerStatus := Synchronized;
        } else if localCount < peerCount {
          peerStatus := PeerAhead;
        }
        peerStates := peerStates[peerId := PeerState(seenAt, peerCount, peerRoot, peerStatus)];
        if localCount < peerCount {
          var key := (peerId, localCount);
          if key !in pendingRequests {
            pendingRequests := pendingRequests + {key};
            sent := [Envelope(Request, LogsRequest(nodeId, peerId, localCount))];
          }
        } else if peerCount == localCount && peerRoot != localRoot {
          var _ := ledger.RecordEvent("SOC2_VIOLATION", ForkPayload(peerId, localRoot, peerRoot, localCount),
                                      recordedAt, DEFAULT_TENANT);
        }
      }
    }

    method ProcessRequest(message: Message) returns (sent: seq<Envelope>)
      requires Valid()
      ensures Outcome(State(), sent) == OnRequest(nodeId, State(), message)
      ensures if message.LogsRequest? && message.providerId == nodeId then Answers(message, ledger.rows, sent) else sent == []
    {
      if !message.LogsRequest? || message.providerId != nodeId {
        return [];
      }
      var logs := ledger.GetLogsAfter(message.afterId);
      sent := [Envelope(Response(message.requesterId), LogsResponse(nodeId, logs))];
    }

    // The loop that checks incoming records against the last local hash
    method VerifyIncoming(lastHash: string, incomingLogs: seq<Row>) returns (verificationFailed: bool)
      ensures verificationFailed <==> !BatchOk(ledger.codec, lastHash, incomingLogs)
    {
      var expectedPrevHash := lastHash;
      verificationFailed := false;
      for i := 0 to |incomingLogs|
        invariant !verificationFailed
        invariant expectedPrevHash == if i == 0 then lastHash else incomingLogs[i - 1].currentHash
        invariant forall k: nat :: k < i ==> LinkOk(ledger.codec, lastHash, incomingLogs, k)
      {
        var log := incomingLogs[i];
        if log.previousHash != expectedPrevHash {
          assert !LinkOk(ledger.codec, lastHash, incomingLogs, i);
          return true;
        }
        var payloadStr := match ledger.codec.loads(log.payload)
                          case Some(v) => ledger.codec.dumps(v)
                          case None => log.payload;
        if ledger.codec.sha256(log.previousHash + payloadStr + log.timestamp) != log.currentHash {
          assert !LinkOk(ledger.codec, lastHash, incomingLogs, i);
          return true;
        }
        expectedPrevHash := log.currentHash;
        assert LinkOk(ledger.codec, lastHash, incomingLogs, i);
      }
    }

    method ProcessResponse(message: Message, recordedAt: string) returns (sent: seq<Envelope>)
      requires Valid()
      modifies this, ledger`rows
      ensures Valid()
      ensures Outcome(State(), sent) == OnResponse(ledger.codec, nodeId, old(State()), message, recordedAt)
      ensures sent == [] && (!message.LogsResponse? || message.logs == [] ==> State() == old(State()))
    {
      sent := [];
      if !message.LogsResponse? || message.logs == [] {
        return;
      }
      var providerId, incomingLogs := message.providerId, message.logs;
      var localLogs := ledger.GetLogs("", DEFAULT_TENANT);
      var localCount := |localLogs|;
      var lastHash := if localLogs != [] then localLogs[|localLogs| - 1].currentHash else ZeroHash();
      var verificationFailed := VerifyIncoming(lastHash, incomingLogs);
      ResponseOutcome(ledger.codec, nodeId, State(), message, recordedAt);
      if verificationFailed {
        var _ := ledger.RecordEvent("SOC2_VIOLATION", RejectionPayload(providerId, incomingLogs[0].id),
                                    recordedAt, DEFAULT_TENANT);
        return;
      }
      Restore(providerId, incomingLogs, localCount, recordedAt);
    }

    // The part that heals the replica
    method Restore(providerId: string, logs: seq<Row>, localCount: nat, recordedAt: string)
      requires Valid()
      modifies this, ledger`rows
      ensures Valid()
      ensures State() == old(State()).(
        rows := Recorded(ledger.codec, UpsertAll(old(ledger.rows), logs), "CONSENSUS_RECOVERY",
                         Object(RecoveryPayload(providerId, |logs|)), recordedAt, DEFAULT_TENANT),
        pending := old(pendingRequests) - {(providerId, localCount)})
    {
      InsertAll(logs);
      pendingRequests := pendingRequests - {(providerId, localCount)};
      var _ := ledger.RecordEvent("CONSENSUS_RECOVERY", RecoveryPayload(providerId, |logs|), recordedAt, DEFAULT_TENANT);
    }

    method InsertAll(logs: seq<Row>)
      requires Valid()
      modifies ledger`rows
      ensures Valid() && ledger.rows == UpsertAll(old(ledger.rows), logs)
    {
      for i := 0 to |logs|
        invariant Valid()
        invariant UpsertAll(ledger.rows, logs[i..]) == UpsertAll(old(ledger.rows), logs)
      {
        assert logs[i..][0] == logs[i] && logs[i..][1..] == logs[i + 1..];
        ledger.InsertRawEvent(logs[i]);
      }
    }
  }
}
