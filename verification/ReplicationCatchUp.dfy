/**
 One node catching up with another: the ping, the request it causes and the
 answer, delivered in turn.
 */
module ReplicationCatchUp {
  import opened Hashing
  import opened AuditChain
  import opened AuditLedger
  import opened AuditConsensus
  import opened ReplicationProtocol

  /** An honest node answers a request, on the requester's channel, with all its rows from there on. */
  lemma RequestAnswered(c: Codec, me: string, st: NodeState, requester: string, a: nat, seenAt: string, recordedAt: string)
    requires HonestLedger(c, st.rows) && SortedById(st.rows) && a <= |st.rows|
    ensures Receive(c, me, st, Envelope(Request, LogsRequest(requester, me, a)), seenAt, recordedAt)
         == Outcome(st, [Envelope(Response(requester), LogsResponse(me, st.rows[a..]))])
  {
    HonestIds(c, st.rows);
    AfterIsSuffix(st.rows, 0, a);
  }

  // A node with rows of its own past the history of another, told so
  lemma PingAsks(c: Codec, me: string, st: NodeState, them: string, other: NodeState, seenAt: string, recordedAt: string)
    requires HonestLedger(c, st.rows) && SortedById(st.rows) && HonestLedger(c, other.rows) && SortedById(other.rows)
    requires them != "" && me != them && |st.rows| < |other.rows| && (them, |st.rows|) !in st.pending
    ensures
      var ping := Perform(c, other, Broadcast(them)).sent;
      && |ping| == 1
      && var asked := Receive(c, me, st, ping[0], seenAt, recordedAt);
         && asked.state.rows == st.rows && asked.state.pending == st.pending + {(them, |st.rows|)}
         && asked.sent == [Envelope(Request, LogsRequest(me, them, |st.rows|))]
  {
    HonestLocal(c, st.rows);
    HonestLocal(c, other.rows);
  }

  // What the requester records of the answer
  function Recovery(them: string, restored: int, recordedAt: string): Event {
    Event("CONSENSUS_RECOVERY",
          map["message" := Text("Self-healing replication completed successfully"),
              "logs_restored" := Number(restored), "provider_node_id" := Text(them)],
          recordedAt, DEFAULT_TENANT)
  }

  function Violation(them: string, firstId: int, recordedAt: string): Event {
    Event("SOC2_VIOLATION",
          map["error" := Text("Replicated logs failed cryptographic verification"),
              "provider_node_id" := Text(them), "first_incoming_id" := Number(firstId)],
          recordedAt, DEFAULT_TENANT)
  }

  // The rows that were missing and the recovery, if the histories are one; otherwise only a violation
  ghost predicate CaughtUp(c: Codec, local: seq<Row>, pending: set<(string, int)>, them: string, peer: seq<Row>,
                           after: NodeState, recordedAt: string)
    requires |local| <= |peer|
  {
    var n := |local|;
    if SameUpTo(c, local, peer, n) then
      && Appends(c, local + peer[n..], after.rows, Recovery(them, |peer| - n, recordedAt))
      && after.pending == pending - {(them, n)}
    else
      && Appends(c, local, after.rows, Violation(them, n + 1, recordedAt))
      && after.pending == pending
  }

  lemma SuffixAccepted(c: Codec, local: seq<Row>, peer: seq<Row>, u: iset<string>)
    requires HonestLedger(c, local) && SortedById(local) && HonestLedger(c, peer) && |local| < |peer|
    requires InputsWithin(c, local, u) && InputsWithin(c, peer, u)
    requires CollisionFree(c.sha256, u) && AvoidsZero(c.sha256, u)
    ensures BatchOk(c, LastHash(local), peer[|local|..]) <==> SameUpTo(c, local, peer, |local|)
    ensures SameUpTo(c, local, peer, |local|) ==>
      UpsertAll(local, peer[|local|..]) == local + peer[|local|..] && SortedById(local + peer[|local|..])
    ensures peer[|local|].id == |local| + 1
  {
    var n := |local|;
    assert peer[n..] == peer[n..|peer|];
    AcceptedExactly(c, local, peer, n, |peer|, u);
    if SameUpTo(c, local, peer, n) {
      AcceptedAppends(c, local, peer, n, |peer|, u);
      HonestSorted(c, local + peer[n..]);
    }
    assert HonestAt(c, peer, n);
  }

  lemma Restored(c: Codec, me: string, st: NodeState, them: string, logs: seq<Row>, recordedAt: string)
    requires SortedById(st.rows) && logs != [] && BatchOk(c, LastHash(st.rows), logs)
    requires UpsertAll(st.rows, logs) == st.rows + logs && SortedById(st.rows + logs)
    ensures
      var out := OnResponse(c, me, st, LogsResponse(them, logs), recordedAt);
      && out.sent == [] && Appends(c, st.rows + logs, out.state.rows, Recovery(them, |logs|, recordedAt))
      && out.state.pending == st.pending - {(them, |LocalLogs(st.rows)|)}
  {
    ResponseOutcome(c, me, st, LogsResponse(them, logs), recordedAt);
    RecordedAppends(c, st.rows + logs, Recovery(them, |logs|, recordedAt));
  }

  lemma Rejected(c: Codec, me: string, st: NodeState, them: string, logs: seq<Row>, recordedAt: string)
    requires SortedById(st.rows) && logs != [] && !BatchOk(c, LastHash(st.rows), logs)
    ensures
      var out := OnResponse(c, me, st, LogsResponse(them, logs), recordedAt);
      && out.sent == [] && Appends(c, st.rows, out.state.rows, Violation(them, logs[0].id, recordedAt))
      && out.state.pending == st.pending
  {
    ResponseOutcome(c, me, st, LogsResponse(them, logs), recordedAt);
    RecordedAppends(c, st.rows, Violation(them, logs[0].id, recordedAt));
  }

  lemma AnswerTaken(c: Codec, me: string, st: NodeState, them: string, peer: seq<Row>, seenAt: string, recordedAt: string,
                    u: iset<string>)
    requires HonestLedger(c, st.rows) && SortedById(st.rows) && HonestLedger(c, peer) && |st.rows| < |peer|
    requires InputsWithin(c, st.rows, u) && InputsWithin(c, peer, u)
    requires CollisionFree(c.sha256, u) && AvoidsZero(c.sha256, u)
    ensures
      var out := Receive(c, me, st, Envelope(Response(me), LogsResponse(them, peer[|st.rows|..])), seenAt, recordedAt);
      out.sent == [] && CaughtUp(c, st.rows, st.pending, them, peer, out.state, recordedAt)
  {
    HonestLocal(c, st.rows);
    SuffixAccepted(c, st.rows, peer, u);
    if SameUpTo(c, st.rows, peer, |st.rows|) {
      Restored(c, me, st, them, peer[|st.rows|..], recordedAt);
    } else {
      Rejected(c, me, st, them, peer[|st.rows|..], recordedAt);
    }
  }

  // One node hears an envelope that makes it send just one
  ghost predicate Replies(c: Codec, me: string, st: NodeState, e: Envelope, seenAt: string, recordedAt: string,
                          after: NodeState, reply: Envelope)
  {
    SortedById(st.rows) && Receive(c, me, st, e, seenAt, recordedAt) == Outcome(after, [reply])
  }

  /** Catching up: a shorter honest node hears the ping of a longer one, the longer one hears the request that
      follows, having grown or not, and the shorter one hears the answer. Then it has exactly the rows it lacked
      and one that says so, if and only if its history was the other's; if not, it keeps its own and records a
      violation. */
  lemma CatchUpExactly(c: Codec, me: string, st: NodeState, them: string, other: NodeState, grown: NodeState,
                       seenAt: string, recordedAt: string, u: iset<string>)
    returns (ping: Envelope, asked: NodeState, request: Envelope, answer: Envelope, healed: NodeState)
    requires HonestLedger(c, st.rows) && SortedById(st.rows) && HonestLedger(c, other.rows) && SortedById(other.rows)
    requires HonestLedger(c, grown.rows) && SortedById(grown.rows) && other.rows <= grown.rows
    requires them != "" && me != them && |st.rows| < |other.rows| && (them, |st.rows|) !in st.pending
    requires InputsWithin(c, st.rows, u) && InputsWithin(c, grown.rows, u)
    requires CollisionFree(c.sha256, u) && AvoidsZero(c.sha256, u)
    ensures Perform(c, other, Broadcast(them)).sent == [ping]
    ensures Replies(c, me, st, ping, seenAt, recordedAt, asked, request)
    ensures Replies(c, them, grown, request, seenAt, recordedAt, grown, answer)
    ensures SortedById(asked.rows) && Receive(c, me, asked, answer, seenAt, recordedAt) == Outcome(healed, [])
    ensures CaughtUp(c, st.rows, st.pending + {(them, |st.rows|)}, them, grown.rows, healed, recordedAt)
  {
    PingAsks(c, me, st, them, other, seenAt, recordedAt);
    ping := Perform(c, other, Broadcast(them)).sent[0];
    asked := Receive(c, me, st, ping, seenAt, recordedAt).state;
    request := Envelope(Request, LogsRequest(me, them, |st.rows|));
    RequestAnswered(c, them, grown, me, |st.rows|, seenAt, recordedAt);
    answer := Envelope(Response(me), LogsResponse(them, grown.rows[|st.rows|..]));
    AnswerTaken(c, me, asked, them, grown.rows, seenAt, recordedAt, u);
    healed := Receive(c, me, asked, answer, seenAt, recordedAt).state;
  }
}
