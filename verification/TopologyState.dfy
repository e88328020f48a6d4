/**
 The emitter of agent_workspace/topology_bridge.py: events kept by node and
 edge, written out as a sorted snapshot after each, and read back on restart.
 */
module TopologyState {
  import opened Wrappers
  import opened Text
  import opened Dictionaries
  import opened Sorting

  // The texts of a payload, with the two numbers the statistics sum; absent numbers are 0
  datatype Payload = Payload(texts: map<string, string>, tokenUsed: int, durationMs: int)

  datatype TopologyEvent = TopologyEvent(
    eventId: string, timestamp: string, sessionId: string, nodeId: string, parentNodeId: Option<string>,
    nodeType: string, edgeType: Option<string>, status: string, payload: Payload)

  const ALLOWED_NODE_TYPES := {"session_root", "agent", "handoff", "tool_call", "hitl_gate", "workflow_stage", "error"}
  const ALLOWED_EDGE_TYPES := {"handoff", "tool", "rbac", "error", "hitl"}
  const ALLOWED_STATUSES := {"pending", "running", "completed", "error", "awaiting_approval"}

  // What the constructor of an event lets through
  predicate Allowed(e: TopologyEvent) {
    && e.nodeType in ALLOWED_NODE_TYPES
    && (e.edgeType.Some? ==> e.edgeType.value in ALLOWED_EDGE_TYPES)
    && e.status in ALLOWED_STATUSES
  }

  datatype Edge = Edge(id: string, source: string, target: string, edgeType: string, caption: string)

  // A node of the snapshot; the last three are keys only older files have
  datatype NodeOut = NodeOut(
    id: string, title: string, status: string, assignedAgent: string, description: string, resultSummary: string,
    createdAt: string, updatedAt: string, eventId: string, parentNodeId: Option<string>, nodeType: string,
    edgeType: Option<string>, payload: Payload,
    oldNodeId: Option<string>, oldTimestamp: Option<string>, oldSessionId: Option<string>)

  datatype Stats = Stats(totalNodes: nat, completed: nat, running: nat, pending: nat, errors: nat, totalTokens: int,
                         totalDurationMs: int)

  datatype Snapshot = Snapshot(projectName: string, summary: string, sessionId: string, startedAt: string,
                               updatedAt: string, stats: Stats, nodes: seq<NodeOut>, edges: seq<Edge>)

  // The values of an emitter's fields
  datatype Emitter = Emitter(sessionId: string, projectName: string, summary: string, startedAt: string,
                             nodes: Dict<TopologyEvent>, edges: Dict<Edge>)

  // `a or b` on texts
  function Or(a: string, b: string): string {
    if a == "" then b else a
  }

  function TextOf(p: Payload, key: string, otherwise: string): string {
    if key in p.texts then p.texts[key] else otherwise
  }

  /* Events. */

  predicate HasEdge(e: TopologyEvent) {
    e.parentNodeId.Some? && e.parentNodeId.value != "" && e.edgeType.Some? && e.edgeType.value != ""
  }

  function EdgeFrom(e: TopologyEvent): Edge
    requires HasEdge(e)
  {
    var parent, edgeType := e.parentNodeId.value, e.edgeType.value;
    Edge("edge-" + parent + "-" + e.nodeId + "-" + edgeType, parent, e.nodeId, edgeType,
         Or(TextOf(e.payload, "name", ""), Or(TextOf(e.payload, "description", ""), edgeType)))
  }

  lemma EdgeTypesUnhyphenated(edgeType: string)
    requires edgeType in ALLOWED_EDGE_TYPES
    ensures '-' !in edgeType
  {
  }

  function Ends(e: TopologyEvent): string
    requires HasEdge(e)
  {
    e.parentNodeId.value + "-" + e.nodeId
  }

  /** Two events name one edge exactly when their edge types agree and parent and node run together to one text. */
  lemma EdgesCoincideExactly(e: TopologyEvent, f: TopologyEvent)
    requires Allowed(e) && Allowed(f) && HasEdge(e) && HasEdge(f)
    ensures EdgeFrom(e).id == EdgeFrom(f).id <==> e.edgeType == f.edgeType && Ends(e) == Ends(f)
  {
    var x, y := "edge-" + Ends(e), "edge-" + Ends(f);
    EdgeTypesUnhyphenated(e.edgeType.value);
    EdgeTypesUnhyphenated(f.edgeType.value);
    assert EdgeFrom(e).id == x + ['-'] + e.edgeType.value && EdgeFrom(f).id == y + ['-'] + f.edgeType.value;
    if EdgeFrom(e).id == EdgeFrom(f).id {
      SplitAtLast('-', x, e.edgeType.value, y, f.edgeType.value);
      assert Ends(e) == x[5..] && Ends(f) == y[5..];
    }
  }

  function Recorded(m: Emitter, e: TopologyEvent): Emitter {
    m.(nodes := m.nodes.Assigned(e.nodeId, e),
       edges := if HasEdge(e) then m.edges.Assigned(EdgeFrom(e).id, EdgeFrom(e)) else m.edges)
  }

  /* Snapshots. */

  function UiStatus(status: string): string {
    match status
    case "pending" => "todo"
    case "running" => "in_process"
    case "awaiting_approval" => "review"
    case "completed" => "done"
    case _ => status
  }

  function EventStatus(status: string): string {
    match status
    case "todo" => "pending"
    case "in_process" => "running"
    case "review" => "awaiting_approval"
    case "done" => "completed"
    case _ => status
  }

  function NodeFrom(e: TopologyEvent, updatedAt: string): NodeOut {
    NodeOut(e.nodeId, TextOf(e.payload, "title", "Task: " + e.nodeType), UiStatus(e.status),
            TextOf(e.payload, "assigned_agent", "system"), TextOf(e.payload, "description", ""),
            TextOf(e.payload, "result_summary", ""), e.timestamp, Or(updatedAt, e.timestamp),
            e.eventId, e.parentNodeId, e.nodeType, e.edgeType, e.payload, None, None, None)
  }

  function StampOf(e: TopologyEvent): string {
    e.timestamp
  }

  function NodeIdOf(e: TopologyEvent): string {
    e.nodeId
  }

  function EdgeIdOf(e: Edge): string {
    e.id
  }

  function NodesFrom(es: seq<TopologyEvent>, updatedAt: string): (ns: seq<NodeOut>)
    ensures |ns| == |es| && forall i :: 0 <= i < |es| ==> ns[i] == NodeFrom(es[i], updatedAt)
  {
    if es == [] then [] else [NodeFrom(es[0], updatedAt)] + NodesFrom(es[1..], updatedAt)
  }

  function NoStats(): Stats {
    Stats(0, 0, 0, 0, 0, 0, 0)
  }

  function Counted(s: Stats, e: TopologyEvent): Stats {
    Stats(s.totalNodes + 1,
          s.completed + if e.status == "completed" then 1 else 0,
          s.running + if e.status == "running" then 1 else 0,
          s.pending + if e.status == "pending" then 1 else 0,
          s.errors + if e.status == "error" then 1 else 0,
          s.totalTokens + e.payload.tokenUsed,
          s.totalDurationMs + e.payload.durationMs)
  }

  function StatsOf(es: seq<TopologyEvent>): Stats {
    if es == [] then NoStats() else Counted(StatsOf(es[1..]), es[0])
  }

  // Every node and edge is stored under its own id, and only what the constructor allows
  ghost predicate Valid(m: Emitter) {
    && m.nodes.Valid() && KnowKeys(m.nodes, NodeIdOf) && m.edges.Valid() && KnowKeys(m.edges, EdgeIdOf)
    && (forall k :: k in m.nodes.values ==> Allowed(m.nodes.values[k]) && m.nodes.values[k].sessionId == m.sessionId)
    && (forall k :: k in m.edges.values ==> k != "")
    && m.startedAt != ""
  }

  function Build(m: Emitter, updatedAt: string, now: string): Snapshot
    requires m.nodes.Valid() && m.edges.Valid()
  {
    Snapshot(m.projectName, m.summary, m.sessionId, m.startedAt, Or(updatedAt, now), StatsOf(Values(m.nodes)),
             NodesFrom(Sort(Values(m.nodes), StampOf), updatedAt), Sort(Values(m.edges), EdgeIdOf))
  }

  function Statuses(es: seq<TopologyEvent>): (statuses: seq<string>)
    ensures |statuses| == |es| && forall i :: 0 <= i < |es| ==> statuses[i] == es[i].status
  {
    seq(|es|, i requires 0 <= i < |es| => es[i].status)
  }

  /** The statistics count the nodes of each status and add up what the events spent. */
  lemma {:induction false} StatsExactly(es: seq<TopologyEvent>)
    ensures
      var s, statuses := StatsOf(es), multiset(Statuses(es));
      && s.totalNodes == |es| && s.completed == statuses["completed"] && s.running == statuses["running"]
      && s.pending == statuses["pending"] && s.errors == statuses["error"]
    ensures es == [] ==> StatsOf(es).totalTokens == 0 && StatsOf(es).totalDurationMs == 0
    ensures es != [] ==>
      && StatsOf(es).totalTokens == es[0].payload.tokenUsed + StatsOf(es[1..]).totalTokens
      && StatsOf(es).totalDurationMs == es[0].payload.durationMs + StatsOf(es[1..]).totalDurationMs
  {
    if es != [] {
      StatsExactly(es[1..]);
      assert Statuses(es) == [es[0].status] + Statuses(es[1..]);
    }
  }

  /* Reading back. */

  // None where the constructor of the event raises
  function EventFrom(n: NodeOut, sessionId: string): Option<TopologyEvent> {
    var e := TopologyEvent(
      n.eventId,
      match n.oldTimestamp case Some(t) => t case None => n.createdAt,
      match n.oldSessionId case Some(s) => s case None => sessionId,
      match n.oldNodeId case Some(id) => id case None => n.id,
      n.parentNodeId, n.nodeType, n.edgeType, EventStatus(n.status), n.payload);
    if Allowed(e) then Some(e) else None
  }

  function EventsFrom(ns: seq<NodeOut>, sessionId: string): seq<TopologyEvent> {
    if ns == [] then []
    else
      var rest := EventsFrom(ns[1..], sessionId);
      match EventFrom(ns[0], sessionId)
      case Some(e) => [e] + rest
      case None => rest
  }

  function WithIds(es: seq<Edge>): seq<Edge> {
    if es == [] then []
    else if es[0].id == "" then WithIds(es[1..])
    else [es[0]] + WithIds(es[1..])
  }

  // An emitter started on a file, if there is one, of the same session
  function Opened(sessionId: string, projectName: string, summary: string, now: string, file: Option<Snapshot>): Emitter {
    if file.None? || file.value.sessionId != sessionId then
      Emitter(sessionId, projectName, summary, now, Dict([], map[]), Dict([], map[]))
    else
      var s := file.value;
      Emitter(sessionId, Or(s.projectName, projectName), Or(s.summary, summary), Or(s.startedAt, now),
              Loaded(Dict([], map[]), EventsFrom(s.nodes, sessionId), NodeIdOf),
              Loaded(Dict([], map[]), WithIds(s.edges), EdgeIdOf))
  }

  lemma StatusRoundTrip(status: string)
    requires status in ALLOWED_STATUSES
    ensures EventStatus(UiStatus(status)) == status
  {
  }

  lemma {:induction false} EventsRoundTrip(es: seq<TopologyEvent>, updatedAt: string, sessionId: string)
    requires forall e :: e in es ==> Allowed(e) && e.sessionId == sessionId
    ensures EventsFrom(NodesFrom(es, updatedAt), sessionId) == es
  {
    if es != [] {
      var e := es[0];
      StatusRoundTrip(e.status);
      EventsRoundTrip(es[1..], updatedAt, sessionId);
      assert NodesFrom(es, updatedAt)[1..] == NodesFrom(es[1..], updatedAt);
      assert EventFrom(NodeFrom(e, updatedAt), sessionId) == Some(e);
    }
  }

  lemma {:induction false} AllWithIds(es: seq<Edge>)
    requires forall e :: e in es ==> e.id != ""
    ensures WithIds(es) == es
  {
    if es != [] {
      AllWithIds(es[1..]);
    }
  }

  // The same nodes and edges, whatever the order they were inserted in
  ghost predicate SameEntries(a: Emitter, b: Emitter) {
    && a.nodes.Valid() && b.nodes.Valid() && a.edges.Valid() && b.edges.Valid()
    && a.nodes.values == b.nodes.values && a.edges.values == b.edges.values && a.sessionId == b.sessionId
  }

  lemma SortedAllowed(m: Emitter)
    requires Valid(m)
    ensures forall e :: e in Sort(Values(m.nodes), StampOf) ==> Allowed(e) && e.sessionId == m.sessionId
    ensures forall e :: e in Sort(Values(m.edges), EdgeIdOf) ==> e.id != ""
  {
    forall e | e in Sort(Values(m.nodes), StampOf) ensures Allowed(e) && e.sessionId == m.sessionId {
      SortMember(Values(m.nodes), StampOf, e);
      var i :| 0 <= i < |m.nodes.order| && Values(m.nodes)[i] == e;
      assert m.nodes.order[i] in m.nodes.values;
    }
    forall e | e in Sort(Values(m.edges), EdgeIdOf) ensures e.id != "" {
      SortMember(Values(m.edges), EdgeIdOf, e);
      var i :| 0 <= i < |m.edges.order| && Values(m.edges)[i] == e;
      assert m.edges.order[i] in m.edges.values;
    }
  }

  // An emitter started on a snapshot
  function Reopened(projectName: string, summary: string, now: string, file: Snapshot): Emitter {
    Opened(file.sessionId, projectName, summary, now, Some(file))
  }

  // The file shows the emitter's nodes and edges, sorted
  ghost predicate WrittenBy(file: Snapshot, m: Emitter) {
    && m.nodes.Valid() && m.edges.Valid() && file.sessionId == m.sessionId && file.startedAt == m.startedAt
    && file.edges == Sort(Values(m.edges), EdgeIdOf)
    && exists updatedAt :: file.nodes == NodesFrom(Sort(Values(m.nodes), StampOf), updatedAt)
  }

  lemma ReopenedLoads(m: Emitter, projectName: string, summary: string, now: string, file: Snapshot)
    requires Valid(m) && WrittenBy(file, m)
    ensures var r := Reopened(projectName, summary, now, file);
      && r.nodes == Loaded(Dict([], map[]), Sort(Values(m.nodes), StampOf), NodeIdOf)
      && r.edges == Loaded(Dict([], map[]), Sort(Values(m.edges), EdgeIdOf), EdgeIdOf)
  {
    var updatedAt :| file.nodes == NodesFrom(Sort(Values(m.nodes), StampOf), updatedAt);
    SortedAllowed(m);
    EventsRoundTrip(Sort(Values(m.nodes), StampOf), updatedAt, m.sessionId);
    AllWithIds(Sort(Values(m.edges), EdgeIdOf));
  }

  /** A restart on the emitter's own file loses nothing but the order of insertion, which is now that of the
      file, and the file still shows the emitter; names the file gives stay. */
  lemma ReopenedSame(m: Emitter, projectName: string, summary: string, now: string, file: Snapshot)
    requires Valid(m) && WrittenBy(file, m)
    ensures var r := Reopened(projectName, summary, now, file);
      && Valid(r) && SameEntries(r, m) && WrittenBy(file, r) && r.startedAt == m.startedAt
      && r.projectName == Or(file.projectName, projectName) && r.summary == Or(file.summary, summary)
      && Values(r.nodes) == Sort(Values(m.nodes), StampOf) && Values(r.edges) == Sort(Values(m.edges), EdgeIdOf)
  {
    ReopenedLoads(m, projectName, summary, now, file);
    LoadSorted(m.nodes, StampOf, NodeIdOf);
    LoadSorted(m.edges, EdgeIdOf, EdgeIdOf);
    SortTwice(Values(m.nodes), StampOf);
    SortTwice(Values(m.edges), EdgeIdOf);
  }

  /* Statistics do not depend on the order. */

  lemma CountedCommutes(s: Stats, a: TopologyEvent, b: TopologyEvent)
    ensures Counted(Counted(s, a), b) == Counted(Counted(s, b), a)
  {
  }

  lemma {:induction false} StatsFrontKey(order: seq<string>, m: map<string, TopologyEvent>, k: string)
    requires Distinct(order) && k in order && (forall j :: j in order ==> j in m)
    requires forall j :: j in Dropped(order, k) ==> j in m
    ensures StatsOf(ValuesIn(order, m)) == Counted(StatsOf(ValuesIn(Dropped(order, k), m)), m[k])
  {
    var first, rest := order[0], order[1..];
    assert order == [first] + rest;
    assert ValuesIn(order, m)[1..] == ValuesIn(rest, m);
    if first == k {
      DroppedFirst(k, rest);
    } else {
      DistinctTail(order);
      DropKeepsIn(rest, k);
      StatsFrontKey(rest, m, k);
      assert Dropped(order, k) == [first] + Dropped(rest, k);
      assert ValuesIn(Dropped(order, k), m)[1..] == ValuesIn(Dropped(rest, k), m);
      CountedCommutes(StatsOf(ValuesIn(Dropped(rest, k), m)), m[first], m[k]);
    }
  }

  lemma {:induction false} StatsForgetOrder(a: seq<string>, b: seq<string>, m: map<string, TopologyEvent>)
    requires Distinct(a) && Distinct(b) && (forall k :: k in a <==> k in b) && (forall k :: k in a ==> k in m)
    ensures StatsOf(ValuesIn(a, m)) == StatsOf(ValuesIn(b, m))
  {
    if a == [] {
      assert forall k :: k !in b;
    } else {
      DropKeepsIn(b, a[0]);
      DroppedDistinct(b, a[0]);
      DistinctTail(a);
      assert a == [a[0]] + a[1..];
      StatsForgetOrder(a[1..], Dropped(b, a[0]), m);
      StatsFrontKey(b, m, a[0]);
      assert ValuesIn(a, m)[1..] == ValuesIn(a[1..], m);
    }
  }

  /** Two emitters with the same entries write the same statistics and edges, and the same nodes too if no two
      nodes share a timestamp. */
  lemma SameSnapshots(a: Emitter, b: Emitter, updatedAt: string, now: string)
    requires Valid(a) && Valid(b) && SameEntries(a, b)
    ensures Build(a, updatedAt, now).stats == Build(b, updatedAt, now).stats
    ensures Build(a, updatedAt, now).edges == Build(b, updatedAt, now).edges
    ensures DistinctKeys(a.nodes.values, StampOf) ==>
      Build(a, updatedAt, now).nodes == Build(b, updatedAt, now).nodes
  {
    StatsForgetOrder(a.nodes.order, b.nodes.order, a.nodes.values);
    SortForgetsOrder(a.edges.order, b.edges.order, a.edges.values, EdgeIdOf);
    if DistinctKeys(a.nodes.values, StampOf) {
      SortForgetsOrder(a.nodes.order, b.nodes.order, a.nodes.values, StampOf);
    }
  }

  // A name the snapshot does not override with another
  predicate Named(m: Emitter, projectName: string, summary: string) {
    (m.projectName == "" ==> projectName == "") && (m.summary == "" ==> summary == "")
  }

  /** Round trip: read back and written again with the same time, a snapshot is the same, ties included. */
  lemma SnapshotRoundTrip(m: Emitter, projectName: string, summary: string, updatedAt: string, now: string, at: string)
    requires Valid(m) && Named(m, projectName, summary)
    ensures var r := Reopened(projectName, summary, now, Build(m, updatedAt, at));
      Valid(r) && Build(r, updatedAt, at) == Build(m, updatedAt, at)
  {
    var file := Build(m, updatedAt, at);
    assert WrittenBy(file, m);
    var r := Reopened(projectName, summary, now, file);
    ReopenedSame(m, projectName, summary, now, file);
    SameSnapshots(r, m, updatedAt, at);
    SortTwice(Values(m.nodes), StampOf);
  }

  /* Restarts. */

  // A restart is told names of its own
  datatype Happening = Emit(event: TopologyEvent, now: string) | Restart(projectName: string, summary: string, now: string)

  // An emitter and the file it writes
  datatype Session = Session(m: Emitter, file: Option<Snapshot>)

  // The file is the emitter's snapshot; without one, nothing has been emitted
  ghost predicate Consistent(s: Session) {
    Valid(s.m) && match s.file
                  case None => s.m.nodes == Dict([], map[]) && s.m.edges == Dict([], map[])
                  case Some(f) => WrittenBy(f, s.m)
  }

  predicate Emittable(m: Emitter, e: TopologyEvent) {
    Allowed(e) && e.sessionId == m.sessionId
  }

  // An event of another session raises
  function Next(s: Session, h: Happening): (t: Session)
    requires Consistent(s) && h.now != ""
    ensures Consistent(t) && t.m.sessionId == s.m.sessionId
  {
    match h
    case Emit(e, now) =>
      if Emittable(s.m, e) then
        RecordedValid(s.m, e);
        var m := Recorded(s.m, e);
        assert WrittenBy(Build(m, e.timestamp, now), m);
        Session(m, Some(Build(m, e.timestamp, now)))
      else s
    case Restart(projectName, summary, now) =>
      RestartConsistent(s, projectName, summary, now);
      Session(Opened(s.m.sessionId, projectName, summary, now, s.file), s.file)
  }

  lemma RecordedValid(m: Emitter, e: TopologyEvent)
    requires Valid(m) && Emittable(m, e)
    ensures Valid(Recorded(m, e))
  {
    AssignedValid(m.nodes, e.nodeId, e);
    if HasEdge(e) {
      AssignedValid(m.edges, EdgeFrom(e).id, EdgeFrom(e));
    }
  }

  lemma RestartConsistent(s: Session, projectName: string, summary: string, now: string)
    requires Consistent(s) && now != ""
    ensures var m := Opened(s.m.sessionId, projectName, summary, now, s.file);
      && Consistent(Session(m, s.file)) && SameEntries(m, s.m)
      && (s.file.Some? ==> m.startedAt == s.m.startedAt)
  {
    if s.file.Some? {
      ReopenedSame(s.m, projectName, summary, now, s.file.value);
    }
  }

  predicate Timed(hs: seq<Happening>) {
    forall i :: 0 <= i < |hs| ==> hs[i].now != ""
  }

  function Run(s: Session, hs: seq<Happening>): (r: Session)
    requires Consistent(s) && Timed(hs)
    ensures Consistent(r) && r.m.sessionId == s.m.sessionId
  {
    if hs == [] then s else Next(Run(s, hs[..|hs| - 1]), hs[|hs| - 1])
  }

  // The events of a run that does not stop
  function Events(hs: seq<Happening>): (es: seq<Happening>)
    requires Timed(hs)
    ensures Timed(es)
  {
    if hs == [] then []
    else
      var before, last := Events(hs[..|hs| - 1]), hs[|hs| - 1];
      if last.Emit? then before + [last] else before
  }

  lemma RecordedSame(a: Emitter, b: Emitter, e: TopologyEvent)
    requires SameEntries(a, b)
    ensures SameEntries(Recorded(a, e), Recorded(b, e))
  {
    AssignedValid(a.nodes, e.nodeId, e);
    AssignedValid(b.nodes, e.nodeId, e);
    if HasEdge(e) {
      AssignedValid(a.edges, EdgeFrom(e).id, EdgeFrom(e));
      AssignedValid(b.edges, EdgeFrom(e).id, EdgeFrom(e));
    }
  }

  /** However often a run is stopped and its file read back in, it ends with the nodes and edges of the run
      that was not. */
  lemma {:induction false} RestartsInvisible(s: Session, hs: seq<Happening>)
    requires Consistent(s) && Timed(hs)
    ensures SameEntries(Run(s, hs).m, Run(s, Events(hs)).m)
  {
    if hs != [] {
      var before, last := hs[..|hs| - 1], hs[|hs| - 1];
      RestartsInvisible(s, before);
      var stopped, plain := Run(s, before), Run(s, Events(before));
      NextSame(stopped, plain, last);
      assert (Events(before) + [last])[..|Events(before)|] == Events(before);
    }
  }

  lemma NextSame(stopped: Session, plain: Session, h: Happening)
    requires Consistent(stopped) && Consistent(plain) && h.now != "" && SameEntries(stopped.m, plain.m)
    ensures SameEntries(Next(stopped, h).m,
                        if h.Emit? then Next(plain, h).m else plain.m)
  {
    match h {
      case Emit(e, now) =>
        RecordedSame(stopped.m, plain.m, e);
      case Restart(projectName, summary, now) =>
        RestartConsistent(stopped, projectName, summary, now);
    }
  }

  // What a happening says of a node
  function OfNode(h: Happening, sessionId: string, nodeId: string): Option<TopologyEvent> {
    if h.Emit? && Allowed(h.event) && h.event.sessionId == sessionId && h.event.nodeId == nodeId then Some(h.event)
    else None
  }

  // What a happening says of an edge
  function OfEdge(h: Happening, sessionId: string, edgeId: string): Option<Edge> {
    if h.Emit? && Allowed(h.event) && h.event.sessionId == sessionId && HasEdge(h.event) && EdgeFrom(h.event).id == edgeId
    then Some(EdgeFrom(h.event))
    else None
  }

  function Latest<V>(now: Option<V>, before: Option<V>): Option<V> {
    if now.Some? then now else before
  }

  // The last event of a run about a node
  function LastOfNode(hs: seq<Happening>, sessionId: string, nodeId: string): Option<TopologyEvent> {
    if hs == [] then None
    else Latest(OfNode(hs[|hs| - 1], sessionId, nodeId), LastOfNode(hs[..|hs| - 1], sessionId, nodeId))
  }

  function LastOfEdge(hs: seq<Happening>, sessionId: string, edgeId: string): Option<Edge> {
    if hs == [] then None
    else Latest(OfEdge(hs[|hs| - 1], sessionId, edgeId), LastOfEdge(hs[..|hs| - 1], sessionId, edgeId))
  }

  lemma NextLookup(s: Session, h: Happening, id: string)
    requires Consistent(s) && h.now != ""
    ensures Next(s, h).m.nodes.Lookup(id)
         == Latest(OfNode(h, s.m.sessionId, id), s.m.nodes.Lookup(id))
    ensures Next(s, h).m.edges.Lookup(id)
         == Latest(OfEdge(h, s.m.sessionId, id), s.m.edges.Lookup(id))
  {
    match h {
      case Emit(e, now) =>
        RecordedLookup(s.m, e, id);
      case Restart(projectName, summary, now) =>
        RestartConsistent(s, projectName, summary, now);
        SameLookup(Opened(s.m.sessionId, projectName, summary, now, s.file), s.m, id);
    }
  }

  lemma SameLookup(a: Emitter, b: Emitter, id: string)
    requires SameEntries(a, b)
    ensures a.nodes.Lookup(id) == b.nodes.Lookup(id) && a.edges.Lookup(id) == b.edges.Lookup(id)
  {
  }

  lemma RecordedLookup(m: Emitter, e: TopologyEvent, id: string)
    ensures Recorded(m, e).nodes.Lookup(id) == if e.nodeId == id then Some(e) else m.nodes.Lookup(id)
    ensures Recorded(m, e).edges.Lookup(id)
         == if HasEdge(e) && EdgeFrom(e).id == id then Some(EdgeFrom(e)) else m.edges.Lookup(id)
  {
  }

  /** Stopped or not, a run leaves of each node and edge what the last event about it said, and drops none. */
  lemma {:induction false} LastEventWins(s: Session, hs: seq<Happening>, id: string)
    requires Consistent(s) && Timed(hs)
    ensures Run(s, hs).m.nodes.Lookup(id)
         == Latest(LastOfNode(hs, s.m.sessionId, id), s.m.nodes.Lookup(id))
    ensures Run(s, hs).m.edges.Lookup(id)
         == Latest(LastOfEdge(hs, s.m.sessionId, id), s.m.edges.Lookup(id))
  {
    if hs != [] {
      var before, last := hs[..|hs| - 1], hs[|hs| - 1];
      LastEventWins(s, before, id);
      NextLookup(Run(s, before), last, id);
    }
  }

  /* Ties. */

  function Tied(nodeId: string, timestamp: string): TopologyEvent {
    TopologyEvent("", timestamp, "s", nodeId, None, "agent", None, "pending", Payload(map[], 0, 0))
  }

  // Node a came first but is later in time
  function TwoNodes(): map<string, TopologyEvent> {
    map["a" := Tied("a", "2"), "b" := Tied("b", "1")]
  }

  function TwoEmitted(): Emitter {
    Emitter("s", "", "", "t", Dict(["a", "b"], TwoNodes()), Dict([], map[]))
  }

  lemma SortPair(x: TopologyEvent, y: TopologyEvent)
    ensures Sort([x, y], StampOf) == if Leq(x.timestamp, y.timestamp) then [x, y] else [y, x]
  {
    assert [x, y][1..] == [y] && [y][1..] == [] && Sort([y], StampOf) == [y];
    assert Insert(x, [y], StampOf) == if Leq(x.timestamp, y.timestamp) then [x] + [y] else [y] + Insert(x, [], StampOf);
  }

  lemma TwoValid()
    ensures Valid(TwoEmitted()) && Values(TwoEmitted().nodes) == [Tied("a", "2"), Tied("b", "1")]
  {
  }

  // A dictionary that knows its keys has the order its values say
  lemma PairOrder(d: Dict<TopologyEvent>, x: TopologyEvent, y: TopologyEvent)
    requires d.Valid() && KnowKeys(d, NodeIdOf) && Values(d) == [x, y]
    ensures d.order == [x.nodeId, y.nodeId]
  {
    assert d.order[0] in d.values && d.order[1] in d.values;
    assert NodeIdOf(d.values[d.order[0]]) == d.order[0] && NodeIdOf(d.values[d.order[1]]) == d.order[1];
  }

  // A restart turns the two round
  lemma TwoReloaded(m: Emitter, file: Snapshot) returns (r: Emitter)
    requires m == TwoEmitted() && Valid(m) && WrittenBy(file, m)
    requires Values(m.nodes) == [Tied("a", "2"), Tied("b", "1")]
    ensures r == Reopened("", "", "t", file) && Valid(r) && r.sessionId == "s"
    ensures r.nodes.order == ["b", "a"] && r.nodes.values == TwoNodes()
  {
    r := Reopened("", "", "t", file);
    ReopenedSame(m, "", "", "t", file);
    SortPair(Tied("a", "2"), Tied("b", "1"));
    PairOrder(r.nodes, Tied("b", "1"), Tied("a", "2"));
  }

  // The first node of a snapshot
  function FirstId(m: Emitter): string
    requires m.nodes.Valid() && m.edges.Valid() && Build(m, "t", "t").nodes != []
  {
    Build(m, "t", "t").nodes[0].id
  }

  ghost predicate ListsFirst(m: Emitter, id: string) {
    m.nodes.Valid() && m.edges.Valid() && Build(m, "t", "t").nodes != [] && FirstId(m) == id
  }

  // Then both nodes have one time and are listed in the order of insertion
  lemma TieKeepsOrder(m: Emitter, j: string, k: string)
    requires Valid(m) && ((j == "a" && k == "b") || (j == "b" && k == "a"))
    requires m.nodes.order == [j, k] && m.nodes.values == TwoNodes()
    ensures ListsFirst(Recorded(m, Tied("b", "2")), j)
  {
    var t := Recorded(m, Tied("b", "2"));
    assert t.nodes.order == [j, k] && t.nodes.Valid();
    assert Values(t.nodes) == [t.nodes.values[j], t.nodes.values[k]];
    SortPair(t.nodes.values[j], t.nodes.values[k]);
  }

  lemma SavedFile(m: Emitter) returns (file: Snapshot)
    requires Valid(m)
    ensures WrittenBy(file, m)
  {
    file := Build(m, "t", "t");
    assert file.nodes == NodesFrom(Sort(Values(m.nodes), StampOf), "t");
  }

  lemma TurnedRound(m: Emitter, file: Snapshot)
    requires m == TwoEmitted() && Valid(m) && WrittenBy(file, m)
    requires Values(m.nodes) == [Tied("a", "2"), Tied("b", "1")]
    ensures ListsFirst(Recorded(Reopened("", "", "t", file), Tied("b", "2")), "b")
  {
    var r := TwoReloaded(m, file);
    TieKeepsOrder(r, "b", "a");
  }

  /** Nodes with one timestamp can change their order when a run is stopped: one event more, with and without a
      restart before it. */
  lemma TiesMayReorder() returns (m: Emitter, file: Snapshot, e: TopologyEvent)
    ensures Valid(m) && WrittenBy(file, m) && Emittable(m, e)
    ensures ListsFirst(Recorded(m, e), "a") && ListsFirst(Recorded(Reopened("", "", "t", file), e), "b")
  {
    m, e := TwoEmitted(), Tied("b", "2");
    TwoValid();
    file := SavedFile(m);
    TurnedRound(m, file);
    TieKeepsOrder(m, "a", "b");
  }

  /* The emitter. */

  // How the viewer is shown a status
  const SHOWN := map["pending" := "todo", "running" := "in_process", "awaiting_approval" := "review",
                     "completed" := "done", "error" := "error"]

  // A node that shows an event
  predicate ShowsNode(n: NodeOut, e: TopologyEvent, updatedAt: string) {
    && n.id == e.nodeId && n.status == (if e.status in SHOWN then SHOWN[e.status] else e.status)
    && n.title == (if "title" in e.payload.texts then e.payload.texts["title"] else "Task: " + e.nodeType)
    && n.assignedAgent == (if "assigned_agent" in e.payload.texts then e.payload.texts["assigned_agent"] else "system")
    && n.description == (if "description" in e.payload.texts then e.payload.texts["description"] else "")
    && n.resultSummary == (if "result_summary" in e.payload.texts then e.payload.texts["result_summary"] else "")
    && n.createdAt == e.timestamp && n.updatedAt == (if updatedAt == "" then e.timestamp else updatedAt)
    && n.eventId == e.eventId && n.parentNodeId == e.parentNodeId && n.nodeType == e.nodeType
    && n.edgeType == e.edgeType && n.payload == e.payload
  }

  // An edge that shows an event
  predicate ShowsEdge(d: Edge, e: TopologyEvent) {
    && e.parentNodeId == Some(d.source) && d.target == e.nodeId && e.edgeType == Some(d.edgeType)
    && d.id == "edge-" + d.source + "-" + d.target + "-" + d.edgeType
    && d.caption == if "name" in e.payload.texts && e.payload.texts["name"] != "" then e.payload.texts["name"]
                    else if "description" in e.payload.texts && e.payload.texts["description"] != ""
                    then e.payload.texts["description"]
                    else d.edgeType
  }

  lemma NodeShows(e: TopologyEvent, updatedAt: string)
    ensures ShowsNode(NodeFrom(e, updatedAt), e, updatedAt)
  {
  }

  lemma EdgeShows(e: TopologyEvent)
    requires HasEdge(e)
    ensures ShowsEdge(EdgeFrom(e), e)
  {
  }

  /** The snapshot has a node for each node the emitter knows, in order of time, and each edge, in order of id. */
  lemma BuildShows(m: Emitter, updatedAt: string, now: string, id: string)
    requires Valid(m)
    ensures id in m.nodes.values ==>
      exists n :: n in Build(m, updatedAt, now).nodes && ShowsNode(n, m.nodes.values[id], updatedAt)
    ensures id in m.edges.values ==> m.edges.values[id] in Build(m, updatedAt, now).edges
    ensures |Build(m, updatedAt, now).nodes| == |m.nodes.order| && |Build(m, updatedAt, now).edges| == |m.edges.order|
  {
    SortLength(Values(m.nodes), StampOf);
    SortLength(Values(m.edges), EdgeIdOf);
    if id in m.nodes.values {
      var e := m.nodes.values[id];
      ValueHeld(m.nodes, id);
      SortMember(Values(m.nodes), StampOf, e);
      NodeShows(e, updatedAt);
      var i :| 0 <= i < |Sort(Values(m.nodes), StampOf)| && Sort(Values(m.nodes), StampOf)[i] == e;
      assert Build(m, updatedAt, now).nodes[i] == NodeFrom(e, updatedAt);
    }
    if id in m.edges.values {
      ValueHeld(m.edges, id);
      SortMember(Values(m.edges), EdgeIdOf, m.edges.values[id]);
    }
  }

  lemma ValueHeld<V>(d: Dict<V>, id: string)
    requires d.Valid() && id in d.values
    ensures d.values[id] in Values(d)
  {
    assert id in d.order;
    var i :| 0 <= i < |d.order| && d.order[i] == id;
    assert Values(d)[i] == d.values[id];
  }

  /** What is emitted is in the file: its node, its edge if it names a parent, and the time of the event. */
  lemma EmittedShown(m: Emitter, e: TopologyEvent, now: string)
    requires Valid(m) && Emittable(m, e)
    ensures Valid(Recorded(m, e))
    ensures
      var file := Build(Recorded(m, e), e.timestamp, now);
      && (exists n :: n in file.nodes && ShowsNode(n, e, e.timestamp))
      && (e.parentNodeId != None && e.parentNodeId != Some("") && e.edgeType != None && e.edgeType != Some("") ==>
            exists d :: d in file.edges && ShowsEdge(d, e))
      && file.sessionId == e.sessionId && file.updatedAt == (if e.timestamp == "" then now else e.timestamp)
      && file.projectName == m.projectName && file.summary == m.summary && file.startedAt == m.startedAt
  {
    RecordedValid(m, e);
    BuildShows(Recorded(m, e), e.timestamp, now, e.nodeId);
    if HasEdge(e) {
      EdgeShows(e);
      BuildShows(Recorded(m, e), e.timestamp, now, EdgeFrom(e).id);
    }
  }

  lemma {:induction false} StatsAppend(es: seq<TopologyEvent>, e: TopologyEvent)
    ensures StatsOf(es + [e]) == Counted(StatsOf(es), e)
  {
    if es == [] {
      assert [] + [e] == [e] && StatsOf([e]) == Counted(NoStats(), e);
    } else {
      StatsAppend(es[1..], e);
      assert (es + [e])[1..] == es[1..] + [e];
      CountedCommutes(StatsOf(es[1..]), es[0], e);
    }
  }

  method CalculateStats(nodes: seq<TopologyEvent>) returns (stats: Stats)
    ensures stats == StatsOf(nodes)
  {
    var completed, running, pending, errors := 0, 0, 0, 0;
    var totalTokens, totalDurationMs := 0, 0;
    for i := 0 to |nodes|
      invariant StatsOf(nodes[..i]) == Stats(i, completed, running, pending, errors, totalTokens, totalDurationMs)
    {
      StatsAppend(nodes[..i], nodes[i]);
      assert nodes[..i + 1] == nodes[..i] + [nodes[i]];
      match nodes[i].status {
        case "completed" => completed := completed + 1;
        case "running" => running := running + 1;
        case "pending" => pending := pending + 1;
        case "error" => errors := errors + 1;
        case _ =>
      }
      totalTokens := totalTokens + nodes[i].payload.tokenUsed;
      totalDurationMs := totalDurationMs + nodes[i].payload.durationMs;
    }
    assert nodes[..|nodes|] == nodes;
    stats := Stats(|nodes|, completed, running, pending, errors, totalTokens, totalDurationMs);
  }

  lemma LoadedFirst<V>(d: Dict<V>, v: V, rest: seq<V>, idOf: V -> string)
    ensures Loaded(d, [v] + rest, idOf) == Loaded(d.Assigned(idOf(v), v), rest, idOf)
  {
    assert ([v] + rest)[1..] == rest;
  }

  method LoadNodes(nodes: seq<NodeOut>, sessionId: string) returns (d: Dict<TopologyEvent>)
    ensures d == Loaded(Dict([], map[]), EventsFrom(nodes, sessionId), NodeIdOf)
  {
    d := Dict([], map[]);
    for i := 0 to |nodes|
      invariant Loaded(d, EventsFrom(nodes[i..], sessionId), NodeIdOf)
             == Loaded(Dict([], map[]), EventsFrom(nodes, sessionId), NodeIdOf)
    {
      assert nodes[i..][0] == nodes[i] && nodes[i..][1..] == nodes[i + 1..];
      var event := EventFrom(nodes[i], sessionId);
      if event.Some? {
        LoadedFirst(d, event.value, EventsFrom(nodes[i + 1..], sessionId), NodeIdOf);
        d := d.Assigned(event.value.nodeId, event.value);
      }
    }
  }

  method LoadEdges(edges: seq<Edge>) returns (d: Dict<Edge>)
    ensures d == Loaded(Dict([], map[]), WithIds(edges), EdgeIdOf)
  {
    d := Dict([], map[]);
    for i := 0 to |edges|
      invariant Loaded(d, WithIds(edges[i..]), EdgeIdOf) == Loaded(Dict([], map[]), WithIds(edges), EdgeIdOf)
    {
      assert edges[i..][0] == edges[i] && edges[i..][1..] == edges[i + 1..];
      if edges[i].id != "" {
        LoadedFirst(d, edges[i], WithIds(edges[i + 1..]), EdgeIdOf);
        d := d.Assigned(edges[i].id, edges[i]);
      }
    }
  }

  method BuildNodes(events: seq<TopologyEvent>, updatedAt: string) returns (nodesOut: seq<NodeOut>)
    ensures nodesOut == NodesFrom(events, updatedAt)
  {
    nodesOut := [];
    for i := 0 to |events|
      invariant |nodesOut| == i && forall j :: 0 <= j < i ==> nodesOut[j] == NodeFrom(events[j], updatedAt)
    {
      nodesOut := nodesOut + [NodeFrom(events[i], updatedAt)];
    }
  }

  class TopologyEmitter {
    const sessionId: string
    var projectName: string
    var summary: string
    var startedAt: string
    var nodesById: Dict<TopologyEvent>
    var edgesById: Dict<Edge>
    var outputFile: Option<Snapshot>

    function State(): Emitter
      reads this
    {
      Emitter(sessionId, projectName, summary, startedAt, nodesById, edgesById)
    }

    constructor (sessionId: string, projectName: string, summary: string, now: string, outputFile: Option<Snapshot>)
      ensures State() == Opened(sessionId, projectName, summary, now, outputFile) && this.outputFile == outputFile
    {
      this.sessionId, this.projectName, this.summary, this.startedAt := sessionId, projectName, summary, now;
      nodesById, edgesById := Dict([], map[]), Dict([], map[]);
      this.outputFile := outputFile;
      new;
      LoadExistingState();
    }

    method LoadExistingState()
      requires nodesById == Dict([], map[]) && edgesById == Dict([], map[])
      modifies this`projectName, this`summary, this`startedAt, this`nodesById, this`edgesById
      ensures State() == Opened(sessionId, old(projectName), old(summary), old(startedAt), outputFile)
    {
      if outputFile.None? {
        return;
      }
      var state := outputFile.value;
      if state.sessionId != sessionId {
        return;
      }
      startedAt := Or(state.startedAt, startedAt);
      projectName, summary := Or(state.projectName, projectName), Or(state.summary, summary);
      nodesById := LoadNodes(state.nodes, sessionId);
      edgesById := LoadEdges(state.edges);
    }

    method BuildState(updatedAt: string, now: string) returns (state: Snapshot)
      requires nodesById.Valid() && edgesById.Valid()
      ensures state == Build(State(), updatedAt, now)
    {
      var nodesOut := BuildNodes(Sort(Values(nodesById), StampOf), updatedAt);
      var edgesOut := Sort(Values(edgesById), EdgeIdOf);
      var stats := CalculateStats(Values(nodesById));
      state := Snapshot(projectName, summary, sessionId, startedAt, Or(updatedAt, now), stats, nodesOut, edgesOut);
    }

    // None for an event of another session
    method Emit(event: TopologyEvent, now: string) returns (r: Option<Snapshot>)
      requires Valid(State()) && Allowed(event)
      modifies this`nodesById, this`edgesById, this`outputFile
      ensures Valid(State()) && (r.None? <==> event.sessionId != sessionId)
      ensures r.None? ==> State() == old(State()) && outputFile == old(outputFile)
      ensures r.Some? ==> State() == Recorded(old(State()), event) && outputFile == r
      ensures r.Some? ==> r.value == Build(State(), event.timestamp, now)
    {
      if event.sessionId != sessionId {
        return None;
      }
      RecordedValid(State(), event);
      nodesById := nodesById.Assigned(event.nodeId, event);
      if HasEdge(event) {
        var edge := EdgeFrom(event);
        edgesById := edgesById.Assigned(edge.id, edge);
      }
      var state := BuildState(event.timestamp, now);
      outputFile := Some(state);
      r := Some(state);
    }
  }
}
