/**
 The stage-graph check of agent_workspace/workflow_lint.py: duplicate and
 unknown ids, then a depth-first search for dependency cycles.
 */
module StageGraph {
  import opened Wrappers

  // dependencies is the list under the manifest's "requires" key
  datatype Stage = Stage(id: string, dependencies: seq<string>)

  datatype LintError =
    | DuplicateStage(id: string)
    | UnknownDependency(stage: string, dependency: string)
    | SelfDependency(stage: string)
    | DependencyCycle(at: string)

  datatype LintResult = Accepted(stageIds: set<string>) | Rejected(error: LintError)

  type Graph = map<string, set<string>>

  function Elements(xs: seq<string>): set<string> {
    set x | x in xs
  }

  function Ids(stages: seq<Stage>): set<string> {
    set s | s in stages :: s.id
  }

  predicate UniqueIds(stages: seq<Stage>) {
    forall i, j :: 0 <= i < j < |stages| ==> stages[i].id != stages[j].id
  }

  predicate KnownDependency(stages: seq<Stage>, s: Stage, d: string) {
    d in Ids(stages) && d != s.id
  }

  predicate KnownDependencies(stages: seq<Stage>) {
    forall s, d :: s in stages && d in s.dependencies ==> KnownDependency(stages, s, d)
  }

  function GraphOf(stages: seq<Stage>): (g: Graph)
    ensures g.Keys == Ids(stages)
  {
    if stages == [] then map[]
    else
      var s := stages[|stages| - 1];
      assert stages == stages[..|stages| - 1] + [s];
      GraphOf(stages[..|stages| - 1])[s.id := Elements(s.dependencies)]
  }

  /* Acyclicity, in two forms. */

  ghost predicate DependenciesBefore(g: Graph, order: seq<string>, i: nat) {
    i < |order| && order[i] in g && forall d :: d in g[order[i]] ==> d in order[..i]
  }

  // Every stage comes after the stages it depends on
  ghost predicate Ordered(g: Graph, order: seq<string>) {
    && (forall i, j :: 0 <= i < j < |order| ==> order[i] != order[j])
    && (forall i: nat :: i < |order| ==> DependenciesBefore(g, order, i))
  }

  ghost predicate Topological(g: Graph, order: seq<string>) {
    Ordered(g, order) && Elements(order) == g.Keys
  }

  ghost predicate Sortable(g: Graph) {
    exists order :: Topological(g, order)
  }

  ghost predicate Edge(g: Graph, p: seq<string>, i: nat) {
    i + 1 < |p| && p[i] in g && p[i + 1] in g[p[i]]
  }

  ghost predicate Path(g: Graph, p: seq<string>) {
    forall i: nat :: i < |p| - 1 ==> Edge(g, p, i)
  }

  // A path of dependencies from a stage back to itself
  ghost predicate Cycle(g: Graph, c: seq<string>) {
    |c| >= 2 && c[0] == c[|c| - 1] && Path(g, c)
  }

  ghost predicate CycleThrough(g: Graph, id: string) {
    exists c :: Cycle(g, c) && c[0] == id
  }

  lemma {:induction false} PathDescends(g: Graph, order: seq<string>, p: seq<string>, i: nat) returns (k: nat)
    requires Topological(g, order) && Path(g, p) && p != [] && i < |order| && order[i] == p[0]
    ensures k < |order| && order[k] == p[|p| - 1] && k + |p| - 1 <= i
    decreases |p|
  {
    if |p| == 1 {
      k := i;
    } else {
      assert Edge(g, p, 0) && DependenciesBefore(g, order, i);
      var j: nat :| j < i && order[j] == p[1];
      forall n: nat | n < |p[1..]| - 1 ensures Edge(g, p[1..], n) {
        assert Edge(g, p, n + 1);
      }
      k := PathDescends(g, order, p[1..], j);
    }
  }

  /** A graph with a topological order has no cycle. */
  lemma OrderExcludesCycle(g: Graph)
    ensures Sortable(g) ==> !exists c :: Cycle(g, c)
  {
    if Sortable(g) {
      var order :| Topological(g, order);
      forall c ensures !Cycle(g, c) {
        if Cycle(g, c) {
          assert Edge(g, c, 0) && c[0] in Elements(order);
          var i: nat :| i < |order| && order[i] == c[0];
          var k := PathDescends(g, order, c, i);
          assert false;
        }
      }
    }
  }

  /* The search. */

  class StageVisitor {
    const dependencies: Graph
    var visiting: set<string>
    var visited: set<string>
    ghost var stack: seq<string>  // the stages being visited, outermost first
    ghost var order: seq<string>  // the visited stages, in the order they were finished

    ghost predicate Valid()
      reads this
    {
      && (forall s :: s in dependencies ==> dependencies[s] <= dependencies.Keys)
      && visiting == Elements(stack) && visiting <= dependencies.Keys && Path(dependencies, stack)
      && visited == Elements(order) && Ordered(dependencies, order)
      && visiting !! visited
    }

    constructor (dependencies: Graph)
      requires forall s :: s in dependencies ==> dependencies[s] <= dependencies.Keys
      ensures Valid() && this.dependencies == dependencies && visiting == visited == {} && stack == []
    {
      this.dependencies := dependencies;
      visiting, visited, stack, order := {}, {}, [], [];
    }

    // None means no cycle was met and the stage is visited; otherwise a stage a cycle runs through
    method Visit(stageId: string) returns (cycleAt: Option<string>)
      requires Valid() && stageId in dependencies
      requires stack != [] ==> stack[|stack| - 1] in dependencies && stageId in dependencies[stack[|stack| - 1]]
      modifies this
      ensures cycleAt.None? ==>
        Valid() && stack == old(stack) && old(visited) <= visited && stageId in visited
      ensures cycleAt.Some? ==> CycleThrough(dependencies, cycleAt.value)
      decreases dependencies.Keys - visiting
    {
      if stageId in visiting {
        StackClosesCycle(dependencies, stack, stageId);
        return Some(stageId);
      }
      if stageId in visited {
        return None;
      }
      ghost var before := stack;
      PushKeepsPath(dependencies, stack, stageId);
      visiting := visiting + {stageId};
      stack := stack + [stageId];
      label pushed:
      var todo := dependencies[stageId];
      while todo != {}
        invariant Valid() && stack == before + [stageId] && old@pushed(visited) <= visited
        invariant todo <= dependencies[stageId] && dependencies[stageId] - todo <= visited
        decreases todo
      {
        var dependency :| dependency in todo;
        todo := todo - {dependency};
        cycleAt := Visit(dependency);
        if cycleAt.Some? {
          return;
        }
      }
      PopKeepsPath(dependencies, before, stageId);
      FinishKeepsOrder(dependencies, order, stageId);
      assert stageId !in before by {
        assert stageId !in old(visiting);
      }
      visiting := visiting - {stageId};
      visited := visited + {stageId};
      stack := before;
      order := order + [stageId];
      return None;
    }
  }

  lemma PushKeepsPath(g: Graph, stack: seq<string>, id: string)
    requires Path(g, stack) && (stack != [] ==> stack[|stack| - 1] in g && id in g[stack[|stack| - 1]])
    ensures Path(g, stack + [id])
  {
    forall i: nat | i < |stack + [id]| - 1 ensures Edge(g, stack + [id], i) {
      assert i < |stack| - 1 ==> Edge(g, stack, i);
    }
  }

  lemma PopKeepsPath(g: Graph, stack: seq<string>, id: string)
    requires Path(g, stack + [id])
    ensures Path(g, stack)
  {
    forall i: nat | i < |stack| - 1 ensures Edge(g, stack, i) {
      assert Edge(g, stack + [id], i);
    }
  }

  lemma StackClosesCycle(g: Graph, stack: seq<string>, id: string)
    requires Path(g, stack) && id in stack && stack[|stack| - 1] in g && id in g[stack[|stack| - 1]]
    ensures CycleThrough(g, id)
  {
    var k: nat :| k < |stack| && stack[k] == id;
    var c := stack[k..] + [id];
    forall i: nat | i < |c| - 1 ensures Edge(g, c, i) {
      assert k + i < |stack| - 1 ==> Edge(g, stack, k + i);
    }
    assert Cycle(g, c) && c[0] == id;
  }

  lemma FinishKeepsOrder(g: Graph, order: seq<string>, id: string)
    requires Ordered(g, order) && id in g && id !in order && g[id] <= Elements(order)
    ensures Ordered(g, order + [id])
  {
    var after := order + [id];
    forall i: nat | i < |after| ensures DependenciesBefore(g, after, i) {
      if i < |order| {
        assert DependenciesBefore(g, order, i) && after[..i] == order[..i];
      } else {
        assert after[..i] == order;
      }
    }
  }

  /* What the graph says of the stages. */

  // Some stage with the one id lists the other
  predicate Needs(stages: seq<Stage>, id: string, d: string) {
    exists s :: s in stages && s.id == id && d in s.dependencies
  }

  // The stage at position k comes after everything it lists
  predicate ComesAfter(stages: seq<Stage>, order: seq<string>, k: nat) {
    k < |order| && forall s, d :: s in stages && s.id == order[k] && d in s.dependencies ==> d in order[..k]
  }

  // An order of the stages in which each comes after its dependencies
  ghost predicate StageOrder(stages: seq<Stage>, order: seq<string>) {
    && (forall i, j :: 0 <= i < j < |order| ==> order[i] != order[j])
    && (forall id :: id in order <==> id in Ids(stages))
    && (forall k: nat :: k < |order| ==> ComesAfter(stages, order, k))
  }

  ghost predicate Orderable(stages: seq<Stage>) {
    exists order :: StageOrder(stages, order)
  }

  predicate NeedsNext(stages: seq<Stage>, c: seq<string>, i: nat) {
    i + 1 < |c| && Needs(stages, c[i], c[i + 1])
  }

  // Stages of which each needs the next and the last is the first
  ghost predicate StageCycle(stages: seq<Stage>, c: seq<string>) {
    |c| >= 2 && c[0] == c[|c| - 1] && forall i: nat :: i < |c| - 1 ==> NeedsNext(stages, c, i)
  }

  ghost predicate OnStageCycle(stages: seq<Stage>, id: string) {
    exists c :: StageCycle(stages, c) && c[0] == id
  }

  // With unique ids the graph has exactly the edges the stages list
  lemma {:induction false} GraphEdges(stages: seq<Stage>, id: string, d: string)
    requires UniqueIds(stages)
    ensures id in GraphOf(stages) && d in GraphOf(stages)[id] <==> Needs(stages, id, d)
  {
    if stages != [] {
      var last, before := stages[|stages| - 1], stages[..|stages| - 1];
      assert stages == before + [last];
      GraphEdges(before, id, d);
      if id == last.id {
        assert last in stages && forall s :: s in before ==> s.id != id;
      } else {
        assert Needs(before, id, d) <==> Needs(stages, id, d);
      }
    }
  }

  lemma OrdersAgree(stages: seq<Stage>, order: seq<string>)
    requires UniqueIds(stages)
    ensures Topological(GraphOf(stages), order) <==> StageOrder(stages, order)
  {
    var g := GraphOf(stages);
    forall id, d ensures id in g && d in g[id] <==> Needs(stages, id, d) {
      GraphEdges(stages, id, d);
    }
    if Topological(g, order) {
      forall k: nat | k < |order| ensures ComesAfter(stages, order, k) {
        assert DependenciesBefore(g, order, k);
        forall s, d | s in stages && s.id == order[k] && d in s.dependencies ensures d in order[..k] {
          assert Needs(stages, order[k], d);
        }
      }
      assert forall id :: id in order <==> id in Elements(order);
    }
    if StageOrder(stages, order) {
      forall k: nat | k < |order| ensures DependenciesBefore(g, order, k) {
        assert ComesAfter(stages, order, k) && order[k] in Ids(stages);
        forall d | d in g[order[k]] ensures d in order[..k] {
          assert Needs(stages, order[k], d);
        }
      }
      assert Elements(order) == g.Keys;
    }
  }

  lemma CyclesAgree(stages: seq<Stage>, c: seq<string>)
    requires UniqueIds(stages)
    ensures Cycle(GraphOf(stages), c) <==> StageCycle(stages, c)
  {
    var g := GraphOf(stages);
    forall i: nat ensures Edge(g, c, i) <==> NeedsNext(stages, c, i) {
      if i + 1 < |c| {
        GraphEdges(stages, c[i], c[i + 1]);
      }
    }
  }

  lemma KnownEdges(stages: seq<Stage>)
    requires UniqueIds(stages) && KnownDependencies(stages)
    ensures forall id :: id in GraphOf(stages) ==> GraphOf(stages)[id] <= GraphOf(stages).Keys
  {
    var g := GraphOf(stages);
    forall id, d | id in g && d in g[id] ensures d in g {
      GraphEdges(stages, id, d);
      var st :| st in stages && st.id == id && d in st.dependencies;
      assert KnownDependency(stages, st, d);
    }
  }

  /** So the graph can be sorted exactly when the stages can be ordered, and cycles are cycles of stages. */
  lemma GraphIsStages(stages: seq<Stage>)
    requires UniqueIds(stages)
    ensures Sortable(GraphOf(stages)) <==> Orderable(stages)
    ensures forall c :: Cycle(GraphOf(stages), c) <==> StageCycle(stages, c)
  {
    forall order ensures Topological(GraphOf(stages), order) <==> StageOrder(stages, order) {
      OrdersAgree(stages, order);
    }
    forall c ensures Cycle(GraphOf(stages), c) <==> StageCycle(stages, c) {
      CyclesAgree(stages, c);
    }
  }

  /* The whole check. */

  // The first fault among duplicates, then among dependencies in stage order
  ghost predicate FirstDuplicate(stages: seq<Stage>, id: string) {
    exists j: nat :: j < |stages| && UniqueIds(stages[..j]) && stages[j].id == id && id in Ids(stages[..j])
  }

  ghost predicate FirstBadDependency(stages: seq<Stage>, i: nat, k: nat, error: LintError) {
    && i < |stages| && k < |stages[i].dependencies|
    && (forall s, d :: s in stages[..i] && d in s.dependencies ==> KnownDependency(stages, s, d))
    && (forall d :: d in stages[i].dependencies[..k] ==> KnownDependency(stages, stages[i], d))
    && var d := stages[i].dependencies[k];
       !KnownDependency(stages, stages[i], d)
       && error == if d !in Ids(stages) then UnknownDependency(stages[i].id, d) else SelfDependency(stages[i].id)
  }

  // What a rejection reports is there
  ghost predicate Justified(stages: seq<Stage>, error: LintError) {
    match error
    case DuplicateStage(id) => FirstDuplicate(stages, id)
    case UnknownDependency(_, _) => UniqueIds(stages) && exists i: nat, k: nat :: FirstBadDependency(stages, i, k, error)
    case SelfDependency(_) => UniqueIds(stages) && exists i: nat, k: nat :: FirstBadDependency(stages, i, k, error)
    case DependencyCycle(at) => UniqueIds(stages) && KnownDependencies(stages) && OnStageCycle(stages, at)
  }

  method CollectIds(stages: seq<Stage>) returns (r: LintResult)
    ensures r.Accepted? <==> UniqueIds(stages)
    ensures r.Accepted? ==> r.stageIds == Ids(stages)
    ensures r.Rejected? ==> r.error.DuplicateStage? && FirstDuplicate(stages, r.error.id)
  {
    var stageIds := {};
    for i := 0 to |stages|
      invariant UniqueIds(stages[..i]) && stageIds == Ids(stages[..i])
    {
      var stageId := stages[i].id;
      if stageId in stageIds {
        return Rejected(DuplicateStage(stageId));
      }
      stageIds := stageIds + {stageId};
      assert stages[..i + 1] == stages[..i] + [stages[i]];
    }
    assert stages[..|stages|] == stages;
    r := Accepted(stageIds);
  }

  method CheckDependencies(stages: seq<Stage>, stageIds: set<string>) returns (error: Option<LintError>)
    requires stageIds == Ids(stages)
    ensures error.None? <==> KnownDependencies(stages)
    ensures error.None? <==> forall s, d :: s in stages && d in s.dependencies ==> d in Ids(stages) && d != s.id
    ensures error.Some? ==> exists i: nat, k: nat :: FirstBadDependency(stages, i, k, error.value)
  {
    for i := 0 to |stages|
      invariant forall s, d :: s in stages[..i] && d in s.dependencies ==> KnownDependency(stages, s, d)
    {
      var stage := stages[i];
      for k := 0 to |stage.dependencies|
        invariant forall d :: d in stage.dependencies[..k] ==> KnownDependency(stages, stage, d)
      {
        var dependency := stage.dependencies[k];
        if dependency !in stageIds {
          error := Some(UnknownDependency(stage.id, dependency));
          assert FirstBadDependency(stages, i, k, error.value);
          return;
        }
        if dependency == stage.id {
          error := Some(SelfDependency(stage.id));
          assert FirstBadDependency(stages, i, k, error.value);
          return;
        }
      }
    }
    assert stages[..|stages|] == stages;
    error := None;
  }

  lemma StagesOrdered(stages: seq<Stage>)
    requires UniqueIds(stages)
    ensures Orderable(stages) ==> !exists c :: StageCycle(stages, c)
  {
    GraphIsStages(stages);
    OrderExcludesCycle(GraphOf(stages));
  }

  lemma IdsUpTo(stages: seq<Stage>, n: nat)
    requires 0 < n <= |stages|
    ensures Ids(stages[..n]) == Ids(stages[..n - 1]) + {stages[n - 1].id}
  {
    assert stages[..n] == stages[..n - 1] + [stages[n - 1]];
  }

  // The search from every stage
  method FindCycle(stages: seq<Stage>) returns (cycleAt: Option<string>)
    requires UniqueIds(stages) && KnownDependencies(stages)
    ensures cycleAt.None? ==> Orderable(stages)
    ensures cycleAt.Some? ==> OnStageCycle(stages, cycleAt.value)
  {
    var dependencies := GraphOf(stages);
    KnownEdges(stages);
    var visitor := new StageVisitor(dependencies);
    for i := 0 to |stages|
      invariant visitor.Valid() && visitor.dependencies == dependencies && visitor.stack == []
      invariant Ids(stages[..i]) <= visitor.visited
      invariant fresh(visitor)
    {
      cycleAt := visitor.Visit(stages[i].id);
      if cycleAt.Some? {
        GraphIsStages(stages);
        return;
      }
      IdsUpTo(stages, i + 1);
    }
    assert stages[..|stages|] == stages;
    OrderedIsTopological(dependencies, visitor.order);
    GraphIsStages(stages);
    cycleAt := None;
  }

  /** Accepts exactly the lists with unique ids and known dependencies that can be put in dependency
      order; a rejection names a real fault, and for a cycle a stage the cycle runs through. */
  method ValidateStageGraph(stages: seq<Stage>) returns (r: LintResult)
    ensures r.Accepted? <==> UniqueIds(stages) && KnownDependencies(stages) && Orderable(stages)
    ensures r.Accepted? ==> r.stageIds == Ids(stages)
    ensures r.Rejected? ==> Justified(stages, r.error)
    ensures UniqueIds(stages) && KnownDependencies(stages) ==>
      (r.Accepted? <==> !exists c :: StageCycle(stages, c))
  {
    var collected := CollectIds(stages);
    if collected.Rejected? {
      return collected;
    }
    var stageIds := collected.stageIds;
    var bad := CheckDependencies(stages, stageIds);
    if bad.Some? {
      return Rejected(bad.value);
    }
    StagesOrdered(stages);
    var cycleAt := FindCycle(stages);
    if cycleAt.Some? {
      return Rejected(DependencyCycle(cycleAt.value));
    }
    r := Accepted(stageIds);
  }

  lemma OrderedIsTopological(g: Graph, order: seq<string>)
    requires Ordered(g, order) && g.Keys <= Elements(order)
    ensures Sortable(g)
  {
    forall i: nat | i < |order| ensures order[i] in g {
      assert DependenciesBefore(g, order, i);
    }
    assert Topological(g, order);
  }
}
