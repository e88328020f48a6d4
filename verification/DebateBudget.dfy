/**
 The debate budget of agent_workspace/core/debate_budget.py: counters behind a
 semaphore, and every interleaving of the tasks that spend it. The stretch
 between two awaits is one step.
 */
module DebateBudget {
  import opened Basics
  import opened Wrappers

  datatype Limits = Limits(providerCalls: int, retries: int, healingCalls: int, nestedDepth: int, concurrent: int) {
    predicate Valid() {
      providerCalls >= 1 && concurrent >= 1 && retries >= 0 && healingCalls >= 0 && nestedDepth >= 0
    }
  }

  datatype Dimension = ProviderCalls | Retries | HealingCalls | NestedDepth

  // The values of the budget's fields; permits is the semaphore's counter
  datatype Budget = Budget(
    permits: int, providerCalls: int, retries: int, healingCalls: int, currentNestedDepth: int, peakNestedDepth: int,
    concurrent: int, peakConcurrent: int, exhausted: Option<Dimension>)

  function NewBudget(limits: Limits): Budget {
    Budget(limits.concurrent, 0, 0, 0, 0, 0, 0, 0, None)
  }

  function Admit(b: Budget): Budget {
    b.(permits := b.permits - 1, providerCalls := b.providerCalls + 1, concurrent := b.concurrent + 1,
       peakConcurrent := Max(b.peakConcurrent, b.concurrent + 1))
  }

  function Release(b: Budget): Budget {
    b.(concurrent := b.concurrent - 1, permits := b.permits + 1)
  }

  function Exhaust(b: Budget, d: Dimension): Budget {
    b.(exhausted := Some(d))
  }

  class DebateExecutionBudget {
    const limits: Limits
    var permits: int
    var providerCalls: int
    var retries: int
    var healingCalls: int
    var currentNestedDepth: int
    var peakNestedDepth: int
    var currentConcurrentProviderCalls: int
    var peakConcurrentProviderCalls: int
    var exhaustionReason: Option<Dimension>

    function State(): Budget
      reads this
    {
      Budget(permits, providerCalls, retries, healingCalls, currentNestedDepth, peakNestedDepth,
             currentConcurrentProviderCalls, peakConcurrentProviderCalls, exhaustionReason)
    }

    constructor (limits: Limits)
      requires limits.Valid()
      ensures this.limits == limits && State() == NewBudget(limits)
    {
      this.limits := limits;
      permits, providerCalls, retries, healingCalls := limits.concurrent, 0, 0, 0;
      currentNestedDepth, peakNestedDepth := 0, 0;
      currentConcurrentProviderCalls, peakConcurrentProviderCalls := 0, 0;
      exhaustionReason := None;
    }

    // None where the limits raise
    static method Create(limits: Limits) returns (r: Option<DebateExecutionBudget>)
      ensures r.Some? <==>
        && limits.providerCalls > 0 && limits.concurrent > 0
        && limits.retries >= 0 && limits.healingCalls >= 0 && limits.nestedDepth >= 0
      ensures r.Some? ==> fresh(r.value) && r.value.limits == limits && r.value.State() == NewBudget(limits)
    {
      if !limits.Valid() {
        return None;
      }
      var budget := new DebateExecutionBudget(limits);
      r := Some(budget);
    }

    // From the moment the semaphore lets the task in; false where the budget raises
    method AcquireProvider() returns (ok: bool)
      requires permits > 0
      modifies this
      ensures ok <==> old(providerCalls) < limits.providerCalls
      ensures State() == if ok then Admit(old(State())) else Exhaust(old(State()), ProviderCalls)
    {
      permits := permits - 1;
      if providerCalls >= limits.providerCalls {
        exhaustionReason := Some(ProviderCalls);
        permits := permits + 1;
        return false;
      }
      providerCalls := providerCalls + 1;
      currentConcurrentProviderCalls := currentConcurrentProviderCalls + 1;
      peakConcurrentProviderCalls := Max(peakConcurrentProviderCalls, currentConcurrentProviderCalls);
      ok := true;
    }

    method ReleaseProvider()
      modifies this
      ensures State() == Release(old(State()))
    {
      currentConcurrentProviderCalls := currentConcurrentProviderCalls - 1;
      permits := permits + 1;
    }

    method ConsumeRetry() returns (ok: bool)
      modifies this
      ensures ok <==> old(retries) < limits.retries
      ensures State() == if ok then old(State()).(retries := old(retries) + 1) else Exhaust(old(State()), Retries)
    {
      if retries >= limits.retries {
        exhaustionReason := Some(Retries);
        return false;
      }
      retries := retries + 1;
      ok := true;
    }

    method ConsumeHealing() returns (ok: bool)
      modifies this
      ensures ok <==> old(healingCalls) < limits.healingCalls
      ensures State() == if ok then old(State()).(healingCalls := old(healingCalls) + 1)
                         else Exhaust(old(State()), HealingCalls)
    {
      if healingCalls >= limits.healingCalls {
        exhaustionReason := Some(HealingCalls);
        return false;
      }
      healingCalls := healingCalls + 1;
      ok := true;
    }

    method CheckNestedDepth(depth: int) returns (ok: bool)
      modifies this
      ensures ok <==> depth <= limits.nestedDepth
      ensures State() == if ok then old(State()).(currentNestedDepth := depth,
                                                  peakNestedDepth := Max(old(peakNestedDepth), depth))
                         else Exhaust(old(State()), NestedDepth)
    {
      if depth > limits.nestedDepth {
        exhaustionReason := Some(NestedDepth);
        return false;
      }
      currentNestedDepth := depth;
      peakNestedDepth := Max(peakNestedDepth, depth);
      ok := true;
    }
  }

  // The context manager around one provider call
  class ProviderAttempt {
    const budget: DebateExecutionBudget
    var acquired: bool

    constructor (budget: DebateExecutionBudget)
      ensures this.budget == budget && !acquired
    {
      this.budget := budget;
      acquired := false;
    }

    method Enter() returns (ok: bool)
      requires budget.permits > 0 && !acquired
      modifies this, budget
      ensures ok <==> old(budget.providerCalls) < budget.limits.providerCalls
      ensures acquired == ok
      ensures budget.State() == if ok then Admit(old(budget.State())) else Exhaust(old(budget.State()), ProviderCalls)
    {
      ok := budget.AcquireProvider();
      if ok {
        acquired := true;
      }
    }

    // However the body ended
    method Exit()
      modifies budget
      ensures budget.State() == if acquired then Release(old(budget.State())) else old(budget.State())
    {
      if acquired {
        budget.ReleaseProvider();
      }
    }
  }

  /* Every interleaving. */

  datatype Phase = Waiting | Running | Refused | Cancelled | Left

  datatype System = System(budget: Budget, attempts: seq<Phase>)

  // What a task can do next; Cancel gives up the wait for the semaphore
  datatype Action =
    | Start
    | Enter(attempt: nat)
    | Leave(attempt: nat)
    | Cancel(attempt: nat)
    | Retry
    | Heal
    | Nest(depth: int)

  predicate Enabled(s: System, a: Action) {
    match a
    case Enter(i) => i < |s.attempts| && s.attempts[i] == Waiting && s.budget.permits > 0
    case Leave(i) => i < |s.attempts| && s.attempts[i] == Running
    case Cancel(i) => i < |s.attempts| && s.attempts[i] == Waiting
    case _ => true
  }

  // The dimension an action would exhaust
  function Refusal(limits: Limits, b: Budget, a: Action): Option<Dimension> {
    match a
    case Enter(_) => if b.providerCalls < limits.providerCalls then None else Some(ProviderCalls)
    case Retry => if b.retries < limits.retries then None else Some(Retries)
    case Heal => if b.healingCalls < limits.healingCalls then None else Some(HealingCalls)
    case Nest(depth) => if depth <= limits.nestedDepth then None else Some(NestedDepth)
    case _ => None
  }

  function Step(limits: Limits, s: System, a: Action): System
    requires Enabled(s, a)
  {
    var b := s.budget;
    match Refusal(limits, b, a)
    case Some(d) => System(Exhaust(b, d), if a.Enter? then s.attempts[a.attempt := Refused] else s.attempts)
    case None =>
      match a
      case Start => System(b, s.attempts + [Waiting])
      case Enter(i) => System(Admit(b), s.attempts[i := Running])
      case Leave(i) => System(Release(b), s.attempts[i := Left])
      case Cancel(i) => System(b, s.attempts[i := Cancelled])
      case Retry => System(b.(retries := b.retries + 1), s.attempts)
      case Heal => System(b.(healingCalls := b.healingCalls + 1), s.attempts)
      case Nest(depth) =>
        System(b.(currentNestedDepth := depth, peakNestedDepth := Max(b.peakNestedDepth, depth)), s.attempts)
  }

  // The state after a run, None for a sequence of actions that is not a run
  function After(limits: Limits, actions: seq<Action>): Option<System> {
    if actions == [] then Some(System(NewBudget(limits), []))
    else
      var n := |actions| - 1;
      match After(limits, actions[..n])
      case Some(s) => if Enabled(s, actions[n]) then Some(Step(limits, s, actions[n])) else None
      case None => None
  }

  function Count(attempts: seq<Phase>, p: Phase): nat {
    if attempts == [] then 0 else Count(attempts[..|attempts| - 1], p) + if attempts[|attempts| - 1] == p then 1 else 0
  }

  // The most attempts that ever ran at once
  function HighWater(limits: Limits, actions: seq<Action>): nat {
    var now := match After(limits, actions) case Some(s) => Count(s.attempts, Running) case None => 0;
    if actions == [] then now
    else
      var before := HighWater(limits, actions[..|actions| - 1]);
      if before < now then now else before
  }

  // How many actions of a run are of one kind
  function Asked(actions: seq<Action>, d: Dimension): nat {
    if actions == [] then 0
    else
      var last := actions[|actions| - 1];
      Asked(actions[..|actions| - 1], d)
      + if (match d case ProviderCalls => last.Enter? case Retries => last.Retry? case HealingCalls => last.Heal?
                    case NestedDepth => last.Nest?) then 1 else 0
  }

  // The deepest nesting allowed so far
  function Deepest(limits: Limits, actions: seq<Action>): int {
    if actions == [] then 0
    else
      var last, before := actions[|actions| - 1], Deepest(limits, actions[..|actions| - 1]);
      if last.Nest? && last.depth <= limits.nestedDepth then Max(before, last.depth) else before
  }

  // The nesting last allowed
  function LastNested(limits: Limits, actions: seq<Action>): int {
    if actions == [] then 0
    else
      var last := actions[|actions| - 1];
      if last.Nest? && last.depth <= limits.nestedDepth then last.depth
      else LastNested(limits, actions[..|actions| - 1])
  }

  // What the last refused action was refused for
  function LastRefusal(limits: Limits, actions: seq<Action>): Option<Dimension> {
    if actions == [] then None
    else
      var n := |actions| - 1;
      match After(limits, actions[..n])
      case None => None
      case Some(s) =>
        match Refusal(limits, s.budget, actions[n])
        case Some(d) => Some(d)
        case None => LastRefusal(limits, actions[..n])
  }

  lemma {:induction false} CountUpdated(attempts: seq<Phase>, i: nat, to: Phase, p: Phase)
    requires i < |attempts|
    ensures Count(attempts[i := to], p)
         == Count(attempts, p) - (if attempts[i] == p then 1 else 0) + (if to == p then 1 else 0)
  {
    var n := |attempts| - 1;
    if i == n {
      assert attempts[i := to][..n] == attempts[..n];
    } else {
      assert attempts[i := to][..n] == attempts[..n][i := to];
      CountUpdated(attempts[..n], i, to, p);
    }
  }

  lemma CountAppended(attempts: seq<Phase>, last: Phase, p: Phase)
    ensures Count(attempts + [last], p) == Count(attempts, p) + if last == p then 1 else 0
  {
    assert (attempts + [last])[..|attempts|] == attempts;
  }

  // The counters against the attempts: no permit is lost and every admission counted
  predicate Balanced(limits: Limits, s: System) {
    && s.budget.permits + Count(s.attempts, Running) == limits.concurrent
    && s.budget.permits >= 0
    && s.budget.concurrent == Count(s.attempts, Running)
    && s.budget.providerCalls == Count(s.attempts, Running) + Count(s.attempts, Left)
    && s.budget.providerCalls <= limits.providerCalls
    && (Count(s.attempts, Refused) > 0 ==> s.budget.providerCalls == limits.providerCalls)
  }

  lemma StepBalanced(limits: Limits, s: System, a: Action)
    requires Balanced(limits, s) && Enabled(s, a)
    ensures Balanced(limits, Step(limits, s, a))
    ensures Count(Step(limits, s, a).attempts, Running) <= Count(s.attempts, Running)
         || (a.Enter? && Refusal(limits, s.budget, a).None?)
  {
    var to := match a
              case Enter(_) => if s.budget.providerCalls < limits.providerCalls then Running else Refused
              case Leave(_) => Left
              case _ => Cancelled;
    if a.Start? {
      CountAppended(s.attempts, Waiting, Running);
      CountAppended(s.attempts, Waiting, Left);
      CountAppended(s.attempts, Waiting, Refused);
    } else if a.Enter? || a.Leave? || a.Cancel? {
      CountUpdated(s.attempts, a.attempt, to, Running);
      CountUpdated(s.attempts, a.attempt, to, Left);
      CountUpdated(s.attempts, a.attempt, to, Refused);
    }
  }

  /** In every run, whatever the interleaving, the permits left and the running attempts make up the
      semaphore, and the calls counted are the attempts ever admitted, never more than the cap. */
  lemma {:induction false} RunBalanced(limits: Limits, actions: seq<Action>)
    requires limits.Valid() && After(limits, actions).Some?
    ensures Balanced(limits, After(limits, actions).value)
  {
    if actions != [] {
      var n := |actions| - 1;
      RunBalanced(limits, actions[..n]);
      StepBalanced(limits, After(limits, actions[..n]).value, actions[n]);
    }
  }

  /** The recorded peak is the greatest number of attempts that ran at once at any moment of the run. */
  lemma {:induction false} PeakIsHighWater(limits: Limits, actions: seq<Action>)
    requires limits.Valid() && After(limits, actions).Some?
    ensures After(limits, actions).value.budget.peakConcurrent == HighWater(limits, actions) <= limits.concurrent
  {
    RunBalanced(limits, actions);
    if actions != [] {
      var n := |actions| - 1;
      PeakIsHighWater(limits, actions[..n]);
      RunBalanced(limits, actions[..n]);
      StepBalanced(limits, After(limits, actions[..n]).value, actions[n]);
      PeakCovers(limits, actions[..n]);
    }
  }

  lemma PeakCovers(limits: Limits, actions: seq<Action>)
    requires After(limits, actions).Some?
    ensures HighWater(limits, actions) >= Count(After(limits, actions).value.attempts, Running)
  {
  }

  function Spent(actions: seq<Action>, d: Dimension, limit: int): int {
    Min(Asked(actions, d), limit)
  }

  lemma StepSaturates(limits: Limits, s: System, before: seq<Action>, a: Action)
    requires limits.Valid() && Enabled(s, a)
    requires s.budget.providerCalls == Spent(before, ProviderCalls, limits.providerCalls)
    requires s.budget.retries == Spent(before, Retries, limits.retries)
    requires s.budget.healingCalls == Spent(before, HealingCalls, limits.healingCalls)
    requires s.budget.peakNestedDepth == Deepest(limits, before)
    requires s.budget.currentNestedDepth == LastNested(limits, before)
    ensures Step(limits, s, a).budget.providerCalls == Spent(before + [a], ProviderCalls, limits.providerCalls)
    ensures Step(limits, s, a).budget.retries == Spent(before + [a], Retries, limits.retries)
    ensures Step(limits, s, a).budget.healingCalls == Spent(before + [a], HealingCalls, limits.healingCalls)
    ensures Step(limits, s, a).budget.peakNestedDepth == Deepest(limits, before + [a])
    ensures Step(limits, s, a).budget.currentNestedDepth == LastNested(limits, before + [a])
  {
    assert (before + [a])[..|before|] == before;
  }

  /** Each counter is the number of times it was asked for, cut at its limit. */
  lemma {:induction false} CountersSaturate(limits: Limits, actions: seq<Action>)
    requires limits.Valid() && After(limits, actions).Some?
    ensures After(limits, actions).value.budget.providerCalls == Spent(actions, ProviderCalls, limits.providerCalls)
    ensures After(limits, actions).value.budget.retries == Spent(actions, Retries, limits.retries)
    ensures After(limits, actions).value.budget.healingCalls == Spent(actions, HealingCalls, limits.healingCalls)
    ensures After(limits, actions).value.budget.peakNestedDepth == Deepest(limits, actions)
    ensures After(limits, actions).value.budget.currentNestedDepth == LastNested(limits, actions)
  {
    if actions != [] {
      var n := |actions| - 1;
      CountersSaturate(limits, actions[..n]);
      StepSaturates(limits, After(limits, actions[..n]).value, actions[..n], actions[n]);
      assert actions == actions[..n] + [actions[n]];
    }
  }

  /** The reason given is that of the last refusal, none if nothing was refused. */
  lemma {:induction false} ReasonIsLastRefusal(limits: Limits, actions: seq<Action>)
    requires After(limits, actions).Some?
    ensures After(limits, actions).value.budget.exhausted == LastRefusal(limits, actions)
  {
    if actions != [] {
      ReasonIsLastRefusal(limits, actions[..|actions| - 1]);
    }
  }

  /** Refused and cancelled attempts leak no permit: a waiting attempt can enter exactly while fewer than the
      limit run, and is admitted exactly while fewer than the cap have entered. */
  lemma EntersExactly(limits: Limits, actions: seq<Action>, i: nat)
    requires limits.Valid() && After(limits, actions).Some?
    requires i < |After(limits, actions).value.attempts|
    requires After(limits, actions).value.attempts[i] == Waiting
    ensures After(limits, actions + [Enter(i)]).Some?
       <==> Count(After(limits, actions).value.attempts, Running) < limits.concurrent
    ensures After(limits, actions + [Enter(i)]).Some? ==>
      (After(limits, actions + [Enter(i)]).value.attempts[i] == Running
       <==> Asked(actions, ProviderCalls) < limits.providerCalls)
  {
    RunBalanced(limits, actions);
    CountersSaturate(limits, actions);
    assert (actions + [Enter(i)])[..|actions|] == actions;
  }

  /** When no attempt runs, every permit is back. */
  lemma QuietReturnsPermits(limits: Limits, actions: seq<Action>)
    requires limits.Valid() && After(limits, actions).Some?
    requires Running !in After(limits, actions).value.attempts
    ensures After(limits, actions).value.budget.permits == limits.concurrent
    ensures After(limits, actions).value.budget.concurrent == 0
  {
    RunBalanced(limits, actions);
    NoneCounted(After(limits, actions).value.attempts, Running);
  }

  lemma {:induction false} NoneCounted(attempts: seq<Phase>, p: Phase)
    requires p !in attempts
    ensures Count(attempts, p) == 0
  {
    if attempts != [] {
      NoneCounted(attempts[..|attempts| - 1], p);
    }
  }
}
