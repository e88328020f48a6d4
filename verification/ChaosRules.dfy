/**
 The fault rules of agent_workspace/core/chaos.py: a table pruned when it is
 read, against the trace of every rule injected and cleared.
 */
module ChaosRules {
  import opened Wrappers
  import opened Dictionaries
  import opened Sorting

  datatype FaultType = NetworkPartition | LatencySpike | PacketDrop | NodeIsolation | ByzantineTamper

  // An empty list of nodes stands for all nodes
  datatype Rule = Rule(ruleId: string, faultType: FaultType, sources: seq<string>, targets: seq<string>,
                       probability: real, latencyMs: real, expiresAt: Option<real>)

  datatype Event =
    | Injected(rule: Rule)
    | Cleared(ruleId: string)
    | ClearedAll
    | Read(at: real)

  predicate Expired(r: Rule, now: real) {
    r.expiresAt.Some? && now > r.expiresAt.value
  }

  function ExpiresAt(durationSeconds: Option<real>, now: real): Option<real> {
    match durationSeconds
    case Some(d) => Some(now + d)
    case None => None
  }

  function Unexpired(rs: seq<Rule>, now: real): seq<Rule> {
    if rs == [] then []
    else if Expired(rs[0], now) then Unexpired(rs[1..], now)
    else [rs[0]] + Unexpired(rs[1..], now)
  }

  function Without(rs: seq<Rule>, ruleId: string): seq<Rule> {
    if rs == [] then []
    else if rs[0].ruleId == ruleId then Without(rs[1..], ruleId)
    else [rs[0]] + Without(rs[1..], ruleId)
  }

  // The rules there are after an event, with no regard to expiry
  function Then(rs: seq<Rule>, e: Event): seq<Rule> {
    match e
    case Injected(rule) => rs + [rule]
    case Cleared(id) => Without(rs, id)
    case ClearedAll => []
    case Read(_) => rs
  }

  // The rules injected and not cleared since, in order
  function Standing(trace: seq<Event>): seq<Rule> {
    if trace == [] then [] else Then(Standing(trace[..|trace| - 1]), trace[|trace| - 1])
  }

  // Those that no reading has pruned either
  function Remaining(trace: seq<Event>): seq<Rule> {
    if trace == [] then []
    else
      var before, last := Remaining(trace[..|trace| - 1]), trace[|trace| - 1];
      if last.Read? then Unexpired(before, last.at) else Then(before, last)
  }

  /** What is active: injected, not cleared, not expired. */
  function Active(trace: seq<Event>, now: real): seq<Rule> {
    Unexpired(Standing(trace), now)
  }

  predicate ReadBy(trace: seq<Event>, now: real) {
    forall i :: 0 <= i < |trace| && trace[i].Read? ==> trace[i].at <= now
  }

  lemma {:induction false} UnexpiredAppend(rs: seq<Rule>, r: Rule, now: real)
    ensures Unexpired(rs + [r], now) == if Expired(r, now) then Unexpired(rs, now) else Unexpired(rs, now) + [r]
  {
    if rs == [] {
      assert rs + [r] == [r] && Unexpired([r], now) == if Expired(r, now) then [] else [r];
    } else {
      UnexpiredAppend(rs[1..], r, now);
      assert (rs + [r])[1..] == rs[1..] + [r];
    }
  }

  lemma {:induction false} WithoutAppend(rs: seq<Rule>, r: Rule, ruleId: string)
    ensures Without(rs + [r], ruleId) == if r.ruleId == ruleId then Without(rs, ruleId) else Without(rs, ruleId) + [r]
  {
    if rs == [] {
      assert rs + [r] == [r] && Without([r], ruleId) == if r.ruleId == ruleId then [] else [r];
    } else {
      WithoutAppend(rs[1..], r, ruleId);
      assert (rs + [r])[1..] == rs[1..] + [r];
    }
  }

  // What has expired stays expired
  lemma {:induction false} UnexpiredTwice(rs: seq<Rule>, early: real, late: real)
    requires early <= late
    ensures Unexpired(Unexpired(rs, early), late) == Unexpired(rs, late)
  {
    if rs != [] {
      UnexpiredTwice(rs[1..], early, late);
    }
  }

  lemma {:induction false} UnexpiredWithout(rs: seq<Rule>, ruleId: string, now: real)
    ensures Unexpired(Without(rs, ruleId), now) == Without(Unexpired(rs, now), ruleId)
  {
    if rs != [] {
      UnexpiredWithout(rs[1..], ruleId, now);
    }
  }

  /** Pruning does not show: with a clock that does not go back, what is unexpired of the pruned table is what
      is active. */
  lemma {:induction false} PruningInvisible(trace: seq<Event>, now: real)
    requires ReadBy(trace, now)
    ensures Unexpired(Remaining(trace), now) == Active(trace, now)
  {
    if trace != [] {
      var before := trace[..|trace| - 1];
      PruningInvisible(before, now);
      match trace[|trace| - 1] {
        case Injected(rule) =>
          UnexpiredAppend(Remaining(before), rule, now);
          UnexpiredAppend(Standing(before), rule, now);
        case Cleared(id) =>
          UnexpiredWithout(Remaining(before), id, now);
          UnexpiredWithout(Standing(before), id, now);
        case ClearedAll =>
        case Read(at) =>
          UnexpiredTwice(Remaining(before), at, now);
      }
    }
  }

  /* Traffic. */

  predicate Matches(r: Rule, source: string, target: string) {
    && (r.sources == [] || source in r.sources || (r.faultType.NodeIsolation? && target in r.sources))
    && (r.targets == [] || target in r.targets)
  }

  // The roll is only used for probabilities below 1
  predicate Applies(r: Rule, source: string, target: string, roll: real) {
    Matches(r, source, target) && (r.probability < 1.0 ==> roll <= r.probability)
  }

  predicate Blocking(r: Rule) {
    r.faultType.NetworkPartition? || r.faultType.NodeIsolation? || r.faultType.PacketDrop?
  }

  // The dice: what would be rolled for the rule at a position
  type Dice = nat -> real

  predicate BlocksAt(rs: seq<Rule>, source: string, target: string, dice: Dice, i: nat) {
    i < |rs| && Blocking(rs[i]) && Applies(rs[i], source, target, dice(i))
  }

  predicate Blocked(rs: seq<Rule>, source: string, target: string, dice: Dice) {
    exists i :: 0 <= i < |rs| && BlocksAt(rs, source, target, dice, i)
  }

  // Nothing before position k blocks, and k is the end or blocks
  predicate ReachesTo(rs: seq<Rule>, source: string, target: string, dice: Dice, k: nat) {
    && k <= |rs| && (forall i :: 0 <= i < k ==> !BlocksAt(rs, source, target, dice, i))
    && (k < |rs| ==> BlocksAt(rs, source, target, dice, k))
  }

  // The delays of the latency rules up to position k
  function Latency(rs: seq<Rule>, source: string, target: string, dice: Dice, k: nat): real
    requires k <= |rs|
  {
    if k == 0 then 0.0
    else
      Latency(rs, source, target, dice, k - 1)
      + if rs[k - 1].faultType.LatencySpike? && Applies(rs[k - 1], source, target, dice(k - 1)) then rs[k - 1].latencyMs
        else 0.0
  }

  predicate Tampered(rs: seq<Rule>, source: string, target: string, dice: Dice, k: nat)
    requires k <= |rs|
  {
    exists i :: 0 <= i < k && rs[i].faultType.ByzantineTamper? && Applies(rs[i], source, target, dice(i))
  }

  // What is decided at position k
  predicate DecidedAt(rs: seq<Rule>, source: string, target: string, dice: Dice, k: nat, latencyMs: real, tampered: bool)
  {
    && ReachesTo(rs, source, target, dice, k)
    && latencyMs == Latency(rs, source, target, dice, k)
    && (tampered <==> Tampered(rs, source, target, dice, k))
  }

  ghost predicate Outcome(rs: seq<Rule>, source: string, target: string, dice: Dice,
                          blocked: bool, latencyMs: real, tampered: bool)
  {
    && (blocked <==> Blocked(rs, source, target, dice))
    && exists k: nat :: DecidedAt(rs, source, target, dice, k, latencyMs, tampered)
  }

  method Evaluate(activeRules: seq<Rule>, source: string, target: string, dice: Dice)
    returns (isBlocked: bool, totalLatencyMs: real, isTampered: bool)
    ensures Outcome(activeRules, source, target, dice, isBlocked, totalLatencyMs, isTampered)
  {
    isBlocked, totalLatencyMs, isTampered := false, 0.0, false;
    var i := 0;
    while i < |activeRules|
      invariant i <= |activeRules| && !isBlocked
      invariant forall j :: 0 <= j < i ==> !BlocksAt(activeRules, source, target, dice, j)
      invariant totalLatencyMs == Latency(activeRules, source, target, dice, i)
      invariant isTampered <==> Tampered(activeRules, source, target, dice, i)
    {
      var rule := activeRules[i];
      if Applies(rule, source, target, dice(i)) {
        if Blocking(rule) {
          assert BlocksAt(activeRules, source, target, dice, i);
          assert DecidedAt(activeRules, source, target, dice, i, totalLatencyMs, isTampered);
          return true, totalLatencyMs, isTampered;
        } else if rule.faultType.LatencySpike? {
          totalLatencyMs := totalLatencyMs + rule.latencyMs;
        } else {
          isTampered := true;
        }
      }
      i := i + 1;
    }
    assert DecidedAt(activeRules, source, target, dice, i, totalLatencyMs, isTampered);
  }

  /* Partitions and isolation. */

  function PartitionRule(ruleId: string, sources: seq<string>, targets: seq<string>, expiresAt: Option<real>): Rule {
    Rule(ruleId, NetworkPartition, sources, targets, 1.0, 0.0, expiresAt)
  }

  function IsolationRule(ruleId: string, node: string, expiresAt: Option<real>): Rule {
    Rule(ruleId, NodeIsolation, [node], [], 1.0, 0.0, expiresAt)
  }

  predicate Across(a: seq<string>, b: seq<string>, source: string, target: string) {
    (source in a && target in b) || (source in b && target in a)
  }

  predicate PartitionBlocks(a: seq<string>, b: seq<string>, source: string, target: string) {
    Matches(PartitionRule("", a, b, None), source, target) || Matches(PartitionRule("", b, a, None), source, target)
  }

  /** The two rules of a partition block exactly the pairs across it, in both directions, if and only if
      neither side is empty. */
  lemma PartitionExactly(a: seq<string>, b: seq<string>)
    ensures (forall source, target :: PartitionBlocks(a, b, source, target) <==> Across(a, b, source, target))
       <==> (a != [] && b != [])
  {
    if a == [] {
      var target := if b == [] then "" else b[0];
      assert PartitionBlocks(a, b, "", target) && !Across(a, b, "", target);
    } else if b == [] {
      assert PartitionBlocks(a, b, "", a[0]) && !Across(a, b, "", a[0]);
    }
  }

  lemma {:induction false} BlockedAppend(rs: seq<Rule>, r: Rule, source: string, target: string, dice: Dice)
    ensures Blocked(rs + [r], source, target, dice)
       <==> (Blocked(rs, source, target, dice) || (Blocking(r) && Applies(r, source, target, dice(|rs|))))
  {
    if Blocked(rs, source, target, dice) {
      var i :| 0 <= i < |rs| && BlocksAt(rs, source, target, dice, i);
      assert BlocksAt(rs + [r], source, target, dice, i);
    }
    if Blocking(r) && Applies(r, source, target, dice(|rs|)) {
      assert BlocksAt(rs + [r], source, target, dice, |rs|);
    }
    if Blocked(rs + [r], source, target, dice) {
      var i :| 0 <= i < |rs + [r]| && BlocksAt(rs + [r], source, target, dice, i);
      assert i < |rs| ==> BlocksAt(rs, source, target, dice, i);
    }
  }

  lemma StandingAppend(trace: seq<Event>, e: Event)
    ensures Standing(trace + [e]) == Then(Standing(trace), e)
  {
    assert (trace + [e])[..|trace|] == trace;
  }

  // A duration that is over; without one a rule stays
  predicate Over(durationSeconds: Option<real>, injectedAt: real, now: real) {
    durationSeconds.Some? && injectedAt + durationSeconds.value < now
  }

  /** A rule is active from its injection on, exactly until its duration is over. */
  lemma ActiveExactly(trace: seq<Event>, r: Rule, durationSeconds: Option<real>, injectedAt: real, now: real)
    requires r.expiresAt == ExpiresAt(durationSeconds, injectedAt)
    ensures Active(trace + [Injected(r)], now)
         == if Over(durationSeconds, injectedAt, now) then Active(trace, now) else Active(trace, now) + [r]
  {
    StandingAppend(trace, Injected(r));
    UnexpiredAppend(Standing(trace), r, now);
  }

  /* What one more rule does. */

  // A rule names the pair: an isolated node at either end, any other rule source and target
  predicate Names(r: Rule, source: string, target: string) {
    if r.faultType == NodeIsolation then
      (r.sources == [] || source in r.sources || target in r.sources) && (r.targets == [] || target in r.targets)
    else (r.sources != [] ==> source in r.sources) && (r.targets != [] ==> target in r.targets)
  }

  // Rules that are certain strike always, others when the dice are no higher than their probability
  predicate Strikes(r: Rule, source: string, target: string, roll: real) {
    Names(r, source, target) && (r.probability >= 1.0 || roll <= r.probability)
  }

  /** One more rule at the end blocks, delays or tampers, as its type says, exactly if it strikes; and only if nothing
      before it blocks. */
  lemma OneMoreRule(rs: seq<Rule>, r: Rule, source: string, target: string, dice: Dice,
                    latencyMs: real, tampered: bool, blocked: bool)
    requires Outcome(rs, source, target, dice, blocked, latencyMs, tampered)
    ensures
      var strikes := !blocked && Strikes(r, source, target, dice(|rs|));
      Outcome(rs + [r], source, target, dice,
              blocked || (strikes && r.faultType in {NetworkPartition, NodeIsolation, PacketDrop}),
              if strikes && r.faultType == LatencySpike then latencyMs + r.latencyMs else latencyMs,
              tampered || (strikes && r.faultType == ByzantineTamper))
  {
    var k: nat :| DecidedAt(rs, source, target, dice, k, latencyMs, tampered);
    BlockedAppend(rs, r, source, target, dice);
    SameBefore(rs, r, source, target, dice, k);
    if k < |rs| {
      assert DecidedAt(rs + [r], source, target, dice, k, latencyMs, tampered);
    } else {
      DecidedLast(rs, r, source, target, dice, latencyMs, tampered);
    }
  }

  /** There is one outcome; without rules nothing is blocked, delayed or tampered with. */
  lemma OneOutcome(rs: seq<Rule>, source: string, target: string, dice: Dice,
                   blocked: bool, latencyMs: real, tampered: bool, blocked2: bool, latencyMs2: real, tampered2: bool)
    requires Outcome(rs, source, target, dice, blocked, latencyMs, tampered)
    requires Outcome(rs, source, target, dice, blocked2, latencyMs2, tampered2)
    ensures blocked == blocked2 && latencyMs == latencyMs2 && tampered == tampered2
    ensures rs == [] ==> !blocked && latencyMs == 0.0 && !tampered
  {
    var k: nat :| DecidedAt(rs, source, target, dice, k, latencyMs, tampered);
    var j: nat :| DecidedAt(rs, source, target, dice, j, latencyMs2, tampered2);
    assert j == k;
  }

  // Rules up to a position decide the same with one more at the end
  lemma {:induction false} SameBefore(rs: seq<Rule>, r: Rule, source: string, target: string, dice: Dice, k: nat)
    requires k <= |rs|
    ensures Latency(rs + [r], source, target, dice, k) == Latency(rs, source, target, dice, k)
    ensures Tampered(rs + [r], source, target, dice, k) == Tampered(rs, source, target, dice, k)
    ensures forall i :: 0 <= i < |rs| ==>
      BlocksAt(rs + [r], source, target, dice, i) == BlocksAt(rs, source, target, dice, i)
  {
    if k > 0 {
      SameBefore(rs, r, source, target, dice, k - 1);
    }
  }

  lemma DecidedLast(rs: seq<Rule>, r: Rule, source: string, target: string, dice: Dice, latencyMs: real, tampered: bool)
    requires DecidedAt(rs, source, target, dice, |rs|, latencyMs, tampered)
    ensures
      var all, n, strikes := rs + [r], |rs|, Strikes(r, source, target, dice(|rs|));
      if strikes && r.faultType in {NetworkPartition, NodeIsolation, PacketDrop}
      then DecidedAt(all, source, target, dice, n, latencyMs, tampered)
      else DecidedAt(all, source, target, dice, n + 1,
                     if strikes && r.faultType == LatencySpike then latencyMs + r.latencyMs else latencyMs,
                     tampered || (strikes && r.faultType == ByzantineTamper))
  {
    var all, n := rs + [r], |rs|;
    SameBefore(rs, r, source, target, dice, n);
    assert all[n] == r;
    assert Applies(r, source, target, dice(n)) <==> Strikes(r, source, target, dice(n));
    if !BlocksAt(all, source, target, dice, n) {
      assert Tampered(all, source, target, dice, n + 1)
        <==> Tampered(all, source, target, dice, n) || (r.faultType.ByzantineTamper? && Applies(r, source, target, dice(n)));
      assert ReachesTo(all, source, target, dice, n + 1);
    }
  }

  /** A partition adds exactly the pairs across it to what was blocked while it lasts, and nothing after it. */
  lemma PartitionEffect(trace: seq<Event>, a: seq<string>, b: seq<string>, p: Rule, q: Rule, now: real,
                        source: string, target: string, dice: Dice, durationSeconds: Option<real>, first: real, second: real)
    requires a != [] && b != []
    requires p == PartitionRule(p.ruleId, a, b, ExpiresAt(durationSeconds, first))
    requires q == PartitionRule(q.ruleId, b, a, ExpiresAt(durationSeconds, second))
    ensures !Over(durationSeconds, first, now) && !Over(durationSeconds, second, now) ==>
      (Blocked(Active(trace + [Injected(p)] + [Injected(q)], now), source, target, dice)
       <==> Blocked(Active(trace, now), source, target, dice) || Across(a, b, source, target))
    ensures Over(durationSeconds, first, now) && Over(durationSeconds, second, now) ==>
      Active(trace + [Injected(p)] + [Injected(q)], now) == Active(trace, now)
  {
    ActiveExactly(trace, p, durationSeconds, first, now);
    ActiveExactly(trace + [Injected(p)], q, durationSeconds, second, now);
    BlockedAppend(Active(trace, now), p, source, target, dice);
    BlockedAppend(Active(trace, now) + [p], q, source, target, dice);
  }

  /** Isolation adds exactly the traffic from and to the node, while it lasts. */
  lemma IsolationEffect(trace: seq<Event>, node: string, ruleId: string, durationSeconds: Option<real>, injectedAt: real,
                        now: real, source: string, target: string, dice: Dice)
    ensures
      var after := trace + [Injected(IsolationRule(ruleId, node, ExpiresAt(durationSeconds, injectedAt)))];
      Blocked(Active(after, now), source, target, dice)
      <==> Blocked(Active(trace, now), source, target, dice)
           || (!Over(durationSeconds, injectedAt, now) && (source == node || target == node))
  {
    var r := IsolationRule(ruleId, node, ExpiresAt(durationSeconds, injectedAt));
    ActiveExactly(trace, r, durationSeconds, injectedAt, now);
    BlockedAppend(Active(trace, now), r, source, target, dice);
  }

  // No rule of the trace has the id
  predicate Unused(trace: seq<Event>, ruleId: string) {
    forall i :: 0 <= i < |trace| && trace[i].Injected? ==> trace[i].rule.ruleId != ruleId
  }

  predicate NoneNamed(rs: seq<Rule>, ruleId: string) {
    forall i :: 0 <= i < |rs| ==> rs[i].ruleId != ruleId
  }

  lemma {:induction false} WithoutNone(rs: seq<Rule>, ruleId: string)
    requires NoneNamed(rs, ruleId)
    ensures Without(rs, ruleId) == rs
  {
    if rs != [] {
      WithoutNone(rs[1..], ruleId);
      assert rs == [rs[0]] + rs[1..];
    }
  }

  lemma {:induction false} WithoutNames(rs: seq<Rule>, ruleId: string, id: string)
    requires NoneNamed(rs, id)
    ensures NoneNamed(Without(rs, ruleId), id)
  {
    if rs != [] {
      WithoutNames(rs[1..], ruleId, id);
    }
  }

  lemma {:induction false} UnexpiredNames(rs: seq<Rule>, now: real, id: string)
    requires NoneNamed(rs, id)
    ensures NoneNamed(Unexpired(rs, now), id)
  {
    if rs != [] {
      UnexpiredNames(rs[1..], now, id);
    }
  }

  lemma {:induction false} UnusedNames(trace: seq<Event>, ruleId: string)
    requires Unused(trace, ruleId)
    ensures NoneNamed(Standing(trace), ruleId) && NoneNamed(Remaining(trace), ruleId)
  {
    if trace != [] {
      var before := trace[..|trace| - 1];
      UnusedNames(before, ruleId);
      match trace[|trace| - 1] {
        case Cleared(id) =>
          WithoutNames(Standing(before), id, ruleId);
          WithoutNames(Remaining(before), id, ruleId);
        case Read(at) =>
          UnexpiredNames(Remaining(before), at, ruleId);
        case _ =>
      }
    }
  }

  /** Clearing both rules of a partition heals it: everything stands as if it had not been made. */
  lemma PartitionHeals(trace: seq<Event>, p: Rule, q: Rule)
    requires Unused(trace, p.ruleId) && Unused(trace, q.ruleId) && p.ruleId != q.ruleId
    ensures Standing(trace + [Injected(p)] + [Injected(q)] + [Cleared(p.ruleId)] + [Cleared(q.ruleId)])
         == Standing(trace)
  {
    var t1 := trace + [Injected(p)];
    var t2 := t1 + [Injected(q)];
    var t3 := t2 + [Cleared(p.ruleId)];
    StandingAppend(trace, Injected(p));
    StandingAppend(t1, Injected(q));
    StandingAppend(t2, Cleared(p.ruleId));
    StandingAppend(t3, Cleared(q.ruleId));
    UnusedNames(trace, p.ruleId);
    UnusedNames(trace, q.ruleId);
    var rs := Standing(trace);
    WithoutAppend(rs, p, p.ruleId);
    WithoutAppend(rs + [p], q, p.ruleId);
    WithoutNone(rs, p.ruleId);
    WithoutAppend(rs, q, q.ruleId);
    WithoutNone(rs, q.ruleId);
  }

  /* The manager. */

  function RuleIdOf(r: Rule): string {
    r.ruleId
  }

  lemma {:induction false} ValuesWithout(order: seq<string>, m: map<string, Rule>, k: string)
    requires forall j :: j in order ==> j in m && m[j].ruleId == j
    requires forall j :: j in Dropped(order, k) ==> j in m
    ensures ValuesIn(Dropped(order, k), m) == Without(ValuesIn(order, m), k)
  {
    if order != [] {
      var first, rest := order[0], order[1..];
      assert order == [first] + rest;
      DropKeepsIn(rest, k);
      ValuesWithout(rest, m, k);
      assert Dropped(order, k) == if first == k then Dropped(rest, k) else [first] + Dropped(rest, k);
      assert first != k ==> ([first] + Dropped(rest, k))[1..] == Dropped(rest, k);
    }
  }

  lemma PoppedKnows(d: Dict<Rule>, k: string)
    requires d.Valid() && KnowKeys(d, RuleIdOf)
    ensures d.Popped(k).Valid() && KnowKeys(d.Popped(k), RuleIdOf)
  {
    DropKeepsIn(d.order, k);
    DroppedDistinct(d.order, k);
  }

  lemma ValuesRestricted(order: seq<string>, m: map<string, Rule>, k: string)
    requires k !in order && forall j :: j in order ==> j in m
    ensures ValuesIn(order, m - {k}) == ValuesIn(order, m)
  {
  }

  // Removing a key removes its rule, in place
  lemma PoppedRules(d: Dict<Rule>, k: string)
    requires d.Valid() && KnowKeys(d, RuleIdOf)
    ensures d.Popped(k).Valid() && KnowKeys(d.Popped(k), RuleIdOf)
    ensures Values(d.Popped(k)) == Without(Values(d), k)
  {
    PoppedKnows(d, k);
    DropKeepsIn(d.order, k);
    ValuesWithout(d.order, d.values, k);
    ValuesRestricted(Dropped(d.order, k), d.values, k);
  }

  lemma NamedExactly(d: Dict<Rule>, k: string)
    requires d.Valid() && KnowKeys(d, RuleIdOf)
    ensures k in d.values <==> !NoneNamed(Values(d), k)
  {
    assert forall i :: 0 <= i < |d.order| ==> d.order[i] in d.values && RuleIdOf(d.values[d.order[i]]) == d.order[i];
    if k in d.values {
      assert k in d.order;
      var i :| 0 <= i < |d.order| && d.order[i] == k;
      assert Values(d)[i].ruleId == k;
    }
  }

  lemma RemainingAppend(trace: seq<Event>, r: Rule)
    ensures Remaining(trace + [Injected(r)]) == Remaining(trace) + [r]
    ensures forall now :: ReadBy(trace, now) ==> ReadBy(trace + [Injected(r)], now)
  {
    assert (trace + [Injected(r)])[..|trace|] == trace;
  }

  lemma AddedRule(d: Dict<Rule>, r: Rule)
    requires d.Valid() && KnowKeys(d, RuleIdOf) && NoneNamed(Values(d), r.ruleId)
    ensures d.Assigned(r.ruleId, r).Valid() && KnowKeys(d.Assigned(r.ruleId, r), RuleIdOf)
    ensures Values(d.Assigned(r.ruleId, r)) == Values(d) + [r]
  {
    NamedExactly(d, r.ruleId);
    AssignedNew(d, r.ruleId, r);
  }

  // The rules whose ids are not listed
  function Unlisted(rs: seq<Rule>, ids: seq<string>): seq<Rule> {
    if rs == [] then []
    else if rs[0].ruleId in ids then Unlisted(rs[1..], ids)
    else [rs[0]] + Unlisted(rs[1..], ids)
  }

  lemma {:induction false} UnlistedOneMore(rs: seq<Rule>, ids: seq<string>, id: string)
    ensures Without(Unlisted(rs, ids), id) == Unlisted(rs, ids + [id])
  {
    if rs != [] {
      UnlistedOneMore(rs[1..], ids, id);
    }
  }

  lemma {:induction false} UnlistedNone(rs: seq<Rule>)
    ensures Unlisted(rs, []) == rs
  {
    if rs != [] {
      UnlistedNone(rs[1..]);
      assert rs == [rs[0]] + rs[1..];
    }
  }

  lemma {:induction false} ExpiredListed(rs: seq<Rule>, ids: seq<string>, now: real)
    requires forall i :: 0 <= i < |rs| ==> (rs[i].ruleId in ids <==> Expired(rs[i], now))
    ensures Unlisted(rs, ids) == Unexpired(rs, now)
  {
    if rs != [] {
      ExpiredListed(rs[1..], ids, now);
    }
  }

  ghost predicate OneRuleEach(rs: seq<Rule>) {
    forall i, j :: 0 <= i < j < |rs| ==> rs[i].ruleId != rs[j].ruleId
  }

  lemma RuleIdsDistinct(d: Dict<Rule>)
    requires d.Valid() && KnowKeys(d, RuleIdOf)
    ensures OneRuleEach(Values(d))
  {
    assert forall i :: 0 <= i < |d.order| ==> d.order[i] in d.values && RuleIdOf(d.values[d.order[i]]) == d.order[i];
  }

  // The loop over the table
  method Scan(items: seq<Rule>, now: real) returns (active: seq<Rule>, expiredKeys: seq<string>)
    requires OneRuleEach(items)
    ensures active == Unexpired(items, now)
    ensures forall i :: 0 <= i < |items| ==> (items[i].ruleId in expiredKeys <==> Expired(items[i], now))
  {
    active, expiredKeys := [], [];
    for i := 0 to |items|
      invariant active == Unexpired(items[..i], now)
      invariant forall j :: 0 <= j < i ==> (items[j].ruleId in expiredKeys <==> Expired(items[j], now))
      invariant forall j :: i <= j < |items| ==> items[j].ruleId !in expiredKeys
    {
      UnexpiredAppend(items[..i], items[i], now);
      assert items[..i + 1] == items[..i] + [items[i]];
      if Expired(items[i], now) {
        expiredKeys := expiredKeys + [items[i].ruleId];
      } else {
        active := active + [items[i]];
      }
    }
    assert items[..|items|] == items;
  }

  // The loop that deletes the keys it found
  method Remove(d: Dict<Rule>, keys: seq<string>) returns (r: Dict<Rule>)
    requires d.Valid() && KnowKeys(d, RuleIdOf)
    ensures r.Valid() && KnowKeys(r, RuleIdOf) && Values(r) == Unlisted(Values(d), keys)
  {
    r := d;
    UnlistedNone(Values(d));
    for i := 0 to |keys|
      invariant r.Valid() && KnowKeys(r, RuleIdOf) && Values(r) == Unlisted(Values(d), keys[..i])
    {
      PoppedRules(r, keys[i]);
      UnlistedOneMore(Values(d), keys[..i], keys[i]);
      assert keys[..i + 1] == keys[..i] + [keys[i]];
      r := r.Popped(keys[i]);
    }
    assert keys[..|keys|] == keys;
  }

  class MeshChaosManager {
    var rules: Dict<Rule>
    ghost var trace: seq<Event>
    ghost var clock: real

    ghost predicate Valid()
      reads this
    {
      && rules.Valid() && KnowKeys(rules, RuleIdOf)
      && Values(rules) == Remaining(trace)
      && ReadBy(trace, clock)
    }

    constructor (now: real)
      ensures Valid() && trace == [] && clock == now
    {
      rules := Dict([], map[]);
      trace, clock := [], now;
    }

    // The id is a new random one; None where the rule's validation raises
    method InjectFault(ruleId: string, faultType: FaultType, sources: seq<string>, targets: seq<string>,
                       probability: real, latencyMs: real, durationSeconds: Option<real>, now: real)
      returns (rule: Option<Rule>)
      requires Valid() && Unused(trace, ruleId)
      modifies this`rules, this`trace
      ensures Valid() && (rule.Some? <==> 0.0 <= probability <= 1.0 && latencyMs >= 0.0)
      ensures rule.None? ==> trace == old(trace) && rules == old(rules)
      ensures rule.Some? ==> trace == old(trace) + [Injected(rule.value)]
      ensures rule.Some? ==> rule.value == Rule(ruleId, faultType, sources, targets, probability, latencyMs,
                                                ExpiresAt(durationSeconds, now))
    {
      if probability < 0.0 || probability > 1.0 || latencyMs < 0.0 {
        return None;
      }
      var newRule := Rule(ruleId, faultType, sources, targets, probability, latencyMs, ExpiresAt(durationSeconds, now));
      UnusedNames(trace, ruleId);
      AddedRule(rules, newRule);
      rules := rules.Assigned(ruleId, newRule);
      RemainingAppend(trace, newRule);
      trace := trace + [Injected(newRule)];
      rule := Some(newRule);
    }

    // The clock is read once for each rule
    method CreatePartition(there: string, back: string, partitionA: seq<string>, partitionB: seq<string>,
                           durationSeconds: Option<real>, now: real, later: real)
      requires Valid() && Unused(trace, there) && Unused(trace, back) && there != back
      modifies this`rules, this`trace
      ensures Valid()
      ensures trace == old(trace)
        + [Injected(PartitionRule(there, partitionA, partitionB, ExpiresAt(durationSeconds, now)))]
        + [Injected(PartitionRule(back, partitionB, partitionA, ExpiresAt(durationSeconds, later)))]
    {
      var first := InjectFault(there, NetworkPartition, partitionA, partitionB, 1.0, 0.0, durationSeconds, now);
      var second := InjectFault(back, NetworkPartition, partitionB, partitionA, 1.0, 0.0, durationSeconds, later);
    }

    method IsolateNode(ruleId: string, node: string, durationSeconds: Option<real>, now: real)
      requires Valid() && Unused(trace, ruleId)
      modifies this`rules, this`trace
      ensures Valid()
      ensures trace == old(trace) + [Injected(IsolationRule(ruleId, node, ExpiresAt(durationSeconds, now)))]
    {
      var rule := InjectFault(ruleId, NodeIsolation, [node], [], 1.0, 0.0, durationSeconds, now);
    }

    method ClearFault(ruleId: string) returns (removed: bool)
      requires Valid()
      modifies this`rules, this`trace
      ensures Valid() && trace == old(trace) + [Cleared(ruleId)]
      ensures removed <==> !NoneNamed(Remaining(old(trace)), ruleId)
    {
      removed := ruleId in rules.values;
      NamedExactly(rules, ruleId);
      PoppedRules(rules, ruleId);
      rules := rules.Popped(ruleId);
      assert (trace + [Cleared(ruleId)])[..|trace|] == trace;
      trace := trace + [Cleared(ruleId)];
    }

    method ClearAllFaults() returns (count: nat)
      requires Valid()
      modifies this`rules, this`trace
      ensures Valid() && trace == old(trace) + [ClearedAll] && count == |Remaining(old(trace))|
    {
      count := |rules.order|;
      rules := Dict([], map[]);
      assert (trace + [ClearedAll])[..|trace|] == trace;
      trace := trace + [ClearedAll];
    }

    method ListActiveFaults(now: real) returns (active: seq<Rule>)
      requires Valid() && clock <= now
      modifies this`rules, this`trace, this`clock
      ensures Valid() && clock == now && trace == old(trace) + [Read(now)]
      ensures active == Active(old(trace), now)
    {
      ghost var before := Values(rules);
      RuleIdsDistinct(rules);
      var expiredKeys;
      active, expiredKeys := Scan(Values(rules), now);
      rules := Remove(rules, expiredKeys);
      ExpiredListed(before, expiredKeys, now);
      PruningInvisible(trace, now);
      assert (trace + [Read(now)])[..|trace|] == trace;
      trace := trace + [Read(now)];
      clock := now;
    }

    method EvaluateTraffic(source: string, target: string, dice: Dice, now: real)
      returns (isBlocked: bool, totalLatencyMs: real, isTampered: bool)
      requires Valid() && clock <= now
      modifies this`rules, this`trace, this`clock
      ensures Valid() && clock == now && trace == old(trace) + [Read(now)]
      ensures Outcome(Active(old(trace), now), source, target, dice, isBlocked, totalLatencyMs, isTampered)
    {
      var activeRules := ListActiveFaults(now);
      isBlocked, totalLatencyMs, isTampered := Evaluate(activeRules, source, target, dice);
    }
  }
}
