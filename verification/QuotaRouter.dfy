/**
 QuotaAwareRouter of agent_workspace/core/account_manager.py: state that is
 evicted and pruned when read, against the trace of everything that happened.
 */
module QuotaRouter {
  import opened Basics
  import opened Wrappers

  datatype Account = Account(id: string, provider: string, tokenBudget: int, tokensUsed: int, isActive: bool)

  datatype Sample = Sample(at: real, tokens: int)

  datatype Event =
    | Marked(account: string, until: real)
    | Requested(account: string, sample: Sample)
    | Measured(account: string, cutoff: real)

  /* What a trace says of an account. */

  function Strikes(trace: seq<Event>, account: string): nat {
    if trace == [] then 0
    else
      var last, before := trace[|trace| - 1], Strikes(trace[..|trace| - 1], account);
      if last.Marked? && last.account == account then before + 1 else before
  }

  // Until when the last mark cools the account
  function Deadline(trace: seq<Event>, account: string): Option<real> {
    if trace == [] then None
    else
      var last := trace[|trace| - 1];
      if last.Marked? && last.account == account then Some(last.until)
      else Deadline(trace[..|trace| - 1], account)
  }

  predicate Cooling(trace: seq<Event>, account: string, now: real) {
    Deadline(trace, account).Some? && now < Deadline(trace, account).value
  }

  function From(ss: seq<Sample>, cutoff: real): seq<Sample> {
    if ss == [] then []
    else
      var last, before := ss[|ss| - 1], From(ss[..|ss| - 1], cutoff);
      if last.at >= cutoff then before + [last] else before
  }

  // Every request recorded
  function Samples(trace: seq<Event>, account: string): seq<Sample> {
    if trace == [] then []
    else
      var last, before := trace[|trace| - 1], Samples(trace[..|trace| - 1], account);
      if last.Requested? && last.account == account then before + [last.sample] else before
  }

  // The requests that no measurement has dropped
  function Kept(trace: seq<Event>, account: string): seq<Sample> {
    if trace == [] then []
    else
      var last, before := trace[|trace| - 1], Kept(trace[..|trace| - 1], account);
      if last.account != account then before
      else match last
           case Requested(_, sample) => before + [sample]
           case Measured(_, cutoff) => From(before, cutoff)
           case Marked(_, _) => before
  }

  function Times(ss: seq<Sample>): (times: seq<real>)
    ensures |times| == |ss|
  {
    if ss == [] then [] else Times(ss[..|ss| - 1]) + [ss[|ss| - 1].at]
  }

  function FromTimes(times: seq<real>, cutoff: real): seq<real> {
    if times == [] then []
    else
      var last, before := times[|times| - 1], FromTimes(times[..|times| - 1], cutoff);
      if last >= cutoff then before + [last] else before
  }

  function Sum(ss: seq<Sample>): int {
    if ss == [] then 0 else Sum(ss[..|ss| - 1]) + ss[|ss| - 1].tokens
  }

  function Marks(trace: seq<Event>, account: string): (marks: seq<bool>)
    ensures |marks| == |trace|
    ensures forall i :: 0 <= i < |trace| ==> marks[i] == (trace[i].Marked? && trace[i].account == account)
  {
    seq(|trace|, i requires 0 <= i < |trace| => trace[i].Marked? && trace[i].account == account)
  }

  lemma {:induction false} StrikesCount(trace: seq<Event>, account: string)
    ensures Strikes(trace, account) == multiset(Marks(trace, account))[true]
  {
    if trace != [] {
      var n := |trace| - 1;
      StrikesCount(trace[..n], account);
      assert Marks(trace, account) == Marks(trace[..n], account) + [Marks(trace, account)[n]];
    }
  }

  // The requests of an account that were made from a time on
  function InWindow(trace: seq<Event>, account: string, cutoff: real): (flags: seq<bool>)
    ensures |flags| == |trace|
    ensures forall i :: 0 <= i < |trace| ==>
      flags[i] == (trace[i].Requested? && trace[i].account == account && cutoff <= trace[i].sample.at)
  {
    seq(|trace|, i requires 0 <= i < |trace| =>
                   trace[i].Requested? && trace[i].account == account && cutoff <= trace[i].sample.at)
  }

  /** The full window has one sample for each request in it. */
  lemma {:induction false} WindowCounts(trace: seq<Event>, account: string, cutoff: real)
    ensures |From(Samples(trace, account), cutoff)| == multiset(InWindow(trace, account, cutoff))[true]
  {
    if trace != [] {
      var n := |trace| - 1;
      WindowCounts(trace[..n], account, cutoff);
      var flags := InWindow(trace, account, cutoff);
      assert flags == InWindow(trace[..n], account, cutoff) + [flags[n]];
      if trace[n].Requested? && trace[n].account == account {
        FromAppend(Samples(trace[..n], account), trace[n].sample, cutoff);
      }
    }
  }

  lemma {:induction false} SumJoins(a: seq<Sample>, b: seq<Sample>)
    ensures Sum(a + b) == Sum(a) + Sum(b)
    ensures |b| == 1 ==> Sum(b) == b[0].tokens
  {
    if b == [] {
      assert a + b == a;
    } else {
      var n := |b| - 1;
      SumJoins(a, b[..n]);
      assert (a + b)[..|a + b| - 1] == a + b[..n];
    }
  }

  lemma FromAppend(ss: seq<Sample>, s: Sample, cutoff: real)
    ensures From(ss + [s], cutoff) == if s.at >= cutoff then From(ss, cutoff) + [s] else From(ss, cutoff)
  {
    assert (ss + [s])[..|ss|] == ss;
  }

  lemma {:induction false} FromFrom(ss: seq<Sample>, early: real, late: real)
    requires early <= late
    ensures From(From(ss, early), late) == From(ss, late) && From(From(ss, late), early) == From(ss, late)
  {
    if ss != [] {
      var last, before := ss[|ss| - 1], ss[..|ss| - 1];
      FromFrom(before, early, late);
      FromAppend(From(before, early), last, late);
      FromAppend(From(before, late), last, early);
    }
  }

  lemma {:induction false} TimesFrom(ss: seq<Sample>, cutoff: real)
    ensures FromTimes(Times(ss), cutoff) == Times(From(ss, cutoff))
  {
    if ss != [] {
      var last, before := ss[|ss| - 1], ss[..|ss| - 1];
      TimesFrom(before, cutoff);
      assert Times(ss)[..|ss| - 1] == Times(before);
      TimesAppend(From(before, cutoff), last);
    }
  }

  lemma TimesAppend(ss: seq<Sample>, s: Sample)
    ensures Times(ss + [s]) == Times(ss) + [s.at]
  {
    assert (ss + [s])[..|ss|] == ss;
  }

  /* What pruning loses. */

  // Trace entry j dropped the request at entry i, which a window from the cutoff on would show
  predicate Drops(trace: seq<Event>, account: string, cutoff: real, i: nat, j: nat) {
    && i < j < |trace| && trace[i].Requested? && trace[j].Measured?
    && trace[i].account == trace[j].account == account
    && cutoff <= trace[i].sample.at < trace[j].cutoff
  }

  ghost predicate Lost(trace: seq<Event>, account: string, cutoff: real) {
    exists i: nat, j: nat :: Drops(trace, account, cutoff, i, j)
  }

  // A request from one time up to and without another
  predicate Between(trace: seq<Event>, account: string, early: real, late: real, i: nat) {
    && i < |trace| && trace[i].Requested? && trace[i].account == account
    && early <= trace[i].sample.at < late
  }

  ghost predicate AnyBetween(trace: seq<Event>, account: string, early: real, late: real) {
    exists i: nat :: Between(trace, account, early, late, i)
  }

  // Trace entry j dropped something
  ghost predicate DroppedBy(trace: seq<Event>, account: string, cutoff: real, j: nat) {
    exists i: nat :: Drops(trace, account, cutoff, i, j)
  }

  lemma {:induction false} FewerFrom(ss: seq<Sample>, early: real, late: real)
    requires early <= late
    ensures |From(ss, late)| <= |From(ss, early)|
  {
    if ss != [] {
      FewerFrom(ss[..|ss| - 1], early, late);
    }
  }

  lemma BetweenPrefix(trace: seq<Event>, account: string, early: real, late: real)
    requires trace != []
    ensures AnyBetween(trace, account, early, late)
       <==> (AnyBetween(trace[..|trace| - 1], account, early, late)
             || Between(trace, account, early, late, |trace| - 1))
  {
    var before := trace[..|trace| - 1];
    if i: nat :| Between(trace, account, early, late, i) && i < |trace| - 1 {
      assert Between(before, account, early, late, i);
    }
    if i: nat :| Between(before, account, early, late, i) {
      assert Between(trace, account, early, late, i);
    }
  }

  // Raising the cutoff drops a request exactly when there is one in between
  lemma {:induction false} RaisedCutoff(trace: seq<Event>, account: string, early: real, late: real)
    requires early <= late
    ensures |From(Samples(trace, account), late)| <= |From(Samples(trace, account), early)|
    ensures |From(Samples(trace, account), late)| == |From(Samples(trace, account), early)|
       <==> !AnyBetween(trace, account, early, late)
  {
    if trace == [] {
      assert forall i: nat :: !Between(trace, account, early, late, i);
    } else {
      var last, before := trace[|trace| - 1], trace[..|trace| - 1];
      RaisedCutoff(before, account, early, late);
      BetweenPrefix(trace, account, early, late);
      if last.Requested? && last.account == account {
        FromAppend(Samples(before, account), last.sample, early);
        FromAppend(Samples(before, account), last.sample, late);
      }
    }
  }

  lemma LostBefore(trace: seq<Event>, account: string, cutoff: real)
    requires trace != []
    ensures Lost(trace, account, cutoff)
       <==> (Lost(trace[..|trace| - 1], account, cutoff) || DroppedBy(trace, account, cutoff, |trace| - 1))
  {
    var before := trace[..|trace| - 1];
    if i: nat, j: nat :| Drops(trace, account, cutoff, i, j) && j < |trace| - 1 {
      assert Drops(before, account, cutoff, i, j);
    }
    if i: nat, j: nat :| Drops(before, account, cutoff, i, j) {
      assert Drops(trace, account, cutoff, i, j);
    }
  }

  lemma OnlyMeasuringLoses(before: seq<Event>, last: Event, account: string, cutoff: real)
    requires !last.Measured? || last.account != account
    ensures Lost(before + [last], account, cutoff) <==> Lost(before, account, cutoff)
  {
    var trace := before + [last];
    LostBefore(trace, account, cutoff);
    assert trace[..|before|] == before;
    assert forall i: nat :: !Drops(trace, account, cutoff, i, |before|);
  }

  // Losses below a cutoff that no request lies beneath are losses above it
  lemma LostRaised(trace: seq<Event>, account: string, early: real, late: real)
    requires early <= late && !AnyBetween(trace, account, early, late)
    ensures Lost(trace, account, early) <==> Lost(trace, account, late)
  {
    if i: nat, j: nat :| Drops(trace, account, early, i, j) {
      assert !Between(trace, account, early, late, i);
      assert Drops(trace, account, late, i, j);
    }
    if i: nat, j: nat :| Drops(trace, account, late, i, j) {
      assert Drops(trace, account, early, i, j);
    }
  }

  // The window of the kept requests against the window of all of them
  ghost predicate Exact(trace: seq<Event>, account: string, cutoff: real) {
    var kept, all := From(Kept(trace, account), cutoff), From(Samples(trace, account), cutoff);
    && |kept| <= |all|
    && (|kept| == |all| <==> !Lost(trace, account, cutoff))
    && (!Lost(trace, account, cutoff) ==> kept == all)
  }

  lemma ExactMeasured(before: seq<Event>, account: string, c: real, cutoff: real)
    requires Exact(before, account, cutoff) && Exact(before, account, c)
    ensures Exact(before + [Measured(account, c)], account, cutoff)
  {
    var trace := before + [Measured(account, c)];
    assert trace[..|before|] == before;
    LostBefore(trace, account, cutoff);
    if c <= cutoff {
      FromFrom(Kept(before, account), c, cutoff);
      assert forall i: nat :: !Drops(trace, account, cutoff, i, |before|);
    } else {
      FromFrom(Kept(before, account), cutoff, c);
      RaisedCutoff(before, account, cutoff, c);
      assert forall i: nat :: Drops(trace, account, cutoff, i, |before|) <==> Between(before, account, cutoff, c, i);
      if !AnyBetween(before, account, cutoff, c) {
        LostRaised(before, account, cutoff, c);
        FromFrom(Samples(before, account), cutoff, c);
        SameLengthFrom(Samples(before, account), cutoff, c);
      }
    }
  }

  lemma {:induction false} SameLengthFrom(ss: seq<Sample>, early: real, late: real)
    requires early <= late && |From(ss, early)| == |From(ss, late)|
    ensures From(ss, early) == From(ss, late)
  {
    if ss != [] {
      FewerFrom(ss[..|ss| - 1], early, late);
      SameLengthFrom(ss[..|ss| - 1], early, late);
    }
  }

  /** The pruned window shows every request of the full history exactly when no earlier measurement, with a
      later cutoff, dropped one of them. */
  lemma {:induction false} PrunedWindowExactly(trace: seq<Event>, account: string, cutoff: real)
    ensures Exact(trace, account, cutoff)
  {
    if trace == [] {
      assert forall i: nat, j: nat :: !Drops(trace, account, cutoff, i, j);
    } else {
      var last, before := trace[|trace| - 1], trace[..|trace| - 1];
      assert trace == before + [last];
      PrunedWindowExactly(before, account, cutoff);
      if last.Measured? && last.account == account {
        PrunedWindowExactly(before, account, last.cutoff);
        ExactMeasured(before, account, last.cutoff, cutoff);
      } else {
        OnlyMeasuringLoses(before, last, account, cutoff);
        if last.Requested? && last.account == account {
          FromAppend(Kept(before, account), last.sample, cutoff);
          FromAppend(Samples(before, account), last.sample, cutoff);
        }
      }
    }
  }

  /** Cutoffs that never go back lose nothing. */
  lemma RisingCutoffsLoseNothing(trace: seq<Event>, account: string, cutoff: real)
    requires forall j :: 0 <= j < |trace| && trace[j].Measured? && trace[j].account == account ==> trace[j].cutoff <= cutoff
    ensures From(Kept(trace, account), cutoff) == From(Samples(trace, account), cutoff)
  {
    PrunedWindowExactly(trace, account, cutoff);
    assert forall i: nat, j: nat :: !Drops(trace, account, cutoff, i, j);
  }

  /* Backoff. */

  function Backoff(base: real, cap: real, count: nat): real
    requires count >= 1
  {
    var delay := base * Pow2(count - 1) as real;
    if delay <= cap then delay else cap
  }

  ghost predicate Grows(base: real, cap: real) {
    forall n: nat :: n >= 1 ==> Backoff(base, cap, n) <= Backoff(base, cap, n + 1)
  }

  lemma NegativeTimes(base: real, x: real, y: real)
    requires base < 0.0 && x <= y
    ensures base * y <= base * x
  {
    assert base * (y - x) <= 0.0;
  }

  // A negative base falls to any depth
  lemma FallsBelow(base: real, cap: real) returns (n: nat)
    requires base < 0.0
    ensures n >= 1 && base * Pow2(n - 1) as real <= cap
  {
    if cap >= 0.0 {
      n := 1;
      assert Pow2(0) == 1;
      assert base * Pow2(n - 1) as real == base * 1.0;
    } else {
      var k := (cap / base).Floor;
      n := k + 2;
      var p := Pow2(n - 1) as real;
      NegativeTimes(base, cap / base, p);
      assert base * (cap / base) == cap;
      assert base * p <= cap;
      assert base * Pow2(n - 1) as real <= cap;
    }
  }

  /** The backoff never exceeds its cap and never shrinks, the latter exactly for bases that are not negative. */
  lemma BackoffGrowsExactly(base: real, cap: real)
    ensures forall n: nat :: n >= 1 ==> Backoff(base, cap, n) <= cap
    ensures Grows(base, cap) <==> base >= 0.0
  {
    if base >= 0.0 {
      forall n: nat | n >= 1 ensures Backoff(base, cap, n) <= Backoff(base, cap, n + 1) {
        assert Pow2(n) == 2 * Pow2(n - 1);
        var delay := base * Pow2(n - 1) as real;
        assert base * Pow2(n) as real == 2.0 * delay;
        assert delay >= 0.0;
      }
    } else {
      var n := FallsBelow(base, cap);
      assert Pow2(n) == 2 * Pow2(n - 1);
      var delay := base * Pow2(n - 1) as real;
      assert base * Pow2(n) as real == 2.0 * delay;
      assert delay < 0.0;
      assert Backoff(base, cap, n + 1) < Backoff(base, cap, n);
    }
  }

  /** The first delay is the base, and each next one twice the last, until the cap is reached. */
  lemma BackoffDoubles(base: real, cap: real, n: nat)
    requires n >= 1
    ensures Backoff(base, cap, 1) == if base <= cap then base else cap
    ensures Backoff(base, cap, n) < cap ==>
      Backoff(base, cap, n + 1) == if 2.0 * Backoff(base, cap, n) <= cap then 2.0 * Backoff(base, cap, n) else cap
    ensures Backoff(base, cap, n) == cap && cap >= 0.0 ==> Backoff(base, cap, n + 1) == cap
  {
    assert Pow2(0) == 1 && Pow2(n) == 2 * Pow2(n - 1);
    assert base * Pow2(0) as real == base;
    var delay := base * Pow2(n - 1) as real;
    assert base * Pow2(n) as real == 2.0 * delay;
  }

  /* The choice among accounts. */

  // A provider to prefer, or ""
  datatype Preference = Preference(provider: string, lower: string -> string) {
    predicate Matches(a: Account) {
      provider != "" && lower(a.provider) == lower(provider)
    }

    // Matching accounts first, among equals the active ones
    function Rank(a: Account): nat {
      (if Matches(a) then 0 else 2) + if a.isActive then 0 else 1
    }
  }

  predicate OverBudget(a: Account) {
    a.tokenBudget != -1 && a.tokensUsed >= a.tokenBudget
  }

  predicate Eligible(trace: seq<Event>, a: Account, now: real) {
    a.id != "" && !Cooling(trace, a.id, now) && !OverBudget(a)
  }

  // The eligible accounts, each looked at at its own time
  function Candidates(trace: seq<Event>, accounts: seq<Account>, clocks: seq<real>): seq<Account>
    requires |clocks| == |accounts|
  {
    if accounts == [] then []
    else
      var n := |accounts| - 1;
      var before := Candidates(trace, accounts[..n], clocks[..n]);
      if Eligible(trace, accounts[n], clocks[n]) then before + [accounts[n]] else before
  }

  // The account at position i can be used
  predicate Usable(trace: seq<Event>, accounts: seq<Account>, clocks: seq<real>, i: nat)
    requires |clocks| == |accounts|
  {
    && i < |accounts| && accounts[i].id != "" && !Cooling(trace, accounts[i].id, clocks[i])
    && (accounts[i].tokenBudget == -1 || accounts[i].tokensUsed < accounts[i].tokenBudget)
  }

  // A preferred provider before any other, then an active account before an inactive one
  predicate Outranks(p: Preference, a: Account, b: Account) {
    var ours, theirs := p.lower(a.provider) == p.lower(p.provider), p.lower(b.provider) == p.lower(p.provider);
    if p.provider == "" || ours == theirs then a.isActive && !b.isActive else ours
  }

  // The first usable account that no usable one outranks
  ghost predicate Preferred(trace: seq<Event>, accounts: seq<Account>, clocks: seq<real>, p: Preference, i: nat)
    requires |clocks| == |accounts|
  {
    && Usable(trace, accounts, clocks, i)
    && (forall j: nat :: Usable(trace, accounts, clocks, j) ==> !Outranks(p, accounts[j], accounts[i]))
    && (forall j: nat :: j < i && Usable(trace, accounts, clocks, j) ==> Outranks(p, accounts[i], accounts[j]))
  }

  lemma {:induction false} CandidateMembers(trace: seq<Event>, accounts: seq<Account>, clocks: seq<real>, i: nat)
    requires |clocks| == |accounts| && Usable(trace, accounts, clocks, i)
    ensures accounts[i] in Candidates(trace, accounts, clocks)
  {
    var n := |accounts| - 1;
    if i < n {
      CandidateMembers(trace, accounts[..n], clocks[..n], i);
    }
  }

  // Position i is that of the k-th candidate
  lemma {:induction false} CandidateIndex(trace: seq<Event>, accounts: seq<Account>, clocks: seq<real>, k: nat) returns (i: nat)
    requires |clocks| == |accounts| && k < |Candidates(trace, accounts, clocks)|
    ensures Usable(trace, accounts, clocks, i) && accounts[i] == Candidates(trace, accounts, clocks)[k]
    ensures Candidates(trace, accounts[..i], clocks[..i]) == Candidates(trace, accounts, clocks)[..k]
  {
    var n := |accounts| - 1;
    var before := Candidates(trace, accounts[..n], clocks[..n]);
    if k < |before| {
      i := CandidateIndex(trace, accounts[..n], clocks[..n], k);
      assert accounts[..n][..i] == accounts[..i] && clocks[..n][..i] == clocks[..i];
    } else {
      i := n;
    }
  }

  lemma BestIsPreferred(trace: seq<Event>, accounts: seq<Account>, clocks: seq<real>, p: Preference, r: Account)
    requires |clocks| == |accounts| && FirstBest(Candidates(trace, accounts, clocks), p, r)
    ensures exists i: nat :: Preferred(trace, accounts, clocks, p, i) && accounts[i] == r
  {
    var all := Candidates(trace, accounts, clocks);
    var k: nat :| k < |all| && all[k] == r && BestAt(all, p, k);
    var i := CandidateIndex(trace, accounts, clocks, k);
    forall j: nat | Usable(trace, accounts, clocks, j) ensures !Outranks(p, accounts[j], accounts[i]) {
      CandidateMembers(trace, accounts, clocks, j);
    }
    forall j: nat | j < i && Usable(trace, accounts, clocks, j) ensures Outranks(p, accounts[i], accounts[j]) {
      CandidateMembers(trace, accounts[..i], clocks[..i], j);
      assert accounts[j] in all[..k];
    }
    assert Preferred(trace, accounts, clocks, p, i);
  }

  lemma {:induction false} NoCandidateExactly(trace: seq<Event>, accounts: seq<Account>, clocks: seq<real>)
    requires |clocks| == |accounts|
    ensures Candidates(trace, accounts, clocks) == []
       <==> forall i: nat :: !Usable(trace, accounts, clocks, i)
  {
    if accounts != [] {
      var n := |accounts| - 1;
      NoCandidateExactly(trace, accounts[..n], clocks[..n]);
      assert forall i: nat :: i < n ==> Usable(trace, accounts[..n], clocks[..n], i) == Usable(trace, accounts, clocks, i);
      assert Usable(trace, accounts, clocks, n) <==> Eligible(trace, accounts[n], clocks[n]);
    }
  }

  // The first of the accounts that no other outranks
  ghost predicate FirstBest(candidates: seq<Account>, p: Preference, r: Account) {
    exists i :: 0 <= i < |candidates| && candidates[i] == r && BestAt(candidates, p, i)
  }

  ghost predicate BestAt(candidates: seq<Account>, p: Preference, i: nat)
    requires i < |candidates|
  {
    && (forall j :: 0 <= j < |candidates| ==> p.Rank(candidates[i]) <= p.Rank(candidates[j]))
    && (forall j :: 0 <= j < i ==> p.Rank(candidates[i]) < p.Rank(candidates[j]))
  }

  function Matching(candidates: seq<Account>, p: Preference): seq<Account> {
    if candidates == [] then []
    else if p.Matches(candidates[0]) then [candidates[0]] + Matching(candidates[1..], p)
    else Matching(candidates[1..], p)
  }

  // The first active account, or the first
  method ActiveOrFirst(accounts: seq<Account>) returns (r: Account)
    requires accounts != []
    ensures exists i :: 0 <= i < |accounts| && r == accounts[i]
                     && (forall j :: 0 <= j < i ==> !accounts[j].isActive)
                     && (r.isActive || (i == 0 && forall j :: 0 <= j < |accounts| ==> !accounts[j].isActive))
  {
    for i := 0 to |accounts|
      invariant forall j :: 0 <= j < i ==> !accounts[j].isActive
    {
      if accounts[i].isActive {
        return accounts[i];
      }
    }
    r := accounts[0];
  }

  // Position i is that of the k-th matching account
  ghost predicate StandsAt(candidates: seq<Account>, p: Preference, k: nat, i: nat) {
    && k < |Matching(candidates, p)| && i < |candidates|
    && candidates[i] == Matching(candidates, p)[k] && p.Matches(candidates[i])
    && forall j :: 0 <= j < i && p.Matches(candidates[j]) ==> candidates[j] in Matching(candidates, p)[..k]
  }

  lemma StandsOneFurther(first: Account, rest: seq<Account>, p: Preference, k: nat, i: nat)
    requires StandsAt(rest, p, k, i)
    ensures StandsAt([first] + rest, p, if p.Matches(first) then k + 1 else k, i + 1)
  {
    var all := [first] + rest;
    assert all[1..] == rest;
    assert p.Matches(first) ==> Matching(all, p)[..k + 1] == [first] + Matching(rest, p)[..k];
    assert forall j :: 1 <= j < i + 1 ==> all[j] == rest[j - 1];
  }

  lemma {:induction false} MatchingIndex(candidates: seq<Account>, p: Preference, k: nat) returns (i: nat)
    requires k < |Matching(candidates, p)|
    ensures StandsAt(candidates, p, k, i)
  {
    var first, rest := candidates[0], candidates[1..];
    assert candidates == [first] + rest;
    if p.Matches(first) && k == 0 {
      i := 0;
    } else {
      var n := MatchingIndex(rest, p, if p.Matches(first) then k - 1 else k);
      StandsOneFurther(first, rest, p, if p.Matches(first) then k - 1 else k, n);
      i := n + 1;
    }
  }

  lemma {:induction false} MatchingMembers(candidates: seq<Account>, p: Preference)
    ensures forall a :: a in Matching(candidates, p) <==> a in candidates && p.Matches(a)
  {
    if candidates != [] {
      MatchingMembers(candidates[1..], p);
      assert candidates == [candidates[0]] + candidates[1..];
    }
  }

  lemma MatchingFirstBest(candidates: seq<Account>, p: Preference, k: nat)
    requires k < |Matching(candidates, p)|
    requires forall j :: 0 <= j < k ==> !Matching(candidates, p)[j].isActive
    requires Matching(candidates, p)[k].isActive
          || (k == 0 && forall j :: 0 <= j < |Matching(candidates, p)| ==> !Matching(candidates, p)[j].isActive)
    ensures FirstBest(candidates, p, Matching(candidates, p)[k])
  {
    var i := MatchingIndex(candidates, p, k);
    MatchingMembers(candidates, p);
    forall j | 0 <= j < |candidates| ensures p.Rank(candidates[i]) <= p.Rank(candidates[j]) {
      if p.Matches(candidates[j]) {
        assert candidates[j] in Matching(candidates, p);
      }
    }
    forall j | 0 <= j < i ensures p.Rank(candidates[i]) < p.Rank(candidates[j]) {
      if p.Matches(candidates[j]) {
        assert candidates[j] in Matching(candidates, p)[..k];
      }
    }
    assert BestAt(candidates, p, i);
  }

  /** A preferred provider first, then an active account, then the order of the list. */
  method Choose(candidates: seq<Account>, p: Preference) returns (r: Account)
    requires candidates != []
    ensures FirstBest(candidates, p, r)
  {
    MatchingMembers(candidates, p);
    if p.provider != "" {
      var prefCandidates := Matching(candidates, p);
      if prefCandidates != [] {
        r := ActiveOrFirst(prefCandidates);
        ghost var k :| 0 <= k < |prefCandidates| && prefCandidates[k] == r
          && (forall j :: 0 <= j < k ==> !prefCandidates[j].isActive)
          && (r.isActive || (k == 0 && forall j :: 0 <= j < |prefCandidates| ==> !prefCandidates[j].isActive));
        MatchingFirstBest(candidates, p, k);
        return;
      }
    }
    assert forall j :: 0 <= j < |candidates| ==> !p.Matches(candidates[j]);
    r := ActiveOrFirst(candidates);
    ghost var i :| 0 <= i < |candidates| && candidates[i] == r
      && (forall j :: 0 <= j < i ==> !candidates[j].isActive)
      && (r.isActive || (i == 0 && forall j :: 0 <= j < |candidates| ==> !candidates[j].isActive));
    assert BestAt(candidates, p, i);
  }

  /* The state against the trace. */

  function Get<V>(m: map<string, V>, key: string, otherwise: V): V {
    if key in m then m[key] else otherwise
  }

  // An evicted account's deadline has passed
  predicate CoolingFits(cooling: map<string, real>, trace: seq<Event>, clock: real, account: string) {
    match Deadline(trace, account)
    case Some(until) => if account in cooling then cooling[account] == until else until <= clock
    case None => account !in cooling
  }

  predicate StrikesFit(strikes: map<string, nat>, trace: seq<Event>, account: string) {
    Get(strikes, account, 0) == Strikes(trace, account)
  }

  predicate SamplesFit(requests: map<string, seq<real>>, tokens: map<string, seq<Sample>>, trace: seq<Event>, account: string)
  {
    Get(tokens, account, []) == Kept(trace, account) && Get(requests, account, []) == Times(Get(tokens, account, []))
  }

  lemma CoolingRead(cooling: map<string, real>, trace: seq<Event>, clock: real, account: string, now: real)
    requires CoolingFits(cooling, trace, clock, account) && clock <= now
    ensures Cooling(trace, account, now) <==> account in cooling && now < cooling[account]
  {
  }

  // What an event that is none of its own leaves of an account
  lemma AnotherEvent(trace: seq<Event>, e: Event, account: string)
    ensures !e.Marked? || e.account != account ==>
      Deadline(trace + [e], account) == Deadline(trace, account) && Strikes(trace + [e], account) == Strikes(trace, account)
    ensures e.Marked? || e.account != account ==> Kept(trace + [e], account) == Kept(trace, account)
  {
    assert (trace + [e])[..|trace|] == trace;
  }

  lemma OwnEvent(trace: seq<Event>, e: Event)
    ensures e.Marked? ==> Deadline(trace + [e], e.account) == Some(e.until)
    ensures e.Marked? ==> Strikes(trace + [e], e.account) == Strikes(trace, e.account) + 1
    ensures e.Requested? ==> Kept(trace + [e], e.account) == Kept(trace, e.account) + [e.sample]
    ensures e.Measured? ==> Kept(trace + [e], e.account) == From(Kept(trace, e.account), e.cutoff)
  {
    assert (trace + [e])[..|trace|] == trace;
  }

  // The values of the router's fields
  datatype State = State(cooling: map<string, real>, strikes: map<string, nat>, requests: map<string, seq<real>>,
                         tokens: map<string, seq<Sample>>)

  ghost predicate Fits(s: State, trace: seq<Event>, clock: real) {
    && (forall a :: CoolingFits(s.cooling, trace, clock, a))
    && (forall a :: StrikesFit(s.strikes, trace, a))
    && (forall a :: SamplesFit(s.requests, s.tokens, trace, a))
  }

  lemma MarkFits(s: State, trace: seq<Event>, clock: real, account: string, until: real, now: real)
    requires Fits(s, trace, clock) && clock <= now
    ensures Fits(s.(cooling := s.cooling[account := until],
                    strikes := s.strikes[account := Get(s.strikes, account, 0) + 1]),
                 trace + [Marked(account, until)], now)
  {
    var e := Marked(account, until);
    var after := s.(cooling := s.cooling[account := until],
                    strikes := s.strikes[account := Get(s.strikes, account, 0) + 1]);
    OwnEvent(trace, e);
    forall a
      ensures CoolingFits(after.cooling, trace + [e], now, a) && StrikesFit(after.strikes, trace + [e], a)
           && SamplesFit(after.requests, after.tokens, trace + [e], a)
    {
      AnotherEvent(trace, e, a);
      assert CoolingFits(s.cooling, trace, clock, a);
      assert StrikesFit(s.strikes, trace, a);
      assert SamplesFit(s.requests, s.tokens, trace, a);
    }
  }

  // Both lists of an account replaced by what the event makes of them
  lemma SamplesReplaced(s: State, trace: seq<Event>, clock: real, e: Event, now: real, kept: seq<Sample>)
    requires Fits(s, trace, clock) && clock <= now && !e.Marked? && kept == Kept(trace + [e], e.account)
    ensures Fits(s.(requests := s.requests[e.account := Times(kept)], tokens := s.tokens[e.account := kept]),
                 trace + [e], now)
  {
    var after := s.(requests := s.requests[e.account := Times(kept)], tokens := s.tokens[e.account := kept]);
    forall a
      ensures CoolingFits(after.cooling, trace + [e], now, a) && StrikesFit(after.strikes, trace + [e], a)
           && SamplesFit(after.requests, after.tokens, trace + [e], a)
    {
      AnotherEvent(trace, e, a);
      assert CoolingFits(s.cooling, trace, clock, a);
      assert StrikesFit(s.strikes, trace, a);
      assert SamplesFit(s.requests, s.tokens, trace, a);
    }
  }

  lemma RequestFits(s: State, trace: seq<Event>, clock: real, account: string, tokens: int, now: real)
    requires Fits(s, trace, clock) && clock <= now
    ensures Fits(s.(requests := s.requests[account := Get(s.requests, account, []) + [now]],
                    tokens := s.tokens[account := Get(s.tokens, account, []) + [Sample(now, tokens)]]),
                 trace + [Requested(account, Sample(now, tokens))], now)
  {
    var e := Requested(account, Sample(now, tokens));
    assert SamplesFit(s.requests, s.tokens, trace, account);
    OwnEvent(trace, e);
    TimesAppend(Kept(trace, account), Sample(now, tokens));
    SamplesReplaced(s, trace, clock, e, now, Kept(trace + [e], account));
  }

  lemma MeasureFits(s: State, trace: seq<Event>, clock: real, account: string, cutoff: real, now: real)
    requires Fits(s, trace, clock) && clock <= now
    ensures FromTimes(Get(s.requests, account, []), cutoff) == Times(From(Kept(trace, account), cutoff))
    ensures From(Get(s.tokens, account, []), cutoff) == From(Kept(trace, account), cutoff)
    ensures Fits(s.(requests := s.requests[account := FromTimes(Get(s.requests, account, []), cutoff)],
                    tokens := s.tokens[account := From(Get(s.tokens, account, []), cutoff)]),
                 trace + [Measured(account, cutoff)], now)
  {
    var e := Measured(account, cutoff);
    assert SamplesFit(s.requests, s.tokens, trace, account);
    OwnEvent(trace, e);
    TimesFrom(Kept(trace, account), cutoff);
    SamplesReplaced(s, trace, clock, e, now, Kept(trace + [e], account));
  }

  class QuotaAwareRouter {
    const baseCooldown: real
    const maxCooldown: real
    var coolingAccounts: map<string, real>
    var consecutive429: map<string, nat>
    var telemetryRequests: map<string, seq<real>>
    var telemetryTokens: map<string, seq<Sample>>
    ghost var trace: seq<Event>
    ghost var clock: real

    ghost predicate Valid()
      reads this
    {
      Fits(State(coolingAccounts, consecutive429, telemetryRequests, telemetryTokens), trace, clock)
    }

    constructor (baseCooldown: real, maxCooldown: real, now: real)
      ensures Valid() && trace == [] && clock == now
      ensures this.baseCooldown == baseCooldown && this.maxCooldown == maxCooldown
    {
      this.baseCooldown, this.maxCooldown := baseCooldown, maxCooldown;
      coolingAccounts, consecutive429, telemetryRequests, telemetryTokens := map[], map[], map[], map[];
      trace, clock := [], now;
    }

    method MarkRateLimited(accountId: string, retryAfter: Option<real>, now: real) returns (cd: real)
      requires Valid() && clock <= now
      modifies this`coolingAccounts, this`consecutive429, this`trace, this`clock
      ensures Valid() && clock == now && trace == old(trace) + [Marked(accountId, now + cd)]
      ensures cd == match retryAfter
                    case Some(seconds) => seconds
                    case None => Backoff(baseCooldown, maxCooldown, Strikes(old(trace), accountId) + 1)
      ensures forall at :: Cooling(trace, accountId, at) <==> at < now + cd
    {
      assert StrikesFit(consecutive429, trace, accountId);
      var count := Get(consecutive429, accountId, 0) + 1;
      cd := match retryAfter
            case Some(seconds) => seconds
            case None => Backoff(baseCooldown, maxCooldown, count);
      MarkFits(State(coolingAccounts, consecutive429, telemetryRequests, telemetryTokens), trace, clock,
               accountId, now + cd, now);
      OwnEvent(trace, Marked(accountId, now + cd));
      consecutive429 := consecutive429[accountId := count];
      coolingAccounts := coolingAccounts[accountId := now + cd];
      trace := trace + [Marked(accountId, now + cd)];
      clock := now;
    }

    // Eviction does not show: the answer is that of the last mark ever made
    method IsAccountCooling(accountId: string, now: real) returns (r: bool)
      requires Valid() && clock <= now
      modifies this`coolingAccounts, this`clock
      ensures Valid() && clock == now
      ensures r <==> Cooling(trace, accountId, now)
    {
      assert CoolingFits(coolingAccounts, trace, clock, accountId);
      CoolingRead(coolingAccounts, trace, clock, accountId, now);
      r := false;
      ghost var before := clock;
      clock := now;
      if accountId in coolingAccounts {
        if now >= coolingAccounts[accountId] {
          coolingAccounts := coolingAccounts - {accountId};
        } else {
          r := true;
        }
      }
      forall a ensures CoolingFits(coolingAccounts, trace, clock, a) {
        assert CoolingFits(old(coolingAccounts), trace, before, a);
      }
    }

    method RecordRequestTelemetry(accountId: string, tokens: int, now: real)
      requires Valid() && clock <= now
      modifies this`telemetryRequests, this`telemetryTokens, this`trace, this`clock
      ensures Valid() && clock == now && trace == old(trace) + [Requested(accountId, Sample(now, tokens))]
    {
      RequestFits(State(coolingAccounts, consecutive429, telemetryRequests, telemetryTokens), trace, clock,
                  accountId, tokens, now);
      telemetryRequests := telemetryRequests[accountId := Get(telemetryRequests, accountId, []) + [now]];
      telemetryTokens := telemetryTokens[accountId := Get(telemetryTokens, accountId, []) + [Sample(now, tokens)]];
      trace := trace + [Requested(accountId, Sample(now, tokens))];
      clock := now;
    }

    // What the prunings since have not dropped, and all there ever was when they dropped nothing of this window
    method GetRateMetrics(accountId: string, windowSeconds: real, now: real) returns (rpm: nat, tpm: int)
      requires Valid() && clock <= now
      modifies this`telemetryRequests, this`telemetryTokens, this`trace, this`clock
      ensures Valid() && clock == now && trace == old(trace) + [Measured(accountId, now - windowSeconds)]
      ensures rpm == |From(Kept(old(trace), accountId), now - windowSeconds)|
      ensures tpm == Sum(From(Kept(old(trace), accountId), now - windowSeconds))
      ensures rpm == |From(Samples(old(trace), accountId), now - windowSeconds)|
         <==> !Lost(old(trace), accountId, now - windowSeconds)
      ensures !Lost(old(trace), accountId, now - windowSeconds) ==>
        tpm == Sum(From(Samples(old(trace), accountId), now - windowSeconds))
    {
      var cutoff := now - windowSeconds;
      PrunedWindowExactly(trace, accountId, cutoff);
      MeasureFits(State(coolingAccounts, consecutive429, telemetryRequests, telemetryTokens), trace, clock,
                  accountId, cutoff, now);
      var reqs := FromTimes(Get(telemetryRequests, accountId, []), cutoff);
      telemetryRequests := telemetryRequests[accountId := reqs];
      var toks := From(Get(telemetryTokens, accountId, []), cutoff);
      telemetryTokens := telemetryTokens[accountId := toks];
      trace := trace + [Measured(accountId, cutoff)];
      clock := now;
      rpm, tpm := |reqs|, Sum(toks);
    }

    // None where no configured account is eligible
    method GetAvailableAccount(accounts: seq<Account>, p: Preference, clocks: seq<real>) returns (r: Option<Account>)
      requires Valid() && |clocks| == |accounts|
      requires forall i :: 0 <= i < |clocks| ==> clock <= clocks[i]
      requires forall i, j :: 0 <= i < j < |clocks| ==> clocks[i] <= clocks[j]
      modifies this`coolingAccounts, this`clock
      ensures Valid()
      ensures r.None? <==> forall i: nat :: !Usable(trace, accounts, clocks, i)
      ensures r.Some? ==> exists i: nat :: Preferred(trace, accounts, clocks, p, i) && accounts[i] == r.value
    {
      var candidates: seq<Account> := [];
      for i := 0 to |accounts|
        invariant Valid() && forall j :: i <= j < |clocks| ==> clock <= clocks[j]
        invariant candidates == Candidates(trace, accounts[..i], clocks[..i])
      {
        assert accounts[..i + 1][..i] == accounts[..i] && clocks[..i + 1][..i] == clocks[..i];
        var acc := accounts[i];
        if acc.id != "" {
          var cooling := IsAccountCooling(acc.id, clocks[i]);
          if !cooling && !OverBudget(acc) {
            candidates := candidates + [acc];
          }
        }
      }
      assert accounts[..|accounts|] == accounts && clocks[..|clocks|] == clocks;
      NoCandidateExactly(trace, accounts, clocks);
      if candidates == [] {
        return None;
      }
      var chosen := Choose(candidates, p);
      BestIsPreferred(trace, accounts, clocks, p, chosen);
      r := Some(chosen);
    }
  }
}
