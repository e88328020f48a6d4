/**
 The tenant request limiter of agent_workspace/core/rate_limit.py: a table
 that only keeps recent requests, against the history of every request.
 */
module RateLimiter {
  import opened Wrappers

  datatype Request = Request(tenant: string, at: real)

  datatype Outcome = InvalidTenant | Unavailable | Limited | Accepted

  /* Windows. */

  function Since(rs: seq<Request>, cutoff: real): seq<Request> {
    if rs == [] then []
    else
      var last, before := rs[|rs| - 1], Since(rs[..|rs| - 1], cutoff);
      if last.at >= cutoff then before + [last] else before
  }

  // The requests of a tenant in the window that ends at a time, both ends included
  function InWindow(rs: seq<Request>, tenant: string, end: real, window: real): nat {
    if rs == [] then 0
    else
      var last := rs[|rs| - 1];
      InWindow(rs[..|rs| - 1], tenant, end, window) + if last.tenant == tenant && last.at <= end <= last.at + window then 1 else 0
  }

  // The requests of a tenant from a time on
  function Recent(rs: seq<Request>, tenant: string, cutoff: real): nat {
    if rs == [] then 0
    else
      var last := rs[|rs| - 1];
      Recent(rs[..|rs| - 1], tenant, cutoff) + if last.tenant == tenant && last.at >= cutoff then 1 else 0
  }

  function Of(rs: seq<Request>, tenant: string): seq<Request> {
    if rs == [] then []
    else
      var last, before := rs[|rs| - 1], Of(rs[..|rs| - 1], tenant);
      if last.tenant == tenant then before + [last] else before
  }

  // A clock that never goes back
  predicate InOrder(rs: seq<Request>) {
    forall i, j :: 0 <= i < j < |rs| ==> rs[i].at <= rs[j].at
  }

  // The requests let through so far fill the window up to this one
  predicate Full(passed: seq<Request>, x: Request, limit: nat, window: real) {
    Recent(passed, x.tenant, Cutoff(x.at, window)) >= limit
  }

  function Cutoff(at: real, window: real): real {
    at - window
  }

  /** The limiter without pruning: a request passes unless the requests that passed before fill its window. */
  function Admitted(rs: seq<Request>, limit: nat, window: real): seq<Request> {
    if rs == [] then []
    else
      var last, before := rs[|rs| - 1], Admitted(rs[..|rs| - 1], limit, window);
      if Full(before, last, limit, window) then before else before + [last]
  }

  lemma {:induction false} RecentCoversWindow(rs: seq<Request>, tenant: string, cutoff: real, end: real, window: real)
    requires cutoff + window <= end
    ensures InWindow(rs, tenant, end, window) <= Recent(rs, tenant, cutoff)
  {
    if rs != [] {
      RecentCoversWindow(rs[..|rs| - 1], tenant, cutoff, end, window);
    }
  }

  lemma InOrderPrefix(rs: seq<Request>)
    requires InOrder(rs) && rs != []
    ensures InOrder(rs[..|rs| - 1])
  {
    var before := rs[..|rs| - 1];
    forall i, j | 0 <= i < j < |before| ensures before[i].at <= before[j].at {
      assert before[i] == rs[i] && before[j] == rs[j];
    }
  }

  /** Safety: no closed window of the configured length holds more than limit requests of a tenant. */
  lemma {:induction false} EveryWindow(rs: seq<Request>, limit: nat, window: real, tenant: string, end: real)
    requires InOrder(rs)
    ensures InWindow(Admitted(rs, limit, window), tenant, end, window) <= limit
  {
    if rs != [] {
      var last, before := rs[|rs| - 1], Admitted(rs[..|rs| - 1], limit, window);
      InOrderPrefix(rs);
      EveryWindow(rs[..|rs| - 1], limit, window, tenant, end);
      if last.at <= end <= last.at + window {
        RecentCoversWindow(before, tenant, Cutoff(last.at, window), end, window);
      }
      assert (before + [last])[..|before|] == before;
    }
  }

  lemma {:induction false} RecentOfTenant(rs: seq<Request>, tenant: string, cutoff: real)
    ensures Recent(Of(rs, tenant), tenant, cutoff) == Recent(rs, tenant, cutoff)
  {
    if rs != [] {
      var before, last := Of(rs[..|rs| - 1], tenant), rs[|rs| - 1];
      RecentOfTenant(rs[..|rs| - 1], tenant, cutoff);
      assert (before + [last])[..|before|] == before;
    }
  }

  lemma FullOfTenant(rs: seq<Request>, x: Request, limit: nat, window: real)
    ensures Full(Of(rs, x.tenant), x, limit, window) == Full(rs, x, limit, window)
  {
    RecentOfTenant(rs, x.tenant, Cutoff(x.at, window));
  }

  lemma OfAppend(rs: seq<Request>, last: Request, tenant: string)
    ensures Of(rs + [last], tenant) == if last.tenant == tenant then Of(rs, tenant) + [last] else Of(rs, tenant)
  {
    assert (rs + [last])[..|rs|] == rs;
  }

  lemma AdmittedAppend(rs: seq<Request>, last: Request, limit: nat, window: real)
    ensures Admitted(rs + [last], limit, window)
         == if Full(Admitted(rs, limit, window), last, limit, window)
            then Admitted(rs, limit, window) else Admitted(rs, limit, window) + [last]
  {
    assert (rs + [last])[..|rs|] == rs;
  }

  lemma TenantsApartStep(earlier: seq<Request>, last: Request, limit: nat, window: real, tenant: string)
    requires Of(Admitted(earlier, limit, window), tenant) == Admitted(Of(earlier, tenant), limit, window)
    ensures Of(Admitted(earlier + [last], limit, window), tenant)
         == Admitted(Of(earlier + [last], tenant), limit, window)
  {
    var before := Admitted(earlier, limit, window);
    AdmittedAppend(earlier, last, limit, window);
    OfAppend(earlier, last, tenant);
    OfAppend(before, last, tenant);
    if last.tenant == tenant {
      AdmittedAppend(Of(earlier, tenant), last, limit, window);
      FullOfTenant(before, last, limit, window);
    }
  }

  /** Isolation: what passes of one tenant is what would pass if no other tenant sent anything. */
  lemma {:induction false} TenantsApart(rs: seq<Request>, limit: nat, window: real, tenant: string)
    ensures Of(Admitted(rs, limit, window), tenant) == Admitted(Of(rs, tenant), limit, window)
  {
    if rs != [] {
      var last, earlier := rs[|rs| - 1], rs[..|rs| - 1];
      assert rs == earlier + [last];
      TenantsApart(earlier, limit, window, tenant);
      TenantsApartStep(earlier, last, limit, window, tenant);
    }
  }

  /* Pruning. */

  lemma SinceAppend(rs: seq<Request>, last: Request, cutoff: real)
    ensures Since(rs + [last], cutoff) == if last.at >= cutoff then Since(rs, cutoff) + [last] else Since(rs, cutoff)
  {
    assert (rs + [last])[..|rs|] == rs;
  }

  lemma {:induction false} SinceSince(rs: seq<Request>, early: real, late: real)
    requires early <= late
    ensures Since(Since(rs, early), late) == Since(rs, late)
  {
    if rs != [] {
      var before, last := rs[..|rs| - 1], rs[|rs| - 1];
      SinceSince(before, early, late);
      if last.at >= early {
        SinceAppend(Since(before, early), last, late);
      }
    }
  }

  lemma {:induction false} SinceKeepsRecent(rs: seq<Request>, tenant: string, cutoff: real)
    ensures Recent(Since(rs, cutoff), tenant, cutoff) == Recent(rs, tenant, cutoff)
  {
    if rs != [] {
      var kept, last := Since(rs[..|rs| - 1], cutoff), rs[|rs| - 1];
      SinceKeepsRecent(rs[..|rs| - 1], tenant, cutoff);
      assert (kept + [last])[..|kept|] == kept;
    }
  }

  // A table cut before one time, cut again at a later one
  lemma CutAgain(passed: seq<Request>, table: seq<Request>, early: real, late: real, x: Request)
    requires table == Since(passed, early) && (passed == [] || early <= late) && late <= x.at
    ensures Recent(Since(table, late), x.tenant, late) == Recent(passed, x.tenant, late)
    ensures Since(passed, late) == Since(table, late)
    ensures Since(passed + [x], late) == Since(table, late) + [x]
  {
    if passed != [] {
      SinceSince(passed, early, late);
    }
    SinceKeepsRecent(passed, x.tenant, late);
    SinceAppend(passed, x, late);
  }

  // What one request makes of the table
  lemma ConsumeKeeps(arrived: seq<Request>, table: seq<Request>, clock: real, limit: nat, window: real, x: Request)
    requires table == Since(Admitted(arrived, limit, window), Cutoff(clock, window))
    requires (arrived == [] || clock <= x.at) && window > 0.0
    ensures Recent(Since(table, Cutoff(x.at, window)), x.tenant, Cutoff(x.at, window)) >= limit
       <==> Full(Admitted(arrived, limit, window), x, limit, window)
    ensures Admitted(arrived + [x], limit, window)
         == if Full(Admitted(arrived, limit, window), x, limit, window) then Admitted(arrived, limit, window)
            else Admitted(arrived, limit, window) + [x]
    ensures Since(Admitted(arrived + [x], limit, window), Cutoff(x.at, window))
         == if Full(Admitted(arrived, limit, window), x, limit, window) then Since(table, Cutoff(x.at, window))
            else Since(table, Cutoff(x.at, window)) + [x]
  {
    CutAgain(Admitted(arrived, limit, window), table, Cutoff(clock, window), Cutoff(x.at, window), x);
    AdmittedAppend(arrived, x, limit, window);
  }

  ghost predicate UpTo(rs: seq<Request>, clock: real) {
    forall i :: 0 <= i < |rs| ==> rs[i].at <= clock
  }

  lemma OneMoreInOrder(rs: seq<Request>, clock: real, x: Request)
    requires InOrder(rs) && UpTo(rs, clock) && (rs == [] || clock <= x.at)
    ensures InOrder(rs + [x]) && UpTo(rs + [x], x.at)
  {
  }

  lemma {:induction false} WindowIsRecent(rs: seq<Request>, tenant: string, end: real, window: real)
    requires UpTo(rs, end)
    ensures InWindow(rs, tenant, end, window) == Recent(rs, tenant, Cutoff(end, window))
  {
    if rs != [] {
      WindowIsRecent(rs[..|rs| - 1], tenant, end, window);
      assert rs[|rs| - 1].at <= end;
    }
  }

  lemma {:induction false} AdmittedUpTo(rs: seq<Request>, clock: real, limit: nat, window: real)
    requires UpTo(rs, clock)
    ensures UpTo(Admitted(rs, limit, window), clock)
  {
    if rs != [] {
      AdmittedUpTo(rs[..|rs| - 1], clock, limit, window);
      assert rs[|rs| - 1].at <= clock;
    }
  }

  /** A request is refused exactly when its closed window, the one that ends with it, holds the limit already. */
  lemma RefusedExactly(rs: seq<Request>, x: Request, limit: nat, window: real)
    requires UpTo(rs, x.at)
    ensures Admitted(rs + [x], limit, window)
         == if InWindow(Admitted(rs, limit, window), x.tenant, x.at, window) >= limit
            then Admitted(rs, limit, window) else Admitted(rs, limit, window) + [x]
    ensures Full(Admitted(rs, limit, window), x, limit, window)
       <==> InWindow(Admitted(rs, limit, window), x.tenant, x.at, window) >= limit
  {
    AdmittedAppend(rs, x, limit, window);
    AdmittedUpTo(rs, x.at, limit, window);
    WindowIsRecent(Admitted(rs, limit, window), x.tenant, x.at, window);
  }

  class TenantRequestRateLimiter {
    const limit: nat
    const windowSeconds: real
    var table: seq<Request>
    ghost var arrived: seq<Request>  // every request with a tenant that the store answered, in order
    ghost var clock: real            // no later than the next call

    ghost function Passed(): seq<Request>
      reads this
    {
      Admitted(arrived, limit, windowSeconds)
    }

    // The table is the history of accepted requests, cut at some time no longer of interest
    ghost predicate Valid()
      reads this
    {
      && limit > 0 && windowSeconds > 0.0
      && InOrder(arrived) && UpTo(arrived, clock)
      && table == Since(Passed(), Cutoff(clock, windowSeconds))
    }

    constructor (limit: nat, windowSeconds: real)
      requires limit > 0 && windowSeconds > 0.0
      ensures Valid() && this.limit == limit && this.windowSeconds == windowSeconds && arrived == []
    {
      this.limit, this.windowSeconds := limit, windowSeconds;
      table, arrived, clock := [], [], 0.0;
    }

    // None where the arguments raise
    static method Create(limit: int, windowSeconds: real) returns (r: Option<TenantRequestRateLimiter>)
      ensures r.Some? <==> limit > 0 && windowSeconds > 0.0
      ensures r.Some? ==> fresh(r.value) && r.value.Valid() && r.value.arrived == []
      ensures r.Some? ==> r.value.limit == limit && r.value.windowSeconds == windowSeconds
    {
      if limit <= 0 || windowSeconds <= 0.0 {
        return None;
      }
      var limiter := new TenantRequestRateLimiter(limit, windowSeconds);
      r := Some(limiter);
    }

    // Whatever was called before, no window has let more than the limit of a tenant's requests through
    lemma EveryWindowWithinLimit()
      requires Valid()
      ensures forall tenant, end :: InWindow(Passed(), tenant, end, windowSeconds) <= limit
    {
      forall tenant, end ensures InWindow(Passed(), tenant, end, windowSeconds) <= limit {
        EveryWindow(arrived, limit, windowSeconds, tenant, end);
      }
    }

    method Consume(tenantId: string, now: real, available: bool) returns (r: Outcome)
      requires Valid() && (arrived == [] || clock <= now)
      modifies this`table, this`arrived, this`clock
      ensures Valid()
      ensures r.InvalidTenant? <==> tenantId == ""
      ensures r.Unavailable? <==> tenantId != "" && !available
      ensures r.InvalidTenant? || r.Unavailable? ==>
        arrived == old(arrived) && table == old(table) && clock == old(clock)
      ensures r.Limited? || r.Accepted? ==> clock == now && arrived == old(arrived) + [Request(tenantId, now)]
      ensures r.Limited? || r.Accepted? ==>
        (r.Limited? <==> InWindow(old(Passed()), tenantId, now, windowSeconds) >= limit)
      ensures r.Limited? ==> Passed() == old(Passed())
      ensures r.Accepted? ==> Passed() == old(Passed()) + [Request(tenantId, now)]
    {
      if tenantId == "" {
        return InvalidTenant;
      }
      var cutoff := Cutoff(now, windowSeconds);
      if !available {
        return Unavailable;
      }
      ghost var request := Request(tenantId, now);
      ConsumeKeeps(arrived, table, clock, limit, windowSeconds, request);
      RefusedExactly(arrived, request, limit, windowSeconds);
      OneMoreInOrder(arrived, clock, request);
      table := Since(table, cutoff);
      arrived := arrived + [request];
      clock := now;
      if Recent(table, tenantId, cutoff) >= limit {
        return Limited;
      }
      table := table + [Request(tenantId, now)];
      r := Accepted;
    }
  }
}
