/**
 Questions to the memory store of agent_workspace/long_term_memory.py: their
 limits, their answers without a cache, and which of them share a cache key.
 */
module MemoryQueries {
  import opened Basics
  import opened Wrappers
  import opened Text
  import opened MemoryTable

  datatype Query = Query(text: string, session: Option<string>, limit: int, domain: Option<string>, oversample: bool)

  /* Limits. */

  const MAX_MEMORY_QUERY_LIMIT := 100
  const MEMORY_QUERY_OVERSAMPLE_FACTOR := 3
  const MAX_MEMORY_BACKEND_FETCH := MAX_MEMORY_QUERY_LIMIT * MEMORY_QUERY_OVERSAMPLE_FACTOR

  datatype Limits = Limits(requestedLimit: int, resultLimit: nat, backendFetchLimit: nat, oversamplingFactor: nat)

  // A domain of None or "" does not filter
  predicate Filters(domain: Option<string>) {
    domain.Some? && domain.value != ""
  }

  // None where a limit below 1 raises
  function NormalizeLimit(limit: int, domain: Option<string>, oversample: bool): (limits: Option<Limits>)
    ensures limits.None? <==> limit < 1
    ensures limits.Some? ==>
      && limits.value.resultLimit == Min(limit, 100)
      && limits.value.backendFetchLimit == Min(limit, 100) * (if Filters(domain) || oversample then 3 else 1)
  {
    if limit < 1 then None
    else
      var resultLimit := if limit < MAX_MEMORY_QUERY_LIMIT then limit else MAX_MEMORY_QUERY_LIMIT;
      var factor := if Filters(domain) || oversample then MEMORY_QUERY_OVERSAMPLE_FACTOR else 1;
      var fetch := if resultLimit * factor < MAX_MEMORY_BACKEND_FETCH then resultLimit * factor else MAX_MEMORY_BACKEND_FETCH;
      Some(Limits(limit, resultLimit, fetch, factor))
  }

  predicate ValidLimit(q: Query) {
    q.limit >= 1
  }

  function LimitsOf(q: Query): Limits
    requires ValidLimit(q)
  {
    NormalizeLimit(q.limit, q.domain, q.oversample).value
  }

  /* Cache keys. */

  function ShowBool(b: bool): string {
    if b then "True" else "False"
  }

  function CacheKey(q: Query): string
    requires ValidLimit(q)
  {
    q.text + ":" + Show(q.session) + ":" + Decimal(LimitsOf(q).resultLimit) + ":" + Show(q.domain)
    + ":" + ShowBool(q.oversample)
  }

  // A session without a colon that is not the text "None", which stands for absence
  predicate Plain(session: Option<string>) {
    session.Some? ==> ':' !in session.value && session.value != "None"
  }

  // The text after the last colon
  function LastSegment(s: string): (segment: string)
    ensures ':' !in segment
  {
    if s == "" || s[|s| - 1] == ':' then "" else LastSegment(s[..|s| - 1]) + [s[|s| - 1]]
  }

  predicate IsLimit(s: string) {
    exists n: nat :: 1 <= n <= MAX_MEMORY_QUERY_LIMIT && s == Decimal(n)
  }

  // Position j is a colon after the numeral of a limit
  predicate LimitBefore(s: string, j: nat) {
    j < |s| && s[j] == ':' && IsLimit(LastSegment(s[..j]))
  }

  predicate NoLimitInside(s: string) {
    forall j: nat :: j < |s| ==> !LimitBefore(s, j)
  }

  // A domain that is not the text "None" and has no segment before a colon that could be read as the limit
  predicate Clear(domain: Option<string>) {
    domain.Some? ==> domain.value != "None" && NoLimitInside(domain.value)
  }

  predicate SafePair(session: Option<string>, domain: Option<string>) {
    Plain(session) && Clear(domain)
  }

  predicate Safe(q: Query) {
    SafePair(q.session, q.domain)
  }

  // Two queries the store may answer alike
  predicate SameQuestion(p: Query, q: Query)
    requires ValidLimit(p) && ValidLimit(q)
  {
    && p.text == q.text && p.session == q.session && p.domain == q.domain && p.oversample == q.oversample
    && LimitsOf(p).resultLimit == LimitsOf(q).resultLimit
  }

  lemma ShowInjective(s: Option<string>, t: Option<string>)
    requires s != Some("None") && t != Some("None") && Show(s) == Show(t)
    ensures s == t
  {
  }

  lemma ColonFree(n: nat)
    ensures ':' !in Decimal(n)
  {
  }

  lemma {:induction false} LastSegmentWhole(s: string)
    requires ':' !in s
    ensures LastSegment(s) == s
  {
    if s != "" {
      LastSegmentWhole(s[..|s| - 1]);
      assert s == s[..|s| - 1] + [s[|s| - 1]];
    }
  }

  lemma {:induction false} LastSegmentAfter(u: string, v: string)
    ensures LastSegment(u + ":" + v) == LastSegment(v)
  {
    var whole := u + ":" + v;
    if v != "" {
      LastSegmentAfter(u, v[..|v| - 1]);
      assert whole[..|whole| - 1] == u + ":" + v[..|v| - 1];
    }
  }

  // A text read as a limit and a final part is cut no earlier than a final part without a limit inside
  lemma CutsNoEarlier(a: string, d: string, c: string, n: nat, f: string)
    requires a + ":" + d == c + ":" + Decimal(n) + ":" + f && 1 <= n <= MAX_MEMORY_QUERY_LIMIT && NoLimitInside(d)
    ensures |d| <= |f|
  {
    if |d| > |f| {
      var j := |d| - |f| - 1;
      var whole, prefix := a + ":" + d, c + ":" + Decimal(n);
      assert whole == prefix + ":" + f;
      assert whole[|prefix|] == ':' && whole[|a| + 1 + j] == d[j];
      assert a + ":" + d[..j] == whole[..|prefix|] == prefix;
      LastSegmentAfter(a, d[..j]);
      LastSegmentAfter(c, Decimal(n));
      ColonFree(n);
      LastSegmentWhole(Decimal(n));
      assert LimitBefore(d, j);
      assert false;
    }
  }

  lemma ClearShow(domain: Option<string>)
    requires Clear(domain)
    ensures NoLimitInside(Show(domain))
  {
  }

  // The key without its last part
  function KeyStem(q: Query): string
    requires ValidLimit(q)
  {
    q.text + ":" + Show(q.session) + ":" + Decimal(LimitsOf(q).resultLimit)
  }

  lemma EqualStems(p: Query, q: Query)
    requires ValidLimit(p) && ValidLimit(q) && Plain(p.session) && Plain(q.session) && KeyStem(p) == KeyStem(q)
    ensures p.text == q.text && p.session == q.session && LimitsOf(p).resultLimit == LimitsOf(q).resultLimit
  {
    var m, n := LimitsOf(p).resultLimit, LimitsOf(q).resultLimit;
    ColonFree(m);
    ColonFree(n);
    SplitAtLastColon(p.text + ":" + Show(p.session), Decimal(m), q.text + ":" + Show(q.session), Decimal(n));
    SplitAtLastColon(p.text, Show(p.session), q.text, Show(q.session));
    DecimalInjective(m, n);
    ShowInjective(p.session, q.session);
  }

  lemma LastColon(s: string) returns (i: nat)
    requires ':' in s
    ensures i < |s| && s[i] == ':' && ':' !in s[i + 1..]
  {
    i := |s| - 1;
    while s[i] != ':'
      invariant i < |s| && ':' !in s[i + 1..]
      decreases i
    {
      assert ':' in s[..i + 1] by {
        assert s == s[..i + 1] + s[i + 1..];
      }
      assert s[i..] == [s[i]] + s[i + 1..];
      i := i - 1;
    }
  }

  /* The answer without a cache. */

  function Found(e: Engine, b: Backend, q: Query): seq<MemoryRecord>
    requires ValidLimit(q)
  {
    var parsed := e.parse(q.text);
    var ftsQuery := if e.isVector || parsed == "" then q.text else parsed;
    var fetch := LimitsOf(q).backendFetchLimit;
    match e.search(b, ftsQuery, q.session, fetch)
    case Some(results) => results
    case None =>
      match e.search(b, q.text, q.session, fetch)
      case Some(results) => results
      case None => []
  }

  function InDomain(records: seq<MemoryRecord>, domain: string): seq<MemoryRecord> {
    if records == [] then []
    else
      var n := |records| - 1;
      InDomain(records[..n], domain) + if records[n].domain == domain then [records[n]] else []
  }

  function Uncached(e: Engine, b: Backend, q: Query): (answer: seq<MemoryRecord>)
    requires ValidLimit(q)
    ensures |answer| <= LimitsOf(q).resultLimit
  {
    var found := Found(e, b, q);
    var results := if Filters(q.domain) then InDomain(found, q.domain.value) else found;
    var n := LimitsOf(q).resultLimit;
    if n < |results| then results[..n] else results
  }

  /* What an answer is, without computing it. */

  // The most records an answer holds, and the most a search is asked for
  function Most(q: Query): int {
    Min(q.limit, 100)
  }

  function Fetched(q: Query): int {
    if q.oversample || (q.domain.Some? && q.domain.value != "") then 3 * Most(q) else Most(q)
  }

  // The records the search returns: for the parsed text, for the text itself where the engine is a vector engine,
  // the parse is empty or the search raises, and none where that raises too
  predicate Searched(e: Engine, b: Backend, q: Query, rs: seq<MemoryRecord>)
    requires ValidLimit(q)
  {
    var text := if !e.isVector && e.parse(q.text) != "" then e.parse(q.text) else q.text;
    var first, second := e.search(b, text, q.session, Fetched(q)), e.search(b, q.text, q.session, Fetched(q));
    first == Some(rs) || (first == None && second == Some(rs)) || (first == None && second == None && rs == [])
  }

  predicate Matching(q: Query, r: MemoryRecord) {
    q.domain == None || q.domain == Some("") || q.domain == Some(r.domain)
  }

  // The records stand at these positions of what was found
  predicate StandsAt(rs: seq<MemoryRecord>, answer: seq<MemoryRecord>, at: seq<nat>) {
    |at| == |answer| && forall i :: 0 <= i < |at| ==> at[i] < |rs| && answer[i] == rs[at[i]]
  }

  predicate MatchingAt(q: Query, rs: seq<MemoryRecord>, k: nat) {
    k < |rs| && Matching(q, rs[k])
  }

  // The position before the i-th, -1 before the first
  function Before(at: seq<nat>, i: nat): int
    requires i <= |at|
  {
    if i == 0 then -1 else at[i - 1]
  }

  // The i-th position is that of the next matching record after the one before it
  predicate NextAt(q: Query, rs: seq<MemoryRecord>, at: seq<nat>, i: nat) {
    && i < |at| && Before(at, i) < at[i] && MatchingAt(q, rs, at[i])
    && forall k: nat :: Before(at, i) < k < at[i] ==> !MatchingAt(q, rs, k)
  }

  // The matching records from the first on, and all of them where there are fewer than the limit
  ghost predicate FirstOnes(q: Query, rs: seq<MemoryRecord>, at: seq<nat>) {
    && |at| <= Most(q) && (forall i: nat :: i < |at| ==> NextAt(q, rs, at, i))
    && (|at| < Most(q) ==> forall k: nat :: Before(at, |at|) < k ==> !MatchingAt(q, rs, k))
  }

  ghost predicate FirstMatches(q: Query, rs: seq<MemoryRecord>, answer: seq<MemoryRecord>) {
    exists at: seq<nat> :: StandsAt(rs, answer, at) && FirstOnes(q, rs, at)
  }

  ghost predicate IsAnswer(e: Engine, b: Backend, q: Query, answer: seq<MemoryRecord>)
    requires ValidLimit(q)
  {
    exists rs :: Searched(e, b, q, rs) && FirstMatches(q, rs, answer)
  }

  // The positions of all matching records
  function Positions(q: Query, rs: seq<MemoryRecord>): (at: seq<nat>)
    ensures forall i :: 0 <= i < |at| ==> at[i] < |rs|
  {
    if rs == [] then []
    else
      var n := |rs| - 1;
      Positions(q, rs[..n]) + if Matching(q, rs[n]) then [n] else []
  }

  lemma NextStays(q: Query, rs: seq<MemoryRecord>, more: seq<MemoryRecord>, at: seq<nat>, later: seq<nat>, i: nat)
    requires rs <= more && at <= later && NextAt(q, rs, at, i)
    ensures NextAt(q, more, later, i)
  {
    assert Before(later, i) == Before(at, i);
    assert forall k: nat :: k < |rs| ==> MatchingAt(q, more, k) == MatchingAt(q, rs, k);
  }

  lemma {:induction false} PositionsNext(q: Query, rs: seq<MemoryRecord>)
    ensures forall i: nat :: i < |Positions(q, rs)| ==> NextAt(q, rs, Positions(q, rs), i)
    ensures forall k: nat :: Before(Positions(q, rs), |Positions(q, rs)|) < k ==> !MatchingAt(q, rs, k)
  {
    if rs != [] {
      var n := |rs| - 1;
      var before, at := Positions(q, rs[..n]), Positions(q, rs);
      PositionsNext(q, rs[..n]);
      assert forall k: nat :: k < n ==> MatchingAt(q, rs, k) == MatchingAt(q, rs[..n], k);
      forall i: nat | i < |at| ensures NextAt(q, rs, at, i) {
        if i < |before| {
          NextStays(q, rs[..n], rs, before, at, i);
        }
      }
    }
  }

  function Kept(q: Query, rs: seq<MemoryRecord>): seq<MemoryRecord> {
    if Filters(q.domain) then InDomain(rs, q.domain.value) else rs
  }

  lemma StandsOneMore(rs: seq<MemoryRecord>, answer: seq<MemoryRecord>, at: seq<nat>, matches: bool)
    requires rs != [] && StandsAt(rs[..|rs| - 1], answer, at)
    ensures StandsAt(rs, answer + if matches then [rs[|rs| - 1]] else [], at + if matches then [|rs| - 1] else [])
  {
  }

  lemma {:induction false} KeptStands(q: Query, rs: seq<MemoryRecord>)
    ensures StandsAt(rs, Kept(q, rs), Positions(q, rs))
  {
    if rs != [] {
      var n := |rs| - 1;
      KeptStands(q, rs[..n]);
      StandsOneMore(rs, Kept(q, rs[..n]), Positions(q, rs[..n]), Matching(q, rs[n]));
      assert rs == rs[..n] + [rs[n]];
    }
  }

  lemma KeptMatches(q: Query, rs: seq<MemoryRecord>)
    requires ValidLimit(q)
    ensures FirstMatches(q, rs, if Most(q) < |Kept(q, rs)| then Kept(q, rs)[..Most(q)] else Kept(q, rs))
  {
    var n, kept, all := Most(q), Kept(q, rs), Positions(q, rs);
    PositionsNext(q, rs);
    KeptStands(q, rs);
    if n < |all| {
      forall i: nat | i < n ensures NextAt(q, rs, all[..n], i) {
        FewerNext(q, rs, all, n, i);
      }
      assert StandsAt(rs, kept[..n], all[..n]) && FirstOnes(q, rs, all[..n]);
    } else {
      assert StandsAt(rs, kept, all) && FirstOnes(q, rs, all);
    }
  }

  lemma FewerNext(q: Query, rs: seq<MemoryRecord>, all: seq<nat>, n: nat, i: nat)
    requires i < n <= |all| && NextAt(q, rs, all, i)
    ensures NextAt(q, rs, all[..n], i)
  {
    assert Before(all[..n], i) == Before(all, i);
  }

  lemma NotBefore(q: Query, rs: seq<MemoryRecord>, at: seq<nat>, bt: seq<nat>, i: nat)
    requires NextAt(q, rs, at, i) && NextAt(q, rs, bt, i) && Before(at, i) == Before(bt, i)
    ensures at[i] == bt[i]
  {
  }

  lemma {:induction false} SamePositions(q: Query, rs: seq<MemoryRecord>, at: seq<nat>, bt: seq<nat>, i: nat)
    requires FirstOnes(q, rs, at) && FirstOnes(q, rs, bt) && i <= |at| && i <= |bt|
    ensures Before(at, i) == Before(bt, i)
  {
    if i > 0 {
      SamePositions(q, rs, at, bt, i - 1);
      assert NextAt(q, rs, at, i - 1) && NextAt(q, rs, bt, i - 1);
      NotBefore(q, rs, at, bt, i - 1);
    }
  }

  lemma NextOf(q: Query, rs: seq<MemoryRecord>, at: seq<nat>, i: nat)
    requires FirstOnes(q, rs, at) && i < |at|
    ensures Before(at, i) < at[i] && MatchingAt(q, rs, at[i])
  {
    assert NextAt(q, rs, at, i);
  }

  lemma NoLonger(q: Query, rs: seq<MemoryRecord>, at: seq<nat>, bt: seq<nat>)
    requires FirstOnes(q, rs, at) && FirstOnes(q, rs, bt)
    ensures |at| >= |bt|
  {
    if |at| < |bt| {
      SamePositions(q, rs, at, bt, |at|);
      NextOf(q, rs, bt, |at|);
      assert false;
    }
  }

  lemma OneAnswer(q: Query, rs: seq<MemoryRecord>, a: seq<MemoryRecord>, b: seq<MemoryRecord>)
    requires FirstMatches(q, rs, a) && FirstMatches(q, rs, b)
    ensures a == b
  {
    var at: seq<nat> :| StandsAt(rs, a, at) && FirstOnes(q, rs, at);
    var bt: seq<nat> :| StandsAt(rs, b, bt) && FirstOnes(q, rs, bt);
    NoLonger(q, rs, at, bt);
    NoLonger(q, rs, bt, at);
    forall i | 0 <= i < |at| ensures at[i] == bt[i] {
      SamePositions(q, rs, at, bt, i + 1);
    }
    assert at == bt;
  }

  /** There is one answer to a question, and it is the one computed: the first matching records of what the search
      returns, as many as there are up to the limit. */
  lemma AnswerExactly(e: Engine, b: Backend, q: Query, answer: seq<MemoryRecord>)
    requires ValidLimit(q)
    ensures IsAnswer(e, b, q, answer) <==> answer == Uncached(e, b, q)
  {
    var found := Found(e, b, q);
    assert Searched(e, b, q, found);
    KeptMatches(q, found);
    if IsAnswer(e, b, q, answer) {
      var rs :| Searched(e, b, q, rs) && FirstMatches(q, rs, answer);
      OneAnswer(q, rs, answer, Uncached(e, b, q));
    }
  }

  lemma SameQuestionSameAnswer(e: Engine, b: Backend, p: Query, q: Query)
    requires ValidLimit(p) && ValidLimit(q) && SameQuestion(p, q)
    ensures Uncached(e, b, p) == Uncached(e, b, q)
  {
    assert LimitsOf(p).backendFetchLimit == LimitsOf(q).backendFetchLimit;
  }

  // The two have one key, and a store that has just answered the one gives the other a wrong answer
  ghost predicate Misled(e: Engine, b: Backend, p: Query, q: Query) {
    ValidLimit(p) && ValidLimit(q) && CacheKey(p) == CacheKey(q) && Uncached(e, b, p) != Uncached(e, b, q)
  }

  function OnlyFor(session: Option<string>, record: MemoryRecord): Engine {
    Engine((b: Backend, text: string, s: Option<string>, n: nat) => Some(if s == session then [record] else []),
           (text: string) => "", false, (text: string) => [], (r: MemoryRecord) => r.payload)
  }

  // The two search another session, or one filters by a domain the other does not ask for
  predicate Apart(p: Query, q: Query) {
    p.session != q.session || (Filters(p.domain) && p.domain != q.domain)
  }

  lemma InDomainOne(record: MemoryRecord, domain: string)
    ensures InDomain([record], domain) == if record.domain == domain then [record] else []
  {
    assert [record][..0] == [];
  }

  lemma FoundOnly(session: Option<string>, record: MemoryRecord, q: Query)
    requires ValidLimit(q)
    ensures Found(OnlyFor(session, record), [], q) == if q.session == session then [record] else []
  {
  }

  lemma UncachedFew(e: Engine, b: Backend, q: Query, record: MemoryRecord)
    requires ValidLimit(q)
    ensures Found(e, b, q) == [] ==> Uncached(e, b, q) == []
    ensures Found(e, b, q) == [record] ==>
      Uncached(e, b, q) == if Filters(q.domain) && record.domain != q.domain.value then [] else [record]
  {
    if Filters(q.domain) {
      InDomainOne(record, q.domain.value);
    }
  }

  // An engine that holds one record, which only the second question asks for, tells the two apart
  lemma Misleading(p: Query, q: Query)
    requires ValidLimit(p) && ValidLimit(q) && CacheKey(p) == CacheKey(q) && Apart(p, q)
    ensures exists e: Engine, b: Backend :: Misled(e, b, p, q)
  {
    var domain := if Filters(q.domain) then q.domain.value else "";
    var record := MemoryRecord("", "", "", "", "", "", [], 0, "", domain, 1.0, [], None, "", "");
    var e := OnlyFor(q.session, record);
    FoundOnly(q.session, record, p);
    FoundOnly(q.session, record, q);
    UncachedFew(e, [], p, record);
    UncachedFew(e, [], q, record);
    assert Misled(e, [], p, q);
  }

  /* Questions with one key. */

  // Some question has this one's key and another answer
  ghost predicate Confusable(p: Query) {
    exists e: Engine, b: Backend, q: Query :: Misled(e, b, p, q)
  }

  ghost predicate ConfusableWithSafe(p: Query) {
    exists e: Engine, b: Backend, q: Query :: Safe(q) && Misled(e, b, p, q)
  }

  // A safe question with a session and a domain and no colon in its text
  predicate Distinctive(q: Query) {
    Safe(q) && q.session.Some? && q.domain.Some? && ':' !in q.text
  }

  function Colons(s: string): nat {
    if s == "" then 0 else Colons(s[..|s| - 1]) + if s[|s| - 1] == ':' then 1 else 0
  }

  lemma {:induction false} ColonsJoined(a: string, b: string)
    ensures Colons(a + ":" + b) == Colons(a) + 1 + Colons(b)
  {
    var whole := a + ":" + b;
    if b == "" {
      assert whole[..|whole| - 1] == a;
    } else {
      ColonsJoined(a, b[..|b| - 1]);
      assert whole[..|whole| - 1] == a + ":" + b[..|b| - 1];
    }
  }

  lemma {:induction false} NoColons(s: string)
    ensures Colons(s) == 0 <==> ':' !in s
  {
    if s != "" {
      NoColons(s[..|s| - 1]);
      assert s == s[..|s| - 1] + [s[|s| - 1]];
    }
  }

  lemma StemColons(q: Query)
    requires ValidLimit(q)
    ensures Colons(KeyStem(q)) == Colons(q.text) + Colons(Show(q.session)) + 2
  {
    ColonFree(LimitsOf(q).resultLimit);
    NoColons(Decimal(LimitsOf(q).resultLimit));
    ColonsJoined(q.text, Show(q.session));
    ColonsJoined(q.text + ":" + Show(q.session), Decimal(LimitsOf(q).resultLimit));
  }

  lemma StemSplit(p: Query, q: Query)
    requires ValidLimit(p) && ValidLimit(q) && CacheKey(p) == CacheKey(q)
    ensures p.oversample == q.oversample
    ensures KeyStem(p) + ":" + Show(p.domain) == KeyStem(q) + ":" + Show(q.domain)
  {
    StemKey(p);
    StemKey(q);
    SplitAtLastColon(KeyStem(p) + ":" + Show(p.domain), ShowBool(p.oversample),
                     KeyStem(q) + ":" + Show(q.domain), ShowBool(q.oversample));
  }

  // The first part of a text cut later goes on after the first part of the text cut earlier
  lemma CutLater(a: string, x: string, b: string, y: string)
    requires a + ":" + x == b + ":" + y && |x| <= |y|
    ensures if |x| == |y| then a == b && x == y else Colons(a) > Colons(b)
  {
    var whole := a + ":" + x;
    if |x| == |y| {
      assert a == whole[..|a|] && b == whole[..|a|];
      assert x == whole[|a| + 1..] && y == whole[|a| + 1..];
    } else {
      assert whole[..|a|] == a && whole[|b|] == ':' && whole[..|b|] == b;
      assert a == b + ":" + a[|b| + 1..];
      ColonsJoined(b, a[|b| + 1..]);
    }
  }

  /** Among safe queries the joined key determines everything the answer depends on. */
  lemma KeyInjective(p: Query, q: Query)
    requires Safe(p) && Safe(q) && ValidLimit(p) && ValidLimit(q) && CacheKey(p) == CacheKey(q)
    ensures SameQuestion(p, q)
  {
    StemSplit(p, q);
    ClearShow(p.domain);
    ClearShow(q.domain);
    CutsNoEarlier(KeyStem(p), Show(p.domain), q.text + ":" + Show(q.session), LimitsOf(q).resultLimit, Show(q.domain));
    CutsNoEarlier(KeyStem(q), Show(q.domain), p.text + ":" + Show(p.session), LimitsOf(p).resultLimit, Show(p.domain));
    CutLater(KeyStem(p), Show(p.domain), KeyStem(q), Show(q.domain));
    ShowInjective(p.domain, q.domain);
    EqualStems(p, q);
  }

  lemma DistinctiveStem(p: Query, q: Query)
    requires Distinctive(p) && ValidLimit(p) && ValidLimit(q) && KeyStem(p) == KeyStem(q)
    ensures p.text == q.text && p.session == q.session && LimitsOf(p).resultLimit == LimitsOf(q).resultLimit
  {
    var m, n := LimitsOf(p).resultLimit, LimitsOf(q).resultLimit;
    ColonFree(m);
    ColonFree(n);
    SplitAtLastColon(p.text + ":" + Show(p.session), Decimal(m), q.text + ":" + Show(q.session), Decimal(n));
    DecimalInjective(m, n);
    StemColons(p);
    StemColons(q);
    NoColons(p.text);
    NoColons(Show(p.session));
    NoColons(Show(q.session));
    SplitAtLastColon(p.text, Show(p.session), q.text, Show(q.session));
  }

  /** The key of a distinctive question is that of no other question at all. */
  lemma DistinctiveKey(p: Query, q: Query)
    requires Distinctive(p) && ValidLimit(p) && ValidLimit(q) && CacheKey(p) == CacheKey(q)
    ensures SameQuestion(p, q)
  {
    StemSplit(p, q);
    ClearShow(p.domain);
    CutsNoEarlier(KeyStem(p), Show(p.domain), q.text + ":" + Show(q.session), LimitsOf(q).resultLimit, Show(q.domain));
    CutLater(KeyStem(p), Show(p.domain), KeyStem(q), Show(q.domain));
    StemColons(p);
    StemColons(q);
    NoColons(p.text);
    NoColons(Show(p.session));
    DistinctiveStem(p, q);
  }

  // The part of a text before its last colon, read as a query text and a plain session
  lemma ReadSession(c: string) returns (text: string, session: Option<string>)
    requires ':' in c
    ensures Plain(session) && text + ":" + Show(session) == c
  {
    var i := LastColon(c);
    var tail := c[i + 1..];
    text, session := c[..i], if tail == "None" then None else Some(tail);
    assert c == c[..i] + ":" + tail;
  }

  lemma LastLimit(d: string) returns (j: nat)
    requires !NoLimitInside(d)
    ensures j < |d| && LimitBefore(d, j) && NoLimitInside(d[j + 1..])
  {
    j := |d| - 1;
    while !LimitBefore(d, j)
      invariant j < |d| && forall k: nat :: j < k < |d| ==> !LimitBefore(d, k)
      decreases j
    {
      var k: nat :| k < |d| && LimitBefore(d, k);
      assert k < j;
      j := j - 1;
    }
    var rest := d[j + 1..];
    forall k: nat | k < |rest| ensures !LimitBefore(rest, k) {
      assert d[..j + 1 + k] == d[..j] + ":" + rest[..k];
      LastSegmentAfter(d[..j], rest[..k]);
      assert !LimitBefore(d, j + 1 + k);
    }
  }

  // A stem with a colon and a text after it, cut at the last colon
  lemma CutStem(stem: string, x: string) returns (c: string)
    requires ':' in stem
    ensures stem + ":" + x == c + ":" + LastSegment(x) && ':' in c
  {
    var y := stem + ":" + x;
    assert y[|stem|] == ':';
    var i := LastColon(y);
    c := y[..i];
    var tail := y[i + 1..];
    assert y == c + ":" + tail;
    LastSegmentAfter(stem, x);
    LastSegmentAfter(c, tail);
    LastSegmentWhole(tail);
    ColonStays(y, stem, i);
  }

  lemma ColonStays(y: string, stem: string, i: nat)
    requires ':' in stem && stem <= y && |stem| < |y| && y[|stem|] == ':' && i < |y| && ':' !in y[i + 1..]
    ensures ':' in y[..i]
  {
    assert i >= |stem|;
    var j :| 0 <= j < |stem| && stem[j] == ':';
    assert y[..i][j] == ':';
  }

  // A stem and a text that ends in the numeral of a limit, read as a stem
  lemma ReadStem(stem: string, x: string) returns (text: string, session: Option<string>, n: nat)
    requires ':' in stem && IsLimit(LastSegment(x))
    ensures Plain(session) && 1 <= n <= MAX_MEMORY_QUERY_LIMIT
    ensures text + ":" + Show(session) + ":" + Decimal(n) == stem + ":" + x
  {
    n :| 1 <= n <= MAX_MEMORY_QUERY_LIMIT && LastSegment(x) == Decimal(n);
    var c := CutStem(stem, x);
    text, session := ReadSession(c);
  }

  lemma StemKey(q: Query)
    requires ValidLimit(q)
    ensures CacheKey(q) == KeyStem(q) + ":" + Show(q.domain) + ":" + ShowBool(q.oversample)
  {
  }

  // One key cut in two places
  lemma CutElsewhere(p: Query, q: Query, x: string)
    requires ValidLimit(p) && ValidLimit(q) && p.oversample == q.oversample
    requires KeyStem(q) == KeyStem(p) + ":" + x && Show(p.domain) == x + ":" + Show(q.domain)
    ensures CacheKey(p) == CacheKey(q)
  {
    var stem, rest := KeyStem(p), Show(q.domain);
    StemKey(p);
    StemKey(q);
    assert stem + ":" + (x + ":" + rest) == (stem + ":" + x) + ":" + rest;
  }

  lemma SplitThere(d: string, j: nat)
    requires j < |d| && d[j] == ':'
    ensures d == d[..j] + ":" + d[j + 1..]
  {
  }

  lemma StemHasColon(q: Query)
    requires ValidLimit(q)
    ensures ':' in KeyStem(q)
  {
    assert KeyStem(q)[|q.text|] == ':';
  }

  // A domain with a limit inside is read as that limit and the domain after it
  lemma TwinDomain(p: Query) returns (q: Query)
    requires ValidLimit(p) && p.domain.Some? && !NoLimitInside(p.domain.value)
    ensures Safe(q) && ValidLimit(q) && q.domain != p.domain && CacheKey(p) == CacheKey(q)
  {
    var d := p.domain.value;
    var j := LastLimit(d);
    var x, rest := d[..j], d[j + 1..];
    SplitThere(d, j);
    StemHasColon(p);
    var text, other, n := ReadStem(KeyStem(p), x);
    q := Query(text, other, n, if rest == "None" then None else Some(rest), p.oversample);
    CutElsewhere(p, q, x);
  }

  // A safe question with the key of one that is not
  lemma SafeTwin(p: Query) returns (q: Query)
    requires ValidLimit(p) && !Safe(p)
    ensures Safe(q) && ValidLimit(q) && CacheKey(p) == CacheKey(q) && Apart(p, q)
  {
    if p.domain.Some? && !NoLimitInside(p.domain.value) {
      q := TwinDomain(p);
    } else {
      assert (p.text + ":" + Show(p.session))[|p.text|] == ':';
      var text, other := ReadSession(p.text + ":" + Show(p.session));
      q := Query(text, other, p.limit, if p.domain == Some("None") then None else p.domain, p.oversample);
      assert KeyStem(p) == KeyStem(q);
    }
  }

  // A question with the key of one that is not distinctive
  lemma Twin(p: Query) returns (q: Query)
    requires ValidLimit(p) && !Distinctive(p)
    ensures ValidLimit(q) && CacheKey(p) == CacheKey(q) && (Apart(p, q) || Apart(q, p))
  {
    if !Safe(p) {
      q := SafeTwin(p);
    } else if p.session.None? {
      q := p.(session := Some("None"));
    } else if p.domain.None? {
      q := p.(domain := Some("None"));
    } else {
      var i := LastColon(p.text);
      q := p.(text := p.text[..i], session := Some(p.text[i + 1..] + ":" + p.session.value));
      assert p.text == p.text[..i] + ":" + p.text[i + 1..];
      assert KeyStem(p) == KeyStem(q);
      assert q.session.value[|p.text[i + 1..]|] == ':';
    }
  }

  lemma MisledSymmetric(p: Query, q: Query)
    requires exists e: Engine, b: Backend :: Misled(e, b, q, p)
    ensures exists e: Engine, b: Backend :: Misled(e, b, p, q)
  {
    var e: Engine, b: Backend :| Misled(e, b, q, p);
    assert Misled(e, b, p, q);
  }

  /** Whatever the question, some other question can take its answer if and only if it is not distinctive: its
      session or domain is missing or not safe, or its text has a colon. */
  lemma ConfusableExactly(p: Query)
    requires ValidLimit(p)
    ensures Confusable(p) <==> !Distinctive(p)
  {
    if Confusable(p) && Distinctive(p) {
      var e: Engine, b: Backend, q: Query :| Misled(e, b, p, q);
      DistinctiveKey(p, q);
      SameQuestionSameAnswer(e, b, p, q);
      assert false;
    }
    if !Distinctive(p) {
      var q := Twin(p);
      if Apart(p, q) {
        Misleading(p, q);
      } else {
        Misleading(q, p);
        MisledSymmetric(p, q);
      }
      var e: Engine, b: Backend :| Misled(e, b, p, q);
    }
  }

  /** Among safe questions only: a question can take the answer of a safe one if and only if it is not safe. */
  lemma ConfusableWithSafeExactly(p: Query)
    requires ValidLimit(p)
    ensures ConfusableWithSafe(p) <==> !Safe(p)
  {
    if ConfusableWithSafe(p) && Safe(p) {
      var e: Engine, b: Backend, q: Query :| Safe(q) && Misled(e, b, p, q);
      KeyInjective(p, q);
      SameQuestionSameAnswer(e, b, p, q);
      assert false;
    }
    if !Safe(p) {
      var q := SafeTwin(p);
      Misleading(p, q);
      var e: Engine, b: Backend :| Misled(e, b, p, q);
    }
  }

  lemma SecondDomain(session: string) returns (p: Query, q: Query)
    ensures p == Query("t", Some(session), 5, Some("7:b"), false)
    ensures q == Query("t:" + session, Some("5"), 7, Some("b"), false) && CacheKey(p) == CacheKey(q)
  {
    p := Query("t", Some(session), 5, Some("7:b"), false);
    q := Query("t:" + session, Some("5"), 7, Some("b"), false);
    assert Decimal(5) == "5" && Decimal(7) == "7";
    assert KeyStem(p) == "t:" + session + ":5";
    assert KeyStem(q) == "t:" + session + ":5" + ":" + "7";
    assert "7:b" == "7" + ":" + "b";
    CutElsewhere(p, q, "7");
  }

  /** Two ways a domain alone confuses: the text "None", which a safe question without a domain meets too, and a
      colon after a numeral. */
  lemma DomainConfuses(session: string)
    ensures exists e: Engine, b: Backend ::
      Misled(e, b, Query("x", Some(session), 5, Some("None"), false), Query("x", Some(session), 5, None, false))
    ensures Plain(Some(session)) ==> Safe(Query("x", Some(session), 5, None, false))
    ensures exists e: Engine, b: Backend ::
      Misled(e, b, Query("t", Some(session), 5, Some("7:b"), false), Query("t:" + session, Some("5"), 7, Some("b"), false))
  {
    Misleading(Query("x", Some(session), 5, Some("None"), false), Query("x", Some(session), 5, None, false));
    var p, q := SecondDomain(session);
    Misleading(p, q);
  }
}
