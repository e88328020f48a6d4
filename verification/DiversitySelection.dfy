/**
 The re-ranking and diversity partitioning of retrieve_and_format_context in
 agent_workspace/long_term_memory.py. A selection of candidates is a mask, one
 flag a candidate.
 */
module DiversitySelection {
  import opened Basics
  import opened Wrappers
  import opened MemoryTable
  import opened MemoryQueries
  import opened MemoryStore

  datatype Scored = Scored(score: real, record: MemoryRecord)

  predicate Episodic(c: Scored) {
    c.record.domain == "episodic"
  }

  predicate Descending(cs: seq<Scored>) {
    forall i, j :: 0 <= i < j < |cs| ==> cs[i].score >= cs[j].score
  }

  predicate Below(cs: seq<Scored>, top: real) {
    forall i :: 0 <= i < |cs| ==> cs[i].score <= top
  }

  /* Selections. */

  function Count(m: seq<bool>): nat {
    if m == [] then 0 else (if m[0] then 1 else 0) + Count(m[1..])
  }

  function Episodes(cs: seq<Scored>, m: seq<bool>): nat
    requires |m| == |cs|
  {
    if m == [] then 0 else (if m[0] && Episodic(cs[0]) then 1 else 0) + Episodes(cs[1..], m[1..])
  }

  function Total(cs: seq<Scored>, m: seq<bool>): real
    requires |m| == |cs|
  {
    if m == [] then 0.0 else (if m[0] then cs[0].score else 0.0) + Total(cs[1..], m[1..])
  }

  function Chosen(cs: seq<Scored>, m: seq<bool>): seq<MemoryRecord>
    requires |m| == |cs|
  {
    if m == [] then [] else (if m[0] then [cs[0].record] else []) + Chosen(cs[1..], m[1..])
  }

  // At most r candidates, at most e of them episodic
  predicate Feasible(cs: seq<Scored>, m: seq<bool>, r: nat, e: nat) {
    |m| == |cs| && Count(m) <= r && Episodes(cs, m) <= e
  }

  // The best total a feasible selection can have
  ghost predicate Optimal(cs: seq<Scored>, m: seq<bool>, r: nat, e: nat) {
    Feasible(cs, m, r, e) && forall other :: Feasible(cs, other, r, e) ==> Total(cs, other) <= Total(cs, m)
  }

  function MaxEpisodic(resultLimit: nat): (most: nat)
    ensures most == Max(1, resultLimit - 2)
  {
    if resultLimit > 3 then resultLimit - 2 else 1
  }

  /* The greedy selection. */

  predicate Takes(c: Scored, r: nat, e: nat) {
    r > 0 && (Episodic(c) ==> e > 0)
  }

  function Greedy(cs: seq<Scored>, r: nat, e: nat): (m: seq<bool>)
    ensures |m| == |cs|
  {
    if cs == [] then []
    else if Takes(cs[0], r, e) then [true] + Greedy(cs[1..], r - 1, if Episodic(cs[0]) then e - 1 else e)
    else [false] + Greedy(cs[1..], r, e)
  }

  /** The greedy selection takes a candidate exactly when there is room left by those it took before. */
  lemma {:induction false} GreedyTakesExactly(cs: seq<Scored>, r: nat, e: nat, i: nat)
    requires i < |cs|
    ensures Greedy(cs, r, e)[i]
       <==> Count(Greedy(cs, r, e)[..i]) < r && (Episodic(cs[i]) ==> Episodes(cs[..i], Greedy(cs, r, e)[..i]) < e)
  {
    var m := Greedy(cs, r, e);
    if i > 0 {
      var takes := Takes(cs[0], r, e);
      var r1, e1 := if takes then r - 1 else r, if takes && Episodic(cs[0]) then e - 1 else e;
      GreedyTakesExactly(cs[1..], r1, e1, i - 1);
      assert m[1..] == Greedy(cs[1..], r1, e1);
      assert m[..i][1..] == m[1..][..i - 1] && cs[..i][1..] == cs[1..][..i - 1];
    }
  }

  lemma {:induction false} CountPrefix(m: seq<bool>, i: nat)
    requires i < |m|
    ensures Count(m[..i]) + (if m[i] then 1 else 0) <= Count(m)
  {
    if i > 0 {
      CountPrefix(m[1..], i - 1);
      assert m[..i][1..] == m[1..][..i - 1];
    }
  }

  /** The records chosen are those flagged, each one once, in order. */
  lemma {:induction false} ChosenExactly(cs: seq<Scored>, m: seq<bool>, i: nat)
    requires |m| == |cs|
    ensures |Chosen(cs, m)| == Count(m)
    ensures i < |m| && m[i] ==> Count(m[..i]) < Count(m) && Chosen(cs, m)[Count(m[..i])] == cs[i].record
  {
    if m != [] {
      ChosenExactly(cs[1..], m[1..], if i > 0 then i - 1 else 0);
      if 0 < i < |m| {
        CountPrefix(m, i);
        assert m[..i][1..] == m[1..][..i - 1];
      }
    }
  }

  lemma {:induction false} GreedyFeasible(cs: seq<Scored>, r: nat, e: nat)
    ensures Feasible(cs, Greedy(cs, r, e), r, e)
  {
    if cs != [] {
      if Takes(cs[0], r, e) {
        GreedyFeasible(cs[1..], r - 1, if Episodic(cs[0]) then e - 1 else e);
      } else {
        GreedyFeasible(cs[1..], r, e);
      }
    }
  }

  // Give up one candidate, an episodic one if asked to, losing at most the top score
  lemma {:induction false} GiveUpOne(cs: seq<Scored>, m: seq<bool>, episodic: bool, top: real) returns (less: seq<bool>)
    requires |m| == |cs| && Below(cs, top)
    requires if episodic then Episodes(cs, m) > 0 else Count(m) > 0
    ensures |less| == |cs| && Count(less) == Count(m) - 1
    ensures Episodes(cs, less) <= Episodes(cs, m) - if episodic then 1 else 0
    ensures Total(cs, m) <= Total(cs, less) + top
  {
    if m[0] && (episodic ==> Episodic(cs[0])) {
      less := [false] + m[1..];
    } else {
      var rest := GiveUpOne(cs[1..], m[1..], episodic, top);
      less := [m[0]] + rest;
    }
    assert less[1..] == if m[0] && (episodic ==> Episodic(cs[0])) then m[1..] else less[1..];
  }

  // A selection of the rest that makes room for a head taken by the greedy selection
  lemma MakeRoom(head: Scored, rest: seq<Scored>, m: seq<bool>, r: nat, e: nat) returns (less: seq<bool>)
    requires Takes(head, r, e) && Feasible(rest, m, r, e) && head.score >= 0.0
    requires Below(rest, head.score)
    ensures Feasible(rest, less, r - 1, if Episodic(head) then e - 1 else e)
    ensures Total(rest, m) <= head.score + Total(rest, less)
  {
    if Episodic(head) && Episodes(rest, m) == e {
      less := GiveUpOne(rest, m, true, head.score);
    } else if Count(m) == r {
      less := GiveUpOne(rest, m, false, head.score);
    } else {
      less := m;
    }
  }

  predicate NoNegative(cs: seq<Scored>, m: seq<bool>)
    requires |m| == |cs|
  {
    forall i :: 0 <= i < |m| && m[i] ==> cs[i].score >= 0.0
  }

  lemma NoNegativeTail(head: Scored, rest: seq<Scored>, b: bool, m: seq<bool>)
    requires |m| == |rest| && NoNegative([head] + rest, [b] + m)
    ensures NoNegative(rest, m) && (b ==> head.score >= 0.0)
  {
    assert ([b] + m)[0] == b && ([head] + rest)[0] == head;
    forall i | 0 <= i < |m| && m[i] ensures rest[i].score >= 0.0 {
      assert ([b] + m)[i + 1] && ([head] + rest)[i + 1] == rest[i];
    }
  }

  /** Exchange argument: no feasible selection beats the greedy one. */
  lemma {:induction false} GreedyBest(cs: seq<Scored>, m: seq<bool>, r: nat, e: nat)
    requires Descending(cs) && Feasible(cs, m, r, e) && NoNegative(cs, Greedy(cs, r, e))
    ensures Total(cs, m) <= Total(cs, Greedy(cs, r, e))
  {
    if cs != [] {
      var head, rest, others := cs[0], cs[1..], m[1..];
      assert cs == [head] + rest;
      if Takes(head, r, e) {
        var e1 := if Episodic(head) then e - 1 else e;
        NoNegativeTail(head, rest, true, Greedy(rest, r - 1, e1));
        if m[0] {
          GreedyBest(rest, others, r - 1, e1);
        } else {
          var less := MakeRoom(head, rest, others, r, e);
          GreedyBest(rest, less, r - 1, e1);
        }
      } else {
        NoNegativeTail(head, rest, false, Greedy(rest, r, e));
        GreedyBest(rest, others, r, e);
      }
    }
  }

  // Without a negative candidate a selection is feasible still, and better
  lemma {:induction false} WithoutNegative(cs: seq<Scored>, m: seq<bool>, i: nat)
    requires |m| == |cs| && i < |m| && m[i] && cs[i].score < 0.0
    ensures Count(m[i := false]) <= Count(m) && Episodes(cs, m[i := false]) <= Episodes(cs, m)
    ensures Total(cs, m[i := false]) > Total(cs, m)
  {
    if i == 0 {
      assert m[0 := false][1..] == m[1..];
    } else {
      assert m[i := false][1..] == m[1..][i - 1 := false];
      WithoutNegative(cs[1..], m[1..], i - 1);
    }
  }

  // The candidates without a negative score, episodic or not
  function Good(cs: seq<Scored>, episodic: bool): nat {
    if cs == [] then 0
    else (if cs[0].score >= 0.0 && Episodic(cs[0]) == episodic then 1 else 0) + Good(cs[1..], episodic)
  }

  predicate NegativeEpisodicOnly(cs: seq<Scored>) {
    forall c :: c in cs && c.score < 0.0 ==> Episodic(c)
  }

  predicate NoNegativeScore(cs: seq<Scored>) {
    forall c :: c in cs ==> c.score >= 0.0
  }

  // There is no negative candidate, no room for one, or only such as the episodic cap shuts out
  predicate Harmless(cs: seq<Scored>, r: nat, e: nat) {
    || NoNegativeScore(cs)
    || r <= Good(cs, false) + Min(Good(cs, true), e)
    || (NegativeEpisodicOnly(cs) && Good(cs, true) >= e)
  }

  lemma {:induction false} NoneGood(cs: seq<Scored>, episodic: bool)
    requires forall i :: 0 <= i < |cs| ==> cs[i].score < 0.0
    ensures Good(cs, episodic) == 0
  {
    if cs != [] {
      NoneGood(cs[1..], episodic);
    }
  }

  lemma NoNegativeFirst(head: Scored, rest: seq<Scored>, b: bool, m: seq<bool>)
    requires |m| == |rest|
    ensures NoNegative([head] + rest, [b] + m) <==> NoNegative(rest, m) && (b ==> head.score >= 0.0)
  {
    if NoNegative([head] + rest, [b] + m) {
      NoNegativeTail(head, rest, b, m);
    }
  }

  lemma HarmlessFirst(head: Scored, rest: seq<Scored>)
    ensures NoNegativeScore([head] + rest) <==> head.score >= 0.0 && NoNegativeScore(rest)
    ensures NegativeEpisodicOnly([head] + rest) <==> (head.score < 0.0 ==> Episodic(head)) && NegativeEpisodicOnly(rest)
    ensures Good([head] + rest, false) == Good(rest, false) + if head.score >= 0.0 && !Episodic(head) then 1 else 0
    ensures Good([head] + rest, true) == Good(rest, true) + if head.score >= 0.0 && Episodic(head) then 1 else 0
  {
    assert ([head] + rest)[1..] == rest;
    assert head in [head] + rest;
  }

  // What remains to be harmless after the head is taken or left
  lemma HarmlessAfterGood(head: Scored, rest: seq<Scored>, r: nat, e: nat)
    requires head.score >= 0.0
    ensures Harmless([head] + rest, r, e)
       <==> if Takes(head, r, e) then Harmless(rest, r - 1, if Episodic(head) then e - 1 else e) else Harmless(rest, r, e)
  {
    HarmlessFirst(head, rest);
  }

  lemma HarmlessAfterNegative(head: Scored, rest: seq<Scored>, r: nat, e: nat)
    requires head.score < 0.0 && Below(rest, head.score)
    ensures Harmless([head] + rest, r, e) <==> !Takes(head, r, e) && Harmless(rest, r, e)
  {
    HarmlessFirst(head, rest);
    NoneGood(rest, false);
    NoneGood(rest, true);
    if rest != [] {
      assert rest[0] in rest;
    }
  }

  lemma DescendingTail(cs: seq<Scored>)
    requires Descending(cs) && cs != []
    ensures Descending(cs[1..]) && Below(cs[1..], cs[0].score)
  {
  }

  lemma TakesNoNegativeStep(head: Scored, rest: seq<Scored>, r: nat, e: nat, r1: nat, e1: nat)
    requires Below(rest, head.score)
    requires if Takes(head, r, e) then r1 == r - 1 && e1 == (if Episodic(head) then e - 1 else e) else r1 == r && e1 == e
    requires NoNegative(rest, Greedy(rest, r1, e1)) <==> Harmless(rest, r1, e1)
    ensures NoNegative([head] + rest, Greedy([head] + rest, r, e)) <==> Harmless([head] + rest, r, e)
  {
    if head.score >= 0.0 {
      HarmlessAfterGood(head, rest, r, e);
    } else {
      HarmlessAfterNegative(head, rest, r, e);
    }
    NoNegativeFirst(head, rest, Takes(head, r, e), Greedy(rest, r1, e1));
    assert ([head] + rest)[1..] == rest;
  }

  /** The greedy selection takes no negative score exactly for harmless candidates. */
  lemma {:induction false} TakesNoNegativeExactly(cs: seq<Scored>, r: nat, e: nat)
    requires Descending(cs)
    ensures NoNegative(cs, Greedy(cs, r, e)) <==> Harmless(cs, r, e)
  {
    if cs != [] {
      var r1 := if Takes(cs[0], r, e) then r - 1 else r;
      var e1 := if Takes(cs[0], r, e) && Episodic(cs[0]) then e - 1 else e;
      DescendingTail(cs);
      TakesNoNegativeExactly(cs[1..], r1, e1);
      TakesNoNegativeStep(cs[0], cs[1..], r, e, r1, e1);
      assert cs == [cs[0]] + cs[1..];
    }
  }

  /** The greedy selection is optimal exactly for harmless candidates. */
  lemma GreedyOptimalExactly(cs: seq<Scored>, r: nat, e: nat)
    requires Descending(cs)
    ensures Optimal(cs, Greedy(cs, r, e), r, e) <==> Harmless(cs, r, e)
  {
    var m := Greedy(cs, r, e);
    GreedyFeasible(cs, r, e);
    TakesNoNegativeExactly(cs, r, e);
    if NoNegative(cs, m) {
      forall other | Feasible(cs, other, r, e) ensures Total(cs, other) <= Total(cs, m) {
        GreedyBest(cs, other, r, e);
      }
    } else {
      var i :| 0 <= i < |m| && m[i] && cs[i].score < 0.0;
      Improvable(cs, m, i, r, e);
    }
  }

  lemma Improvable(cs: seq<Scored>, m: seq<bool>, i: nat, r: nat, e: nat)
    requires Feasible(cs, m, r, e) && i < |m| && m[i] && cs[i].score < 0.0
    ensures !Optimal(cs, m, r, e)
  {
    WithoutNegative(cs, m, i);
    assert Feasible(cs, m[i := false], r, e);
  }

  // The records of the greedy selection
  function Kept(cs: seq<Scored>, r: nat, e: nat): seq<MemoryRecord> {
    if cs == [] then []
    else if Takes(cs[0], r, e) then [cs[0].record] + Kept(cs[1..], r - 1, if Episodic(cs[0]) then e - 1 else e)
    else Kept(cs[1..], r, e)
  }

  lemma {:induction false} KeptIsChosen(cs: seq<Scored>, r: nat, e: nat)
    ensures Kept(cs, r, e) == Chosen(cs, Greedy(cs, r, e))
  {
    if cs != [] {
      if Takes(cs[0], r, e) {
        KeptIsChosen(cs[1..], r - 1, if Episodic(cs[0]) then e - 1 else e);
      } else {
        KeptIsChosen(cs[1..], r, e);
      }
    }
  }

  lemma {:induction false} KeepsNoMore(cs: seq<Scored>, e: nat)
    ensures Kept(cs, 0, e) == []
  {
    if cs != [] {
      KeepsNoMore(cs[1..], e);
    }
  }

  // One iteration of the loop
  lemma KeptStep(cs: seq<Scored>, i: nat, done: seq<MemoryRecord>, r: nat, e: nat)
    requires i < |cs|
    ensures done + Kept(cs[i..], r, e)
         == if Takes(cs[i], r, e)
            then done + [cs[i].record] + Kept(cs[i + 1..], r - 1, if Episodic(cs[i]) then e - 1 else e)
            else done + Kept(cs[i + 1..], r, e)
  {
    assert cs[i..][0] == cs[i] && cs[i..][1..] == cs[i + 1..];
  }

  method SelectDiverse(scored: seq<Scored>, resultLimit: nat) returns (finalRecords: seq<MemoryRecord>)
    requires resultLimit >= 1
    ensures finalRecords == Chosen(scored, Greedy(scored, resultLimit, MaxEpisodic(resultLimit)))
  {
    finalRecords := [];
    var episodicCount := 0;
    var maxEpisodic := MaxEpisodic(resultLimit);
    KeptIsChosen(scored, resultLimit, maxEpisodic);
    var i := 0;
    while i < |scored|
      invariant i <= |scored| && |finalRecords| < resultLimit && episodicCount <= maxEpisodic
      invariant Kept(scored, resultLimit, maxEpisodic)
             == finalRecords + Kept(scored[i..], resultLimit - |finalRecords|, maxEpisodic - episodicCount)
    {
      KeptStep(scored, i, finalRecords, resultLimit - |finalRecords|, maxEpisodic - episodicCount);
      if Episodic(scored[i]) {
        if episodicCount < maxEpisodic {
          finalRecords := finalRecords + [scored[i].record];
          episodicCount := episodicCount + 1;
        }
      } else {
        finalRecords := finalRecords + [scored[i].record];
      }
      i := i + 1;
      if |finalRecords| >= resultLimit {
        KeepsNoMore(scored[i..], maxEpisodic - episodicCount);
        break;
      }
    }
  }

  /* Scores. */

  function Relevance(index: nat): real {
    1.0 / (index as real + 1.0)
  }

  function DomainWeight(domain: string): real {
    if domain == "preference" then 3.0 else if domain == "semantic" then 2.0 else 1.0
  }

  function ConfidenceWeight(confidence: real): real {
    var capped := if confidence < 1.0 then confidence else 1.0;
    if capped > 0.1 then capped else 0.1
  }

  // The age in whole days of an ISO text, None where reading it or comparing it with now raises
  type Ages = string -> Option<int>

  // A text without a zone is taken to be UTC
  function WithZone(createdAt: string): (zoned: string)
    ensures zoned == createdAt || (|zoned| >= 6 && zoned[|zoned| - 6..] == "+00:00")
    ensures zoned == createdAt <==>
      (createdAt == "" || createdAt[|createdAt| - 1] != 'Z')
      && exists i :: 0 <= i < |createdAt| && (createdAt[i] == '+' || (createdAt[i] == '-' && i >= 10))
    ensures createdAt != "" && createdAt[|createdAt| - 1] == 'Z' ==> zoned[..|zoned| - 6] == createdAt[..|createdAt| - 1]
    ensures zoned != createdAt && (createdAt == "" || createdAt[|createdAt| - 1] != 'Z') ==>
      zoned[..|zoned| - 6] == createdAt
  {
    if createdAt != "" && createdAt[|createdAt| - 1] == 'Z' then createdAt[..|createdAt| - 1] + "+00:00"
    else if '+' !in createdAt && (|createdAt| <= 10 || '-' !in createdAt[10..]) then createdAt + "+00:00"
    else createdAt
  }

  function AgeOf(record: MemoryRecord, ages: Ages): Option<int> {
    ages(WithZone(record.createdAt))
  }

  predicate Dated(record: MemoryRecord) {
    record.domain == "episodic" && record.createdAt != ""
  }

  // Reporting that the age cannot be told calls a method records do not have
  predicate Unreadable(record: MemoryRecord, ages: Ages) {
    Dated(record) && AgeOf(record, ages).None?
  }

  // What the score of an ageing episodic record is divided by
  function Decay(record: MemoryRecord, ages: Ages, decayRate: real): real {
    if Dated(record) && AgeOf(record, ages).Some? && AgeOf(record, ages).value > 0
    then 1.0 + decayRate * AgeOf(record, ages).value as real
    else 1.0
  }

  datatype RankingError = AttributeMissing | DivisionByZero

  datatype Ranking<T> = Ranked(value: T) | Raised(error: RankingError)

  function Product(relevance: real, weight: real, confidence: real, recency: real): (product: real)
    ensures product == (relevance * recency) * (weight * confidence)
  {
    relevance * weight * confidence * recency
  }

  function CompositeScore(index: nat, record: MemoryRecord, ages: Ages, decayRate: real): Ranking<real> {
    var decay := Decay(record, ages, decayRate);
    if Unreadable(record, ages) then Raised(AttributeMissing)
    else if decay == 0.0 then Raised(DivisionByZero)
    else Ranked(Product(Relevance(index), DomainWeight(record.domain), ConfidenceWeight(record.confidence), 1.0 / decay))
  }

  // The records no score can be computed for
  predicate Fails(record: MemoryRecord, ages: Ages, decayRate: real) {
    Unreadable(record, ages) || Decay(record, ages, decayRate) == 0.0
  }

  predicate AnyFails(records: seq<MemoryRecord>, ages: Ages, decayRate: real) {
    exists i :: 0 <= i < |records| && Fails(records[i], ages, decayRate)
  }

  predicate FirstFailure(records: seq<MemoryRecord>, ages: Ages, decayRate: real, i: nat, error: RankingError) {
    && i < |records| && Fails(records[i], ages, decayRate)
    && (forall j :: 0 <= j < i ==> !Fails(records[j], ages, decayRate))
    && error == if Unreadable(records[i], ages) then AttributeMissing else DivisionByZero
  }

  lemma ProductSign(a: real, b: real)
    requires a > 0.0
    ensures a * b > 0.0 <==> b > 0.0
  {
    if b > 0.0 {
      assert a * b > 0.0;
    } else if b < 0.0 {
      assert a * (-b) > 0.0;
    }
  }

  lemma InverseSign(d: real)
    requires d != 0.0
    ensures 1.0 / d > 0.0 <==> d > 0.0
  {
    var x := 1.0 / d;
    assert d * x == 1.0;
    if d > 0.0 {
      ProductSign(d, x);
    } else {
      ProductSign(-d, x);
      assert (-d) * x == -1.0;
    }
  }

  /** The score: three times as much for a preference and twice for a fact as for anything else, by the confidence
      between 0.1 and 1, over the rank and over the growth of an episodic record's age. */
  lemma ScoreExactly(index: nat, record: MemoryRecord, ages: Ages, decayRate: real)
    returns (weight: real, confidence: real, growth: real)
    requires !Fails(record, ages, decayRate)
    ensures weight == if record.domain == "preference" then 3.0 else if record.domain == "semantic" then 2.0 else 1.0
    ensures confidence == if record.confidence <= 0.1 then 0.1
                          else if record.confidence >= 1.0 then 1.0
                          else record.confidence
    ensures record.domain != "episodic" || record.createdAt == "" ==> growth == 1.0
    ensures record.domain == "episodic" && record.createdAt != "" ==>
      match ages(WithZone(record.createdAt))
      case Some(days) => growth == if days > 0 then 1.0 + decayRate * days as real else 1.0
      case None => false
    ensures growth != 0.0
    ensures CompositeScore(index, record, ages, decayRate)
         == Ranked(Product(1.0 / (index as real + 1.0), weight, confidence, 1.0 / growth))
  {
    weight, confidence, growth := DomainWeight(record.domain), ConfidenceWeight(record.confidence), Decay(record, ages, decayRate);
    ClampExactly(record.confidence);
  }

  lemma ClampExactly(x: real)
    ensures ConfidenceWeight(x) == if x <= 0.1 then 0.1 else if x >= 1.0 then 1.0 else x
  {
  }

  /** A score is positive exactly when the decay factor is. */
  lemma PositiveExactly(index: nat, record: MemoryRecord, ages: Ages, decayRate: real)
    requires !Fails(record, ages, decayRate)
    ensures CompositeScore(index, record, ages, decayRate).value > 0.0 <==> Decay(record, ages, decayRate) > 0.0
  {
    var decay := Decay(record, ages, decayRate);
    var a, b, c := Relevance(index), DomainWeight(record.domain), ConfidenceWeight(record.confidence);
    InverseSign(index as real + 1.0);
    ProductSign(a, b);
    ProductSign(a * b, c);
    ProductSign(a * b * c, 1.0 / decay);
    InverseSign(decay);
  }

  lemma DecayPositive(record: MemoryRecord, ages: Ages, decayRate: real)
    requires decayRate >= 0.0
    ensures Decay(record, ages, decayRate) > 0.0
  {
    if Dated(record) && AgeOf(record, ages).Some? && AgeOf(record, ages).value > 0 {
      var age := AgeOf(record, ages).value as real;
      assert decayRate * age >= 0.0;
    }
  }

  /** With a decay rate that is not negative, ranking fails only at unreadable times. */
  lemma FailsExactlyUnreadable(records: seq<MemoryRecord>, ages: Ages, decayRate: real)
    requires decayRate >= 0.0
    ensures AnyFails(records, ages, decayRate) <==> exists i :: 0 <= i < |records| && Unreadable(records[i], ages)
  {
    forall i | 0 <= i < |records| ensures Fails(records[i], ages, decayRate) <==> Unreadable(records[i], ages) {
      DecayPositive(records[i], ages, decayRate);
    }
  }

  // An episodic record with a date for a time
  function DateOnly(): MemoryRecord {
    MemoryRecord("ltm-0", "s", "2026-01-01", "", "", "", [], 0, "", "episodic", 1.0, [], None, "", "")
  }

  /** One such record fails the ranking of any candidates it is among, at every decay rate: a zone is put right
      after the date, and that does not read. */
  lemma DateOnlyFails(records: seq<MemoryRecord>, ages: Ages, decayRate: real)
    requires DateOnly() in records && ages("2026-01-01+00:00").None?
    ensures AnyFails(records, ages, decayRate)
  {
    var i :| 0 <= i < |records| && records[i] == DateOnly();
    assert WithZone("2026-01-01") == "2026-01-01+00:00";
    assert Fails(records[i], ages, decayRate);
  }

  // Each record with its score, in order
  ghost predicate Scores(cs: seq<Scored>, records: seq<MemoryRecord>, ages: Ages, decayRate: real) {
    |cs| == |records| && forall i :: 0 <= i < |cs| ==>
      cs[i].record == records[i] && CompositeScore(i, records[i], ages, decayRate) == Ranked(cs[i].score)
  }

  method Rank(candidates: seq<MemoryRecord>, ages: Ages, decayRate: real) returns (r: Ranking<seq<Scored>>)
    ensures r.Raised? <==> AnyFails(candidates, ages, decayRate)
    ensures r.Raised? ==> exists i: nat :: FirstFailure(candidates, ages, decayRate, i, r.error)
    ensures r.Ranked? ==> Scores(r.value, candidates, ages, decayRate)
  {
    var scored: seq<Scored> := [];
    for idx := 0 to |candidates|
      invariant forall i :: 0 <= i < idx ==> !Fails(candidates[i], ages, decayRate)
      invariant Scores(scored, candidates[..idx], ages, decayRate)
    {
      var score := CompositeScore(idx, candidates[idx], ages, decayRate);
      if score.Raised? {
        assert FirstFailure(candidates, ages, decayRate, idx, score.error);
        return Raised(score.error);
      }
      scored := scored + [Scored(score.value, candidates[idx])];
    }
    r := Ranked(scored);
  }

  /* The stable sort by descending score. */

  function Insert(c: Scored, cs: seq<Scored>): (r: seq<Scored>)
    ensures |r| == |cs| + 1 && multiset(r) == multiset(cs) + multiset{c}
  {
    if cs == [] then [c]
    else if c.score >= cs[0].score then [c] + cs
    else
      assert cs == [cs[0]] + cs[1..];
      [cs[0]] + Insert(c, cs[1..])
  }

  function Sorted(cs: seq<Scored>): (r: seq<Scored>)
    ensures |r| == |cs| && multiset(r) == multiset(cs)
  {
    if cs == [] then []
    else
      assert cs == [cs[0]] + cs[1..];
      Insert(cs[0], Sorted(cs[1..]))
  }

  lemma FirstDescends(c: Scored, cs: seq<Scored>)
    requires Descending(cs) && Below(cs, c.score)
    ensures Descending([c] + cs)
  {
  }

  lemma {:induction false} InsertDescends(c: Scored, cs: seq<Scored>, top: real)
    requires Descending(cs) && Below(cs, top) && c.score <= top
    ensures Descending(Insert(c, cs)) && Below(Insert(c, cs), top)
  {
    if cs == [] || c.score >= cs[0].score {
      assert cs != [] ==> Below(cs, cs[0].score);
      FirstDescends(c, cs);
      assert cs == [] ==> [c] + cs == [c];
    } else {
      InsertDescends(c, cs[1..], cs[0].score);
      FirstDescends(cs[0], Insert(c, cs[1..]));
    }
  }

  lemma {:induction false} SortedDescends(cs: seq<Scored>)
    ensures Descending(Sorted(cs))
  {
    if cs != [] {
      var rest := Sorted(cs[1..]);
      SortedDescends(cs[1..]);
      var top := if rest == [] || cs[0].score >= rest[0].score then cs[0].score else rest[0].score;
      InsertDescends(cs[0], rest, top);
    }
  }

  /** Equal scores keep their order. */
  lemma {:induction false} SortIsStable(cs: seq<Scored>, score: real)
    ensures WithScore(Sorted(cs), score) == WithScore(cs, score)
  {
    if cs != [] {
      SortIsStable(cs[1..], score);
      SortedDescends(cs[1..]);
      InsertIsStable(cs[0], Sorted(cs[1..]), score);
    }
  }

  function WithScore(cs: seq<Scored>, score: real): seq<Scored> {
    if cs == [] then [] else (if cs[0].score == score then [cs[0]] else []) + WithScore(cs[1..], score)
  }

  lemma {:induction false} InsertIsStable(c: Scored, cs: seq<Scored>, score: real)
    requires Descending(cs)
    ensures WithScore(Insert(c, cs), score) == (if c.score == score then [c] else []) + WithScore(cs, score)
  {
    if cs == [] || c.score >= cs[0].score {
      WithScoreFirst(c, cs, score);
      assert cs == [] ==> [c] + cs == [c];
    } else {
      InsertIsStable(c, cs[1..], score);
      WithScoreFirst(cs[0], Insert(c, cs[1..]), score);
    }
  }

  lemma WithScoreFirst(c: Scored, cs: seq<Scored>, score: real)
    ensures WithScore([c] + cs, score) == if c.score == score then [c] + WithScore(cs, score) else WithScore(cs, score)
  {
    assert ([c] + cs)[1..] == cs;
  }

  // The selection of the same candidates after one is put in its place
  lemma {:induction false} CarryInsert(c: Scored, cs: seq<Scored>, b: bool, m: seq<bool>) returns (carried: seq<bool>)
    requires |m| == |cs|
    ensures |carried| == |Insert(c, cs)| && Count(carried) == Count([b] + m)
    ensures Episodes(Insert(c, cs), carried) == Episodes([c] + cs, [b] + m)
    ensures Total(Insert(c, cs), carried) == Total([c] + cs, [b] + m)
  {
    assert ([b] + m)[1..] == m && ([c] + cs)[1..] == cs;
    if cs == [] || c.score >= cs[0].score {
      carried := [b] + m;
      assert cs == [] ==> [c] + cs == [c];
    } else {
      var rest := CarryInsert(c, cs[1..], b, m[1..]);
      assert ([b] + m[1..])[1..] == m[1..] && ([c] + cs[1..])[1..] == cs[1..];
      carried := [m[0]] + rest;
    }
  }

  lemma {:induction false} CarrySort(cs: seq<Scored>, m: seq<bool>) returns (carried: seq<bool>)
    requires |m| == |cs|
    ensures |carried| == |Sorted(cs)| && Count(carried) == Count(m)
    ensures Episodes(Sorted(cs), carried) == Episodes(cs, m) && Total(Sorted(cs), carried) == Total(cs, m)
  {
    if cs == [] {
      carried := [];
    } else {
      var rest := CarrySort(cs[1..], m[1..]);
      carried := CarryInsert(cs[0], Sorted(cs[1..]), m[0], rest);
      assert ([m[0]] + rest)[1..] == rest && ([cs[0]] + Sorted(cs[1..]))[1..] == Sorted(cs[1..]);
    }
  }

  // What partitioning keeps of the candidates in the order they were found
  function Partition(cs: seq<Scored>, resultLimit: nat): seq<bool> {
    Greedy(Sorted(cs), resultLimit, MaxEpisodic(resultLimit))
  }

  // No selection of the unsorted candidates within the limits has a greater total
  ghost predicate PartitionBest(cs: seq<Scored>, resultLimit: nat) {
    var e := MaxEpisodic(resultLimit);
    && Feasible(Sorted(cs), Partition(cs, resultLimit), resultLimit, e)
    && forall m :: Feasible(cs, m, resultLimit, e) ==> Total(cs, m) <= Total(Sorted(cs), Partition(cs, resultLimit))
  }

  // And back: the selection of the same candidates before one was put in its place
  lemma {:induction false} CarryOut(c: Scored, cs: seq<Scored>, carried: seq<bool>) returns (b: bool, m: seq<bool>)
    requires |carried| == |Insert(c, cs)|
    ensures |m| == |cs| && Count(carried) == Count([b] + m)
    ensures Episodes(Insert(c, cs), carried) == Episodes([c] + cs, [b] + m)
    ensures Total(Insert(c, cs), carried) == Total([c] + cs, [b] + m)
  {
    if cs == [] || c.score >= cs[0].score {
      b, m := carried[0], carried[1..];
      assert [b] + m == carried && Insert(c, cs) == [c] + cs;
    } else {
      var rest;
      b, rest := CarryOut(c, cs[1..], carried[1..]);
      m := [carried[0]] + rest;
      assert ([b] + rest)[1..] == rest && ([c] + cs[1..])[1..] == cs[1..];
      assert ([b] + m)[1..] == m && ([c] + cs)[1..] == cs && m[1..] == rest;
    }
  }

  lemma {:induction false} CarryBack(cs: seq<Scored>, carried: seq<bool>) returns (m: seq<bool>)
    requires |carried| == |Sorted(cs)|
    ensures |m| == |cs| && Count(m) == Count(carried)
    ensures Episodes(cs, m) == Episodes(Sorted(cs), carried) && Total(cs, m) == Total(Sorted(cs), carried)
  {
    if cs == [] {
      m := [];
    } else {
      var b, rest := CarryOut(cs[0], Sorted(cs[1..]), carried);
      var before := CarryBack(cs[1..], rest);
      m := [b] + before;
      assert ([b] + rest)[1..] == rest && ([cs[0]] + Sorted(cs[1..]))[1..] == Sorted(cs[1..]);
    }
  }

  lemma {:induction false} InsertGood(c: Scored, cs: seq<Scored>, episodic: bool)
    ensures Good(Insert(c, cs), episodic) == Good([c] + cs, episodic)
  {
    assert ([c] + cs)[1..] == cs;
    if cs == [] || c.score >= cs[0].score {
      assert Insert(c, cs) == [c] + cs;
    } else {
      InsertGood(c, cs[1..], episodic);
      assert ([c] + cs[1..])[1..] == cs[1..];
    }
  }

  lemma {:induction false} SortGood(cs: seq<Scored>, episodic: bool)
    ensures Good(Sorted(cs), episodic) == Good(cs, episodic)
  {
    if cs != [] {
      SortGood(cs[1..], episodic);
      InsertGood(cs[0], Sorted(cs[1..]), episodic);
      assert ([cs[0]] + Sorted(cs[1..]))[1..] == Sorted(cs[1..]);
    }
  }

  lemma SortHarmless(cs: seq<Scored>, r: nat, e: nat)
    ensures Harmless(Sorted(cs), r, e) <==> Harmless(cs, r, e)
  {
    SortGood(cs, false);
    SortGood(cs, true);
    forall c ensures c in Sorted(cs) <==> c in cs {
      assert c in Sorted(cs) <==> c in multiset(Sorted(cs));
      assert c in cs <==> c in multiset(cs);
    }
  }

  /** Sorting and partitioning reach the best total any selection of the unsorted candidates has, if and only if
      the candidates are harmless. */
  lemma PartitionBestExactly(cs: seq<Scored>, resultLimit: nat)
    ensures PartitionBest(cs, resultLimit) <==> Harmless(cs, resultLimit, MaxEpisodic(resultLimit))
  {
    var e, sorted, m := MaxEpisodic(resultLimit), Sorted(cs), Partition(cs, resultLimit);
    SortedDescends(cs);
    SortHarmless(cs, resultLimit, e);
    GreedyFeasible(sorted, resultLimit, e);
    TakesNoNegativeExactly(sorted, resultLimit, e);
    if NoNegative(sorted, m) {
      forall other | Feasible(cs, other, resultLimit, e) ensures Total(cs, other) <= Total(sorted, m) {
        var carried := CarrySort(cs, other);
        GreedyBest(sorted, carried, resultLimit, e);
      }
    } else {
      var i :| 0 <= i < |m| && m[i] && sorted[i].score < 0.0;
      WithoutNegative(sorted, m, i);
      var better := CarryBack(cs, m[i := false]);
      assert Feasible(cs, better, resultLimit, e);
    }
  }

  lemma ScoresPositive(cs: seq<Scored>, records: seq<MemoryRecord>, ages: Ages, decayRate: real)
    requires Scores(cs, records, ages, decayRate) && decayRate >= 0.0
    ensures forall i :: 0 <= i < |cs| ==> cs[i].score > 0.0
  {
    forall i | 0 <= i < |cs| ensures cs[i].score > 0.0 {
      PositiveExactly(i, records[i], ages, decayRate);
      DecayPositive(records[i], ages, decayRate);
    }
  }

  // The candidates: oversampling does not get more than the limit past the query's own cut
  function Candidates(store: LongTermMemoryStore, text: string, session: Option<string>, limit: int): seq<MemoryRecord>
    requires limit >= 1
    reads store
  {
    var resultLimit := NormalizeLimit(limit, None, false).value.resultLimit;
    Uncached(store.engine, store.backend, Query(text, session, resultLimit, None, true))
  }

  /** They are the answer of the query with the limit cut at 100, so never more than that. */
  lemma CandidatesAnswer(store: LongTermMemoryStore, text: string, session: Option<string>, limit: int)
    requires limit >= 1
    ensures IsAnswer(store.engine, store.backend, Query(text, session, Min(limit, 100), None, true),
                     Candidates(store, text, session, limit))
    ensures |Candidates(store, text, session, limit)| <= Min(limit, 100)
  {
    AnswerExactly(store.engine, store.backend, Query(text, session, Min(limit, 100), None, true),
                  Candidates(store, text, session, limit));
  }

  // A limit below 1 raises, and so does a candidate that cannot be scored
  datatype Retrieval = InvalidLimit | RankingFailed(error: RankingError) | Retrieved(records: seq<MemoryRecord>)

  // The partition of the scored candidates, the best selection of them if and only if they are harmless, and so
  // for a decay rate that is not negative
  ghost predicate Selected(scored: seq<Scored>, decayRate: real, resultLimit: nat, records: seq<MemoryRecord>) {
    && records == Chosen(Sorted(scored), Partition(scored, resultLimit))
    && (PartitionBest(scored, resultLimit) <==> Harmless(scored, resultLimit, MaxEpisodic(resultLimit)))
    && (decayRate >= 0.0 ==> PartitionBest(scored, resultLimit))
  }

  lemma RankedOutcome(scored: seq<Scored>, records: seq<MemoryRecord>, ages: Ages, decayRate: real, resultLimit: nat)
    requires Scores(scored, records, ages, decayRate)
    ensures Selected(scored, decayRate, resultLimit, Chosen(Sorted(scored), Partition(scored, resultLimit)))
  {
    PartitionBestExactly(scored, resultLimit);
    if decayRate >= 0.0 {
      ScoresPositive(scored, records, ages, decayRate);
    }
  }

  /** The memories put in the prompt: nothing exactly when some candidate cannot be scored, otherwise, with a
      decay rate that is not negative, the best selection from the answer the backend gives now. */
  method RetrieveRecords(store: LongTermMemoryStore, text: string, session: Option<string>, limit: int,
                         ages: Ages, decayRate: real) returns (r: Retrieval, ghost scored: seq<Scored>)
    requires store.Valid() && store.Fresh() && Plain(session)
    modifies store`touched, store.queryCache`cache
    ensures store.Valid() && store.Fresh() && (r.InvalidLimit? <==> limit < 1)
    ensures limit >= 1 ==> (r.RankingFailed? <==> AnyFails(Candidates(store, text, session, limit), ages, decayRate))
    ensures r.RankingFailed? ==>
      exists i: nat :: FirstFailure(Candidates(store, text, session, limit), ages, decayRate, i, r.error)
    ensures r.Retrieved? ==>
      && Scores(scored, Candidates(store, text, session, limit), ages, decayRate)
      && Selected(scored, decayRate, NormalizeLimit(limit, None, false).value.resultLimit, r.records)
  {
    scored := [];
    var limits := NormalizeLimit(limit, None, false);
    if limits.None? {
      return InvalidLimit, [];
    }
    var resultLimit := limits.value.resultLimit;
    var candidates := store.RunQuery(Query(text, session, resultLimit, None, true));
    AnswerExactly(store.engine, store.backend, Query(text, session, resultLimit, None, true), candidates.value);
    var ranked := Rank(candidates.value, ages, decayRate);
    if ranked.Raised? {
      return RankingFailed(ranked.error), [];
    }
    scored := ranked.value;
    RankedOutcome(scored, candidates.value, ages, decayRate, resultLimit);
    var final := SelectDiverse(Sorted(ranked.value), resultLimit);
    r := Retrieved(final);
  }
}
