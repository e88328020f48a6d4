/**
 SanitizedContextExtractor.extract_and_bound_files of
 agent_workspace/core/delegation_packet.py: files cut to a share of a token
 budget by two loops.
 */
module TokenBounding {
  import opened Basics
  import opened Wrappers
  import opened Dictionaries
  import opened Text

  // The redaction, the token counter and the two text operations of Python the loops use
  datatype Engine = Engine(
    scrub: string -> string, tokens: string -> nat, strip: string -> string, splitlines: string -> seq<string>)

  const TRUNCATION_NOTICE := "# [TRUNCATED: remaining lines omitted for token containment]"

  // "\n".join
  function Joined(lines: seq<string>): string {
    if lines == [] then "" else if |lines| == 1 then lines[0] else lines[0] + "\n" + Joined(lines[1..])
  }

  function WithNotice(lines: seq<string>): string {
    Joined(lines + [TRUNCATION_NOTICE])
  }

  lemma {:induction false} JoinedOneMore(lines: seq<string>, line: string)
    ensures Joined(lines + [line]) == if lines == [] then line else Joined(lines) + "\n" + line
  {
    if lines == [] {
      assert lines + [line] == [line];
    } else {
      JoinedOneMore(lines[1..], line);
      assert (lines + [line])[1..] == lines[1..] + [line];
    }
  }

  // The candidate text after k lines
  function Candidate(e: Engine, lines: seq<string>, k: nat): string
    requires k <= |lines|
  {
    if k == 0 then "" else e.strip(Candidate(e, lines, k - 1) + "\n" + lines[k - 1])
  }

  /** Where stripping removes nothing but the first line break, the candidate is the lines joined. */
  lemma {:induction false} CandidateIsJoined(e: Engine, lines: seq<string>, k: nat)
    requires k <= |lines| && (k > 0 ==> e.strip("\n" + lines[0]) == lines[0])
    requires forall j :: 2 <= j <= k ==> e.strip(Joined(lines[..j])) == Joined(lines[..j])
    ensures Candidate(e, lines, k) == Joined(lines[..k])
  {
    if k > 0 {
      CandidateIsJoined(e, lines, k - 1);
      assert lines[..k] == lines[..k - 1] + [lines[k - 1]];
      JoinedOneMore(lines[..k - 1], lines[k - 1]);
      assert k == 1 ==> Candidate(e, lines, 0) + "\n" + lines[0] == "\n" + lines[0];
    }
  }

  // The first t lines fit the target, one by one, and the next does not
  predicate Reaches(e: Engine, lines: seq<string>, target: int, t: nat) {
    && t <= |lines|
    && (forall j :: 1 <= j <= t ==> e.tokens(Candidate(e, lines, j)) <= target)
    && (t < |lines| ==> e.tokens(Candidate(e, lines, t + 1)) > target)
  }

  // The longest prefix, of those, that fits the budget together with the notice
  predicate Cut(e: Engine, lines: seq<string>, perFileBudget: int, t: nat, k: nat) {
    && k <= t <= |lines|
    && (forall j :: k < j <= t ==> e.tokens(WithNotice(lines[..j])) > perFileBudget)
    && (k > 0 ==> e.tokens(WithNotice(lines[..k])) <= perFileBudget)
  }

  // What is left beside the notice, and never less than 20
  function TargetBudget(e: Engine, perFileBudget: int): (target: int)
    ensures target >= 20 && target + e.tokens(TRUNCATION_NOTICE) >= perFileBudget
    ensures target == 20 || target + e.tokens(TRUNCATION_NOTICE) == perFileBudget
  {
    Max(20, perFileBudget - e.tokens(TRUNCATION_NOTICE))
  }

  // What truncation may leave of a text; there is exactly one such text
  ghost predicate IsTruncation(e: Engine, content: string, perFileBudget: int, r: string) {
    exists t: nat, k: nat :: TruncatedAt(e, content, perFileBudget, t, k) && r == WithNotice(e.splitlines(content)[..k])
  }

  predicate TruncatedAt(e: Engine, content: string, perFileBudget: int, t: nat, k: nat) {
    var lines := e.splitlines(content);
    Reaches(e, lines, TargetBudget(e, perFileBudget), t) && Cut(e, lines, perFileBudget, t, k)
  }

  lemma TruncationUnique(e: Engine, content: string, perFileBudget: int, r: string, s: string)
    requires IsTruncation(e, content, perFileBudget, r) && IsTruncation(e, content, perFileBudget, s)
    ensures r == s
  {
    var lines := e.splitlines(content);
    var t: nat, k: nat :| TruncatedAt(e, content, perFileBudget, t, k) && r == WithNotice(lines[..k]);
    var u: nat, l: nat :| TruncatedAt(e, content, perFileBudget, u, l) && s == WithNotice(lines[..l]);
    assert t == u;
    assert k == l;
  }

  /** A truncated file fits its share, if the notice alone does. */
  lemma TruncationFits(e: Engine, content: string, perFileBudget: int, r: string)
    requires IsTruncation(e, content, perFileBudget, r)
    ensures e.tokens(r) <= Max(perFileBudget, e.tokens(TRUNCATION_NOTICE))
  {
    var lines := e.splitlines(content);
    var t: nat, k: nat :| TruncatedAt(e, content, perFileBudget, t, k) && r == WithNotice(lines[..k]);
    if k == 0 {
      assert lines[..0] + [TRUNCATION_NOTICE] == [TRUNCATION_NOTICE];
    }
  }

  method TruncateFile(e: Engine, content: string, perFileBudget: int) returns (r: string)
    ensures IsTruncation(e, content, perFileBudget, r)
  {
    var lines := e.splitlines(content);
    var retainedLines: seq<string> := [];
    var curText := "";
    var noticeTokens := e.tokens(TRUNCATION_NOTICE);
    var targetBudget := Max(20, perFileBudget - noticeTokens);
    var i := 0;
    while i < |lines|
      invariant i <= |lines| && retainedLines == lines[..i] && curText == Candidate(e, lines, i)
      invariant forall j :: 1 <= j <= i ==> e.tokens(Candidate(e, lines, j)) <= targetBudget
    {
      var candidate := e.strip(curText + "\n" + lines[i]);
      if e.tokens(candidate) > targetBudget {
        break;
      }
      curText := candidate;
      retainedLines := retainedLines + [lines[i]];
      i := i + 1;
    }
    ghost var t := i;
    while retainedLines != [] && e.tokens(Joined(retainedLines + [TRUNCATION_NOTICE])) > perFileBudget
      invariant |retainedLines| <= t && retainedLines == lines[..|retainedLines|]
      invariant forall j :: |retainedLines| < j <= t ==> e.tokens(WithNotice(lines[..j])) > perFileBudget
    {
      retainedLines := retainedLines[..|retainedLines| - 1];
    }
    assert TruncatedAt(e, content, perFileBudget, t, |retainedLines|);
    retainedLines := retainedLines + [TRUNCATION_NOTICE];
    r := Joined(retainedLines);
  }

  /* All files. */

  function Tokens(e: Engine, files: Dict<string>): nat
    requires files.Valid()
  {
    TokensIn(e, files.order, files.values)
  }

  function TokensIn(e: Engine, order: seq<string>, m: map<string, string>): nat
    requires forall k :: k in order ==> k in m
  {
    if order == [] then 0 else TokensIn(e, order[..|order| - 1], m) + e.tokens(m[order[|order| - 1]])
  }

  ghost predicate Scrubbed(e: Engine, files: Dict<string>, scrubbed: Dict<string>) {
    && scrubbed.order == files.order && scrubbed.values.Keys == files.values.Keys
    && forall k :: k in files.values ==> scrubbed.values[k] == e.scrub(files.values[k])
  }

  function PerFileBudget(maxTotalTokens: int, n: nat): int
    requires n > 0
  {
    Max(50, maxTotalTokens / n)
  }

  // The files the extractor returns over budget: what fits its share unchanged, the others truncated
  ghost predicate Bounded(e: Engine, scrubbed: Dict<string>, perFileBudget: int, r: Dict<string>) {
    && r.order == scrubbed.order && r.values.Keys == scrubbed.values.Keys
    && forall k :: k in r.values ==> BoundedFile(e, scrubbed.values[k], perFileBudget, r.values[k])
  }

  ghost predicate BoundedFile(e: Engine, content: string, perFileBudget: int, r: string) {
    if e.tokens(content) <= perFileBudget then r == content else IsTruncation(e, content, perFileBudget, r)
  }

  // What the extractor returns
  ghost predicate IsExtract(e: Engine, files: Dict<string>, maxTotalTokens: int, r: Dict<string>) {
    exists scrubbed: Dict<string> :: ExtractOf(e, files, maxTotalTokens, scrubbed, r)
  }

  ghost predicate ExtractOf(e: Engine, files: Dict<string>, maxTotalTokens: int, scrubbed: Dict<string>, r: Dict<string>) {
    && Scrubbed(e, files, scrubbed) && scrubbed.Valid()
    && if scrubbed.order == [] || Tokens(e, scrubbed) <= maxTotalTokens then r == scrubbed
       else Bounded(e, scrubbed, PerFileBudget(maxTotalTokens, |scrubbed.order|), r)
  }

  lemma {:induction false} TokensBound(e: Engine, order: seq<string>, m: map<string, string>, each: int)
    requires forall k :: k in order ==> k in m && e.tokens(m[k]) <= each
    ensures TokensIn(e, order, m) <= |order| * each
  {
    if order != [] {
      TokensBound(e, order[..|order| - 1], m, each);
      assert |order| * each == (|order| - 1) * each + each;
    }
  }

  /** A file fits its share exactly if it has at most 50 tokens or as many such files would fit the budget. */
  lemma FitsShareExactly(budget: int, n: nat, tokens: int)
    requires n > 0
    ensures tokens <= PerFileBudget(budget, n) <==> tokens <= 50 || n * tokens <= budget
  {
    var share := budget / n;
    assert n * share <= budget < n * (share + 1);
    if tokens <= share {
      assert n * tokens <= n * share;
    } else {
      assert n * tokens >= n * (share + 1);
    }
  }

  /** A file is cut exactly when the files are over budget together and it is over its share. */
  lemma CutExactly(e: Engine, files: Dict<string>, maxTotalTokens: int, r: Dict<string>, path: string)
    requires files.Valid() && IsExtract(e, files, maxTotalTokens, r) && path in files.values
    ensures path in r.values
    ensures exists scrubbed: Dict<string> ::
      && Scrubbed(e, files, scrubbed) && scrubbed.Valid()
      && var n, tokens := |files.order|, e.tokens(e.scrub(files.values[path]));
         if Tokens(e, scrubbed) <= maxTotalTokens || tokens <= 50 || n * tokens <= maxTotalTokens
         then r.values[path] == e.scrub(files.values[path])
         else n > 0 && IsTruncation(e, e.scrub(files.values[path]), PerFileBudget(maxTotalTokens, n), r.values[path])
  {
    var scrubbed: Dict<string> :| ExtractOf(e, files, maxTotalTokens, scrubbed, r);
    assert path in files.order;
    FitsShareExactly(maxTotalTokens, |files.order|, e.tokens(scrubbed.values[path]));
  }

  lemma ShareTimesFiles(budget: int, n: nat)
    requires n > 0
    ensures n * PerFileBudget(budget, n) <= Max(budget, 50 * n)
  {
    var share := budget / n;
    assert n * share <= budget;
  }

  /** Over budget, every file fits its share, and all together the budget or 50 tokens a file. */
  lemma BoundedFits(e: Engine, scrubbed: Dict<string>, maxTotalTokens: int, r: Dict<string>)
    requires scrubbed.Valid() && scrubbed.order != []
    requires Bounded(e, scrubbed, PerFileBudget(maxTotalTokens, |scrubbed.order|), r)
    requires e.tokens(TRUNCATION_NOTICE) <= PerFileBudget(maxTotalTokens, |scrubbed.order|)
    ensures r.Valid()
    ensures forall k :: k in r.values ==> e.tokens(r.values[k]) <= PerFileBudget(maxTotalTokens, |scrubbed.order|)
    ensures Tokens(e, r) <= Max(maxTotalTokens, 50 * |scrubbed.order|)
  {
    var share := PerFileBudget(maxTotalTokens, |scrubbed.order|);
    forall k | k in r.values ensures e.tokens(r.values[k]) <= share {
      if e.tokens(scrubbed.values[k]) > share {
        TruncationFits(e, scrubbed.values[k], share, r.values[k]);
      }
    }
    TokensBound(e, r.order, r.values, share);
    ShareTimesFiles(maxTotalTokens, |scrubbed.order|);
  }

  /** The bound that always holds; the documented one, the budget itself, is the case of at most a fiftieth of
      the budget in files. */
  lemma ExtractFits(e: Engine, files: Dict<string>, maxTotalTokens: int, r: Dict<string>)
    requires files.Valid() && IsExtract(e, files, maxTotalTokens, r)
    requires e.tokens(TRUNCATION_NOTICE) <= 50
    ensures r.Valid() && r.order == files.order
    ensures files.order != [] ==> Tokens(e, r) <= Max(maxTotalTokens, 50 * |files.order|)
  {
    var scrubbed: Dict<string> :| ExtractOf(e, files, maxTotalTokens, scrubbed, r);
    if scrubbed.order != [] && Tokens(e, scrubbed) > maxTotalTokens {
      BoundedFits(e, scrubbed, maxTotalTokens, r);
    }
  }

  // Whatever the files, n of them are brought within the budget
  ghost predicate AlwaysWithin(e: Engine, n: nat, maxTotalTokens: int) {
    forall files: Dict<string>, r: Dict<string> ::
      Extracts(e, files, n, maxTotalTokens, r) ==> Tokens(e, r) <= maxTotalTokens
  }

  ghost predicate Extracts(e: Engine, files: Dict<string>, n: nat, maxTotalTokens: int, r: Dict<string>)
    ensures Extracts(e, files, n, maxTotalTokens, r) ==> r.Valid()
  {
    files.Valid() && |files.order| == n && IsExtract(e, files, maxTotalTokens, r) && r.Valid()
  }

  /** With any counter whose notice fits, and a text of 50 tokens that redaction leaves alone, the documented
      bound is kept for n files exactly when the budget has 50 tokens for each. */
  lemma BudgetKeptExactly(e: Engine, n: nat, maxTotalTokens: int, text: string)
    requires n > 0 && e.tokens(TRUNCATION_NOTICE) <= 50
    requires e.scrub(text) == text && e.tokens(text) == 50
    ensures AlwaysWithin(e, n, maxTotalTokens) <==> 50 * n <= maxTotalTokens
  {
    if 50 * n <= maxTotalTokens {
      forall files: Dict<string>, r: Dict<string> | Extracts(e, files, n, maxTotalTokens, r)
        ensures Tokens(e, r) <= maxTotalTokens
      {
        ExtractFits(e, files, maxTotalTokens, r);
      }
    } else {
      var files := Filled(n, text);
      FilledValid(n, text);
      FilledTokens(e, files.order, files.values, text);
      assert Scrubbed(e, files, files);
      assert Bounded(e, files, PerFileBudget(maxTotalTokens, n), files);
      assert ExtractOf(e, files, maxTotalTokens, files, files);
      assert Extracts(e, files, n, maxTotalTokens, files);
    }
  }

  // The counter without a tokenizer library
  function ApproximateTokens(text: string): nat {
    |text| / 4
  }

  function Xs(n: nat): (text: string)
    ensures |text| == n
  {
    if n == 0 then "" else Xs(n - 1) + "x"
  }

  /** So it is for the program's own approximation of four characters a token, with files of 200 characters. */
  lemma ApproximateBudgetKeptExactly(e: Engine, n: nat, maxTotalTokens: int)
    requires n > 0 && e.scrub(Xs(200)) == Xs(200) && forall text :: e.tokens(text) == ApproximateTokens(text)
    ensures AlwaysWithin(e, n, maxTotalTokens) <==> 50 * n <= maxTotalTokens
  {
    assert |TRUNCATION_NOTICE| < 200;
    BudgetKeptExactly(e, n, maxTotalTokens, Xs(200));
  }

  // n files of one text
  function Filled(n: nat, text: string): Dict<string> {
    if n == 0 then Dict([], map[]) else Filled(n - 1, text).Assigned(Decimal(n - 1), text)
  }

  lemma {:induction false} FilledKeys(n: nat, text: string, m: nat)
    requires m >= n
    ensures Decimal(m) !in Filled(n, text).values
  {
    if n > 0 {
      FilledKeys(n - 1, text, m);
      if Decimal(m) == Decimal(n - 1) {
        DecimalInjective(m, n - 1);
      }
    }
  }

  lemma {:induction false} FilledValid(n: nat, text: string)
    ensures Filled(n, text).Valid() && |Filled(n, text).order| == n
    ensures forall k :: k in Filled(n, text).values ==> Filled(n, text).values[k] == text
  {
    if n > 0 {
      FilledValid(n - 1, text);
      FilledKeys(n - 1, text, n - 1);
      AssignedValid(Filled(n - 1, text), Decimal(n - 1), text);
    }
  }

  lemma {:induction false} FilledTokens(e: Engine, order: seq<string>, m: map<string, string>, text: string)
    requires forall k :: k in order ==> k in m && m[k] == text
    ensures TokensIn(e, order, m) == e.tokens(text) * |order|
  {
    if order != [] {
      FilledTokens(e, order[..|order| - 1], m, text);
      assert e.tokens(text) * |order| == e.tokens(text) * (|order| - 1) + e.tokens(text);
    }
  }

  // The files up to i are scrubbed
  ghost predicate ScrubbedTo(e: Engine, files: Dict<string>, i: nat, scrubbed: Dict<string>) {
    && i <= |files.order| && scrubbed.Valid() && scrubbed.order == files.order[..i]
    && forall k :: k in scrubbed.values ==> k in files.values && scrubbed.values[k] == e.scrub(files.values[k])
  }

  lemma ScrubbedOneMore(e: Engine, files: Dict<string>, i: nat, scrubbed: Dict<string>)
    requires files.Valid() && ScrubbedTo(e, files, i, scrubbed) && i < |files.order|
    ensures files.order[i] in files.values
    ensures ScrubbedTo(e, files, i + 1, scrubbed.Assigned(files.order[i], e.scrub(files.values[files.order[i]])))
  {
    var path := files.order[i];
    assert path !in files.order[..i];
    AssignedValid(scrubbed, path, e.scrub(files.values[path]));
  }

  method ScrubFiles(e: Engine, files: Dict<string>) returns (scrubbed: Dict<string>)
    requires files.Valid()
    ensures scrubbed.Valid() && Scrubbed(e, files, scrubbed)
  {
    scrubbed := Dict([], map[]);
    for i := 0 to |files.order|
      invariant ScrubbedTo(e, files, i, scrubbed)
    {
      ScrubbedOneMore(e, files, i, scrubbed);
      scrubbed := scrubbed.Assigned(files.order[i], e.scrub(files.values[files.order[i]]));
    }
    assert files.order[..|files.order|] == files.order;
    SameKeys(scrubbed, files);
  }

  lemma SameKeys(a: Dict<string>, b: Dict<string>)
    requires a.Valid() && b.Valid() && a.order == b.order
    ensures a.values.Keys == b.values.Keys
  {
    assert forall k :: k in a.values <==> k in a.order;
    assert forall k :: k in b.values <==> k in b.order;
  }

  // The files up to i are bounded
  ghost predicate BoundedTo(e: Engine, scrubbed: Dict<string>, perFileBudget: int, i: nat, r: Dict<string>) {
    && i <= |scrubbed.order| && r.Valid() && r.order == scrubbed.order[..i]
    && forall k :: k in r.values ==>
      k in scrubbed.values && BoundedFile(e, scrubbed.values[k], perFileBudget, r.values[k])
  }

  lemma BoundedOneMore(e: Engine, scrubbed: Dict<string>, perFileBudget: int, i: nat, r: Dict<string>, bounded: string)
    requires scrubbed.Valid() && BoundedTo(e, scrubbed, perFileBudget, i, r) && i < |scrubbed.order|
    requires scrubbed.order[i] in scrubbed.values
    requires BoundedFile(e, scrubbed.values[scrubbed.order[i]], perFileBudget, bounded)
    ensures BoundedTo(e, scrubbed, perFileBudget, i + 1, r.Assigned(scrubbed.order[i], bounded))
  {
    var path := scrubbed.order[i];
    assert path !in scrubbed.order[..i];
    AssignedValid(r, path, bounded);
  }

  method BoundFiles(e: Engine, scrubbed: Dict<string>, perFileBudget: int) returns (r: Dict<string>)
    requires scrubbed.Valid()
    ensures r.Valid() && Bounded(e, scrubbed, perFileBudget, r)
  {
    r := Dict([], map[]);
    for i := 0 to |scrubbed.order|
      invariant BoundedTo(e, scrubbed, perFileBudget, i, r)
    {
      var path := scrubbed.order[i];
      var bounded := scrubbed.values[path];
      if e.tokens(bounded) > perFileBudget {
        bounded := TruncateFile(e, bounded, perFileBudget);
      }
      BoundedOneMore(e, scrubbed, perFileBudget, i, r, bounded);
      r := r.Assigned(path, bounded);
    }
    assert scrubbed.order[..|scrubbed.order|] == scrubbed.order;
    SameKeys(r, scrubbed);
  }

  method ExtractAndBoundFiles(e: Engine, files: Dict<string>, maxTotalTokens: int) returns (r: Dict<string>)
    requires files.Valid()
    ensures IsExtract(e, files, maxTotalTokens, r)
  {
    var scrubbedFiles := ScrubFiles(e, files);
    if scrubbedFiles.order == [] || Tokens(e, scrubbedFiles) <= maxTotalTokens {
      assert ExtractOf(e, files, maxTotalTokens, scrubbedFiles, scrubbedFiles);
      return scrubbedFiles;
    }
    r := BoundFiles(e, scrubbedFiles, PerFileBudget(maxTotalTokens, |scrubbedFiles.order|));
    assert ExtractOf(e, files, maxTotalTokens, scrubbedFiles, r);
  }
}
