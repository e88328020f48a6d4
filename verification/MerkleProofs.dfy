/**
 Membership proofs: generation from the stored levels and verification by
 climbing from an event hash to the root.
 */
module MerkleProofs {
  import opened Basics
  import opened Hashing
  import opened MerkleTree

  // An absent hash or position is the empty string
  datatype ProofStep = ProofStep(hash: string, position: string)

  /* Generation. */

  // The upper level holds the parents of the lower one
  ghost predicate Above(h: Sha256, lower: seq<string>, upper: seq<string>) {
    && |lower| > 1 && |upper| == (|lower| + 1) / 2
    && forall i :: 0 <= i < |upper| ==> upper[i] == Parent(h, lower, i)
  }

  lemma AboveIsNext(h: Sha256, lower: seq<string>, upper: seq<string>)
    requires |lower| > 1
    ensures Above(h, lower, upper) <==> upper == NextLevel(h, lower)
  {
  }

  ghost predicate AboveAt(h: Sha256, levels: seq<seq<string>>, k: nat) {
    k + 1 < |levels| && Above(h, levels[k], levels[k + 1])
  }

  // All levels of a tree, leaf hashes first
  ghost predicate Tower(h: Sha256, levels: seq<seq<string>>) {
    && levels != [] && |levels[|levels| - 1]| == 1
    && forall k: nat :: k < |levels| - 1 ==> AboveAt(h, levels, k)
  }

  ghost predicate TowerOver(h: Sha256, leaves: seq<string>, levels: seq<seq<string>>) {
    leaves != [] && Tower(h, levels) && levels[0] == LeafLevel(h, leaves)
  }

  lemma TailIsTower(h: Sha256, levels: seq<seq<string>>)
    requires Tower(h, levels) && |levels| > 1
    ensures Tower(h, levels[1..])
  {
    forall k: nat | k < |levels[1..]| - 1 ensures AboveAt(h, levels[1..], k) {
      assert AboveAt(h, levels, k + 1);
    }
  }

  lemma {:induction false} TowerTop(h: Sha256, levels: seq<seq<string>>)
    requires Tower(h, levels)
    ensures levels[0] != [] && Top(h, levels[0]) == levels[|levels| - 1][0]
  {
    if |levels| > 1 {
      assert AboveAt(h, levels, 0);
      AboveIsNext(h, levels[0], levels[1]);
      TailIsTower(h, levels);
      TowerTop(h, levels[1..]);
    }
  }

  function StepAt(level: seq<string>, idx: nat): (step: ProofStep)
    requires idx < |level|
  {
    if idx % 2 == 0 then
      ProofStep(level[if idx + 1 < |level| then idx + 1 else idx], "right")
    else
      ProofStep(level[idx - 1], "left")
  }

  // The node j levels above node idx
  function Ancestor(idx: nat, j: nat): nat {
    if j == 0 then idx else Ancestor(idx, j - 1) / 2
  }

  ghost predicate HalvesAt(levels: seq<seq<string>>, k: nat) {
    k + 1 < |levels| && |levels[k + 1]| == (|levels[k]| + 1) / 2
  }

  ghost predicate Halving(levels: seq<seq<string>>) {
    forall k: nat :: k < |levels| - 1 ==> HalvesAt(levels, k)
  }

  lemma TowerHalves(h: Sha256, levels: seq<seq<string>>)
    requires Tower(h, levels)
    ensures Halving(levels)
  {
    forall k: nat | k < |levels| - 1 ensures HalvesAt(levels, k) {
      assert AboveAt(h, levels, k);
    }
  }

  lemma {:induction false} AncestorInRange(levels: seq<seq<string>>, base: nat, idx: nat, j: nat)
    requires Halving(levels) && base + j < |levels| && idx < |levels[base]|
    ensures Ancestor(idx, j) < |levels[base + j]|
  {
    if j > 0 {
      AncestorInRange(levels, base, idx, j - 1);
      assert HalvesAt(levels, base + j - 1);
    }
  }

  ghost predicate IsStep(level: seq<string>, idx: nat, step: ProofStep) {
    idx < |level| && step == StepAt(level, idx)
  }

  // The proof for node idx of level number base
  ghost predicate IsPath(levels: seq<seq<string>>, base: nat, idx: nat, proof: seq<ProofStep>) {
    base + |proof| + 1 == |levels| && LeadsUp(levels, base, idx, proof)
  }

  ghost predicate LeadsUp(levels: seq<seq<string>>, base: nat, idx: nat, steps: seq<ProofStep>) {
    base + |steps| < |levels| && forall j: nat :: j < |steps| ==> StepLeadsUp(levels, base, idx, steps, j)
  }

  ghost predicate StepLeadsUp(levels: seq<seq<string>>, base: nat, idx: nat, steps: seq<ProofStep>, j: nat) {
    base + j < |levels| && j < |steps| && IsStep(levels[base + j], Ancestor(idx, j), steps[j])
  }

  method BuildLevels(h: Sha256, leafLevel: seq<string>) returns (levels: seq<seq<string>>)
    requires leafLevel != []
    ensures Tower(h, levels) && levels[0] == leafLevel
  {
    var currentLevel := leafLevel;
    levels := [currentLevel];
    while |currentLevel| > 1
      invariant levels != [] && levels[0] == leafLevel
      invariant levels[|levels| - 1] == currentLevel != []
      invariant forall k: nat :: k < |levels| - 1 ==> AboveAt(h, levels, k)
      decreases |currentLevel|
    {
      var nextLevel := PairUp(h, currentLevel);
      AboveIsNext(h, currentLevel, nextLevel);
      forall k: nat | k < |levels| ensures AboveAt(h, levels + [nextLevel], k) {
        if k < |levels| - 1 {
          assert AboveAt(h, levels, k);
        }
      }
      currentLevel := nextLevel;
      levels := levels + [currentLevel];
    }
  }

  lemma LeadsUpExtends(levels: seq<seq<string>>, base: nat, idx: nat, steps: seq<ProofStep>, step: ProofStep)
    requires LeadsUp(levels, base, idx, steps) && base + |steps| + 1 < |levels|
    requires IsStep(levels[base + |steps|], Ancestor(idx, |steps|), step)
    ensures LeadsUp(levels, base, idx, steps + [step])
  {
    forall j: nat | j < |steps + [step]| ensures StepLeadsUp(levels, base, idx, steps + [step], j) {
      assert j < |steps| ==> StepLeadsUp(levels, base, idx, steps, j);
    }
  }

  method SiblingStep(level: seq<string>, idx: nat) returns (step: ProofStep)
    requires idx < |level|
    ensures IsStep(level, idx, step)
  {
    if idx % 2 == 0 {
      var siblingIdx := idx + 1;
      step := ProofStep(if siblingIdx < |level| then level[siblingIdx] else level[idx], "right");
    } else {
      step := ProofStep(level[idx - 1], "left");
    }
  }

  method ProofPath(levels: seq<seq<string>>, targetIdx: nat) returns (proof: seq<ProofStep>)
    requires levels != [] && Halving(levels) && targetIdx < |levels[0]|
    ensures IsPath(levels, 0, targetIdx, proof)
  {
    proof := [];
    var idx := targetIdx;
    for k := 0 to |levels| - 1
      invariant |proof| == k && idx == Ancestor(targetIdx, k)
      invariant LeadsUp(levels, 0, targetIdx, proof)
    {
      AncestorInRange(levels, 0, targetIdx, k);
      var step := SiblingStep(levels[k], idx);
      LeadsUpExtends(levels, 0, targetIdx, proof, step);
      proof := proof + [step];
      idx := idx / 2;
    }
  }

  /* Verification. */

  function Join(current: string, step: ProofStep): string {
    if step.position == "left" then step.hash + current else current + step.hash
  }

  function Climb(h: Sha256, eventHash: string, proof: seq<ProofStep>): (top: string)
    ensures |top| == 64
  {
    if proof == [] then
      h(eventHash)
    else
      var below := Climb(h, eventHash, proof[..|proof| - 1]);
      h(Join(below, proof[|proof| - 1]))
  }

  /** Of the positions only "left" matters: any other is read as right. */
  lemma {:induction false} OnlyLeftMatters(h: Sha256, eventHash: string, proof: seq<ProofStep>, other: seq<ProofStep>)
    requires |proof| == |other|
    requires forall j :: 0 <= j < |proof| ==>
      proof[j].hash == other[j].hash && (proof[j].position == "left" <==> other[j].position == "left")
    ensures Climb(h, eventHash, proof) == Climb(h, eventHash, other)
  {
    if proof != [] {
      OnlyLeftMatters(h, eventHash, proof[..|proof| - 1], other[..|other| - 1]);
    }
  }

  lemma ClimbExtends(h: Sha256, eventHash: string, proof: seq<ProofStep>, n: nat)
    requires n < |proof|
    ensures Climb(h, eventHash, proof[..n + 1]) == h(Join(Climb(h, eventHash, proof[..n]), proof[n]))
  {
    assert proof[..n + 1][..n] == proof[..n];
  }

  predicate Complete(step: ProofStep) {
    step.hash != "" && step.position != ""
  }

  predicate Accepts(h: Sha256, eventHash: string, proof: seq<ProofStep>, rootHash: string) {
    && eventHash != "" && rootHash != ""
    && (forall j :: 0 <= j < |proof| ==> Complete(proof[j]))
    && Climb(h, eventHash, proof) == rootHash
  }

  method VerifyMerkleProof(h: Sha256, eventHash: string, proof: seq<ProofStep>, rootHash: string)
    returns (accepted: bool)
    ensures accepted == Accepts(h, eventHash, proof, rootHash)
    ensures accepted ==> eventHash != "" && rootHash != ""
    ensures accepted ==> forall step :: step in proof ==> step.hash != "" && step.position != ""
  {
    if eventHash == "" || rootHash == "" {
      return false;
    }
    var current := h(eventHash);
    for n := 0 to |proof|
      invariant current == Climb(h, eventHash, proof[..n])
      invariant forall j :: 0 <= j < n ==> Complete(proof[j])
    {
      var sibling, position := proof[n].hash, proof[n].position;
      if sibling == "" || position == "" {
        return false;
      }
      ClimbExtends(h, eventHash, proof, n);
      current := h(if position == "left" then sibling + current else current + sibling);
    }
    assert proof[..|proof|] == proof;
    accepted := current == rootHash;
  }

  // The strings verification hashes
  ghost predicate ClimbInput(h: Sha256, eventHash: string, proof: seq<ProofStep>, s: string) {
    if proof == [] then
      s == eventHash
    else
      var below := proof[..|proof| - 1];
      ClimbInput(h, eventHash, below, s) || s == Join(Climb(h, eventHash, below), proof[|proof| - 1])
  }

  ghost function ClimbInputs(h: Sha256, eventHash: string, proof: seq<ProofStep>): iset<string> {
    iset s | ClimbInput(h, eventHash, proof, s)
  }

  /* Completeness. */

  lemma StepJoins(level: seq<string>, idx: nat, step: ProofStep)
    requires IsStep(level, idx, step)
    ensures Join(level[idx], step) == Pair(level, idx / 2)
  {
  }

  lemma StepComplete(level: seq<string>, idx: nat, step: ProofStep)
    requires IsStep(level, idx, step) && AllHashes(level)
    ensures Complete(step)
  {
  }

  lemma ParentOf(h: Sha256, lower: seq<string>, upper: seq<string>, i: nat)
    requires Above(h, lower, upper) && 2 * i < |lower|
    ensures i < |upper| && upper[i] == h(Pair(lower, i))
  {
    assert upper[i] == Parent(h, lower, i);
  }

  lemma StepReachesParent(h: Sha256, lower: seq<string>, upper: seq<string>, idx: nat, step: ProofStep)
    requires Above(h, lower, upper) && IsStep(lower, idx, step)
    ensures idx / 2 < |upper| && upper[idx / 2] == h(Join(lower[idx], step))
  {
    StepJoins(lower, idx, step);
    ParentOf(h, lower, upper, idx / 2);
  }

  lemma LevelHashes(h: Sha256, leaves: seq<string>, levels: seq<seq<string>>, k: nat)
    requires TowerOver(h, leaves, levels) && k < |levels|
    ensures AllHashes(levels[k])
  {
    if k > 0 {
      assert AboveAt(h, levels, k - 1);
      assert forall i :: 0 <= i < |levels[k]| ==> levels[k][i] == Parent(h, levels[k - 1], i);
    }
  }

  lemma {:induction false} PathClimbs(h: Sha256, levels: seq<seq<string>>, base: nat, idx: nat,
                                      steps: seq<ProofStep>, eventHash: string)
    requires Tower(h, levels) && LeadsUp(levels, base, idx, steps)
    requires idx < |levels[base]| && h(eventHash) == levels[base][idx]
    ensures Ancestor(idx, |steps|) < |levels[base + |steps|]|
    ensures Climb(h, eventHash, steps) == levels[base + |steps|][Ancestor(idx, |steps|)]
  {
    if steps != [] {
      var n := |steps| - 1;
      forall j: nat | j < n ensures StepLeadsUp(levels, base, idx, steps[..n], j) {
        assert StepLeadsUp(levels, base, idx, steps, j);
      }
      PathClimbs(h, levels, base, idx, steps[..n], eventHash);
      var lower, upper := levels[base + n], levels[base + n + 1];
      assert AboveAt(h, levels, base + n) && StepLeadsUp(levels, base, idx, steps, n);
      StepReachesParent(h, lower, upper, Ancestor(idx, n), steps[n]);
    }
  }

  lemma PathComplete(h: Sha256, leaves: seq<string>, levels: seq<seq<string>>, base: nat, idx: nat,
                     proof: seq<ProofStep>)
    requires TowerOver(h, leaves, levels) && IsPath(levels, base, idx, proof)
    ensures forall j :: 0 <= j < |proof| ==> Complete(proof[j])
  {
    forall j | 0 <= j < |proof| ensures Complete(proof[j]) {
      assert StepLeadsUp(levels, base, idx, proof, j);
      LevelHashes(h, leaves, levels, base + j);
      StepComplete(levels[base + j], Ancestor(idx, j), proof[j]);
    }
  }

  lemma RootOfTower(h: Sha256, leaves: seq<string>, levels: seq<seq<string>>)
    requires TowerOver(h, leaves, levels)
    ensures MerkleRoot(h, leaves) == levels[|levels| - 1][0]
  {
    TowerTop(h, levels);
  }

  /** Whatever the parity of each level, the path of a node leads from it to the root. */
  lemma PathAccepted(h: Sha256, leaves: seq<string>, levels: seq<seq<string>>, base: nat, idx: nat,
                     proof: seq<ProofStep>, eventHash: string)
    requires TowerOver(h, leaves, levels) && IsPath(levels, base, idx, proof)
    requires idx < |levels[base]| && h(eventHash) == levels[base][idx] && eventHash != ""
    ensures Accepts(h, eventHash, proof, MerkleRoot(h, leaves))
  {
    PathClimbs(h, levels, base, idx, proof, eventHash);
    RootOfTower(h, leaves, levels);
    PathComplete(h, leaves, levels, base, idx, proof);
  }

  /* Soundness. */

  lemma {:induction false} TowerPairIsInput(h: Sha256, levels: seq<seq<string>>, k: nat, i: nat)
    requires Tower(h, levels) && k + 1 < |levels| && 2 * i < |levels[k]|
    ensures InnerInput(h, levels[0], Pair(levels[k], i))
  {
    assert AboveAt(h, levels, 0);
    AboveIsNext(h, levels[0], levels[1]);
    if k == 0 {
      PairIsInput(h, levels[0], i);
    } else {
      TailIsTower(h, levels);
      TowerPairIsInput(h, levels[1..], k - 1, i);
    }
  }

  lemma LeafOf(h: Sha256, leaves: seq<string>, levels: seq<seq<string>>, i: nat)
    requires TowerOver(h, leaves, levels) && i < |levels[0]|
    ensures i < |leaves| && levels[0][i] == h(leaves[i]) && leaves[i] in TreeInputs(h, leaves)
  {
    assert leaves[i] in leaves;
  }

  lemma NodeOf(h: Sha256, leaves: seq<string>, levels: seq<seq<string>>, k: nat, i: nat)
    requires TowerOver(h, leaves, levels) && k + 1 < |levels| && i < |levels[k + 1]|
    ensures 2 * i < |levels[k]| && levels[k + 1][i] == h(Pair(levels[k], i))
    ensures Pair(levels[k], i) in TreeInputs(h, leaves)
  {
    assert AboveAt(h, levels, k);
    ParentOf(h, levels[k], levels[k + 1], i);
    TowerPairIsInput(h, levels, k, i);
  }

  // Which node a climb passed through on its way to a pair of nodes
  lemma JoinedWith(level: seq<string>, i: nat, below: string, step: ProofStep) returns (j: nat)
    requires AllHashes(level) && 2 * i < |level| && |below| == 64
    requires Join(below, step) == Pair(level, i)
    ensures j < |level| && below == level[j]
  {
    var r := if 2 * i + 1 < |level| then 2 * i + 1 else 2 * i;
    if step.position == "left" {
      SplitEqual(step.hash, below, level[2 * i], level[r]);
      j := r;
    } else {
      SplitEqual(below, step.hash, level[2 * i], level[r]);
      j := 2 * i;
    }
  }

  // The text whose hash a climb ends in
  lemma LastInput(h: Sha256, eventHash: string, proof: seq<ProofStep>) returns (input: string)
    ensures input in ClimbInputs(h, eventHash, proof) && h(input) == Climb(h, eventHash, proof)
    ensures input == if proof == [] then eventHash
                     else Join(Climb(h, eventHash, proof[..|proof| - 1]), proof[|proof| - 1])
  {
    input := if proof == [] then eventHash
             else Join(Climb(h, eventHash, proof[..|proof| - 1]), proof[|proof| - 1]);
    assert ClimbInput(h, eventHash, proof, input);
  }

  lemma InputsBelow(h: Sha256, eventHash: string, proof: seq<ProofStep>)
    requires proof != []
    ensures ClimbInputs(h, eventHash, proof[..|proof| - 1]) <= ClimbInputs(h, eventHash, proof)
  {
    forall s | ClimbInput(h, eventHash, proof[..|proof| - 1], s) ensures ClimbInput(h, eventHash, proof, s) {
    }
  }

  lemma {:induction false} Descend(h: Sha256, leaves: seq<string>, levels: seq<seq<string>>, k: nat, i: nat,
                                  eventHash: string, proof: seq<ProofStep>, u: iset<string>)
    requires TowerOver(h, leaves, levels) && k < |levels| && i < |levels[k]| && AllHashes(leaves)
    requires TreeInputs(h, leaves) <= u && ClimbInputs(h, eventHash, proof) <= u && CollisionFree(h, u)
    requires forall j :: 0 <= j < |proof| ==> Complete(proof[j])
    requires Climb(h, eventHash, proof) == levels[k][i]
    ensures eventHash in TreeInputs(h, leaves)
  {
    var input := LastInput(h, eventHash, proof);
    if k == 0 {
      LeafOf(h, leaves, levels, i);
      assert input == leaves[i];
      if proof != [] {
        // a joined text is longer than a leaf
        assert false;
      }
    } else {
      NodeOf(h, leaves, levels, k - 1, i);
      assert input == Pair(levels[k - 1], i);
      if proof != [] {
        var below := proof[..|proof| - 1];
        LevelHashes(h, leaves, levels, k - 1);
        var j := JoinedWith(levels[k - 1], i, Climb(h, eventHash, below), proof[|proof| - 1]);
        InputsBelow(h, eventHash, proof);
        Descend(h, leaves, levels, k - 1, j, eventHash, below, u);
      }
    }
  }

  lemma {:induction false} TowerExists(h: Sha256, level: seq<string>) returns (levels: seq<seq<string>>)
    requires level != []
    ensures Tower(h, levels) && levels[0] == level
    decreases |level|
  {
    if |level| == 1 {
      levels := [level];
    } else {
      var next := NextLevel(h, level);
      var above := TowerExists(h, next);
      levels := [level] + above;
      AboveIsNext(h, level, next);
      forall k: nat | k < |levels| - 1 ensures AboveAt(h, levels, k) {
        assert k > 0 ==> AboveAt(h, above, k - 1);
      }
    }
  }

  /** An accepted proof of any length speaks of a string hashed in building the tree. */
  lemma AcceptedIsTreeInput(h: Sha256, leaves: seq<string>, eventHash: string, proof: seq<ProofStep>, u: iset<string>)
    requires leaves != [] && AllHashes(leaves)
    requires TreeInputs(h, leaves) <= u && ClimbInputs(h, eventHash, proof) <= u && CollisionFree(h, u)
    requires Accepts(h, eventHash, proof, MerkleRoot(h, leaves))
    ensures eventHash in TreeInputs(h, leaves)
  {
    var levels := TowerExists(h, LeafLevel(h, leaves));
    RootOfTower(h, leaves, levels);
    Descend(h, leaves, levels, |levels| - 1, 0, eventHash, proof, u);
  }

  /** Membership soundness: an accepted 64-character event hash is a leaf. */
  lemma MembershipSound(h: Sha256, leaves: seq<string>, eventHash: string, proof: seq<ProofStep>, u: iset<string>)
    requires AllHashes(leaves) && |eventHash| == 64
    requires TreeInputs(h, leaves) <= u && ClimbInputs(h, eventHash, proof) <= u
    requires CollisionFree(h, u) && (leaves == [] ==> AvoidsZero(h, u))
    requires Accepts(h, eventHash, proof, MerkleRoot(h, leaves))
    ensures eventHash in leaves
  {
    if leaves == [] {
      var input := LastInput(h, eventHash, proof);
      assert false;
    }
    AcceptedIsTreeInput(h, leaves, eventHash, proof, u);
    if InnerInput(h, LeafLevel(h, leaves), eventHash) {
      InnerInputLength(h, LeafLevel(h, leaves), eventHash);
      assert false;
    }
  }

  /* The converse: every string hashed in building the tree has an accepted proof. */

  lemma PathExists(levels: seq<seq<string>>, base: nat, idx: nat) returns (proof: seq<ProofStep>)
    requires Halving(levels) && base < |levels| && idx < |levels[base]|
    ensures IsPath(levels, base, idx, proof)
  {
    proof := [];
    while base + |proof| + 1 < |levels|
      invariant LeadsUp(levels, base, idx, proof)
      decreases |levels| - |proof|
    {
      AncestorInRange(levels, base, idx, |proof|);
      var step := StepAt(levels[base + |proof|], Ancestor(idx, |proof|));
      LeadsUpExtends(levels, base, idx, proof, step);
      proof := proof + [step];
    }
  }

  lemma {:induction false} InnerInputIsPair(h: Sha256, levels: seq<seq<string>>, s: string) returns (k: nat, i: nat)
    requires Tower(h, levels) && InnerInput(h, levels[0], s)
    ensures k + 1 < |levels| && 2 * i < |levels[k]| && s == Pair(levels[k], i)
  {
    assert |levels| > 1;
    assert AboveAt(h, levels, 0);
    AboveIsNext(h, levels[0], levels[1]);
    if IsPair(levels[0], s) {
      i :| 2 * i < |levels[0]| && s == Pair(levels[0], i);
      k := 0;
    } else {
      TailIsTower(h, levels);
      k, i := InnerInputIsPair(h, levels[1..], s);
      k := k + 1;
    }
  }

  lemma {:induction false} PathInputs(h: Sha256, leaves: seq<string>, levels: seq<seq<string>>, base: nat, idx: nat,
                                     steps: seq<ProofStep>, eventHash: string)
    requires TowerOver(h, leaves, levels) && LeadsUp(levels, base, idx, steps)
    requires idx < |levels[base]| && h(eventHash) == levels[base][idx] && eventHash in TreeInputs(h, leaves)
    ensures ClimbInputs(h, eventHash, steps) <= TreeInputs(h, leaves)
  {
    if steps != [] {
      var n := |steps| - 1;
      var below := steps[..n];
      forall j: nat | j < n ensures StepLeadsUp(levels, base, idx, below, j) {
        assert StepLeadsUp(levels, base, idx, steps, j);
      }
      PathClimbs(h, levels, base, idx, below, eventHash);
      PathInputs(h, leaves, levels, base, idx, below, eventHash);
      assert StepLeadsUp(levels, base, idx, steps, n) && AboveAt(h, levels, base + n);
      StepJoins(levels[base + n], Ancestor(idx, n), steps[n]);
      TowerPairIsInput(h, levels, base + n, Ancestor(idx, n) / 2);
      forall s | ClimbInput(h, eventHash, steps, s) ensures s in TreeInputs(h, leaves) {
        assert ClimbInput(h, eventHash, below, s) ==> s in ClimbInputs(h, eventHash, below);
      }
    }
  }

  lemma TreeInputAccepted(h: Sha256, leaves: seq<string>, s: string) returns (proof: seq<ProofStep>)
    requires leaves != [] && AllHashes(leaves) && s in TreeInputs(h, leaves)
    ensures Accepts(h, s, proof, MerkleRoot(h, leaves)) && ClimbInputs(h, s, proof) <= TreeInputs(h, leaves)
  {
    var level := LeafLevel(h, leaves);
    var levels := TowerExists(h, level);
    TowerHalves(h, levels);
    var base, idx: nat := 0, 0;
    if s in leaves {
      idx :| idx < |leaves| && leaves[idx] == s;
    } else {
      var k, i := InnerInputIsPair(h, levels, s);
      base, idx := k + 1, i;
      assert AboveAt(h, levels, k);
      ParentOf(h, levels[k], levels[base], idx);
      InnerInputLength(h, level, s);
    }
    proof := PathExists(levels, base, idx);
    PathAccepted(h, leaves, levels, base, idx, proof, s);
    PathInputs(h, leaves, levels, base, idx, proof, s);
  }

  // Some proof is accepted for s without hashing anything outside u
  ghost predicate Provable(h: Sha256, s: string, rootHash: string, u: iset<string>) {
    exists proof :: ClimbInputs(h, s, proof) <= u && Accepts(h, s, proof, rootHash)
  }

  /** Verification accepts exactly the leaves and the 128-character texts of inner nodes. */
  lemma ProvableExactly(h: Sha256, leaves: seq<string>, s: string, u: iset<string>)
    requires leaves != [] && AllHashes(leaves) && TreeInputs(h, leaves) <= u && CollisionFree(h, u)
    ensures Provable(h, s, MerkleRoot(h, leaves), u) <==> s in leaves || InnerInput(h, LeafLevel(h, leaves), s)
  {
    if Provable(h, s, MerkleRoot(h, leaves), u) {
      var proof :| ClimbInputs(h, s, proof) <= u && Accepts(h, s, proof, MerkleRoot(h, leaves));
      AcceptedIsTreeInput(h, leaves, s, proof, u);
    }
    if s in TreeInputs(h, leaves) {
      var proof := TreeInputAccepted(h, leaves, s);
    }
  }

  /** Membership is exact if and only if the string offered is not the text of an inner node. */
  lemma MembershipExactUnlessInner(h: Sha256, leaves: seq<string>, s: string, u: iset<string>)
    requires leaves != [] && AllHashes(leaves) && TreeInputs(h, leaves) <= u && CollisionFree(h, u)
    ensures (Provable(h, s, MerkleRoot(h, leaves), u) <==> s in leaves)
       <==> !InnerInput(h, LeafLevel(h, leaves), s)
    ensures |s| != 128 ==> !InnerInput(h, LeafLevel(h, leaves), s)
  {
    ProvableExactly(h, leaves, s, u);
    if InnerInput(h, LeafLevel(h, leaves), s) {
      InnerInputLength(h, LeafLevel(h, leaves), s);
      assert s !in leaves by {
        assert forall i :: 0 <= i < |leaves| ==> |leaves[i]| == 64;
      }
    }
  }
}
