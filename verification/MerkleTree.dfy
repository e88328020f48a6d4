/**
 The Merkle tree of agent_workspace/core/merkle.py: leaves are hashed once,
 then neighbours are hashed together level by level, an odd last node being
 paired with itself.
 */
module MerkleTree {
  import opened Basics
  import opened Hashing

  function LeafLevel(h: Sha256, leaves: seq<string>): (level: seq<string>) {
    seq(|leaves|, i requires 0 <= i < |leaves| => h(leaves[i]))
  }

  // The text hashed for the i-th parent of a level
  function Pair(level: seq<string>, i: nat): string
    requires 2 * i < |level|
  {
    level[2 * i] + level[if 2 * i + 1 < |level| then 2 * i + 1 else 2 * i]
  }

  function Parent(h: Sha256, level: seq<string>, i: nat): string
    requires 2 * i < |level|
  {
    h(Pair(level, i))
  }

  function NextLevel(h: Sha256, level: seq<string>): (next: seq<string>)
    ensures |next| == (|level| + 1) / 2
    ensures forall i :: 0 <= i < |next| ==> next[i] == Parent(h, level, i)
  {
    if level == [] then []
    else if |level| == 1 then [h(level[0] + level[0])]
    else
      assert forall i: nat :: 2 * i < |level| - 2 ==> Pair(level[2..], i) == Pair(level, i + 1);
      [h(level[0] + level[1])] + NextLevel(h, level[2..])
  }

  // The value the levels above a level converge to
  function Top(h: Sha256, level: seq<string>): string
    requires level != []
    decreases |level|
  {
    if |level| == 1 then level[0] else Top(h, NextLevel(h, level))
  }

  function MerkleRoot(h: Sha256, leaves: seq<string>): string {
    if leaves == [] then ZeroHash() else Top(h, LeafLevel(h, leaves))
  }

  method BuildTree(h: Sha256, leaves: seq<string>) returns (root: string)
    ensures root == MerkleRoot(h, leaves)
  {
    if leaves == [] {
      return ZeroHash();
    }
    var currentLevel := LeafLevel(h, leaves);
    while |currentLevel| > 1
      invariant currentLevel != []
      invariant Top(h, currentLevel) == MerkleRoot(h, leaves)
      decreases |currentLevel|
    {
      currentLevel := PairUp(h, currentLevel);
    }
    return currentLevel[0];
  }

  // The inner loop that builds one level from the one below
  method PairUp(h: Sha256, level: seq<string>) returns (nextLevel: seq<string>)
    ensures nextLevel == NextLevel(h, level)
  {
    nextLevel := [];
    var i := 0;
    while i < |level|
      invariant i == 2 * |nextLevel| <= |level| + 1
      invariant forall j :: 0 <= j < |nextLevel| ==> nextLevel[j] == Parent(h, level, j)
    {
      var left := level[i];
      var right := if i + 1 < |level| then level[i + 1] else left;
      var parentHash := h(left + right);
      assert parentHash == Parent(h, level, |nextLevel|);
      nextLevel := nextLevel + [parentHash];
      i := i + 2;
    }
  }

  /* The strings that computing a root hashes. */

  // s is the concatenation of two neighbours on this level or one above it
  ghost predicate InnerInput(h: Sha256, level: seq<string>, s: string)
    decreases |level|
  {
    |level| > 1 && (IsPair(level, s) || InnerInput(h, NextLevel(h, level), s))
  }

  ghost predicate IsPair(level: seq<string>, s: string) {
    exists i: nat | 2 * i < |level| :: s == Pair(level, i)
  }

  ghost function TreeInputs(h: Sha256, leaves: seq<string>): iset<string> {
    iset s | s in leaves || InnerInput(h, LeafLevel(h, leaves), s)
  }

  lemma {:induction false} InnerInputLength(h: Sha256, level: seq<string>, s: string)
    requires AllHashes(level) && InnerInput(h, level, s)
    ensures |s| == 128
    decreases |level|
  {
    if !IsPair(level, s) {
      InnerInputLength(h, NextLevel(h, level), s);
    }
  }

  /* The reference the loop is compared with: perfect binary trees. */

  datatype Tree = Tip(leaf: string) | Fork(left: Tree, right: Tree)

  function RootOf(h: Sha256, t: Tree): (root: string)
    ensures |root| == 64
  {
    match t
    case Tip(leaf) => h(leaf)
    case Fork(l, r) => h(RootOf(h, l) + RootOf(h, r))
  }

  // Every string hashed to compute RootOf(h, t) is in u
  ghost predicate HashesWithin(h: Sha256, t: Tree, u: iset<string>) {
    match t
    case Tip(leaf) => leaf in u
    case Fork(l, r) => HashesWithin(h, l, u) && HashesWithin(h, r, u) && RootOf(h, l) + RootOf(h, r) in u
  }

  predicate Perfect(t: Tree, height: nat) {
    if height == 0 then t.Tip? else t.Fork? && Perfect(t.left, height - 1) && Perfect(t.right, height - 1)
  }

  function Leaves(t: Tree): (leaves: seq<string>)
    ensures leaves != []
  {
    match t
    case Tip(leaf) => [leaf]
    case Fork(l, r) => Leaves(l) + Leaves(r)
  }

  /* Duplicating odd nodes amounts to repeating blocks of leaves: join
     neighbouring blocks, an odd last block with a copy of itself, until one
     is left. */

  function JoinBlocks(blocks: seq<seq<string>>): (joined: seq<seq<string>>)
    ensures |joined| == (|blocks| + 1) / 2
    ensures forall i :: 0 <= i < |joined| ==>
      joined[i] == blocks[2 * i] + blocks[if 2 * i + 1 < |blocks| then 2 * i + 1 else 2 * i]
  {
    if blocks == [] then []
    else if |blocks| == 1 then [blocks[0] + blocks[0]]
    else [blocks[0] + blocks[1]] + JoinBlocks(blocks[2..])
  }

  function Fuse(blocks: seq<seq<string>>): seq<string>
    requires blocks != []
    decreases |blocks|
  {
    if |blocks| == 1 then blocks[0] else Fuse(JoinBlocks(blocks))
  }

  function Singletons(xs: seq<string>): seq<seq<string>> {
    seq(|xs|, i requires 0 <= i < |xs| => [xs[i]])
  }

  function Padded(leaves: seq<string>): seq<string> {
    if leaves == [] then [] else Fuse(Singletons(leaves))
  }

  ghost predicate Represents(h: Sha256, node: string, block: seq<string>, t: Tree, height: nat, u: iset<string>) {
    Perfect(t, height) && node == RootOf(h, t) && block == Leaves(t) && HashesWithin(h, t, u)
  }

  ghost predicate LevelRepresents(h: Sha256, level: seq<string>, blocks: seq<seq<string>>, trees: seq<Tree>,
                                  height: nat, u: iset<string>)
  {
    && |level| == |blocks| == |trees|
    && forall i :: 0 <= i < |trees| ==> Represents(h, level[i], blocks[i], trees[i], height, u)
  }

  function ForkPairs(trees: seq<Tree>): (parents: seq<Tree>)
    ensures |parents| == (|trees| + 1) / 2
    ensures forall i :: 0 <= i < |parents| ==>
      parents[i] == Fork(trees[2 * i], trees[if 2 * i + 1 < |trees| then 2 * i + 1 else 2 * i])
  {
    if trees == [] then []
    else if |trees| == 1 then [Fork(trees[0], trees[0])]
    else [Fork(trees[0], trees[1])] + ForkPairs(trees[2..])
  }

  lemma ForkRepresents(h: Sha256, l: string, r: string, a: seq<string>, b: seq<string>, s: Tree, t: Tree,
                       height: nat, u: iset<string>)
    requires Represents(h, l, a, s, height, u) && Represents(h, r, b, t, height, u) && l + r in u
    ensures Represents(h, h(l + r), a + b, Fork(s, t), height + 1, u)
  {
  }

  lemma PairIsInput(h: Sha256, level: seq<string>, i: nat)
    requires |level| > 1 && 2 * i < |level|
    ensures InnerInput(h, level, Pair(level, i))
  {
    assert IsPair(level, Pair(level, i));
  }

  lemma PairRepresents(h: Sha256, level: seq<string>, blocks: seq<seq<string>>, trees: seq<Tree>,
                       height: nat, u: iset<string>, i: nat)
    requires LevelRepresents(h, level, blocks, trees, height, u)
    requires 2 * i < |level| && Pair(level, i) in u
    ensures Represents(h, NextLevel(h, level)[i], JoinBlocks(blocks)[i], ForkPairs(trees)[i], height + 1, u)
  {
    var j := if 2 * i + 1 < |level| then 2 * i + 1 else 2 * i;
    ForkRepresents(h, level[2 * i], level[j], blocks[2 * i], blocks[j], trees[2 * i], trees[j], height, u);
  }

  lemma NextLevelRepresents(h: Sha256, level: seq<string>, blocks: seq<seq<string>>, trees: seq<Tree>,
                            height: nat, u: iset<string>)
    requires LevelRepresents(h, level, blocks, trees, height, u)
    requires |level| > 1 && forall s :: InnerInput(h, level, s) ==> s in u
    ensures LevelRepresents(h, NextLevel(h, level), JoinBlocks(blocks), ForkPairs(trees), height + 1, u)
  {
    forall i | 0 <= i < (|level| + 1) / 2
      ensures Represents(h, NextLevel(h, level)[i], JoinBlocks(blocks)[i], ForkPairs(trees)[i], height + 1, u)
    {
      PairIsInput(h, level, i);
      PairRepresents(h, level, blocks, trees, height, u, i);
    }
  }

  lemma {:induction false} TopRepresents(h: Sha256, level: seq<string>, blocks: seq<seq<string>>, trees: seq<Tree>,
                                         height: nat, u: iset<string>) returns (t: Tree, top: nat)
    requires level != [] && LevelRepresents(h, level, blocks, trees, height, u)
    requires forall s :: InnerInput(h, level, s) ==> s in u
    ensures Represents(h, Top(h, level), Fuse(blocks), t, top, u)
    decreases |level|
  {
    if |level| == 1 {
      t, top := trees[0], height;
    } else {
      NextLevelRepresents(h, level, blocks, trees, height, u);
      t, top := TopRepresents(h, NextLevel(h, level), JoinBlocks(blocks), ForkPairs(trees), height + 1, u);
    }
  }

  /** The bottom-up loop computes the root of the perfect tree over the padded leaves. */
  lemma RootIsPerfectTree(h: Sha256, leaves: seq<string>) returns (t: Tree, height: nat)
    requires leaves != []
    ensures Perfect(t, height) && Leaves(t) == Padded(leaves)
    ensures MerkleRoot(h, leaves) == RootOf(h, t)
    ensures HashesWithin(h, t, TreeInputs(h, leaves))
  {
    var trees := seq(|leaves|, i requires 0 <= i < |leaves| => Tip(leaves[i]));
    forall i | 0 <= i < |leaves|
      ensures Represents(h, LeafLevel(h, leaves)[i], Singletons(leaves)[i], trees[i], 0, TreeInputs(h, leaves))
    {
      assert leaves[i] in leaves;
    }
    t, height := TopRepresents(h, LeafLevel(h, leaves), Singletons(leaves), trees, 0, TreeInputs(h, leaves));
  }

  /* The padding extends the list it pads. */

  function Flatten(blocks: seq<seq<string>>): seq<string> {
    if blocks == [] then [] else blocks[0] + Flatten(blocks[1..])
  }

  lemma {:induction false} FlattenJoined(blocks: seq<seq<string>>)
    ensures Flatten(blocks) <= Flatten(JoinBlocks(blocks))
    decreases |blocks|
  {
    var joined := JoinBlocks(blocks);
    if |blocks| == 1 {
      assert joined == [blocks[0] + blocks[0]];
      assert Flatten(blocks) == blocks[0] && Flatten(joined) == blocks[0] + blocks[0];
    } else if |blocks| >= 2 {
      FlattenJoined(blocks[2..]);
      assert joined == [blocks[0] + blocks[1]] + JoinBlocks(blocks[2..]);
      assert blocks[1..][1..] == blocks[2..];
      assert Flatten(blocks) == (blocks[0] + blocks[1]) + Flatten(blocks[2..]);
    }
  }

  lemma {:induction false} FlattenSingletons(xs: seq<string>)
    ensures Flatten(Singletons(xs)) == xs
  {
    if xs != [] {
      FlattenSingletons(xs[1..]);
      assert Singletons(xs)[1..] == Singletons(xs[1..]);
    }
  }

  lemma {:induction false} FusePrefix(blocks: seq<seq<string>>, xs: seq<string>)
    requires blocks != [] && xs <= Flatten(blocks)
    ensures xs <= Fuse(blocks)
    decreases |blocks|
  {
    if |blocks| == 1 {
      assert Flatten(blocks) == blocks[0] + Flatten([]);
    } else {
      FlattenJoined(blocks);
      FusePrefix(JoinBlocks(blocks), xs);
    }
  }

  lemma PaddedExtends(leaves: seq<string>)
    requires leaves != []
    ensures leaves <= Padded(leaves)
  {
    FlattenSingletons(leaves);
    FusePrefix(Singletons(leaves), leaves);
  }

  lemma {:induction false} FuseHashes(blocks: seq<seq<string>>)
    requires blocks != [] && forall i :: 0 <= i < |blocks| ==> AllHashes(blocks[i])
    ensures AllHashes(Fuse(blocks))
    decreases |blocks|
  {
    if |blocks| > 1 {
      FuseHashes(JoinBlocks(blocks));
    }
  }

  /* Binding. */

  predicate TipsAreHashes(t: Tree) {
    match t
    case Tip(leaf) => |leaf| == 64
    case Fork(l, r) => TipsAreHashes(l) && TipsAreHashes(r)
  }

  lemma {:induction false} LeavesAreTips(t: Tree)
    requires AllHashes(Leaves(t))
    ensures TipsAreHashes(t)
  {
    match t
    case Tip(leaf) =>
      assert |Leaves(t)[0]| == 64;
    case Fork(l, r) =>
      assert forall i :: 0 <= i < |Leaves(l)| ==> Leaves(l)[i] == Leaves(t)[i];
      assert forall i :: 0 <= i < |Leaves(r)| ==> Leaves(r)[i] == Leaves(t)[|Leaves(l)| + i];
      LeavesAreTips(l);
      LeavesAreTips(r);
  }

  // A leaf is half as long as the text of an inner node, so the two are never confused
  lemma {:induction false} TreeBinds(h: Sha256, s: Tree, t: Tree, u: iset<string>)
    requires TipsAreHashes(s) && TipsAreHashes(t)
    requires HashesWithin(h, s, u) && HashesWithin(h, t, u) && CollisionFree(h, u)
    requires RootOf(h, s) == RootOf(h, t)
    ensures s == t
  {
    if s.Fork? && t.Fork? {
      SplitEqual(RootOf(h, s.left), RootOf(h, s.right), RootOf(h, t.left), RootOf(h, t.right));
      TreeBinds(h, s.left, t.left, u);
      TreeBinds(h, s.right, t.right, u);
    }
  }

  lemma {:induction false} PerfectSize(t: Tree, height: nat)
    requires Perfect(t, height)
    ensures |Leaves(t)| == Pow2(height)
  {
    if height > 0 {
      PerfectSize(t.left, height - 1);
      PerfectSize(t.right, height - 1);
    }
  }

  lemma {:induction false} PerfectDetermined(s: Tree, j: nat, t: Tree, k: nat)
    requires Perfect(s, j) && Perfect(t, k) && Leaves(s) == Leaves(t)
    ensures s == t
  {
    PerfectSize(s, j);
    PerfectSize(t, k);
    if j > 0 && k > 0 {
      PerfectSize(s.left, j - 1);
      PerfectSize(t.left, k - 1);
      SplitEqual(Leaves(s.left), Leaves(s.right), Leaves(t.left), Leaves(t.right));
      PerfectDetermined(s.left, j - 1, t.left, k - 1);
      PerfectDetermined(s.right, j - 1, t.right, k - 1);
    }
  }

  lemma {:induction false} HashesWithinGrows(h: Sha256, t: Tree, u: iset<string>, v: iset<string>)
    requires HashesWithin(h, t, u) && u <= v
    ensures HashesWithin(h, t, v)
  {
    if t.Fork? {
      HashesWithinGrows(h, t.left, u, v);
      HashesWithinGrows(h, t.right, u, v);
    }
  }

  lemma PaddedHashes(leaves: seq<string>)
    requires leaves != [] && AllHashes(leaves)
    ensures AllHashes(Padded(leaves))
  {
    FuseHashes(Singletons(leaves));
  }

  lemma EqualRootsEqualPadding(h: Sha256, xs: seq<string>, ys: seq<string>, u: iset<string>)
    requires xs != [] && ys != [] && AllHashes(xs) && AllHashes(ys)
    requires TreeInputs(h, xs) <= u && TreeInputs(h, ys) <= u && CollisionFree(h, u)
    requires MerkleRoot(h, xs) == MerkleRoot(h, ys)
    ensures Padded(xs) == Padded(ys)
  {
    var s, j := RootIsPerfectTree(h, xs);
    var t, k := RootIsPerfectTree(h, ys);
    PaddedHashes(xs);
    PaddedHashes(ys);
    HashesWithinGrows(h, s, TreeInputs(h, xs), u);
    HashesWithinGrows(h, t, TreeInputs(h, ys), u);
    LeavesAreTips(s);
    LeavesAreTips(t);
    TreeBinds(h, s, t, u);
  }

  lemma EqualPaddingEqualRoots(h: Sha256, xs: seq<string>, ys: seq<string>)
    requires xs != [] && ys != [] && Padded(xs) == Padded(ys)
    ensures MerkleRoot(h, xs) == MerkleRoot(h, ys)
  {
    var s, j := RootIsPerfectTree(h, xs);
    var t, k := RootIsPerfectTree(h, ys);
    PerfectDetermined(s, j, t, k);
  }

  // The root of a tree with leaves is the hash of something hashed in building it
  lemma RootIsHashed(h: Sha256, leaves: seq<string>)
    requires leaves != [] && AvoidsZero(h, TreeInputs(h, leaves))
    ensures MerkleRoot(h, leaves) != ZeroHash()
  {
    var t, height := RootIsPerfectTree(h, leaves);
    var s := if t.Tip? then t.leaf else RootOf(h, t.left) + RootOf(h, t.right);
    assert s in TreeInputs(h, leaves) && h(s) == RootOf(h, t);
  }

  /** Two leaf lists have the same root exactly when their paddings are the same list. */
  lemma RootsCoincideExactly(h: Sha256, xs: seq<string>, ys: seq<string>, u: iset<string>)
    requires AllHashes(xs) && AllHashes(ys)
    requires TreeInputs(h, xs) <= u && TreeInputs(h, ys) <= u && CollisionFree(h, u)
    requires xs == [] || ys == [] ==> AvoidsZero(h, u)
    ensures MerkleRoot(h, xs) == MerkleRoot(h, ys) <==> Padded(xs) == Padded(ys)
  {
    if xs != [] && ys != [] {
      if MerkleRoot(h, xs) == MerkleRoot(h, ys) {
        EqualRootsEqualPadding(h, xs, ys, u);
      }
      if Padded(xs) == Padded(ys) {
        EqualPaddingEqualRoots(h, xs, ys);
      }
    } else if xs != [] {
      RootIsHashed(h, xs);
      PaddedExtends(xs);
    } else if ys != [] {
      RootIsHashed(h, ys);
      PaddedExtends(ys);
    }
  }

  /** Merkle binding: for lists of one length the root determines the leaves. */
  lemma RootBindsLeaves(h: Sha256, xs: seq<string>, ys: seq<string>, u: iset<string>)
    requires |xs| == |ys| && AllHashes(xs) && AllHashes(ys)
    requires TreeInputs(h, xs) <= u && TreeInputs(h, ys) <= u && CollisionFree(h, u)
    ensures MerkleRoot(h, xs) == MerkleRoot(h, ys) <==> xs == ys
  {
    if xs != [] && MerkleRoot(h, xs) == MerkleRoot(h, ys) {
      EqualRootsEqualPadding(h, xs, ys, u);
      PaddedExtends(xs);
      PaddedExtends(ys);
    }
  }

  /** Across lengths it does not: repeating an odd last leaf leaves the root as it was. */
  lemma OddLeafRepeated(h: Sha256, a: string, b: string, c: string)
    ensures MerkleRoot(h, [a, b, c]) == MerkleRoot(h, [a, b, c, c])
  {
    var xs, ys := LeafLevel(h, [a, b, c]), LeafLevel(h, [a, b, c, c]);
    assert NextLevel(h, xs) == NextLevel(h, ys);
  }
}
