/**
 SHA-256 as the ledger uses it: an arbitrary function from text to 64
 characters.  Nothing here assumes that the function is injective on all
 strings.  Results that need collision resistance say for which strings, and
 those are always strings the program itself hashes.
 */
module Hashing {
  // "0" * 64: the predecessor of the first record, and the root of an empty tree
  function ZeroHash(): (zeros: string)
    ensures |zeros| == 64
    ensures forall i :: 0 <= i < 64 ==> zeros[i] == '0'
  {
    seq(64, i => '0')
  }

  // A hexadecimal SHA-256 digest
  type Digest = d: string | |d| == 64 witness ZeroHash()

  type Sha256 = string -> Digest

  ghost predicate CollisionFree(h: Sha256, inputs: iset<string>) {
    forall x, y :: x in inputs && y in inputs && h(x) == h(y) ==> x == y
  }

  ghost predicate AvoidsZero(h: Sha256, inputs: iset<string>) {
    forall x :: x in inputs ==> h(x) != ZeroHash()
  }

  predicate AllHashes(xs: seq<string>) {
    forall i :: 0 <= i < |xs| ==> |xs[i]| == 64
  }
}
