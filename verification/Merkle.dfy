/** Folding an audit path into a root: the plain, variable-depth form. */
module Merkle {
  import opened Words

  /** The 65 bytes hashed at an inner node (section 2.1 of RFC 6962). */
  function NodeInput(left: Digest, right: Digest): (b: Bytes)
    ensures |b| == 65
  {
    [1] + left + right
  }

  function Node(sha: Sha256, left: Digest, right: Digest): Digest {
    sha(NodeInput(left, right))
  }

  /** One level up; direction 1 says the current node is the right child. */
  function LevelInput(current: Digest, sibling: Digest, direction: bit): Bytes {
    if direction == 1 then NodeInput(sibling, current) else NodeInput(current, sibling)
  }

  function Fold(sha: Sha256, leaf: Digest, siblings: seq<Digest>, directions: seq<bit>): Digest
    requires |siblings| == |directions|
  {
    var n := |siblings|;
    if n == 0 then leaf
    else
      var below := Fold(sha, leaf, siblings[..n - 1], directions[..n - 1]);
      sha(LevelInput(below, siblings[n - 1], directions[n - 1]))
  }

  lemma FoldSnoc(
    sha: Sha256, leaf: Digest, siblings: seq<Digest>, directions: seq<bit>, sibling: Digest, direction: bit)
    requires |siblings| == |directions|
    ensures Fold(sha, leaf, siblings + [sibling], directions + [direction])
         == sha(LevelInput(Fold(sha, leaf, siblings, directions), sibling, direction))
  {
    var n := |siblings|;
    assert (siblings + [sibling])[..n] == siblings && (directions + [direction])[..n] == directions;
  }
}
