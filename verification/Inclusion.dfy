/** What a fold that reaches a tree hash proves about the tree, as long as no two inputs hashed collide. */
module Inclusion {
  import opened Words
  import opened Merkle
  import opened Rfc6962

  // ----- the inputs that are hashed -----

  ghost function TreeInputs(sha: Sha256, d: Leaves): set<Bytes>
    decreases |d|
  {
    if |d| == 0 then {[]}
    else if |d| == 1 then {LeafInput(d[0])}
    else
      var k := Split(|d|);
      {NodeInput(TreeHash(sha, d[..k]), TreeHash(sha, d[k..]))} + TreeInputs(sha, d[..k]) + TreeInputs(sha, d[k..])
  }

  ghost function FoldInputs(sha: Sha256, leaf: Digest, siblings: seq<Digest>, directions: seq<bit>): set<Bytes>
    requires |siblings| == |directions|
  {
    var n := |siblings|;
    if n == 0 then {}
    else
      var below := Fold(sha, leaf, siblings[..n - 1], directions[..n - 1]);
      {LevelInput(below, siblings[n - 1], directions[n - 1])}
      + FoldInputs(sha, leaf, siblings[..n - 1], directions[..n - 1])
  }

  /** No two different members of this finite set of inputs have the same hash. */
  ghost predicate CollisionFree(sha: Sha256, inputs: set<Bytes>) {
    forall x, y :: x in inputs && y in inputs && sha(x) == sha(y) ==> x == y
  }

  lemma CollisionFreeSubset(sha: Sha256, a: set<Bytes>, b: set<Bytes>)
    requires a <= b && CollisionFree(sha, b)
    ensures CollisionFree(sha, a)
  {
  }

  lemma NodeInputInjective(l1: Digest, r1: Digest, l2: Digest, r2: Digest)
    requires NodeInput(l1, r1) == NodeInput(l2, r2)
    ensures l1 == l2 && r1 == r2
  {
    assert l1 == NodeInput(l1, r1)[1..33] && r1 == NodeInput(l1, r1)[33..];
    assert l2 == NodeInput(l2, r2)[1..33] && r2 == NodeInput(l2, r2)[33..];
  }

  // ----- the tree hash determines the leaves -----

  /** The input whose hash is the tree hash. */
  ghost function TopInput(sha: Sha256, d: Leaves): (x: Bytes)
    ensures x in TreeInputs(sha, d) && sha(x) == TreeHash(sha, d)
  {
    if |d| == 0 then []
    else if |d| == 1 then LeafInput(d[0])
    else NodeInput(TreeHash(sha, d[..Split(|d|)]), TreeHash(sha, d[Split(|d|)..]))
  }

  lemma LeafInputInjective(x: Bytes, y: Bytes)
    requires LeafInput(x) == LeafInput(y)
    ensures x == y
  {
    assert x == LeafInput(x)[1..] && y == LeafInput(y)[1..];
  }

  /** What the top input says about the tree: none, one leaf (prefix 0) or two children (prefix 1). */
  lemma TopInputShape(sha: Sha256, d: Leaves)
    ensures match |d|
      case 0 => TopInput(sha, d) == []
      case 1 => TopInput(sha, d) == LeafInput(d[0]) && |TopInput(sha, d)| > 0 && TopInput(sha, d)[0] == 0
      case _ => TopInput(sha, d) == NodeInput(TreeHash(sha, Half(d, 0)), TreeHash(sha, Half(d, 1)))
                && |TopInput(sha, d)| == 65 && TopInput(sha, d)[0] == 1
  {
    hide TreeHash;
  }

  lemma HalvesAgree(a: Leaves, b: Leaves)
    requires 2 <= |a| && 2 <= |b| && Half(a, 0) == Half(b, 0) && Half(a, 1) == Half(b, 1)
    ensures a == b
  {
    assert a == Half(a, 0) + Half(a, 1) && b == Half(b, 0) + Half(b, 1);
  }

  /** Two trees with the same top input: both empty, the same leaf, or the same children's hashes. */
  lemma SameTopInput(sha: Sha256, a: Leaves, b: Leaves)
    requires TopInput(sha, a) == TopInput(sha, b)
    ensures a == b || (2 <= |a| && 2 <= |b|
      && TreeHash(sha, Half(a, 0)) == TreeHash(sha, Half(b, 0))
      && TreeHash(sha, Half(a, 1)) == TreeHash(sha, Half(b, 1)))
  {
    hide TreeHash, TopInput, NodeInput, LeafInput, Half;
    TopInputShape(sha, a);
    TopInputShape(sha, b);
    if |a| == 1 && |b| == 1 {
      LeafInputInjective(a[0], b[0]);
      assert a == [a[0]] && b == [b[0]];
    } else if 2 <= |a| && 2 <= |b| {
      NodeInputInjective(TreeHash(sha, Half(a, 0)), TreeHash(sha, Half(a, 1)),
                         TreeHash(sha, Half(b, 0)), TreeHash(sha, Half(b, 1)));
    }
  }

  lemma {:induction false} TreeHashDeterminesLeaves(sha: Sha256, a: Leaves, b: Leaves)
    requires CollisionFree(sha, TreeInputs(sha, a) + TreeInputs(sha, b))
    ensures TreeHash(sha, a) == TreeHash(sha, b) <==> a == b
    decreases |a|
  {
    if TreeHash(sha, a) == TreeHash(sha, b) {
      hide TreeHash, TreeInputs, Half;
      assert TopInput(sha, a) == TopInput(sha, b);
      SameTopInput(sha, a, b);
      if a != b {
        HalvesCollisionFree(sha, a, b, 0);
        HalvesCollisionFree(sha, a, b, 1);
        TreeHashDeterminesLeaves(sha, Half(a, 0), Half(b, 0));
        TreeHashDeterminesLeaves(sha, Half(a, 1), Half(b, 1));
        HalvesAgree(a, b);
      }
    }
  }

  lemma HalfInputs(sha: Sha256, d: Leaves, side: bit)
    requires 2 <= |d|
    ensures TreeInputs(sha, Half(d, side)) <= TreeInputs(sha, d)
  {
  }

  lemma HalvesCollisionFree(sha: Sha256, a: Leaves, b: Leaves, side: bit)
    requires 2 <= |a| && 2 <= |b| && CollisionFree(sha, TreeInputs(sha, a) + TreeInputs(sha, b))
    ensures CollisionFree(sha, TreeInputs(sha, Half(a, side)) + TreeInputs(sha, Half(b, side)))
  {
    hide TreeInputs, Half, CollisionFree;
    HalfInputs(sha, a, side);
    HalfInputs(sha, b, side);
    CollisionFreeSubset(sha, TreeInputs(sha, Half(a, side)) + TreeInputs(sha, Half(b, side)),
                        TreeInputs(sha, a) + TreeInputs(sha, b));
  }

  // ----- binding: where a fold lands in the tree -----

  /** The subtree reached from the root by the directions, topmost last; None when the tree ends first. */
  ghost function Descend(d: Leaves, directions: seq<bit>): Option<Leaves>
    decreases |directions|
  {
    var n := |directions|;
    if n == 0 then Some(d)
    else if |d| < 2 then None
    else Descend(Half(d, directions[n - 1]), directions[..n - 1])
  }

  /** The tree hashes beside that descent, from the bottom up. */
  ghost function Beside(sha: Sha256, d: Leaves, directions: seq<bit>): (s: seq<Digest>)
    requires Descend(d, directions).Some?
    ensures |s| == |directions|
    decreases |directions|
  {
    var n := |directions|;
    if n == 0 then []
    else
      var side := directions[n - 1];
      Beside(sha, Half(d, side), directions[..n - 1]) + [TreeHash(sha, Half(d, 1 - side))]
  }

  lemma TopTurn(sha: Sha256, d: Leaves, below: seq<bit>, side: bit)
    requires 2 <= |d|
    ensures Descend(d, below + [side]) == Descend(Half(d, side), below)
    ensures Descend(d, below + [side]).Some? ==>
      Beside(sha, d, below + [side]) == Beside(sha, Half(d, side), below) + [TreeHash(sha, Half(d, 1 - side))]
  {
    assert (below + [side])[..|below|] == below;
  }

  ghost predicate LandsInTree(sha: Sha256, d: Leaves, leaf: Digest, siblings: seq<Digest>, directions: seq<bit>) {
    && Descend(d, directions).Some?
    && leaf == TreeHash(sha, Descend(d, directions).value)
    && siblings == Beside(sha, d, directions)
  }

  lemma LandsTopTurn(sha: Sha256, d: Leaves, leaf: Digest, s: seq<Digest>, b: seq<bit>, sibling: Digest, side: bit)
    requires 2 <= |d| && |s| == |b|
    ensures LandsInTree(sha, d, leaf, s + [sibling], b + [side])
       <==> sibling == TreeHash(sha, Half(d, 1 - side)) && LandsInTree(sha, Half(d, side), leaf, s, b)
  {
    TopTurn(sha, d, b, side);
    if Descend(d, b + [side]).Some? {
      LastElementsAgree(s, sibling, Beside(sha, Half(d, side), b), TreeHash(sha, Half(d, 1 - side)));
    }
  }

  lemma LastElementsAgree<T>(a: seq<T>, x: T, b: seq<T>, y: T)
    ensures a + [x] == b + [y] <==> a == b && x == y
  {
    if a + [x] == b + [y] {
      assert |a| == |b| && (a + [x])[|a|] == (b + [y])[|b|];
      assert a == (a + [x])[..|a|] == (b + [y])[..|b|] == b;
    }
  }

  /** A node's input equals the tree's top input exactly when both children agree. */
  lemma TopLevel(sha: Sha256, d: Leaves, below: Digest, sibling: Digest, side: bit)
    ensures LevelInput(below, sibling, side) == TopInput(sha, d)
       <==> |d| >= 2 && sibling == TreeHash(sha, Half(d, 1 - side)) && below == TreeHash(sha, Half(d, side))
  {
    var top, x := LevelInput(below, sibling, side), TopInput(sha, d);
    assert top[0] == 1;
    if |d| == 1 {
      assert x[0] == 0;
    } else if |d| >= 2 && top == x {
      var k := Split(|d|);
      var left, right := if side == 1 then sibling else below, if side == 1 then below else sibling;
      NodeInputInjective(left, right, TreeHash(sha, d[..k]), TreeHash(sha, d[k..]));
    }
  }

  /** Whatever lies in the tree folds to its hash. */
  lemma {:induction false} LandingFolds(
    sha: Sha256, d: Leaves, leaf: Digest, siblings: seq<Digest>, directions: seq<bit>)
    requires |siblings| == |directions| && LandsInTree(sha, d, leaf, siblings, directions)
    ensures Fold(sha, leaf, siblings, directions) == TreeHash(sha, d)
    decreases |directions|
  {
    var n := |directions|;
    if n > 0 {
      hide TreeHash, Half, LevelInput;
      var s, b, side := siblings[..n - 1], directions[..n - 1], directions[n - 1];
      SplitLast(siblings);
      SplitLast(directions);
      LandsTopTurn(sha, d, leaf, s, b, siblings[n - 1], side);
      LandingFolds(sha, Half(d, side), leaf, s, b);
      TreeTop(sha, d, side);
    }
  }

  ghost predicate Collision(sha: Sha256, x: Bytes, y: Bytes) {
    x != y && sha(x) == sha(y)
  }

  /**
   * A fold that reaches the tree hash either lies in the tree or, walking the levels down, meets a
   * fold input and a tree input that differ and have the same hash.
   */
  lemma {:induction false} LandsOrCollides(
    sha: Sha256, d: Leaves, leaf: Digest, siblings: seq<Digest>, directions: seq<bit>)
    returns (x: Bytes, y: Bytes)
    requires |siblings| == |directions| && Fold(sha, leaf, siblings, directions) == TreeHash(sha, d)
    ensures LandsInTree(sha, d, leaf, siblings, directions)
         || (x in FoldInputs(sha, leaf, siblings, directions) && y in TreeInputs(sha, d) && Collision(sha, x, y)
             && |x| == 65 && (Descend(d, directions).Some? ==> |y| == 65))
    decreases |directions|
  {
    x, y := [], [];
    var n := |directions|;
    if n > 0 {
      hide TreeHash, Half, LandsInTree;
      var s, b, sibling, side := siblings[..n - 1], directions[..n - 1], siblings[n - 1], directions[n - 1];
      SplitLast(siblings);
      SplitLast(directions);
      var below := Fold(sha, leaf, s, b);
      var top, treeTop := LevelInput(below, sibling, side), TopInput(sha, d);
      TopLevel(sha, d, below, sibling, side);
      if top != treeTop {
        x, y := top, treeTop;
      } else {
        x, y := LandsOrCollides(sha, Half(d, side), leaf, s, b);
        LandsTopTurn(sha, d, leaf, s, b, sibling, side);
        HalfInputs(sha, d, side);
      }
    }
  }

  /**
   * So, barring collisions among those inputs, a fold reaches the tree hash exactly when its start
   * is the hash of the subtree its directions lead to, and its siblings lie beside that descent.
   */
  lemma FoldReachesRootIffInTree(sha: Sha256, d: Leaves, leaf: Digest, siblings: seq<Digest>, directions: seq<bit>)
    requires |siblings| == |directions|
    requires CollisionFree(sha, TreeInputs(sha, d) + FoldInputs(sha, leaf, siblings, directions))
    ensures Fold(sha, leaf, siblings, directions) == TreeHash(sha, d)
       <==> LandsInTree(sha, d, leaf, siblings, directions)
  {
    if Fold(sha, leaf, siblings, directions) == TreeHash(sha, d) {
      var x, y := LandsOrCollides(sha, d, leaf, siblings, directions);
    } else if LandsInTree(sha, d, leaf, siblings, directions) {
      LandingFolds(sha, d, leaf, siblings, directions);
    }
  }

  /** The directions of leaf m descend to that leaf alone, beside its audit path. */
  lemma {:induction false} DescendToLeaf(sha: Sha256, m: nat, d: Leaves)
    requires m < |d|
    ensures Descend(d, Directions(m, |d|)) == Some([d[m]])
    ensures Beside(sha, d, Directions(m, |d|)) == Path(sha, m, d)
    decreases |d|
  {
    if |d| == 1 {
      assert d == [d[m]];
    } else {
      var side, i := PathTop(sha, m, d);
      DescendToLeaf(sha, i, Half(d, side));
      TopTurn(sha, d, Directions(i, |Half(d, side)|), side);
    }
  }

  /** In a full tree of 2^k leaves every k directions are those of the leaf they spell. */
  lemma {:induction false} FullTreeDirectionsOfBits(b: seq<bit>)
    ensures FromBits(b) < Pow2(|b|) && Directions(FromBits(b), Pow2(|b|)) == b
  {
    FromBitsBound(b);
    FullTreeDirections(FromBits(b), |b|);
    BitsOfValue(b);
    BitsOfValue(Directions(FromBits(b), Pow2(|b|)));
  }

  lemma LandingInFullTree(sha: Sha256, d: Leaves, leaf: Digest, siblings: seq<Digest>, b: seq<bit>)
    requires |siblings| == |b| && |d| == Pow2(|b|)
    ensures FromBits(b) < |d| && Descend(d, b).Some?
    ensures LandsInTree(sha, d, leaf, siblings, b)
       <==> leaf == sha(LeafInput(d[FromBits(b)])) && siblings == Path(sha, FromBits(b), d)
  {
    FullTreeDirectionsOfBits(b);
    DescendToLeaf(sha, FromBits(b), d);
  }

  /**
   * Full trees: a fold of k levels that reaches the root starts at leaf sum(b_i * 2^i) and runs
   * along its audit path, or yields two different 65-byte inputs with the same hash.
   */
  lemma FullTreeBindsOrCollides(sha: Sha256, d: Leaves, leaf: Digest, siblings: seq<Digest>, b: seq<bit>)
    returns (x: Bytes, y: Bytes)
    requires |siblings| == |b| && |d| == Pow2(|b|) && Fold(sha, leaf, siblings, b) == TreeHash(sha, d)
    ensures FromBits(b) < |d|
    ensures (leaf == sha(LeafInput(d[FromBits(b)])) && siblings == Path(sha, FromBits(b), d))
         || (x in FoldInputs(sha, leaf, siblings, b) && y in TreeInputs(sha, d)
             && |x| == |y| == 65 && Collision(sha, x, y))
  {
    LandingInFullTree(sha, d, leaf, siblings, b);
    x, y := LandsOrCollides(sha, d, leaf, siblings, b);
  }

  // ----- honest audit paths walked with the bits of the index -----

  /** Halves of different sizes have different hashes, so the top of the path says which way it went. */
  lemma TopTurnIsForced(sha: Sha256, m: nat, d: Leaves, below: seq<bit>, side: bit) returns (top: bit, i: nat)
    requires m < |d| && 2 <= |d| != 2 * Split(|d|)
    requires CollisionFree(sha, TreeInputs(sha, Half(d, 0)) + TreeInputs(sha, Half(d, 1)))
    requires Descend(d, below + [side]).Some? && Beside(sha, d, below + [side]) == Path(sha, m, d)
    ensures side == top == if m < Split(|d|) then 0 else 1
    ensures i == if m < Split(|d|) then m else m - Split(|d|)
    ensures i < |Half(d, top)| && Directions(m, |d|) == Directions(i, |Half(d, top)|) + [top]
    ensures Descend(Half(d, top), below).Some? && Beside(sha, Half(d, top), below) == Path(sha, i, Half(d, top))
  {
    top, i := PathTop(sha, m, d);
    TopTurn(sha, d, below, side);
    LastElementsAgree(Beside(sha, Half(d, side), below), TreeHash(sha, Half(d, 1 - side)),
                      Path(sha, i, Half(d, top)), TreeHash(sha, Half(d, 1 - top)));
    if side != top {
      TreeHashDeterminesLeaves(sha, Half(d, 0), Half(d, 1));
    }
  }

  /**
   * Reading the directions off an index g that only agrees with m in the low e bits, |d| <= 2^e:
   * descending by them passes the audit path of m only if they are the directions of m.
   */
  lemma {:induction false} IndexBitsPassingThePath(sha: Sha256, m: nat, d: Leaves, g: int, e: nat, bits: seq<bit>)
    requires m < |d| <= Pow2(e) && ToBits(g, e) == ToBits(m, e) && bits == ToBits(g, |Directions(m, |d|)|)
    requires CollisionFree(sha, TreeInputs(sha, d))
    requires Descend(d, bits).Some? && Beside(sha, d, bits) == Path(sha, m, d)
    ensures bits == Directions(m, |d|)
    decreases |d|
  {
    if |d| > 1 {
      if m < Split(|d|) || |d| == 2 * Split(|d|) {
        LowHalfOrFull(m, |d|, g, e);
      } else {
        var i, j, below := StepDown(sha, m, d, g, e, bits);
        IndexBitsPassingThePath(sha, i, Half(d, 1), g, j, below);
      }
    }
  }

  lemma StepDown(
    sha: Sha256, m: nat, d: Leaves, g: int, e: nat, bits: seq<bit>)
    returns (i: nat, j: nat, below: seq<bit>)
    requires 2 <= |d| != 2 * Split(|d|) && Split(|d|) <= m < |d| <= Pow2(e)
    requires ToBits(g, e) == ToBits(m, e) && bits == ToBits(g, |Directions(m, |d|)|)
    requires CollisionFree(sha, TreeInputs(sha, d))
    requires Descend(d, bits).Some? && Beside(sha, d, bits) == Path(sha, m, d)
    ensures i < |Half(d, 1)| <= Pow2(j) && ToBits(g, j) == ToBits(i, j)
    ensures bits == below + [1] && Directions(m, |d|) == Directions(i, |Half(d, 1)|) + [1]
    ensures below == ToBits(g, |Directions(i, |Half(d, 1)|)|)
    ensures CollisionFree(sha, TreeInputs(sha, Half(d, 1)))
    ensures Descend(Half(d, 1), below).Some? && Beside(sha, Half(d, 1), below) == Path(sha, i, Half(d, 1))
  {
    hide TreeInputs, TreeHash, Path, Beside, Descend, CollisionFree;
    HalfInputs(sha, d, 0);
    HalfInputs(sha, d, 1);
    CollisionFreeSubset(sha, TreeInputs(sha, Half(d, 1)), TreeInputs(sha, d));
    CollisionFreeSubset(sha, TreeInputs(sha, Half(d, 0)) + TreeInputs(sha, Half(d, 1)), TreeInputs(sha, d));
    j := SplitExponent(|d|);
    SplitBelow(|d|, e);
    AgreeBelowSplit(g, m, j, e);
    var _, i' := PathTop(sha, m, d);
    i := i';
    var l := |Directions(i, |Half(d, 1)|)|;
    assert |bits| == l + 1;
    var last := bits[l];
    below := bits[..l];
    SplitLast(bits);
    ToBitsPrefix(g, l, l + 1);
    var _, _ := TopTurnIsForced(sha, m, d, below, last);
  }

  lemma SplitBelow(n: nat, e: nat)
    requires 2 <= n <= Pow2(e)
    ensures SplitExponent(n) < e
  {
    if e <= SplitExponent(n) {
      Pow2Monotone(e, SplitExponent(n));
    }
  }

  lemma SplitLast<T>(s: seq<T>)
    requires |s| > 0
    ensures s == s[..|s| - 1] + [s[|s| - 1]]
  {
  }

  lemma AgreeBelowSplit(g: int, m: int, j: nat, e: nat)
    requires j <= e && ToBits(g, e) == ToBits(m, e)
    ensures ToBits(g, j) == ToBits(m - Pow2(j), j) == ToBits(m, j)
  {
    ToBitsPrefix(g, j, e);
    ToBitsPrefix(m, j, e);
    LowBits(m - Pow2(j), 1, j, j);
  }

  lemma LowHalfOrFull(m: nat, n: nat, g: int, e: nat)
    requires m < n && 2 <= n <= Pow2(e) && ToBits(g, e) == ToBits(m, e)
    requires m < Split(n) || n == 2 * Split(n)
    ensures ToBits(g, |Directions(m, n)|) == Directions(m, n)
  {
    var j, l := SplitExponent(n), |Directions(m, n)|;
    SplitBelow(n, e);
    assert Pow2(j + 1) == 2 * Pow2(j);
    PathLengthBound(m, n, j + 1);
    ToBitsPrefix(g, l, e);
    ToBitsPrefix(m, l, e);
    FullTreesAndLeftHalvesFit(m, n);
    IndexBitsAreDirections(m, n);
  }

  // ----- audit paths longer than the walk -----

  /** The tree under hash l of the audit path. */
  lemma {:induction false} SiblingAt(sha: Sha256, m: nat, d: Leaves, l: nat) returns (x: Leaves)
    requires m < |d| && l < |Directions(m, |d|)|
    ensures |x| == SiblingSizes(m, |d|)[l] && Path(sha, m, d)[l] == TreeHash(sha, x)
    ensures TreeInputs(sha, x) <= TreeInputs(sha, d)
    decreases |d|
  {
    hide TreeHash, TreeInputs, Half;
    var side, i := PathTop(sha, m, d);
    SizesTop(m, d);
    HalfInputs(sha, d, side);
    HalfInputs(sha, d, 1 - side);
    if l + 1 == |Directions(m, |d|)| {
      x := Half(d, 1 - side);
    } else {
      x := SiblingAt(sha, i, Half(d, side), l);
    }
  }

  lemma SizesTop(m: nat, d: Leaves)
    requires m < |d| && 2 <= |d|
    ensures var side: bit, k := if m < Split(|d|) then 0 else 1, Split(|d|);
      && (if side == 0 then m else m - k) < |Half(d, side)|
      && SiblingSizes(m, |d|) == SiblingSizes(if side == 0 then m else m - k, |Half(d, side)|) + [|Half(d, 1 - side)|]
  {
  }

  /** The top of a descent that passes the lowest hashes of an audit path. */
  lemma PrefixTop(sha: Sha256, path: seq<Digest>, d: Leaves, bits: seq<bit>)
    requires 2 <= |d| && 0 < |bits| <= |path|
    requires Descend(d, bits).Some? && Beside(sha, d, bits) == path[..|bits|]
    ensures var k, turn := |bits| - 1, bits[|bits| - 1];
      && path[k] == TreeHash(sha, Half(d, 1 - turn))
      && Descend(Half(d, turn), bits[..k]).Some? && Beside(sha, Half(d, turn), bits[..k]) == path[..k]
  {
    hide TreeHash, Half, Descend, Beside;
    var k, turn := |bits| - 1, bits[|bits| - 1];
    SplitLast(bits);
    TopTurn(sha, d, bits[..k], turn);
    assert path[..|bits|] == path[..k] + [path[k]];
    LastElementsAgree(Beside(sha, Half(d, turn), bits[..k]), TreeHash(sha, Half(d, 1 - turn)), path[..k], path[k]);
  }

  /** A sibling from below the top is smaller than the half it lies in, so it is the other half or none. */
  lemma LowSiblingIsOtherHalf(sha: Sha256, m: nat, d: Leaves, l: nat, turn: bit) returns (side: bit, i: nat)
    requires m < |d| && l + 1 < |Directions(m, |d|)| && CollisionFree(sha, TreeInputs(sha, d))
    requires 2 <= |d| && Path(sha, m, d)[l] == TreeHash(sha, Half(d, 1 - turn))
    ensures i < |Half(d, side)| && side == turn
    ensures Path(sha, m, d) == Path(sha, i, Half(d, side)) + [TreeHash(sha, Half(d, 1 - side))]
    ensures SiblingSizes(m, |d|) == SiblingSizes(i, |Half(d, side)|) + [|Half(d, 1 - side)|]
    ensures SiblingSizes(m, |d|)[l] == |Half(d, 1 - side)|
  {
    hide TreeHash, TreeInputs, Half, Path, SiblingSizes, CollisionFree;
    side, i := PathTop(sha, m, d);
    SizesTop(m, d);
    var x := SiblingAt(sha, m, d, l);
    HalfInputs(sha, d, 1 - turn);
    CollisionFreeSubset(sha, TreeInputs(sha, x) + TreeInputs(sha, Half(d, 1 - turn)), TreeInputs(sha, d));
    TreeHashDeterminesLeaves(sha, x, Half(d, 1 - turn));
    SiblingSizesBelow(i, |Half(d, side)|);
  }

  ghost predicate RepeatsLast(s: seq<nat>, k: nat) {
    k + 1 < |s| && s[k] == s[|s| - 1]
  }

  /** So the last two sizes cannot both be repeated from further down. */
  lemma OneRepeatOnly(s: seq<nat>, below: seq<nat>, top: nat, k: nat, e: nat)
    requires s == below + [top] && GrowsExceptAt(s, e) && k > 0
    ensures !(RepeatsLast(s, k) && RepeatsLast(below, k - 1))
  {
    if RepeatsLast(s, k) {
      assert s[k - 1] == below[k - 1] && s[|s| - 2] == below[|below| - 1];
    }
  }

  /** A descent passing the lowest hashes of a longer audit path turns at the top as the path does. */
  lemma PrefixTopTurn(sha: Sha256, m: nat, d: Leaves, bits: seq<bit>) returns (side: bit, i: nat)
    requires m < |d| && 0 < |bits| < |Directions(m, |d|)| && CollisionFree(sha, TreeInputs(sha, d))
    requires Descend(d, bits).Some? && Beside(sha, d, bits) == Path(sha, m, d)[..|bits|]
    ensures 2 <= |d| && i < |Half(d, side)|
    ensures SiblingSizes(m, |d|) == SiblingSizes(i, |Half(d, side)|) + [|Half(d, 1 - side)|]
    ensures RepeatsLast(SiblingSizes(m, |d|), |bits| - 1)
    ensures CollisionFree(sha, TreeInputs(sha, Half(d, side)))
    ensures var below := bits[..|bits| - 1];
      Descend(Half(d, side), below).Some? && Beside(sha, Half(d, side), below) == Path(sha, i, Half(d, side))[..|below|]
  {
    hide TreeHash, TreeInputs, Half, Path, SiblingSizes, CollisionFree, Descend, Beside;
    var k := |bits| - 1;
    PrefixTop(sha, Path(sha, m, d), d, bits);
    side, i := LowSiblingIsOtherHalf(sha, m, d, k, bits[k]);
    HalfInputs(sha, d, side);
    CollisionFreeSubset(sha, TreeInputs(sha, Half(d, side)), TreeInputs(sha, d));
    assert Path(sha, m, d)[..k] == Path(sha, i, Half(d, side))[..k];
  }

  /** Two or more levels of a longer audit path lead nowhere in the tree. */
  lemma LongerPathNeverLands(sha: Sha256, m: nat, d: Leaves, bits: seq<bit>)
    requires m < |d| && 2 <= |bits| < |Directions(m, |d|)| && CollisionFree(sha, TreeInputs(sha, d))
    ensures !(Descend(d, bits).Some? && Beside(sha, d, bits) == Path(sha, m, d)[..|bits|])
  {
    if Descend(d, bits).Some? && Beside(sha, d, bits) == Path(sha, m, d)[..|bits|] {
      hide TreeHash, TreeInputs, Half, Path, SiblingSizes, CollisionFree, Descend, Beside, GrowsExceptAt, RepeatsLast;
      var k := |bits| - 1;
      var side, i := PrefixTopTurn(sha, m, d, bits);
      var _, _ := PrefixTopTurn(sha, i, Half(d, side), bits[..k]);
      var e := SiblingSizesGrow(m, |d|);
      OneRepeatOnly(SiblingSizes(m, |d|), SiblingSizes(i, |Half(d, side)|), |Half(d, 1 - side)|, k, e);
    }
  }

  /** A walk by the bits of m along the audit path of leaf m starts, if it reaches the root, at that leaf. */
  lemma WalkStartsAtItsLeaf(sha: Sha256, leaf: Digest, m: nat, d: Leaves)
    requires m < |d|
    requires var path := Path(sha, m, d);
      var bits := ToBits(m, |path|);
      && Fold(sha, leaf, path, bits) == TreeHash(sha, d)
      && CollisionFree(sha, TreeInputs(sha, d) + FoldInputs(sha, leaf, path, bits))
    ensures leaf == sha(LeafInput(d[m])) && IndexFitsPath(m, |d|)
  {
    var bits := ToBits(m, |Path(sha, m, d)|);
    FoldReachesRootIffInTree(sha, d, leaf, Path(sha, m, d), bits);
    SizeBelowPow2(|d|);
    CollisionFreeSubset(sha, TreeInputs(sha, d), TreeInputs(sha, d) + FoldInputs(sha, leaf, Path(sha, m, d), bits));
    IndexBitsPassingThePath(sha, m, d, m, |d|, bits);
    IndexBitsAreDirections(m, |d|);
    DescendToLeaf(sha, m, d);
  }

  /**
   * A walk by the bits of m along the lowest n hashes of the audit path of leaf m, all of them or at
   * least two, reaches the root only if it is the whole path, starts at that leaf, and m fits.
   */
  lemma WalkIsTheWholePath(sha: Sha256, leaf: Digest, m: nat, d: Leaves, n: nat)
    requires m < |d| && n <= |Path(sha, m, d)| && (n == |Path(sha, m, d)| || 2 <= n)
    requires Fold(sha, leaf, Path(sha, m, d)[..n], ToBits(m, n)) == TreeHash(sha, d)
    requires CollisionFree(sha, TreeInputs(sha, d) + FoldInputs(sha, leaf, Path(sha, m, d)[..n], ToBits(m, n)))
    ensures n == |Path(sha, m, d)| && leaf == sha(LeafInput(d[m])) && IndexFitsPath(m, |d|)
  {
    hide Path, TreeInputs, FoldInputs, CollisionFree, TreeHash;
    var path, bits := Path(sha, m, d), ToBits(m, n);
    if n == |path| {
      assert path[..n] == path;
      WalkStartsAtItsLeaf(sha, leaf, m, d);
    } else {
      FoldReachesRootIffInTree(sha, d, leaf, path[..n], bits);
      CollisionFreeSubset(sha, TreeInputs(sha, d), TreeInputs(sha, d) + FoldInputs(sha, leaf, path[..n], bits));
      LongerPathNeverLands(sha, m, d, bits);
    }
  }

  /** The honest audit path of leaf m, walked with the bits of m. */
  ghost function WalkedByIndex(sha: Sha256, m: nat, d: Leaves): Digest
    requires m < |d|
  {
    Fold(sha, sha(LeafInput(d[m])), Path(sha, m, d), ToBits(m, |Path(sha, m, d)|))
  }

  ghost function WalkInputs(sha: Sha256, m: nat, d: Leaves): set<Bytes>
    requires m < |d|
  {
    FoldInputs(sha, sha(LeafInput(d[m])), Path(sha, m, d), ToBits(m, |Path(sha, m, d)|))
  }

  lemma FittingIndexReachesRoot(sha: Sha256, m: nat, d: Leaves)
    requires m < |d| && IndexFitsPath(m, |d|)
    ensures WalkedByIndex(sha, m, d) == TreeHash(sha, d)
  {
    IndexBitsAreDirections(m, |d|);
    PathFoldsToTreeHash(sha, m, d);
  }

  /** The walk reaches the tree hash exactly when m is below 2^(number of aunts). */
  lemma HonestPathExact(sha: Sha256, m: nat, d: Leaves)
    requires m < |d|
    requires CollisionFree(sha, TreeInputs(sha, d) + WalkInputs(sha, m, d))
    ensures WalkedByIndex(sha, m, d) == TreeHash(sha, d) <==> IndexFitsPath(m, |d|)
  {
    if IndexFitsPath(m, |d|) {
      FittingIndexReachesRoot(sha, m, d);
    }
    if WalkedByIndex(sha, m, d) == TreeHash(sha, d) {
      WalkStartsAtItsLeaf(sha, sha(LeafInput(d[m])), m, d);
    }
  }

  lemma {:induction false} SizeBelowPow2(n: nat)
    ensures n <= Pow2(n)
  {
    if n > 0 {
      SizeBelowPow2(n - 1);
    }
  }
}
