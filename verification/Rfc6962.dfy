/** The recursive hash tree of RFC 6962 and its audit paths, against the circuit's bottom-up bit walk. */
module Rfc6962 {
  import opened Words
  import opened Merkle

  type Leaves = seq<Bytes>

  lemma {:induction false} SplitExponentExists(n: nat)
    requires 2 <= n
    ensures exists j: nat :: Pow2(j) < n <= 2 * Pow2(j)
  {
    if n == 2 {
      assert Pow2(0) < n <= 2 * Pow2(0);
    } else {
      SplitExponentExists((n + 1) / 2);
      var j: nat :| Pow2(j) < (n + 1) / 2 <= 2 * Pow2(j);
      assert Pow2(j + 1) < n <= 2 * Pow2(j + 1);
    }
  }

  /** The exponent of the largest power of two below n. */
  ghost function SplitExponent(n: nat): (j: nat)
    requires 2 <= n
    ensures Pow2(j) < n <= 2 * Pow2(j)
  {
    SplitExponentExists(n);
    var j: nat :| Pow2(j) < n <= 2 * Pow2(j);
    j
  }

  /** It is the only one. */
  lemma SplitExponentIs(n: nat, j: nat)
    requires Pow2(j) < n <= 2 * Pow2(j)
    ensures 2 <= n && SplitExponent(n) == j
  {
    var i := SplitExponent(n);
    if i < j {
      Pow2Monotone(i, j);
    } else if j < i {
      Pow2Monotone(j, i);
    }
  }

  ghost function Split(n: nat): (k: nat)
    requires 2 <= n
    ensures 0 < k < n <= 2 * k
  {
    Pow2(SplitExponent(n))
  }

  function LeafInput(data: Bytes): Bytes {
    [0] + data
  }

  /** Merkle Tree Hash, section 2.1. */
  ghost function TreeHash(sha: Sha256, d: Leaves): Digest
    decreases |d|
  {
    if |d| == 0 then sha([])
    else if |d| == 1 then sha(LeafInput(d[0]))
    else
      var k := Split(|d|);
      Node(sha, TreeHash(sha, d[..k]), TreeHash(sha, d[k..]))
  }

  /** Merkle audit path, section 2.1.1: siblings from the leaf up. */
  ghost function Path(sha: Sha256, m: nat, d: Leaves): (s: seq<Digest>)
    requires m < |d|
    ensures |s| == |Directions(m, |d|)|
    decreases |d|
  {
    if |d| == 1 then []
    else
      var k := Split(|d|);
      if m < k then Path(sha, m, d[..k]) + [TreeHash(sha, d[k..])]
      else Path(sha, m - k, d[k..]) + [TreeHash(sha, d[..k])]
  }

  /** The side of each node on that path: 1 where it is the right child. */
  ghost function Directions(m: nat, n: nat): seq<bit>
    requires m < n
    decreases n
  {
    if n == 1 then []
    else
      var k := Split(n);
      if m < k then Directions(m, k) + [0] else Directions(m - k, n - k) + [1]
  }

  /** The number of leaves under each hash of that path. */
  ghost function SiblingSizes(m: nat, n: nat): (s: seq<nat>)
    requires m < n
    ensures |s| == |Directions(m, n)|
    decreases n
  {
    if n == 1 then []
    else
      var k := Split(n);
      if m < k then SiblingSizes(m, k) + [n - k] else SiblingSizes(m - k, n - k) + [k]
  }

  ghost function Half(d: Leaves, side: bit): (h: Leaves)
    requires 2 <= |d|
    ensures 0 < |h| < |d|
  {
    if side == 1 then d[Split(|d|)..] else d[..Split(|d|)]
  }

  /** The top of the audit path: the half the leaf is in, its index there, and the other half's hash. */
  lemma PathTop(sha: Sha256, m: nat, d: Leaves) returns (side: bit, i: nat)
    requires m < |d| && 2 <= |d|
    ensures side == if m < Split(|d|) then 0 else 1
    ensures i == if m < Split(|d|) then m else m - Split(|d|)
    ensures i < |Half(d, side)| && Half(d, side)[i] == d[m]
    ensures Directions(m, |d|) == Directions(i, |Half(d, side)|) + [side]
    ensures Path(sha, m, d) == Path(sha, i, Half(d, side)) + [TreeHash(sha, Half(d, 1 - side))]
  {
    side := if m < Split(|d|) then 0 else 1;
    i := if m < Split(|d|) then m else m - Split(|d|);
  }

  lemma TreeTop(sha: Sha256, d: Leaves, side: bit)
    requires 2 <= |d|
    ensures TreeHash(sha, d) == sha(LevelInput(TreeHash(sha, Half(d, side)), TreeHash(sha, Half(d, 1 - side)), side))
  {
  }

  /** Folding the audit path with its own directions rebuilds the tree hash. */
  lemma {:induction false} PathFoldsToTreeHash(sha: Sha256, m: nat, d: Leaves)
    requires m < |d|
    ensures Fold(sha, sha(LeafInput(d[m])), Path(sha, m, d), Directions(m, |d|)) == TreeHash(sha, d)
    decreases |d|
  {
    if |d| > 1 {
      hide Path, Directions, TreeHash, Fold, Half;
      var side, i := PathTop(sha, m, d);
      var h := Half(d, side);
      PathFoldsToTreeHash(sha, i, h);
      FoldSnoc(sha, sha(LeafInput(d[m])), Path(sha, i, h), Directions(i, |h|), TreeHash(sha, Half(d, 1 - side)), side);
      TreeTop(sha, d, side);
    }
  }

  // ----- which leaf indices the bits of the index serve -----

  lemma SplitOfPow2(j: nat)
    ensures 2 <= Pow2(j + 1) && SplitExponent(Pow2(j + 1)) == j
  {
    SplitExponentIs(Pow2(j + 1), j);
  }

  /** In a full tree of 2^j leaves the path has length j and its directions spell the index. */
  lemma {:induction false} FullTreeDirections(m: nat, j: nat)
    requires m < Pow2(j)
    ensures |Directions(m, Pow2(j))| == j && FromBits(Directions(m, Pow2(j))) == m
  {
    if j > 0 {
      SplitOfPow2(j - 1);
      var k := Pow2(j - 1);
      var below := if m < k then m else m - k;
      FullTreeDirections(below, j - 1);
      FromBitsSnoc(Directions(below, k), if m < k then 0 else 1);
    }
  }

  /** A path is never longer than the exponent of a power of two at or above the tree size. */
  lemma {:induction false} PathLengthBound(m: nat, n: nat, j: nat)
    requires m < n <= Pow2(j)
    ensures |Directions(m, n)| <= j
    decreases n
  {
    if n > 1 {
      var e := SplitExponent(n);
      if j <= e {
        Pow2Monotone(j, e);
      }
      if m < Pow2(e) {
        FullTreeDirections(m, e);
      } else {
        PathLengthBound(m - Pow2(e), n - Pow2(e), e);
      }
    }
  }

  /** Every right turn at a node with split 2^j happens at level j above the leaf. */
  ghost predicate RightTurnsAtSplitLevel(m: nat, n: nat)
    requires m < n
    decreases n
  {
    n == 1 ||
    var j := SplitExponent(n);
    var k := Pow2(j);
    if m < k then RightTurnsAtSplitLevel(m, k)
    else |Directions(m - k, n - k)| == j && RightTurnsAtSplitLevel(m - k, n - k)
  }

  lemma {:induction false} FullTreeTurns(m: nat, j: nat)
    requires m < Pow2(j)
    ensures RightTurnsAtSplitLevel(m, Pow2(j))
  {
    if j > 0 {
      SplitOfPow2(j - 1);
      if m < Pow2(j - 1) {
        FullTreeTurns(m, j - 1);
      } else {
        FullTreeTurns(m - Pow2(j - 1), j - 1);
        FullTreeDirections(m - Pow2(j - 1), j - 1);
      }
    }
  }

  /** The index fits the path: shifting it once per aunt leaves nothing. */
  ghost predicate IndexFitsPath(m: nat, n: nat)
    requires m < n
  {
    m < Pow2(|Directions(m, n)|)
  }

  /** A right turn on a path its index fits has a full-length path below it. */
  lemma FittingRightTurn(m: nat, n: nat)
    requires 2 <= n && m < n && IndexFitsPath(m, n) && Split(n) <= m
    ensures |Directions(m - Split(n), n - Split(n))| == SplitExponent(n)
    ensures IndexFitsPath(m - Split(n), n - Split(n))
  {
    var j, l := SplitExponent(n), |Directions(m - Split(n), n - Split(n))|;
    PathLengthBound(m - Split(n), n - Split(n), j);
    if l < j {
      Pow2Monotone(l + 1, j);
    }
  }

  lemma LeftIndexIsSpelled(m: nat, n: nat)
    requires 2 <= n && m < Split(n)
    ensures FromBits(Directions(m, n)) == m && RightTurnsAtSplitLevel(m, n)
  {
    hide FromBits;
    var j := SplitExponent(n);
    FullTreeDirections(m, j);
    FullTreeTurns(m, j);
    FromBitsSnoc(Directions(m, Pow2(j)), 0);
  }

  lemma RightIndexIsSpelled(m: nat, n: nat)
    requires 2 <= n && Split(n) <= m < n && |Directions(m - Split(n), n - Split(n))| == SplitExponent(n)
    requires FromBits(Directions(m - Split(n), n - Split(n))) == m - Split(n)
    requires RightTurnsAtSplitLevel(m - Split(n), n - Split(n))
    ensures FromBits(Directions(m, n)) == m && RightTurnsAtSplitLevel(m, n)
  {
    hide FromBits;
    FromBitsSnoc(Directions(m - Split(n), n - Split(n)), 1);
  }

  lemma {:induction false} FittingIndexIsSpelled(m: nat, n: nat)
    requires m < n && IndexFitsPath(m, n)
    ensures FromBits(Directions(m, n)) == m && RightTurnsAtSplitLevel(m, n)
    decreases n
  {
    if n > 1 {
      hide FromBits, Directions, RightTurnsAtSplitLevel, IndexFitsPath;
      if m < Split(n) {
        LeftIndexIsSpelled(m, n);
      } else {
        FittingRightTurn(m, n);
        FittingIndexIsSpelled(m - Split(n), n - Split(n));
        RightIndexIsSpelled(m, n);
      }
    }
  }

  lemma {:induction false} TurnsImplyFit(m: nat, n: nat)
    requires m < n && RightTurnsAtSplitLevel(m, n)
    ensures IndexFitsPath(m, n)
    decreases n
  {
    if n > 1 {
      var j := SplitExponent(n);
      if m < Pow2(j) {
        FullTreeDirections(m, j);
      }
    }
  }

  /** A number below 2^l does not spell l bits with a 1 on top. */
  lemma SmallNumberHasNoTopBit(r: nat, below: seq<bit>)
    requires r < Pow2(|below|)
    ensures ToBits(r, |below| + 1) != below + [1]
  {
    var l := |below|;
    Pow2Monotone(l, l + 1);
    ValueOfBits(r, l + 1);
    FromBitsSnoc(below, 1);
  }

  lemma {:induction false} AgreementImpliesFit(m: nat, n: nat)
    requires m < n && ToBits(m, |Directions(m, n)|) == Directions(m, n)
    ensures IndexFitsPath(m, n)
    decreases n
  {
    if n > 1 {
      var j := SplitExponent(n);
      if m < Pow2(j) {
        FullTreeDirections(m, j);
      } else {
        var r := m - Pow2(j);
        var below := Directions(r, n - Pow2(j));
        assert Directions(m, n) == below + [1];
        PathLengthBound(r, n - Pow2(j), j);
        if |below| < j {
          // The bits of m and of r agree below j, so r would spell both `below` and `below + [1]`.
          BelowAgrees(m, r, j, below);
          AgreementImpliesFit(r, n - Pow2(j));
          SmallNumberHasNoTopBit(r, below);
        }
      }
    }
  }

  lemma BelowAgrees(m: nat, r: nat, j: nat, below: seq<bit>)
    requires m == r + Pow2(j) && |below| < j
    requires ToBits(m, |below| + 1) == below + [1]
    ensures ToBits(r, |below| + 1) == below + [1] && ToBits(r, |below|) == below
  {
    LowBits(r, 1, j, |below| + 1);
    ToBitsPrefix(r, |below|, |below| + 1);
    assert (below + [1])[..|below|] == below;
  }

  /**
   * The directions read off the low bits of the index are the audit path's exactly when the
   * index is below 2^(number of aunts), which is exactly when every right turn at a node with
   * split 2^j is taken at level j.
   */
  lemma IndexBitsAreDirections(m: nat, n: nat)
    requires m < n
    ensures ToBits(m, |Directions(m, n)|) == Directions(m, n) <==> IndexFitsPath(m, n)
    ensures IndexFitsPath(m, n) <==> RightTurnsAtSplitLevel(m, n)
  {
    if IndexFitsPath(m, n) {
      FittingIndexIsSpelled(m, n);
      BitsOfValue(Directions(m, n));
    }
    if RightTurnsAtSplitLevel(m, n) {
      TurnsImplyFit(m, n);
    }
    if ToBits(m, |Directions(m, n)|) == Directions(m, n) {
      AgreementImpliesFit(m, n);
    }
  }

  /** Every index of a full tree fits, and so does every index left of the top split. */
  lemma FullTreesAndLeftHalvesFit(m: nat, n: nat)
    requires m < n
    ensures 1 < n && m < Split(n) ==> IndexFitsPath(m, n)
    ensures forall j: nat :: n == Pow2(j) ==> IndexFitsPath(m, n)
  {
    if 1 < n && m < Split(n) {
      FullTreeDirections(m, SplitExponent(n));
    }
    forall j: nat | n == Pow2(j)
      ensures IndexFitsPath(m, n)
    {
      FullTreeDirections(m, j);
    }
  }

  /** The third of three leaves has one aunt and index 2: the walk goes left where the path goes right. */
  lemma ThirdOfThreeDisagrees()
    ensures Directions(2, 3) == [1] && ToBits(2, 1) == [0] && !IndexFitsPath(2, 3)
  {
    assert Pow2(1) == 2;
    SplitExponentIs(3, 1);
    assert Directions(0, 1) == [];
  }

  // ----- the sizes beside a path -----

  lemma {:induction false} SiblingSizesBelow(m: nat, n: nat)
    requires m < n
    ensures forall i :: 0 <= i < |SiblingSizes(m, n)| ==> 0 < SiblingSizes(m, n)[i] < n
    decreases n
  {
    if n > 1 {
      var k := Split(n);
      if m < k {
        SiblingSizesBelow(m, k);
      } else {
        SiblingSizesBelow(m - k, n - k);
      }
    }
  }

  ghost predicate GrowsExceptAt(s: seq<nat>, e: nat) {
    forall i, j :: 0 <= i < j < |s| && j != e ==> s[i] < s[j]
  }

  lemma {:induction false} FullTreeSizesGrow(m: nat, j: nat)
    requires m < Pow2(j)
    ensures |SiblingSizes(m, Pow2(j))| == j && GrowsExceptAt(SiblingSizes(m, Pow2(j)), j)
  {
    if j > 0 {
      SplitOfPow2(j - 1);
      var k := Pow2(j - 1);
      var below := if m < k then m else m - k;
      FullTreeSizesGrow(below, j - 1);
      SiblingSizesBelow(below, k);
    }
  }

  /** Every subtree beside a path is larger than all those below it, with one exception at most. */
  lemma {:induction false} SiblingSizesGrow(m: nat, n: nat) returns (e: nat)
    requires m < n
    ensures GrowsExceptAt(SiblingSizes(m, n), e)
    decreases n
  {
    e := 0;
    if n > 1 {
      var j := SplitExponent(n);
      var k := Pow2(j);
      if m < k {
        FullTreeSizesGrow(m, j);
        e := j;
      } else {
        e := SiblingSizesGrow(m - k, n - k);
        SiblingSizesBelow(m - k, n - k);
      }
    }
  }
}
