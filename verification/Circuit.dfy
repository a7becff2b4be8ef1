/** `ZkBridgeCircuit`: the masked 32-round circuit against the plain fold. */
module Circuit {
  import opened Words
  import opened Field
  import opened Merkle
  import Packing

  const DEPTH: nat := 32

  /** Field values for the circuit's public and private inputs. */
  datatype Assignment = Assignment(
    packedRoot: seq<nat>,
    packedTxHash: seq<nat>,
    proofPath: seq<seq<nat>>,
    proofHelper: seq<nat>,
    actualDepth: nat)

  ghost predicate InField(p: nat, w: Assignment) {
    && |w.packedRoot| == |w.packedTxHash| == 4
    && |w.proofPath| == |w.proofHelper| == DEPTH
    && w.actualDepth < p
    && (forall i :: 0 <= i < 4 ==> w.packedRoot[i] < p && w.packedTxHash[i] < p)
    && (forall i :: 0 <= i < DEPTH ==> w.proofHelper[i] < p && RowInField(p, w.proofPath[i]))
  }

  ghost predicate RowInField(p: nat, row: seq<nat>) {
    |row| == 32 && forall j :: 0 <= j < 32 ==> row[j] < p
  }

  predicate IsByteRow(row: seq<nat>) {
    |row| == 32 && forall j :: 0 <= j < 32 ==> row[j] < 256
  }

  function AsDigest(row: seq<nat>): (d: Digest)
    requires IsByteRow(row)
    ensures d == row
  {
    row
  }

  function ActiveLevels(depth: nat): nat {
    if depth < DEPTH then depth else DEPTH
  }

  ghost predicate ByteValued(w: Assignment) {
    && |w.proofPath| == DEPTH
    && forall i :: 0 <= i < ActiveLevels(w.actualDepth) ==> IsByteRow(w.proofPath[i])
  }

  function Siblings(w: Assignment, n: nat): (s: seq<Digest>)
    requires n <= |w.proofPath|
    requires forall i :: 0 <= i < n ==> IsByteRow(w.proofPath[i])
    ensures |s| == n
  {
    seq(n, i requires 0 <= i < n => AsDigest(w.proofPath[i]))
  }

  ghost predicate AllBits(b: seq<nat>) {
    forall i :: 0 <= i < |b| ==> b[i] < 2
  }

  /** Shapes the compiled circuit fixes, with boolean helpers and byte rows at active levels. */
  ghost predicate WellFormed(w: Assignment) {
    && |w.packedRoot| == |w.packedTxHash| == 4
    && |w.proofHelper| == DEPTH && AllBits(w.proofHelper)
    && ByteValued(w)
  }

  function RootValue(w: Assignment): Digest
    requires |w.packedRoot| == 4
  {
    Packing.Unpack(w.packedRoot)
  }

  function LeafValue(w: Assignment): Digest
    requires |w.packedTxHash| == 4
  {
    Packing.Unpack(w.packedTxHash)
  }

  function ActivePath(w: Assignment): (s: seq<Digest>)
    requires WellFormed(w)
    ensures |s| == ActiveLevels(w.actualDepth)
  {
    Siblings(w, ActiveLevels(w.actualDepth))
  }

  function ActiveBits(w: Assignment): (b: seq<bit>)
    requires WellFormed(w)
    ensures |b| == ActiveLevels(w.actualDepth)
  {
    w.proofHelper[..ActiveLevels(w.actualDepth)]
  }

  /** The circuit's meaning: folding the active levels from the packed leaf gives the packed root. */
  ghost predicate Accepts(sha: Sha256, w: Assignment) {
    && WellFormed(w)
    && Packing.AreWords(w.packedRoot)
    && Packing.AreWords(w.packedTxHash)
    && Fold(sha, LeafValue(w), ActivePath(w), ActiveBits(w)) == RootValue(w)
  }

  // ----- unpack -----

  function JoinWords(w: seq<nat>, i: nat): (b: Bytes)
    requires i <= |w|
    ensures |b| == 8 * i
  {
    if i == 0 then [] else JoinWords(w, i - 1) + Packing.UnpackWord(w[i - 1])
  }

  lemma JoinFourWords(w: seq<nat>)
    requires |w| == 4
    ensures JoinWords(w, 4) == Packing.Unpack(w)
  {
    assert JoinWords(w, 1) == Packing.UnpackWord(w[0]);
    assert JoinWords(w, 3) == JoinWords(w, 2) + Packing.UnpackWord(w[2]);
  }

  lemma ByteSumBelowModulus(p: nat, bits: seq<bit>)
    requires 256 <= p && |bits| == 8
    ensures FromBinary(p, bits) == FromBits(bits)
  {
    WeightedSumOfBits(bits);
    FromBitsBound(bits);
    assert Pow2(8) == 256;
    SmallModulo(FromBits(bits), p);
  }

  lemma SliceOfRest(bits: seq<bit>, lo: nat)
    requires lo + 16 <= |bits|
    ensures bits[8..][lo..lo + 8] == bits[lo + 8..lo + 16]
  {
  }

  /** Byte k of a word counts from the low end of its bits, so from the high end of its bytes. */
  lemma {:induction false} ByteFromBits(bits: seq<bit>, n: nat, k: nat)
    requires |bits| == 8 * n && k < n
    ensures Packing.BytesOfBits(bits)[n - 1 - k] == FromBits(bits[8 * k..8 * k + 8])
  {
    if k > 0 {
      ByteFromBits(bits[8..], n - 1, k - 1);
      SliceOfRest(bits, 8 * (k - 1));
    }
  }

  /** The inner loop of `unpack`: the bytes of one word, from the top eight bits down. */
  method WordBytes(p: nat, bits: seq<bit>) returns (bytes: seq<nat>)
    requires 256 <= p && |bits| == 64
    ensures bytes == Packing.BytesOfBits(bits)
  {
    hide Packing.BytesOfBits, FromBinary;
    ghost var word := Packing.BytesOfBits(bits);
    bytes := [];
    for j := 8 downto 0
      invariant bytes == word[..8 - j]
    {
      var start := j * 8;
      ByteFromBits(bits, 8, j);
      ByteSumBelowModulus(p, bits[start..start + 8]);
      bytes := bytes + [FromBinary(p, bits[start..start + 8])];
    }
    assert word[..8] == word;
  }

  method Unpack(p: nat, packed: seq<nat>) returns (satisfied: bool, res: seq<nat>)
    requires PrimeModulus(p) && U64 < p
    requires |packed| == 4 && forall i :: 0 <= i < 4 ==> packed[i] < p
    ensures satisfied <==> Packing.AreWords(packed)
    ensures satisfied ==> res == Packing.Unpack(packed)
  {
    hide Packing.BytesOfBits, PrimeModulus, Packing.Unpack, FromBinary;
    res := [];
    Pow2Of64();
    for i := 0 to 4
      invariant forall k :: 0 <= k < i ==> packed[k] < U64
      invariant res == JoinWords(packed, i)
    {
      var ok, bits := ToBinary(p, packed[i], 64);
      if !ok {
        return false, [];
      }
      var bytes := WordBytes(p, bits);
      res := res + bytes;
    }
    JoinFourWords(packed);
    satisfied := true;
  }

  // ----- Define -----

  /** The SHA-256 gadget on wires: the digest, or None when its own constraints cannot be met. */
  type Gadget = seq<nat> -> Option<Digest>

  /** On bytes it is SHA-256; on other wires it may do anything. */
  ghost predicate Computes(gadget: Gadget, sha: Sha256) {
    forall input: Bytes :: gadget(input) == Some(sha(input))
  }

  /** It checks that its wires are bytes. */
  ghost predicate ChecksBytes(gadget: Gadget) {
    forall input: seq<nat> :: gadget(input).Some? ==> forall j :: 0 <= j < |input| ==> input[j] < 256
  }

  function WireInput(current: Digest, row: seq<nat>, direction: nat): seq<nat> {
    [1] + if direction == 1 then row + current else current + row
  }

  /** The plain fold over the first n levels, on wires. */
  function WireFold(gadget: Gadget, w: Assignment, leaf: Digest, n: nat): Option<Digest>
    requires n <= |w.proofPath| && n <= |w.proofHelper|
  {
    if n == 0 then Some(leaf)
    else
      match WireFold(gadget, w, leaf, n - 1)
      case None => None
      case Some(current) => gadget(WireInput(current, w.proofPath[n - 1], w.proofHelper[n - 1]))
  }

  /** What the constraints say of any field elements: the plain fold of the active levels, on wires. */
  ghost predicate Satisfies(gadget: Gadget, w: Assignment) {
    && |w.packedRoot| == |w.packedTxHash| == 4
    && |w.proofPath| == |w.proofHelper| == DEPTH && AllBits(w.proofHelper)
    && Packing.AreWords(w.packedRoot)
    && Packing.AreWords(w.packedTxHash)
    && WireFold(gadget, w, LeafValue(w), ActiveLevels(w.actualDepth)) == Some(RootValue(w))
  }

  lemma WireInputOfBytes(current: Digest, row: Digest, direction: bit)
    ensures WireInput(current, row, direction) == LevelInput(current, row, direction)
  {
  }

  lemma FoldOneMore(sha: Sha256, w: Assignment, leaf: Digest, n: nat)
    requires n < |w.proofPath| && n < |w.proofHelper|
    requires forall i :: 0 <= i <= n ==> IsByteRow(w.proofPath[i]) && w.proofHelper[i] < 2
    ensures Fold(sha, leaf, Siblings(w, n + 1), w.proofHelper[..n + 1])
         == sha(LevelInput(Fold(sha, leaf, Siblings(w, n), w.proofHelper[..n]), w.proofPath[n], w.proofHelper[n]))
  {
    hide LevelInput, Fold;
    assert Siblings(w, n + 1) == Siblings(w, n) + [AsDigest(w.proofPath[n])];
    assert w.proofHelper[..n + 1] == w.proofHelper[..n] + [w.proofHelper[n]];
    FoldSnoc(sha, leaf, Siblings(w, n), w.proofHelper[..n], AsDigest(w.proofPath[n]), w.proofHelper[n]);
  }

  lemma {:induction false} WireFoldOfBytes(gadget: Gadget, sha: Sha256, w: Assignment, leaf: Digest, n: nat)
    requires Computes(gadget, sha) && n <= |w.proofPath| && n <= |w.proofHelper|
    requires forall i :: 0 <= i < n ==> IsByteRow(w.proofPath[i]) && w.proofHelper[i] < 2
    ensures WireFold(gadget, w, leaf, n) == Some(Fold(sha, leaf, Siblings(w, n), w.proofHelper[..n]))
    decreases n, leaf
  {
    if n > 0 {
      hide LevelInput, WireInput, Siblings;
      WireFoldOfBytes(gadget, sha, w, leaf, n - 1);
      FoldOneMore(sha, w, leaf, n - 1);
      var current := Fold(sha, leaf, Siblings(w, n - 1), w.proofHelper[..n - 1]);
      WireInputOfBytes(current, w.proofPath[n - 1], w.proofHelper[n - 1]);
    } else {
      assert Siblings(w, 0) == [] && w.proofHelper[..0] == [];
    }
  }

  /** A row in a folded level that is no byte row leaves no digest when the gadget checks its wires. */
  lemma {:induction false} CheckedRowsAreBytes(gadget: Gadget, w: Assignment, leaf: Digest, n: nat, i: nat)
    requires ChecksBytes(gadget) && i < n <= |w.proofPath| && n <= |w.proofHelper| && |w.proofPath[i]| == 32
    requires WireFold(gadget, w, leaf, n).Some?
    ensures IsByteRow(w.proofPath[i])
    decreases n, leaf
  {
    if i < n - 1 {
      CheckedRowsAreBytes(gadget, w, leaf, n - 1, i);
    } else {
      var current, row, direction := WireFold(gadget, w, leaf, i).value, w.proofPath[i], w.proofHelper[i];
      var input := WireInput(current, row, direction);
      var start := if direction == 1 then 1 else 33;
      assert forall j :: 0 <= j < 32 ==> input[start + j] == row[j];
    }
  }

  /** On byte rows, or with a gadget that checks its wires, this is the fold of SHA-256. */
  lemma SatisfiesIsAccepts(gadget: Gadget, sha: Sha256, w: Assignment)
    requires Computes(gadget, sha) && |w.proofPath| == DEPTH && forall i :: 0 <= i < DEPTH ==> |w.proofPath[i]| == 32
    requires ByteValued(w) || ChecksBytes(gadget)
    ensures Satisfies(gadget, w) <==> Accepts(sha, w)
  {
    hide Packing.Unpack, ChecksBytes, Computes, IsByteRow, WireFold;
    var n := ActiveLevels(w.actualDepth);
    if Satisfies(gadget, w) && !ByteValued(w) {
      forall i: nat | i < n
        ensures IsByteRow(w.proofPath[i])
      {
        CheckedRowsAreBytes(gadget, w, LeafValue(w), n, i);
      }
    }
    if WellFormed(w) {
      WireFoldOfBytes(gadget, sha, w, LeafValue(w), n);
    }
  }

  /** The two children of a round, as `Select` lays them out: zeros when the round is inactive. */
  method SelectChildren(
    p: nat, isActive: bit, helper: bit, path: seq<nat>, current: seq<nat>)
    returns (left: array<nat>, right: array<nat>)
    requires U64 < p && RowInField(p, path) && IsByteRow(current)
    ensures fresh(left) && fresh(right)
    ensures isActive == 0 ==> left[..] == right[..] == seq(32, _ => 0)
    ensures isActive == 1 ==> left[..] == if helper == 1 then path else current
    ensures isActive == 1 ==> right[..] == if helper == 1 then current else path
  {
    left := new nat[32];
    right := new nat[32];
    for j := 0 to 32
      invariant forall k :: 0 <= k < j ==>
        left[k] == if isActive == 0 then 0 else if helper == 1 then path[k] else current[k]
      invariant forall k :: 0 <= k < j ==>
        right[k] == if isActive == 0 then 0 else if helper == 1 then current[k] else path[k]
    {
      left[j] := Select(p, helper, path[j], current[j]);
      right[j] := Select(p, helper, current[j], path[j]);
      left[j] := Select(p, isActive, left[j], 0);
      right[j] := Select(p, isActive, right[j], 0);
    }
  }

  /** Byte by byte and in place, the result of the round if it is active. */
  method Overwrite(p: nat, isActive: bit, res: Digest, currentHash: array<nat>)
    requires U64 < p && currentHash.Length == 32 && IsByteRow(currentHash[..])
    modifies currentHash
    ensures currentHash[..] == if isActive == 1 then res else old(currentHash[..])
  {
    for j := 0 to 32
      invariant forall k :: 0 <= k < j ==> currentHash[k] == if isActive == 1 then res[k] else old(currentHash[k])
      invariant forall k :: j <= k < 32 ==> currentHash[k] == old(currentHash[k])
    {
      assert currentHash[j] == old(currentHash[..])[j];
      currentHash[j] := Select(p, isActive, res[j], currentHash[j]);
    }
  }

  /** One round: hash with the sibling, or hash zeros and keep the current hash. */
  method Round(
    p: nat, gadget: Gadget, ghost sha: Sha256, isActive: bit, helper: bit, path: seq<nat>, currentHash: array<nat>)
    returns (ok: bool)
    requires U64 < p && RowInField(p, path) && Computes(gadget, sha)
    requires currentHash.Length == 32 && IsByteRow(currentHash[..])
    modifies currentHash
    ensures isActive == 0 ==> ok && currentHash[..] == old(currentHash[..])
    ensures isActive == 1 ==>
      var out := gadget(WireInput(AsDigest(old(currentHash[..])), path, helper));
      ok == out.Some? && (ok ==> currentHash[..] == out.value)
  {
    var prefix := Select(p, isActive, 1, 0);
    var left, right := SelectChildren(p, isActive, helper, path, currentHash[..]);
    var input := [prefix] + left[..] + right[..];
    if isActive == 0 {
      ZerosHash(gadget, sha, input);
    } else {
      assert input == WireInput(AsDigest(currentHash[..]), path, helper);
    }
    var res := gadget(input);
    ok := res.Some?;
    if ok {
      Overwrite(p, isActive, res.value, currentHash);
    }
  }

  lemma ZerosHash(gadget: Gadget, sha: Sha256, input: seq<nat>)
    requires Computes(gadget, sha) && forall j :: 0 <= j < |input| ==> input[j] == 0
    ensures gadget(input).Some?
  {
    var bytes: Bytes := input;
    assert gadget(bytes) == Some(sha(bytes));
  }

  method Load(bytes: seq<nat>) returns (a: array<nat>)
    ensures fresh(a) && a[..] == bytes
  {
    a := new nat[|bytes|];
    for j := 0 to |bytes|
      invariant a[..j] == bytes[..j]
    {
      a[j] := bytes[j];
    }
  }

  method AssertEqualBytes(a: seq<nat>, b: seq<nat>) returns (equal: bool)
    requires |a| == |b|
    ensures equal <==> a == b
  {
    equal := true;
    for j := 0 to |a|
      invariant equal <==> a[..j] == b[..j]
    {
      equal := equal && a[j] == b[j];
    }
    assert a[..|a|] == a && b[..|b|] == b;
  }

  /** Evaluating every constraint of `Define`, always through all 32 rounds. */
  method Define(p: nat, gadget: Gadget, ghost sha: Sha256, w: Assignment) returns (satisfied: bool)
    requires PrimeModulus(p) && U64 < p && InField(p, w) && Computes(gadget, sha)
    ensures satisfied <==> Satisfies(gadget, w)
    ensures ByteValued(w) || ChecksBytes(gadget) ==> (satisfied <==> Accepts(sha, w))
  {
    hide Packing.Unpack, BooleanConstraint, WireInput, Computes, ChecksBytes, Accepts, ByteValued;
    if ByteValued(w) || ChecksBytes(gadget) {
      SatisfiesIsAccepts(gadget, sha, w);
    }
    var rootOk, rootBytes := Unpack(p, w.packedRoot);
    var txOk, txHashBytes := Unpack(p, w.packedTxHash);
    if !rootOk || !txOk {
      return false;
    }
    var currentHash := Load(txHashBytes);
    var folded := RunRounds(p, gadget, sha, w, Packing.Unpack(w.packedTxHash), currentHash);
    if !folded {
      return false;
    }
    satisfied := AssertEqualBytes(currentHash[..], rootBytes);
  }

  /** The 32 rounds, overwriting the running hash in place. */
  method RunRounds(
    p: nat, gadget: Gadget, ghost sha: Sha256, w: Assignment, ghost leaf: Digest, currentHash: array<nat>)
    returns (ok: bool)
    requires PrimeModulus(p) && U64 < p && InField(p, w) && Computes(gadget, sha)
    requires currentHash.Length == 32 && currentHash[..] == leaf
    modifies currentHash
    ensures ok <==> AllBits(w.proofHelper) && WireFold(gadget, w, leaf, ActiveLevels(w.actualDepth)).Some?
    ensures ok ==> Some(currentHash[..]) == WireFold(gadget, w, leaf, ActiveLevels(w.actualDepth))
  {
    hide BooleanConstraint, WireInput, Computes;
    ghost var active := ActiveLevels(w.actualDepth);
    for i := 0 to DEPTH
      invariant forall k :: 0 <= k < i ==> w.proofHelper[k] < 2
      invariant Some(currentHash[..]) == WireFold(gadget, w, leaf, if i < active then i else active)
    {
      BooleanConstraintExact(p, w.proofHelper[i]);
      if !BooleanConstraint(p, w.proofHelper[i]) {
        return false;
      }
      var isActive := IsLess(i, w.actualDepth);
      var ok' := Round(p, gadget, sha, isActive, w.proofHelper[i], w.proofPath[i], currentHash);
      if !ok' {
        WireFoldStops(gadget, w, leaf, i + 1, active);
        return false;
      }
    }
    ok := true;
  }

  lemma {:induction false} WireFoldStops(gadget: Gadget, w: Assignment, leaf: Digest, i: nat, n: nat)
    requires i <= n <= |w.proofPath| && n <= |w.proofHelper| && WireFold(gadget, w, leaf, i) == None
    ensures WireFold(gadget, w, leaf, n) == None
    decreases n - i
  {
    if i < n {
      WireFoldStops(gadget, w, leaf, i + 1, n);
    }
  }
}
