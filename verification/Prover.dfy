/** Building the circuit witness from the RPC response, and what the circuit then proves. */
module Prover {
  import opened Words
  import opened Merkle
  import opened Rfc6962
  import opened Inclusion
  import opened Circuit
  import opened Rpc
  import opened Text
  import Packing

  datatype BuildOutcome = Built(assignment: Assignment, root: Digest, tx: Digest) | RootMissing | Crash

  /** The transaction hash the response reports, in order of preference. */
  function TmHash(r: TxResponse): string {
    if r.resultHash != "" then r.resultHash else if r.hash != "" then r.hash else r.txHash
  }

  function LeafHashString(r: TxResponse): string {
    if r.leafHash != "" then r.leafHash else TmHash(r)
  }

  /** The index starts as 0, and scanning an empty or malformed string leaves it so. */
  function Index(r: TxResponse): int {
    ScanInt(r.index)
  }

  /** Decoding errors are ignored: `copy` from no bytes leaves the 32 zeros. */
  function HashOrZeros(s: string): Digest {
    if DecodeHash(s).Some? then DecodeHash(s).value else Zeros(32)
  }

  predicate AuntsDecode(aunts: seq<string>, n: nat)
    requires n <= |aunts|
  {
    forall i :: 0 <= i < n ==> DecodeHash(aunts[i]).Some?
  }

  function Row(aunts: seq<string>, n: nat, i: nat): (row: seq<nat>)
    requires n <= |aunts| && AuntsDecode(aunts, n)
  {
    if i < n then DecodeHash(aunts[i]).value else Zeros(32)
  }

  function Rows(aunts: seq<string>, n: nat): (rows: seq<seq<nat>>)
    requires n <= |aunts| && AuntsDecode(aunts, n)
    ensures |rows| == DEPTH
  {
    seq(DEPTH, i requires 0 <= i < DEPTH => Row(aunts, n, i))
  }

  function Helpers(index: int, n: nat): (h: seq<nat>)
    requires n <= DEPTH
    ensures |h| == DEPTH
  {
    ToBits(index, n) + Zeros(DEPTH - n)
  }

  /** The witness: the packed root and leaf, the first 32 aunts and the index bits, and the number of aunts. */
  function Witness(r: TxResponse): BuildOutcome {
    var n := ActiveLevels(|r.aunts|);
    if r.rootHash == "" then RootMissing
    else if !AuntsDecode(r.aunts, n) then Crash
    else
      var root, tx := HashOrZeros(r.rootHash), HashOrZeros(LeafHashString(r));
      var rows, helpers := Rows(r.aunts, n), Helpers(Index(r), n);
      Built(Assignment(Packing.Pack(root), Packing.Pack(tx), rows, helpers, |r.aunts|), root, tx)
  }

  /** `binary.BigEndian.Uint64` on each eight bytes. */
  method PackWords(d: Digest) returns (packed: seq<nat>)
    ensures packed == Packing.Pack(d)
  {
    var words := new nat[4];
    for i := 0 to 4
      invariant words[..i] == Packing.Pack(d)[..i]
    {
      words[i] := BigEndian(d[i * 8..(i + 1) * 8]);
    }
    packed := words[..];
  }

  /** The path loop: rows and helper bits start as zeros and are overwritten level by level. */
  method FillPath(aunts: seq<string>, index0: int) returns (crashed: bool, path: seq<seq<nat>>, helper: seq<nat>)
    ensures var n := ActiveLevels(|aunts|);
      && crashed == !AuntsDecode(aunts, n)
      && (!crashed ==> path == Rows(aunts, n) && helper == Helpers(index0, n))
  {
    hide DecodeHash;
    var proofHelper := new nat[DEPTH](_ => 0);
    var proofPath := new seq<nat>[DEPTH](_ => Zeros(32));
    var depth, index := |aunts|, index0;
    var i := 0;
    ghost var n := ActiveLevels(depth);
    while i < depth && i < DEPTH
      invariant 0 <= i <= n
      invariant AuntsDecode(aunts, i)
      invariant forall k :: 0 <= k < i ==> proofPath[k] == DecodeHash(aunts[k]).value
      invariant forall k :: i <= k < DEPTH ==> proofPath[k] == Zeros(32)
      invariant proofHelper[..] == HelpersSoFar(index0, n, i)
      invariant index == Shifted(index0, i)
    {
      var siblingBytes := DecodeHash(aunts[i]);
      if siblingBytes == None {
        return true, [], [];
      }
      proofPath[i] := siblingBytes.value;
      HelpersStep(index0, n, i);
      proofHelper[i] := index % 2;
      index := index / 2;
      i := i + 1;
    }
    crashed, path, helper := false, proofPath[..], proofHelper[..];
  }

  /** The index after i shifts by one. */
  function Shifted(index: int, i: nat): int {
    if i == 0 then index else Shifted(index, i - 1) / 2
  }

  function HelpersSoFar(index: int, n: nat, i: nat): (h: seq<nat>)
    requires i <= n <= DEPTH
    ensures |h| == DEPTH
  {
    ToBits(index, i) + Zeros(DEPTH - i)
  }

  lemma {:induction false} NextBit(index: int, i: nat)
    ensures ToBits(index, i + 1) == ToBits(index, i) + [Shifted(index, i) % 2]
    decreases i
  {
    if i > 0 {
      NextBit(index / 2, i - 1);
      ShiftedInside(index, i);
    }
  }

  lemma {:induction false} ShiftedInside(index: int, i: nat)
    requires i > 0
    ensures Shifted(index, i) == Shifted(index / 2, i - 1)
  {
    if i > 1 {
      ShiftedInside(index, i - 1);
    }
  }

  lemma HelpersStep(index: int, n: nat, i: nat)
    requires i < n <= DEPTH
    ensures HelpersSoFar(index, n, i)[i := Shifted(index, i) % 2] == HelpersSoFar(index, n, i + 1)
  {
    NextBit(index, i);
  }

  /** The witness-building part of `GenerateProof`. */
  method BuildWitness(r: TxResponse) returns (out: BuildOutcome)
    ensures out == Witness(r)
  {
    if r.rootHash == "" {
      return RootMissing;
    }
    var root := HashOrZeros(r.rootHash);
    var tx := HashOrZeros(LeafHashString(r));
    var packedRoot := PackWords(root);
    var packedTxHash := PackWords(tx);
    var index := if r.index != "" then ScanInt(r.index) else 0;
    var crashed, proofPath, proofHelper := FillPath(r.aunts, index);
    if crashed {
      return Crash;
    }
    out := Built(Assignment(packedRoot, packedTxHash, proofPath, proofHelper, |r.aunts|), root, tx);
  }

  // ----- what the circuit accepts -----

  lemma HelpersAreBits(index: int, n: nat)
    requires n <= DEPTH
    ensures AllBits(Helpers(index, n)) && Helpers(index, n)[..n] == ToBits(index, n)
  {
  }

  lemma RowsAreByteRows(aunts: seq<string>, n: nat)
    requires n <= |aunts| && AuntsDecode(aunts, n)
    ensures forall i :: 0 <= i < DEPTH ==> IsByteRow(Rows(aunts, n)[i])
  {
    forall i | 0 <= i < DEPTH
      ensures IsByteRow(Rows(aunts, n)[i])
    {
      assert Rows(aunts, n)[i] == Row(aunts, n, i);
    }
  }

  /** A witness that was built is well-formed: its bits are the index's, its path the decoded aunts. */
  lemma BuiltIsWellFormed(r: TxResponse)
    requires Witness(r).Built?
    ensures var w := Witness(r).assignment;
      && WellFormed(w) && Packing.AreWords(w.packedRoot) && Packing.AreWords(w.packedTxHash)
      && RootValue(w) == Witness(r).root && LeafValue(w) == Witness(r).tx
      && ActiveBits(w) == ToBits(Index(r), ActiveLevels(|r.aunts|))
      && forall i :: 0 <= i < ActiveLevels(|r.aunts|) ==> Some(ActivePath(w)[i]) == DecodeHash(r.aunts[i])
  {
    var n, w := ActiveLevels(|r.aunts|), Witness(r).assignment;
    HelpersAreBits(Index(r), n);
    RowsAreByteRows(r.aunts, n);
    Packing.UnpackInvertsPack(Witness(r).root);
    Packing.UnpackInvertsPack(Witness(r).tx);
    assert w.proofPath == Rows(r.aunts, n) && w.proofHelper == Helpers(Index(r), n);
    forall i | 0 <= i < n
      ensures Some(ActivePath(w)[i]) == DecodeHash(r.aunts[i])
    {
      assert Rows(r.aunts, n)[i] == Row(r.aunts, n, i);
    }
  }

  // ----- what is built, field by field -----

  /** What a string that should be a hash is taken for: the hash if it decodes, else 32 zeros. */
  ghost predicate TakenFor(s: string, d: Digest) {
    (exists h: Digest :: DecodeHash(s) == Some(h) && d == h) || (DecodeHash(s) == None && d == seq(32, _ => 0))
  }

  /** The string the leaf is read from: the leaf hash, or the first hash the response names. */
  ghost predicate LeafComesFrom(r: TxResponse, s: string) {
    || (r.leafHash != "" && s == r.leafHash)
    || (r.leafHash == "" && r.resultHash != "" && s == r.resultHash)
    || (r.leafHash == "" && r.resultHash == "" && r.hash != "" && s == r.hash)
    || (r.leafHash == "" && r.resultHash == "" && r.hash == "" && s == r.txHash)
  }

  /** Exactly when a witness is built, what its root and leaf are, and how the builder ends otherwise. */
  lemma BuiltFromFields(r: TxResponse, s: string)
    requires LeafComesFrom(r, s)
    ensures Witness(r) == RootMissing <==> r.rootHash == ""
    ensures Witness(r) == Crash <==>
      r.rootHash != "" && exists i :: 0 <= i < |r.aunts| && i < 32 && DecodeHash(r.aunts[i]) == None
    ensures Witness(r).Built? ==> TakenFor(r.rootHash, Witness(r).root) && TakenFor(s, Witness(r).tx)
  {
    hide DecodeHash;
    var n := ActiveLevels(|r.aunts|);
    if !AuntsDecode(r.aunts, n) {
      var i :| 0 <= i < n && DecodeHash(r.aunts[i]).None?;
      assert i < 32 && DecodeHash(r.aunts[i]) == None;
    }
    TakenForOrZeros(r.rootHash);
    TakenForOrZeros(s);
  }

  lemma TakenForOrZeros(s: string)
    ensures TakenFor(s, HashOrZeros(s))
  {
    hide DecodeHash;
    if DecodeHash(s).Some? {
      assert DecodeHash(s) == Some(HashOrZeros(s));
    }
  }

  /** At the levels no aunt fills, the path is zeros and the helpers are too. */
  lemma EmptyLevelsAreZero(r: TxResponse, i: nat)
    requires Witness(r).Built? && |r.aunts| <= i < 32
    ensures Witness(r).assignment.proofPath[i] == seq(32, _ => 0) && Witness(r).assignment.proofHelper[i] == 0
    ensures Witness(r).assignment.actualDepth == |r.aunts|
  {
    hide DecodeHash;
    var n := ActiveLevels(|r.aunts|);
    assert Rows(r.aunts, n)[i] == Row(r.aunts, n, i);
    assert Zeros(DEPTH - n)[i - n] == 0;
  }

  /** Without a leaf hash the leaf is the hash of the result. */
  lemma LeafFromResultHash(r: TxResponse, d: Digest)
    requires Witness(r).Built? && r.leafHash == "" && Lower(r.resultHash) == HexEncode(d)
    ensures Witness(r).tx == d
  {
    hide DecodeHash, Witness, HexEncode, Lower;
    RootIsNotEmpty(r.resultHash, d);
    DecodeHashOfHex(r.resultHash, d);
    BuiltFromFields(r, r.resultHash);
  }

  /**
   * The response of a correct node for leaf m of the tree d: the root in hex, the index as the
   * decimal of an int64, and the leaf hash and the audit path each in base64 or hex.
   */
  ghost predicate HonestResponse(sha: Sha256, r: TxResponse, d: Leaves, m: nat)
    requires m < |d|
  {
    && IsInt64(m) && r.index == DecimalString(m)
    && Lower(r.rootHash) == HexEncode(TreeHash(sha, d))
    && Spells(r.leafHash, sha(LeafInput(d[m])))
    && |r.aunts| == |Path(sha, m, d)|
    && forall i :: 0 <= i < |r.aunts| ==> Spells(r.aunts[i], Path(sha, m, d)[i])
  }

  predicate AllReadable(s: seq<string>) {
    forall i :: 0 <= i < |s| ==> Readable(s[i])
  }

  lemma SpellingIsNotEmpty(s: string, d: Digest)
    requires Spells(s, d)
    ensures s != ""
  {
  }

  lemma HonestStrings(sha: Sha256, r: TxResponse, d: Leaves, m: nat)
    requires m < |d| && HonestResponse(sha, r, d, m)
    ensures r.rootHash != "" && HashOrZeros(r.rootHash) == TreeHash(sha, d)
    ensures HashOrZeros(LeafHashString(r)) == if Readable(r.leafHash) then sha(LeafInput(d[m])) else Zeros(32)
    ensures forall i :: 0 <= i < |r.aunts| ==>
      DecodeHash(r.aunts[i]) == if Readable(r.aunts[i]) then Some(Path(sha, m, d)[i]) else None
    ensures Index(r) == m && |r.aunts| == |Path(sha, m, d)|
  {
    hide Spells, Readable, DecodeHash, TreeHash, Path;
    DecodeHashOfHex(r.rootHash, TreeHash(sha, d));
    RootIsNotEmpty(r.rootHash, TreeHash(sha, d));
    SpellingIsNotEmpty(r.leafHash, sha(LeafInput(d[m])));
    SpellingDecodes(r.leafHash, sha(LeafInput(d[m])));
    forall i | 0 <= i < |r.aunts|
      ensures DecodeHash(r.aunts[i]) == if Readable(r.aunts[i]) then Some(Path(sha, m, d)[i]) else None
    {
      SpellingDecodes(r.aunts[i], Path(sha, m, d)[i]);
    }
    ScanIntOfDecimal(m);
  }

  lemma RootIsNotEmpty(s: string, d: Digest)
    requires Lower(s) == HexEncode(d)
    ensures s != ""
  {
  }

  /** An aunt among the first 32 that is base64 beginning "0x" crashes the builder, and nothing else does. */
  lemma HonestWitnessBuilt(sha: Sha256, r: TxResponse, d: Leaves, m: nat)
    requires m < |d| && HonestResponse(sha, r, d, m)
    ensures |r.aunts| == |Path(sha, m, d)|
    ensures !AllReadable(r.aunts[..ActiveLevels(|r.aunts|)]) ==> Witness(r) == Crash
    ensures AllReadable(r.aunts[..ActiveLevels(|r.aunts|)]) ==> Witness(r).Built?
  {
    hide DecodeHash, HonestResponse, Readable, HashOrZeros;
    HonestStrings(sha, r, d, m);
    var n := ActiveLevels(|r.aunts|);
    assert forall i :: 0 <= i < n ==> r.aunts[..n][i] == r.aunts[i];
  }

  /** A leaf hash whose base64 begins "0x" becomes 32 zeros; all else is as the node meant it. */
  lemma HonestWitnessShape(sha: Sha256, r: TxResponse, d: Leaves, m: nat)
    requires m < |d| && HonestResponse(sha, r, d, m) && Witness(r).Built?
    ensures Witness(r).root == TreeHash(sha, d)
    ensures Witness(r).tx == if Readable(r.leafHash) then sha(LeafInput(d[m])) else Zeros(32)
    ensures WellFormed(Witness(r).assignment)
    ensures var n := ActiveLevels(|r.aunts|);
      && ActivePath(Witness(r).assignment) == Path(sha, m, d)[..n]
      && ActiveBits(Witness(r).assignment) == ToBits(m, n)
  {
    hide DecodeHash, HonestResponse, Readable, HashOrZeros, Path, TreeHash, WellFormed, ActivePath, ActiveBits,
      Spells;
    HonestStrings(sha, r, d, m);
    BuiltIsWellFormed(r);
    BuiltFrom(r);
    PathOfRows(Witness(r).assignment, r.aunts, Path(sha, m, d));
  }

  lemma BuiltFrom(r: TxResponse)
    requires Witness(r).Built?
    ensures Witness(r).root == HashOrZeros(r.rootHash) && Witness(r).tx == HashOrZeros(LeafHashString(r))
    ensures AuntsDecode(r.aunts, ActiveLevels(|r.aunts|)) && Witness(r).assignment.actualDepth == |r.aunts|
  {
  }

  lemma PathOfRows(w: Assignment, aunts: seq<string>, path: seq<Digest>)
    requires WellFormed(w) && w.actualDepth == |aunts| == |path|
    requires forall i :: 0 <= i < ActiveLevels(|aunts|) ==>
      Some(ActivePath(w)[i]) == DecodeHash(aunts[i]) && DecodeHash(aunts[i]) in {None, Some(path[i])}
    ensures ActivePath(w) == path[..ActiveLevels(|aunts|)]
  {
    hide DecodeHash, ActivePath, WellFormed;
  }

  /** The circuit runs the walk by index bits along the first 32 hashes of the path, nothing else. */
  lemma HonestWitnessWalksPath(sha: Sha256, r: TxResponse, d: Leaves, m: nat)
    requires m < |d| && HonestResponse(sha, r, d, m) && Witness(r).Built?
    ensures var n := ActiveLevels(|r.aunts|);
      && n <= |Path(sha, m, d)|
      && (Accepts(sha, Witness(r).assignment)
          <==> Fold(sha, Witness(r).tx, Path(sha, m, d)[..n], ToBits(m, n)) == TreeHash(sha, d))
  {
    HonestWitnessShape(sha, r, d, m);
    BuiltIsWellFormed(r);
    var n := ActiveLevels(|r.aunts|);
    AcceptsWhenFolds(sha, Witness(r).assignment, Witness(r).tx, Path(sha, m, d)[..n], ToBits(m, n), TreeHash(sha, d));
  }

  lemma AcceptsWhenFolds(sha: Sha256, w: Assignment, leaf: Digest, path: seq<Digest>, bits: seq<bit>, root: Digest)
    requires WellFormed(w) && Packing.AreWords(w.packedRoot) && Packing.AreWords(w.packedTxHash)
    requires RootValue(w) == root && LeafValue(w) == leaf && ActivePath(w) == path && ActiveBits(w) == bits
    ensures Accepts(sha, w) <==> Fold(sha, leaf, path, bits) == root
  {
  }

  /** A path within the circuit, an index below 2^(number of aunts), and no hash that cannot be read. */
  ghost predicate Relays(r: TxResponse, m: nat) {
    && |r.aunts| <= 32 && m < Pow2(|r.aunts|)
    && Readable(r.leafHash) && AllReadable(r.aunts)
  }

  /** Completeness: such an honest response gives a witness the circuit accepts. */
  lemma HonestWitnessAccepted(sha: Sha256, r: TxResponse, d: Leaves, m: nat)
    requires m < |d| && HonestResponse(sha, r, d, m) && Relays(r, m)
    ensures Witness(r).Built? && Accepts(sha, Witness(r).assignment)
    ensures Witness(r).root == TreeHash(sha, d) && Witness(r).tx == sha(LeafInput(d[m]))
  {
    hide HonestResponse, Readable, Accepts, Witness, Path, TreeHash;
    HonestWitnessBuilt(sha, r, d, m);
    HonestWitnessShape(sha, r, d, m);
    HonestWitnessWalksPath(sha, r, d, m);
    FittingIndexReachesRoot(sha, m, d);
    assert Path(sha, m, d)[..|r.aunts|] == Path(sha, m, d);
  }

  /** Trees of up to 2^32 leaves have paths within the circuit's 32 levels. */
  lemma PathsFitCircuit(m: nat, n: nat)
    requires m < n <= Pow2(DEPTH)
    ensures |Directions(m, n)| <= DEPTH
  {
    PathLengthBound(m, n, DEPTH);
  }

  /** Every input the circuit hashes at an active level, and every input the tree hash needs. */
  ghost function BindingInputs(sha: Sha256, w: Assignment, d: Leaves): set<Bytes>
    requires WellFormed(w)
  {
    TreeInputs(sha, d) + FoldInputs(sha, LeafValue(w), ActivePath(w), ActiveBits(w))
  }

  ghost predicate NoWitnessCollision(sha: Sha256, r: TxResponse, d: Leaves) {
    Witness(r).Built? ==>
      WellFormed(Witness(r).assignment) && CollisionFree(sha, BindingInputs(sha, Witness(r).assignment, d))
  }

  /** A witness for an honest response that the circuit accepts starts at the leaf, along its whole path. */
  lemma AcceptedHonestWitness(sha: Sha256, r: TxResponse, d: Leaves, m: nat)
    requires m < |d| && HonestResponse(sha, r, d, m) && Witness(r).Built? && Accepts(sha, Witness(r).assignment)
    requires CollisionFree(sha, BindingInputs(sha, Witness(r).assignment, d))
    ensures |r.aunts| <= DEPTH && m < Pow2(|r.aunts|) && Witness(r).tx == sha(LeafInput(d[m]))
  {
    hide Path, TreeInputs, FoldInputs, Witness, Accepts, CollisionFree, HonestResponse, WellFormed, ActivePath,
      ActiveBits;
    BuiltIsWellFormed(r);
    HonestWitnessBuilt(sha, r, d, m);
    HonestWitnessShape(sha, r, d, m);
    HonestWitnessWalksPath(sha, r, d, m);
    WalkIsTheWholePath(sha, Witness(r).tx, m, d, ActiveLevels(|r.aunts|));
  }

  /**
   * The exact domain: barring a collision among the inputs hashed, an honest response gives a
   * witness the circuit accepts exactly when its path has at most 32 levels, its index is below
   * 2^(number of aunts), and neither the leaf hash nor an aunt is base64 beginning "0x".
   */
  lemma HonestWitnessExact(sha: Sha256, r: TxResponse, d: Leaves, m: nat)
    requires m < |d| && HonestResponse(sha, r, d, m)
    requires NoWitnessCollision(sha, r, d)
    ensures Witness(r).Built? && Accepts(sha, Witness(r).assignment) <==> Relays(r, m)
  {
    hide Accepts, Witness, CollisionFree;
    if Relays(r, m) {
      HonestWitnessAccepted(sha, r, d, m);
    }
    if Witness(r).Built? && Accepts(sha, Witness(r).assignment) {
      AcceptedHonestWitness(sha, r, d, m);
      HonestWitnessShape(sha, r, d, m);
      HonestWitnessBuilt(sha, r, d, m);
      SpellingDecodes(r.leafHash, sha(LeafInput(d[m])));
      assert r.aunts[..|r.aunts|] == r.aunts;
    }
  }

  /** An honest response about the only leaf of a tree. */
  lemma OneLeafIsHonest(sha: Sha256, r: TxResponse, hash: Digest)
    requires sha(LeafInput([])) == hash && Lower(r.rootHash) == HexEncode(hash) && Spells(r.leafHash, hash)
    requires r.aunts == [] && r.index == DecimalString(0)
    ensures HonestResponse(sha, r, [[]], 0) && Path(sha, 0, [[]]) == [] && TreeHash(sha, [[]]) == hash
  {
    hide Spells, Lower, HexEncode, DecimalString;
  }

  /** A leaf with the hash D3 10 00 ..., alone in its tree: the index fits, yet the witness is rejected. */
  lemma UnreadableLeafFails() returns (sha: Sha256, r: TxResponse, d: Leaves)
    ensures d == [[]] && HonestResponse(sha, r, d, 0) && |r.aunts| == 0 && 0 < Pow2(|r.aunts|)
    ensures Witness(r).Built? && !Accepts(sha, Witness(r).assignment)
  {
    var hash: Digest := [0xD3, 0x10] + Zeros(30);
    sha, d := _ => hash, [[]];
    r := TxResponse("", "", "", [], [], [], HexEncode(hash), Base64Encode(hash), [], DecimalString(0));
    LowerHex(hash);
    Base64StartsWith0x(hash);
    OneLeafIsHonest(sha, r, hash);
    HonestWitnessBuilt(sha, r, d, 0);
    HonestWitnessShape(sha, r, d, 0);
    HonestWitnessWalksPath(sha, r, d, 0);
    assert Zeros(32)[0] != hash[0];
  }

  /**
   * Binding: a witness whose root is the hash of tree d is accepted exactly when its leaf value is
   * the hash of the subtree of d its helper bits lead to, and its path is what lies beside it.
   */
  lemma AcceptedIffInTree(sha: Sha256, w: Assignment, d: Leaves)
    requires WellFormed(w) && Packing.AreWords(w.packedRoot) && Packing.AreWords(w.packedTxHash)
    requires RootValue(w) == TreeHash(sha, d) && CollisionFree(sha, BindingInputs(sha, w, d))
    ensures Accepts(sha, w) <==> LandsInTree(sha, d, LeafValue(w), ActivePath(w), ActiveBits(w))
  {
    FoldReachesRootIffInTree(sha, d, LeafValue(w), ActivePath(w), ActiveBits(w));
  }

  /**
   * In a full tree as deep as the witness that subtree is the leaf at index sum(helper_i * 2^i);
   * failing that, the levels hold two different 65-byte inputs with the same hash.
   */
  lemma AcceptedInFullTree(sha: Sha256, w: Assignment, d: Leaves) returns (x: Bytes, y: Bytes)
    requires Accepts(sha, w) && RootValue(w) == TreeHash(sha, d) && |d| == Pow2(|ActiveBits(w)|)
    ensures FromBits(ActiveBits(w)) < |d|
    ensures (LeafValue(w) == sha(LeafInput(d[FromBits(ActiveBits(w))]))
             && ActivePath(w) == Path(sha, FromBits(ActiveBits(w)), d))
         || (x in FoldInputs(sha, LeafValue(w), ActivePath(w), ActiveBits(w)) && y in TreeInputs(sha, d)
             && |x| == |y| == 65 && Collision(sha, x, y))
  {
    x, y := FullTreeBindsOrCollides(sha, d, LeafValue(w), ActivePath(w), ActiveBits(w));
  }
}
