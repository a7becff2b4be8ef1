/** `BridgeDestination`: minting against proofs, once per transaction hash. */
module Destination {
  import opened Words
  import opened Source
  import opened ProofWords
  import opened Sums
  import Packing

  /** `verifyProof` returning rather than reverting, on its four arguments. */
  type Verifier = (seq<nat>, seq<nat>, seq<nat>, seq<nat>) -> bool

  datatype BridgeMinted = BridgeMinted(recipient: Address, amount: Uint256, txHash: Digest)

  datatype MintCall = MintCall(words: MintWords, root: Digest, lockTxHash: Digest, recipient: Address, amount: Uint256)

  datatype DestState = DestState(
    trustedBlockRoot: Digest,
    processedTxs: set<Digest>,
    balances: map<Address, nat>,
    totalSupply: nat,
    minted: seq<BridgeMinted>)

  function Deployed(initialRoot: Digest): DestState {
    DestState(initialRoot, {}, map[], 0, [])
  }

  function BalanceOf(s: DestState, a: Address): nat {
    if a in s.balances then s.balances[a] else 0
  }

  function VerifierSays(verifier: Verifier, c: MintCall): bool
  {
    verifier(Flatten(c.words), c.words.commitments, c.words.commitmentPok, Packing.PackedInputs(c.root, c.lockTxHash))
  }

  datatype Outcome = Minted | UntrustedRoot | AlreadyProcessed | ProofRejected | ZeroRecipient | SupplyOverflow

  function MintOutcome(verifier: Verifier, s: DestState, c: MintCall): Outcome
  {
    if c.root != s.trustedBlockRoot then UntrustedRoot
    else if c.lockTxHash in s.processedTxs then AlreadyProcessed
    else if !VerifierSays(verifier, c) then ProofRejected
    else if c.recipient == Zeros(20) then ZeroRecipient
    else if s.totalSupply + c.amount >= U256 then SupplyOverflow
    else Minted
  }

  function AfterMint(s: DestState, c: MintCall): DestState {
    DestState(
      s.trustedBlockRoot,
      s.processedTxs + {c.lockTxHash},
      s.balances[c.recipient := BalanceOf(s, c.recipient) + c.amount],
      s.totalSupply + c.amount,
      s.minted + [BridgeMinted(c.recipient, c.amount, c.lockTxHash)])
  }

  /** A mint that reverts changes nothing. */
  function ApplyMint(verifier: Verifier, s: DestState, c: MintCall): DestState
  {
    if MintOutcome(verifier, s, c) == Minted then AfterMint(s, c) else s
  }

  datatype Call = Mint(c: MintCall) | UpdateTrustedRoot(newRoot: Digest)

  function ApplyCall(verifier: Verifier, s: DestState, call: Call): DestState
  {
    match call
    case Mint(c) => ApplyMint(verifier, s, c)
    case UpdateTrustedRoot(newRoot) => s.(trustedBlockRoot := newRoot)
  }

  function RunCalls(verifier: Verifier, s: DestState, calls: seq<Call>): DestState
    decreases |calls|
  {
    if |calls| == 0 then s else RunCalls(verifier, ApplyCall(verifier, s, calls[0]), calls[1..])
  }

  // ----- what single calls do -----

  /** When a mint goes through, and for which reason it reverts otherwise, in the order of the checks. */
  lemma MintOutcomeExact(verifier: Verifier, s: DestState, c: MintCall)
    ensures var inputs := Packing.PackedInputs(c.root, c.lockTxHash);
      var words := [c.words.a[0], c.words.a[1], c.words.b[0][0], c.words.b[0][1], c.words.b[1][0], c.words.b[1][1],
                    c.words.c[0], c.words.c[1]];
      var accepted := verifier(words, c.words.commitments, c.words.commitmentPok, inputs);
      var trusted, fresh' := c.root == s.trustedBlockRoot, c.lockTxHash !in s.processedTxs;
      var named, room := c.recipient != seq(20, _ => 0), s.totalSupply + c.amount < U256;
      && (MintOutcome(verifier, s, c) == UntrustedRoot <==> !trusted)
      && (MintOutcome(verifier, s, c) == AlreadyProcessed <==> trusted && !fresh')
      && (MintOutcome(verifier, s, c) == ProofRejected <==> trusted && fresh' && !accepted)
      && (MintOutcome(verifier, s, c) == ZeroRecipient <==> trusted && fresh' && accepted && !named)
      && (MintOutcome(verifier, s, c) == SupplyOverflow <==> trusted && fresh' && accepted && named && !room)
      && (MintOutcome(verifier, s, c) == Minted <==> trusted && fresh' && accepted && named && room)
  {
    assert Zeros(20) == seq(20, _ => 0);
  }

  /** A root update changes the root and nothing else; a mint never changes it. */
  lemma RootUpdates(verifier: Verifier, s: DestState, newRoot: Digest, c: MintCall)
    ensures var t := ApplyCall(verifier, s, UpdateTrustedRoot(newRoot));
      && t.trustedBlockRoot == newRoot && t.processedTxs == s.processedTxs && t.balances == s.balances
      && t.totalSupply == s.totalSupply && t.minted == s.minted
    ensures ApplyCall(verifier, s, Call.Mint(c)) == ApplyMint(verifier, s, c)
    ensures ApplyMint(verifier, s, c).trustedBlockRoot == s.trustedBlockRoot
  {
  }

  /** Calls take effect one after the other. */
  lemma {:induction false} RunCallsAppend(verifier: Verifier, s: DestState, calls: seq<Call>, last: Call)
    ensures RunCalls(verifier, s, []) == s
    ensures RunCalls(verifier, s, calls + [last]) == ApplyCall(verifier, RunCalls(verifier, s, calls), last)
    decreases |calls|
  {
    if |calls| == 0 {
      assert calls + [last] == [last] && [last][1..] == [];
    } else {
      assert (calls + [last])[1..] == calls[1..] + [last];
      RunCallsAppend(verifier, ApplyCall(verifier, s, calls[0]), calls[1..], last);
    }
  }

  // ----- sums -----

  function SumMinted(m: seq<BridgeMinted>): nat {
    if |m| == 0 then 0 else SumMinted(m[..|m| - 1]) + m[|m| - 1].amount
  }

  function SumMintedTo(m: seq<BridgeMinted>, a: Address): nat {
    if |m| == 0 then 0
    else SumMintedTo(m[..|m| - 1], a) + if m[|m| - 1].recipient == a then m[|m| - 1].amount else 0
  }

  // ----- the invariant over every run -----

  ghost predicate NoHashTwice(m: seq<BridgeMinted>) {
    forall i, j :: 0 <= i < j < |m| ==> m[i].txHash != m[j].txHash
  }

  function HashesOf(m: seq<BridgeMinted>): set<Digest> {
    set i | 0 <= i < |m| :: m[i].txHash
  }

  /**
   * The processed set is the set of minted hashes, none twice; each account holds what was minted
   * to it; the supply is what was minted and what the accounts hold, and fits a uint256.
   */
  ghost predicate DestInvariant(s: DestState) {
    && s.processedTxs == HashesOf(s.minted)
    && NoHashTwice(s.minted)
    && s.totalSupply == SumMinted(s.minted) == SumValues(s.balances)
    && (forall a: Address :: BalanceOf(s, a) == SumMintedTo(s.minted, a))
    && s.totalSupply < U256
  }

  lemma DeployedInvariant(initialRoot: Digest)
    ensures DestInvariant(Deployed(initialRoot))
  {
  }

  lemma HashesOfAppend(m: seq<BridgeMinted>, e: BridgeMinted)
    ensures HashesOf(m + [e]) == HashesOf(m) + {e.txHash}
  {
    var longer := m + [e];
    assert longer[|m|] == e;
    forall h: Digest | h in HashesOf(m)
      ensures h in HashesOf(longer)
    {
      var i :| 0 <= i < |m| && m[i].txHash == h;
      assert longer[i].txHash == h;
    }
  }

  lemma NoHashTwiceAppend(m: seq<BridgeMinted>, e: BridgeMinted)
    requires NoHashTwice(m) && e.txHash !in HashesOf(m)
    ensures NoHashTwice(m + [e])
  {
    forall i | 0 <= i < |m|
      ensures m[i].txHash != e.txHash
    {
      assert m[i].txHash in HashesOf(m);
    }
  }

  lemma SumsAppend(m: seq<BridgeMinted>, e: BridgeMinted, a: Address)
    ensures SumMinted(m + [e]) == SumMinted(m) + e.amount
    ensures SumMintedTo(m + [e], a) == SumMintedTo(m, a) + if e.recipient == a then e.amount else 0
  {
    assert (m + [e])[..|m|] == m;
  }

  lemma AfterMintKeeps(s: DestState, c: MintCall)
    requires DestInvariant(s) && c.lockTxHash !in s.processedTxs && s.totalSupply + c.amount < U256
    ensures DestInvariant(AfterMint(s, c))
  {
    var e := BridgeMinted(c.recipient, c.amount, c.lockTxHash);
    HashesOfAppend(s.minted, e);
    NoHashTwiceAppend(s.minted, e);
    SumsAppend(s.minted, e, c.recipient);
    SumValuesCredit(s.balances, c.recipient, c.amount);
    forall a: Address
      ensures BalanceOf(AfterMint(s, c), a) == SumMintedTo(s.minted + [e], a)
    {
      SumsAppend(s.minted, e, a);
    }
  }

  lemma ApplyCallKeeps(verifier: Verifier, s: DestState, call: Call)
    requires DestInvariant(s)
    ensures DestInvariant(ApplyCall(verifier, s, call))
    ensures s.minted <= ApplyCall(verifier, s, call).minted
    ensures s.processedTxs <= ApplyCall(verifier, s, call).processedTxs
  {
    if call.Mint? && MintOutcome(verifier, s, call.c) == Minted {
      AfterMintKeeps(s, call.c);
    }
  }

  /** Over any mints and root updates in any order: the invariant, and nothing processed is forgotten. */
  lemma {:induction false} RunCallsKeeps(verifier: Verifier, s: DestState, calls: seq<Call>)
    requires DestInvariant(s)
    ensures var t := RunCalls(verifier, s, calls);
      DestInvariant(t) && s.minted <= t.minted && s.processedTxs <= t.processedTxs
    decreases |calls|
  {
    if |calls| > 0 {
      var next := ApplyCall(verifier, s, calls[0]);
      ApplyCallKeeps(verifier, s, calls[0]);
      RunCallsKeeps(verifier, next, calls[1..]);
    }
  }

  lemma RunFromDeployment(verifier: Verifier, initialRoot: Digest, calls: seq<Call>)
    ensures DestInvariant(RunCalls(verifier, Deployed(initialRoot), calls))
  {
    DeployedInvariant(initialRoot);
    RunCallsKeeps(verifier, Deployed(initialRoot), calls);
  }

  // ----- the contract -----

  class BridgeDestination {
    const verifier: Verifier
    var trustedBlockRoot: Digest
    var processedTxs: set<Digest>
    var balances: map<Address, nat>
    var totalSupply: nat
    var events: seq<BridgeMinted>

    function State(): DestState
      reads this
    {
      DestState(trustedBlockRoot, processedTxs, balances, totalSupply, events)
    }

    constructor (verifier: Verifier, initialRoot: Digest)
      ensures this.verifier == verifier && State() == Deployed(initialRoot)
      ensures trustedBlockRoot == initialRoot
      ensures processedTxs == {} && balances == map[] && totalSupply == 0 && events == []
    {
      this.verifier := verifier;
      trustedBlockRoot := initialRoot;
      processedTxs, balances, totalSupply, events := {}, map[], 0, [];
    }

    /** `_mint` of ERC20: reverts on the zero address and when the supply would overflow. */
    method MintTokens(account: Address, value: Uint256) returns (outcome: Outcome)
      modifies this`balances, this`totalSupply
      ensures outcome ==
        if account == Zeros(20) then ZeroRecipient
        else if old(totalSupply) + value >= U256 then SupplyOverflow
        else Minted
      ensures outcome == Minted ==>
        && totalSupply == old(totalSupply) + value
        && balances == old(balances)[account := BalanceOf(old(State()), account) + value]
      ensures outcome != Minted ==> State() == old(State())
    {
      if account == Zeros(20) {
        return ZeroRecipient;
      }
      if totalSupply + value >= U256 {
        return SupplyOverflow;
      }
      totalSupply := totalSupply + value;
      balances := balances[account := (if account in balances then balances[account] else 0) + value];
      outcome := Minted;
    }

    /** Packing the inputs, laying out the proof and calling the verifier. */
    method CallVerifier(c: MintCall) returns (accepted: bool)
      ensures accepted == VerifierSays(verifier, c)
    {
      var packedInputs := Packing.GetPackedInputs(c.root, c.lockTxHash);
      var proof := new nat[8];
      proof[0] := c.words.a[0];
      proof[1] := c.words.a[1];
      proof[2] := c.words.b[0][0];
      proof[3] := c.words.b[0][1];
      proof[4] := c.words.b[1][0];
      proof[5] := c.words.b[1][1];
      proof[6] := c.words.c[0];
      proof[7] := c.words.c[1];
      assert proof[..] == Flatten(c.words);
      accepted := verifier(proof[..], c.words.commitments, c.words.commitmentPok, packedInputs);
    }

    /** `mint`; any outcome but Minted is a revert, which undoes the writes made so far. */
    method Mint(c: MintCall) returns (outcome: Outcome)
      requires DestInvariant(State())
      modifies this
      ensures outcome == MintOutcome(verifier, old(State()), c)
      ensures State() == ApplyMint(verifier, old(State()), c)
      ensures DestInvariant(State())
    {
      ApplyCallKeeps(verifier, State(), Call.Mint(c));
      if c.root != trustedBlockRoot {
        return UntrustedRoot;
      }
      if c.lockTxHash in processedTxs {
        return AlreadyProcessed;
      }
      var accepted := CallVerifier(c);
      if !accepted {
        return ProofRejected;
      }
      outcome := MarkAndMint(c);
    }

    /** The last three statements of `mint`. */
    method MarkAndMint(c: MintCall) returns (outcome: Outcome)
      modifies this
      ensures outcome ==
        if c.recipient == Zeros(20) then ZeroRecipient
        else if old(totalSupply) + c.amount >= U256 then SupplyOverflow
        else Minted
      ensures State() == if outcome == Minted then AfterMint(old(State()), c) else old(State())
    {
      var before := processedTxs;
      processedTxs := processedTxs + {c.lockTxHash};
      outcome := MintTokens(c.recipient, c.amount);
      if outcome == Minted {
        events := events + [BridgeMinted(c.recipient, c.amount, c.lockTxHash)];
      } else {
        processedTxs := before;
      }
    }

    method UpdateTrustedRoot(newRoot: Digest)
      requires DestInvariant(State())
      modifies this`trustedBlockRoot
      ensures State() == old(State()).(trustedBlockRoot := newRoot) && DestInvariant(State())
    {
      trustedBlockRoot := newRoot;
    }
  }
}
