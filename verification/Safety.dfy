/** What holds in every world the relayer's steps can reach, under every interleaving. */
module Safety {
  import opened Words
  import opened Source
  import opened Rpc
  import opened Prover
  import opened ProofWords
  import opened Destination
  import opened Circuit
  import opened Relay
  import Rfc6962
  import Inclusion
  import Packing

  // ----- the invariant -----

  ghost predicate TxFits(env: Env, t: SourceTx) {
    && Emits(env.bridge, t.logs, t.locks)
    && LocksOfCalls(t.locks, PaidLocks(t.actions), if |t.locks| > 0 then t.locks[0].nonce else 0)
    && (EvmHash(t.response) == "" || EvmHash(t.response) == t.evmHash)
  }

  function AllLocks(chain: seq<SourceTx>): seq<LockDetails> {
    if |chain| == 0 then [] else AllLocks(chain[..|chain| - 1]) + chain[|chain| - 1].locks
  }

  ghost predicate DistinctHashes(chain: seq<SourceTx>) {
    forall j, k :: 0 <= j < k < |chain| ==> chain[j].evmHash != chain[k].evmHash
  }

  ghost predicate ChainFits(env: Env, w: World) {
    && SourceInvariant(w.source)
    && (forall k :: 0 <= k < |w.chain| ==> TxFits(env, w.chain[k]))
    && DistinctHashes(w.chain)
    && w.source.events == AllLocks(w.chain)
  }

  predicate FirstLockIs(t: SourceTx, recipient: Address, amount: Uint256) {
    |t.locks| > 0 && t.locks[0].ethDestination == recipient && t.locks[0].amount == amount
  }

  predicate StatementIs(t: SourceTx, root: Digest, key: Digest) {
    var built := Witness(t.response);
    built.Built? && built.root == root && built.tx == key
  }

  predicate CallFits(t: SourceTx, call: MintCall) {
    FirstLockIs(t, call.recipient, call.amount) && StatementIs(t, call.root, call.lockTxHash)
  }

  /**
   * A run's recipient and amount are its transaction's first lock, its root and key that
   * transaction's, and what it has proved can be proved.
   */
  ghost predicate RunFits(env: Env, chain: seq<SourceTx>, run: Run) {
    match run.stage
    case Fetching => true
    case Finished => true
    case HasLock(recipient, amount) => run.tx < |chain| && FirstLockIs(chain[run.tx], recipient, amount)
    case HasProof(recipient, amount, root, key) =>
      run.tx < |chain| && CallIs(env, chain[run.tx], recipient, amount, root, key)
    case RootDone(recipient, amount, root, key) =>
      run.tx < |chain| && CallIs(env, chain[run.tx], recipient, amount, root, key)
    case Submitted(call) =>
      run.tx < |chain| && CallIs(env, chain[run.tx], call.recipient, call.amount, call.root, call.lockTxHash)
  }

  ghost predicate CallIs(env: Env, t: SourceTx, recipient: Address, amount: Uint256, root: Digest, key: Digest) {
    && FirstLockIs(t, recipient, amount)
    && StatementIs(t, root, key)
    && Provable(env.sha, Packing.PackedInputs(root, key))
  }

  /** A delivery is its minted event, was accepted by the verifier, and fits its transaction. */
  ghost predicate DeliveryFits(env: Env, chain: seq<SourceTx>, d: Delivery, m: BridgeMinted) {
    && d.tx < |chain| && CallFits(chain[d.tx], d.call)
    && VerifierSays(env.verifier, d.call)
    && m == BridgeMinted(d.call.recipient, d.call.amount, d.call.lockTxHash)
  }

  ghost predicate HistoryFits(env: Env, w: World) {
    && |w.history| == |w.dest.minted|
    && forall k :: 0 <= k < |w.history| ==> DeliveryFits(env, w.chain, w.history[k], w.dest.minted[k])
  }

  ghost predicate WorldInvariant(env: Env, w: World) {
    && ChainFits(env, w)
    && DestInvariant(w.dest)
    && (forall i :: 0 <= i < |w.runs| ==> RunFits(env, w.chain, w.runs[i]))
    && HistoryFits(env, w)
  }

  // ----- it is kept by every step -----

  lemma TransactKeepsChain(env: Env, w: World, actions: seq<Action>, evmHash: string, response: TxResponse)
    requires ChainFits(env, w) && FreshTransaction(w, env, actions, evmHash, response)
    ensures var next := DoTransact(env, w, actions, evmHash, response);
      ChainFits(env, next) && w.chain <= next.chain
  {
    ExecuteEmits(env.bridge, w.source, actions);
    ExecuteRecordsCalls(env.bridge, w.source, actions);
    var next := DoTransact(env, w, actions, evmHash, response);
    assert next.chain[..|w.chain|] == w.chain;
  }

  lemma FitsLongerChain(env: Env, w: World, chain: seq<SourceTx>)
    requires w.chain <= chain
    requires (forall i :: 0 <= i < |w.runs| ==> RunFits(env, w.chain, w.runs[i])) && HistoryFits(env, w)
    ensures forall i :: 0 <= i < |w.runs| ==> RunFits(env, chain, w.runs[i])
    ensures forall k :: 0 <= k < |w.history| ==> DeliveryFits(env, chain, w.history[k], w.dest.minted[k])
  {
    forall i | 0 <= i < |w.runs|
      ensures RunFits(env, chain, w.runs[i])
    {
      assert RunFits(env, w.chain, w.runs[i]);
      assert w.runs[i].tx < |w.chain| ==> chain[w.runs[i].tx] == w.chain[w.runs[i].tx];
    }
    forall k | 0 <= k < |w.history|
      ensures DeliveryFits(env, chain, w.history[k], w.dest.minted[k])
    {
      assert DeliveryFits(env, w.chain, w.history[k], w.dest.minted[k]);
    }
  }

  lemma {:induction false} OwnReceipt(chain: seq<SourceTx>, k: nat)
    requires k < |chain| && DistinctHashes(chain)
    ensures FindReceipt(chain, chain[k].evmHash) == Some(chain[k].logs)
    decreases |chain|
  {
    var n := |chain| - 1;
    if k < n {
      assert chain[..n][k] == chain[k];
      OwnReceipt(chain[..n], k);
    }
  }

  lemma ScanForFindsFirstLock(env: Env, w: World, tx: nat)
    requires ChainFits(env, w) && ScanFor(w, env, tx).Found?
    ensures tx < |w.chain| && FirstLockIs(w.chain[tx], ScanFor(w, env, tx).recipient, ScanFor(w, env, tx).amount)
  {
    var t := w.chain[tx];
    assert TxFits(env, t);
    OwnReceipt(w.chain, tx);
    ScanFindsFirstLock(env.bridge, t.logs, t.locks);
  }

  lemma SetStageKeeps(env: Env, w: World, i: nat, stage: Stage)
    requires i < |w.runs| && WorldInvariant(env, w)
    requires RunFits(env, w.chain, Run(w.runs[i].tx, stage))
    ensures WorldInvariant(env, SetStage(w, i, stage))
  {
    var next := SetStage(w, i, stage);
    forall k | 0 <= k < |next.runs|
      ensures RunFits(env, next.chain, next.runs[k])
    {
      assert k != i ==> next.runs[k] == w.runs[k];
    }
    assert HistoryFits(env, next);
  }

  lemma FetchLockKeeps(env: Env, w: World, i: nat)
    requires WorldInvariant(env, w)
    ensures WorldInvariant(env, DoFetchLock(env, w, i))
  {
    if i < |w.runs| && w.runs[i].stage.Fetching? && ScanFor(w, env, w.runs[i].tx).Found? {
      var found := ScanFor(w, env, w.runs[i].tx);
      ScanForFindsFirstLock(env, w, w.runs[i].tx);
      SetStageKeeps(env, w, i, HasLock(found.recipient, found.amount));
    }
  }

  lemma OverwriteFileKeeps(env: Env, w: World, file: File)
    requires WorldInvariant(env, w)
    ensures WorldInvariant(env, w.(file := file))
  {
    assert HistoryFits(env, w.(file := file));
  }

  lemma SetRootKeeps(env: Env, w: World, root: Digest)
    requires WorldInvariant(env, w)
    ensures WorldInvariant(env, w.(dest := w.dest.(trustedBlockRoot := root)))
  {
    ApplyCallKeeps(env.verifier, w.dest, Call.UpdateTrustedRoot(root));
    assert HistoryFits(env, w.(dest := w.dest.(trustedBlockRoot := root)));
  }

  lemma BuiltInputs(r: TxResponse)
    requires Witness(r).Built?
    ensures var built := Witness(r);
      built.assignment.packedRoot + built.assignment.packedTxHash == Packing.PackedInputs(built.root, built.tx)
  {
  }

  lemma AcceptedIsProvable(env: Env, t: SourceTx)
    requires Witness(t.response).Built? && Accepts(env.sha, Witness(t.response).assignment)
    ensures Provable(env.sha, Packing.PackedInputs(Witness(t.response).root, Witness(t.response).tx))
  {
    hide Witness, Accepts;
    BuiltInputs(t.response);
  }

  lemma ProveKeeps(env: Env, w: World, i: nat, proof: Groth16Proof)
    requires WorldInvariant(env, w)
    ensures WorldInvariant(env, DoProve(env, w, i, proof))
  {
    if DoProve(env, w, i, proof) != w {
      var s, built := w.runs[i].stage, Witness(w.chain[w.runs[i].tx].response);
      assert RunFits(env, w.chain, w.runs[i]);
      AcceptedIsProvable(env, w.chain[w.runs[i].tx]);
      var stage := HasProof(s.recipient, s.amount, built.root, built.tx);
      SetStageKeeps(env, w, i, stage);
      OverwriteFileKeeps(env, SetStage(w, i, stage), Export(proof));
    }
  }

  lemma UpdateRootKeeps(env: Env, w: World, i: nat, mined: bool)
    requires WorldInvariant(env, w)
    ensures WorldInvariant(env, DoUpdateRoot(w, i, mined))
  {
    if i < |w.runs| && w.runs[i].stage.HasProof? {
      var s := w.runs[i].stage;
      assert RunFits(env, w.chain, w.runs[i]);
      var stage := RootDone(s.recipient, s.amount, s.root, s.key);
      SetStageKeeps(env, w, i, stage);
      SetRootKeeps(env, SetStage(w, i, stage), s.root);
    }
  }

  lemma SubmitKeeps(env: Env, w: World, i: nat)
    requires WorldInvariant(env, w)
    ensures WorldInvariant(env, DoSubmit(w, i))
  {
    if i < |w.runs| && w.runs[i].stage.RootDone? && ParseFile(w.file).Some? {
      var s := w.runs[i].stage;
      assert RunFits(env, w.chain, w.runs[i]);
      SetStageKeeps(env, w, i, Submitted(MintCall(ParseFile(w.file).value, s.root, s.key, s.recipient, s.amount)));
    }
  }

  lemma AfterMintFits(env: Env, s: DestState, call: MintCall)
    requires DestInvariant(s) && MintOutcome(env.verifier, s, call) == Minted
    ensures DestInvariant(AfterMint(s, call)) && VerifierSays(env.verifier, call)
  {
    AfterMintKeeps(s, call);
  }

  lemma DeliveryKeeps(env: Env, w: World, tx: nat, call: MintCall)
    requires WorldInvariant(env, w) && tx < |w.chain| && CallFits(w.chain[tx], call)
    requires MintOutcome(env.verifier, w.dest, call) == Minted
    ensures WorldInvariant(env, w.(dest := AfterMint(w.dest, call), history := w.history + [Delivery(tx, call)]))
  {
    var next := w.(dest := AfterMint(w.dest, call), history := w.history + [Delivery(tx, call)]);
    hide CallFits, DestInvariant, RunFits, VerifierSays;
    AfterMintFits(env, w.dest, call);
    forall k | 0 <= k < |next.history|
      ensures DeliveryFits(env, next.chain, next.history[k], next.dest.minted[k])
    {
      if k < |w.history| {
        assert DeliveryFits(env, w.chain, w.history[k], w.dest.minted[k]);
      }
    }
  }

  lemma MineKeeps(env: Env, w: World, i: nat)
    requires WorldInvariant(env, w)
    ensures WorldInvariant(env, DoMine(env, w, i))
  {
    if i < |w.runs| && w.runs[i].stage.Submitted? {
      SubmittedCallFits(env, w, i);
      hide WorldInvariant, AfterMint, CallFits, MintOutcome;
      SetStageKeeps(env, w, i, Finished);
      if MintOutcome(env.verifier, w.dest, w.runs[i].stage.call) == Minted {
        DeliveryKeeps(env, SetStage(w, i, Finished), w.runs[i].tx, w.runs[i].stage.call);
      }
    }
  }

  lemma SubmittedCallFits(env: Env, w: World, i: nat)
    requires WorldInvariant(env, w) && i < |w.runs| && w.runs[i].stage.Submitted?
    ensures w.runs[i].tx < |w.chain| && CallFits(w.chain[w.runs[i].tx], w.runs[i].stage.call)
  {
    assert RunFits(env, w.chain, w.runs[i]);
  }

  lemma TransactKeeps(env: Env, w: World, actions: seq<Action>, evmHash: string, response: TxResponse)
    requires WorldInvariant(env, w)
    ensures WorldInvariant(env, DoTransact(env, w, actions, evmHash, response))
  {
    if FreshTransaction(w, env, actions, evmHash, response) {
      TransactKeepsChain(env, w, actions, evmHash, response);
      FitsLongerChain(env, w, DoTransact(env, w, actions, evmHash, response).chain);
    }
  }

  lemma DeliverKeeps(env: Env, w: World, tx: nat)
    requires WorldInvariant(env, w)
    ensures WorldInvariant(env, w.(runs := w.runs + [Run(tx, Fetching)]))
  {
    assert HistoryFits(env, w.(runs := w.runs + [Run(tx, Fetching)]));
  }

  lemma EndAllKeeps(env: Env, w: World)
    requires WorldInvariant(env, w)
    ensures WorldInvariant(env, EndAll(w))
  {
    var next := EndAll(w);
    forall i | 0 <= i < |next.runs|
      ensures RunFits(env, next.chain, next.runs[i])
    {
      assert RunFits(env, w.chain, w.runs[i]);
    }
    assert HistoryFits(env, next);
  }

  lemma AbandonKeeps(env: Env, w: World, i: nat)
    requires WorldInvariant(env, w) && i < |w.runs|
    ensures WorldInvariant(env, SetStage(w, i, Finished))
  {
    SetStageKeeps(env, w, i, Finished);
  }

  predicate OfARun(step: Step) {
    step.FetchLock? || step.Prove? || step.UpdateRoot? || step.Submit? || step.Mine?
  }

  lemma RunStepKeeps(env: Env, w: World, step: Step)
    requires WorldInvariant(env, w) && OfARun(step)
    ensures WorldInvariant(env, Advance(env, w, step))
  {
    hide WorldInvariant;
    match step {
      case FetchLock(i) => FetchLockKeeps(env, w, i);
      case Prove(i, proof) => ProveKeeps(env, w, i, proof);
      case UpdateRoot(i, mined) => UpdateRootKeeps(env, w, i, mined);
      case Submit(i) => SubmitKeeps(env, w, i);
      case Mine(i) => MineKeeps(env, w, i);
    }
  }

  lemma NextKeeps(env: Env, w: World, step: Step)
    requires WorldInvariant(env, w)
    ensures WorldInvariant(env, Next(env, w, step))
  {
    hide WorldInvariant, Panics, EndAll;
    if Panics(env, w, step) {
      EndAllKeeps(env, w);
    } else if OfARun(step) {
      RunStepKeeps(env, w, step);
    } else {
      match step {
        case Transact(actions, evmHash, response) => TransactKeeps(env, w, actions, evmHash, response);
        case Deliver(tx) => DeliverKeeps(env, w, tx);
        case Abandon(i) =>
          if i < |w.runs| {
            AbandonKeeps(env, w, i);
          }
        case SetRoot(root) => SetRootKeeps(env, w, root);
        case OverwriteFile(file) => OverwriteFileKeeps(env, w, file);
        case Stop => EndAllKeeps(env, w);
      }
    }
  }

  lemma {:induction false} ReachKeeps(env: Env, w: World, steps: seq<Step>)
    requires WorldInvariant(env, w)
    ensures WorldInvariant(env, Reach(env, w, steps))
    decreases |steps|
  {
    if |steps| > 0 {
      NextKeeps(env, w, steps[0]);
      ReachKeeps(env, Next(env, w, steps[0]), steps[1..]);
    }
  }

  ghost predicate Reachable(env: Env, w: World) {
    exists root: Digest, file: File, steps: seq<Step> :: w == Reach(env, Genesis(root, file), steps)
  }

  lemma ReachableKeeps(env: Env, w: World)
    requires Reachable(env, w)
    ensures WorldInvariant(env, w)
  {
    var root: Digest, file: File, steps: seq<Step> :| w == Reach(env, Genesis(root, file), steps);
    DeployedInvariant(root);
    ReachKeeps(env, Genesis(root, file), steps);
  }

  // ----- safety of every mint -----

  /**
   * Every minted event has a delivery: a proof whose statement is exactly the event's own root and
   * transaction hash, provable by the circuit; its recipient and amount are the destination and
   * value of the first paid lock call of the one transaction whose run sent it, and its root and
   * hash those built from that transaction's record.
   */
  lemma EveryMintIsJustified(env: Env, w: World, k: nat)
    requires Reachable(env, w) && IdealVerifier(env) && k < |w.dest.minted|
    ensures k < |w.history| && w.history[k].tx < |w.chain|
    ensures var d, m, t := w.history[k], w.dest.minted[k], w.chain[w.history[k].tx];
      && StatementOf(env, d.call.words) == Some(Packing.PackedInputs(d.call.root, m.txHash))
      && Provable(env.sha, Packing.PackedInputs(d.call.root, m.txHash))
      && |t.locks| > 0 && t.locks[0].ethDestination == m.recipient && t.locks[0].amount == m.amount
      && |PaidLocks(t.actions)| > 0
      && PaidLocks(t.actions)[0].ethDestination == m.recipient && PaidLocks(t.actions)[0].value == m.amount
      && Witness(t.response).Built? && Witness(t.response).root == d.call.root && Witness(t.response).tx == m.txHash
  {
    ReachableKeeps(env, w);
    assert DeliveryFits(env, w.chain, w.history[k], w.dest.minted[k]);
    assert TxFits(env, w.chain[w.history[k].tx]);
  }

  /** An accepted witness for the hash; barring a collision among its inputs it places the hash in the tree. */
  ghost predicate ProvesInclusion(sha: Sha256, a: Assignment, hash: Digest, d: Rfc6962.Leaves) {
    && Accepts(sha, a) && LeafValue(a) == hash
    && (Inclusion.CollisionFree(sha, BindingInputs(sha, a, d))
        ==> Inclusion.LandsInTree(sha, d, hash, ActivePath(a), ActiveBits(a)))
  }

  /** If the root of a mint is the hash of a tree, its transaction hash is the hash of a subtree of it. */
  lemma MintedHashIsInTree(env: Env, w: World, k: nat, d: Rfc6962.Leaves)
    requires Reachable(env, w) && IdealVerifier(env) && k < |w.dest.minted| == |w.history|
    requires w.history[k].call.root == Rfc6962.TreeHash(env.sha, d)
    ensures exists a: Assignment :: ProvesInclusion(env.sha, a, w.dest.minted[k].txHash, d)
  {
    EveryMintIsJustified(env, w, k);
    var root, key := w.history[k].call.root, w.dest.minted[k].txHash;
    var a: Assignment :| Accepts(env.sha, a) && a.packedRoot + a.packedTxHash == Packing.PackedInputs(root, key);
    InputsNameValues(a, root, key);
    if Inclusion.CollisionFree(env.sha, BindingInputs(env.sha, a, d)) {
      AcceptedIffInTree(env.sha, a, d);
    }
    assert ProvesInclusion(env.sha, a, key, d);
  }

  lemma InputsNameValues(a: Assignment, root: Digest, key: Digest)
    requires |a.packedRoot| == |a.packedTxHash| == 4
    requires a.packedRoot + a.packedTxHash == Packing.PackedInputs(root, key)
    ensures RootValue(a) == root && LeafValue(a) == key
  {
    assert a.packedRoot == (a.packedRoot + a.packedTxHash)[..4] == Packing.Pack(root);
    assert a.packedTxHash == (a.packedRoot + a.packedTxHash)[4..] == Packing.Pack(key);
    Packing.UnpackInvertsPack(root);
    Packing.UnpackInvertsPack(key);
  }
}
