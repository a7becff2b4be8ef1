/** A run no other run overlaps credits its lock once; and exactly when the mint of any run goes through. */
module Progress {
  import opened Words
  import opened Source
  import opened Receipt
  import opened Rpc
  import opened Text
  import opened Prover
  import opened ProofWords
  import opened Destination
  import opened Circuit
  import opened Relay
  import opened Safety
  import Rfc6962
  import Inclusion
  import Packing

  // ----- reachability -----

  lemma {:induction false} ReachAppend(env: Env, w: World, steps: seq<Step>, more: seq<Step>)
    ensures Reach(env, w, steps + more) == Reach(env, Reach(env, w, steps), more)
    decreases |steps|
  {
    if |steps| == 0 {
      assert steps + more == more;
    } else {
      assert (steps + more)[1..] == steps[1..] + more;
      ReachAppend(env, Next(env, w, steps[0]), steps[1..], more);
    }
  }

  lemma StepsReachable(env: Env, w: World, steps: seq<Step>)
    requires Reachable(env, w)
    ensures Reachable(env, Reach(env, w, steps))
  {
    var root: Digest, file: File, before: seq<Step> :| w == Reach(env, Genesis(root, file), before);
    ReachAppend(env, Genesis(root, file), before, steps);
    assert Reach(env, w, steps) == Reach(env, Genesis(root, file), before + steps);
  }

  lemma NextReachable(env: Env, w: World, step: Step)
    requires Reachable(env, w)
    ensures Reachable(env, Next(env, w, step))
  {
    assert [step][1..] == [];
    assert Reach(env, w, [step]) == Next(env, w, step);
    StepsReachable(env, w, [step]);
  }

  // ----- a run that no other run overlaps -----

  /** What `processEvent` does between delivery and mining; the root update may fail. */
  function OwnSteps(i: nat, proof: Groth16Proof, mined: bool): seq<Step> {
    [FetchLock(i), Prove(i, proof), UpdateRoot(i, mined), Submit(i)]
  }

  /**
   * What may happen meanwhile: transactions, deliveries, runs that look up their lock or give up,
   * and the mining of what runs that are over have submitted; but no panic.
   */
  predicate Quiet(env: Env, w: World, step: Step, i: nat) {
    && (step.Transact? || step.Deliver? || step.FetchLock? || step.Abandon? || step.Mine?)
    && !OfRun(step, i) && !Panics(env, w, step)
  }

  /** The steps from w are the given ones of run i, in order, with any quiet steps before, between and after. */
  ghost predicate Interleaves(env: Env, w: World, steps: seq<Step>, own: seq<Step>, i: nat)
    decreases |steps|
  {
    if |steps| == 0 then own == []
    else
      var next := Next(env, w, steps[0]);
      || (own != [] && steps[0] == own[0] && Interleaves(env, next, steps[1..], own[1..], i))
      || (Quiet(env, w, steps[0], i) && Interleaves(env, next, steps[1..], own, i))
  }

  /** A run for tx is started by its delivery and overlapped by no other; `mined` says if its root update succeeds. */
  ghost predicate RunsAlone(env: Env, w: World, tx: nat, proof: Groth16Proof, mined: bool, steps: seq<Step>) {
    Interleaves(env, Next(env, w, Deliver(tx)), steps, OwnSteps(|w.runs|, proof, mined), |w.runs|)
  }

  /** The transaction passes the guards, its lock can be found and its inclusion proved. */
  ghost predicate Relayable(env: Env, w: World, tx: nat, proof: Groth16Proof) {
    tx < |w.chain| && RelayableTx(env, w.chain[tx], proof)
  }

  ghost predicate RelayableTx(env: Env, t: SourceTx, proof: Groth16Proof) {
    && NamesHash(t.response) && EvmHash(t.response) != ""
    && ScanLogs(t.logs, env.bridge).Found?
    && CanProve(env, Witness(t.response), proof)
  }

  /** The call a run for t sends when the file still holds its own proof. */
  function OwnCall(t: SourceTx, bridge: Address, proof: Groth16Proof): MintCall
    requires ScanLogs(t.logs, bridge).Found? && Witness(t.response).Built? && ParseFile(Export(proof)).Some?
  {
    var found, built := ScanLogs(t.logs, bridge), Witness(t.response);
    MintCall(ParseFile(Export(proof)).value, built.root, built.tx, found.recipient, found.amount)
  }

  /** The stage of a run for t with this many of its own steps to go. */
  ghost predicate AtStage(env: Env, t: SourceTx, proof: Groth16Proof, left: nat, stage: Stage)
    requires RelayableTx(env, t, proof)
  {
    ExportParses(proof);
    var c := OwnCall(t, env.bridge, proof);
    match left
    case 4 => stage == Fetching
    case 3 => stage == HasLock(c.recipient, c.amount)
    case 2 => stage == HasProof(c.recipient, c.amount, c.root, c.lockTxHash)
    case 1 => stage == RootDone(c.recipient, c.amount, c.root, c.lockTxHash)
    case 0 => stage == Submitted(c)
    case _ => false
  }

  /** A run by itself: its number, transaction and proof, if its root update succeeds, and the root trusted before. */
  datatype Course = Course(i: nat, tx: nat, proof: Groth16Proof, mined: bool, oldRoot: Digest)

  /** The root trusted with this many steps to go. */
  function TrustedRoot(c: Course, t: SourceTx, left: nat): Digest
    requires Witness(t.response).Built?
  {
    if left <= 1 && c.mined then Witness(t.response).root else c.oldRoot
  }

  /** The run is on its way: its proof stays in the file from proving on, and the root only it has changed. */
  ghost predicate OnCourse(env: Env, w: World, c: Course, left: nat) {
    && ChainFits(env, w)
    && c.tx < |w.chain| && RelayableTx(env, w.chain[c.tx], c.proof)
    && c.i < |w.runs| && w.runs[c.i].tx == c.tx
    && AtStage(env, w.chain[c.tx], c.proof, left, w.runs[c.i].stage)
    && (left <= 2 ==> w.file == Export(c.proof))
    && w.dest.trustedBlockRoot == TrustedRoot(c, w.chain[c.tx], left)
  }

  lemma OwnScan(env: Env, w: World, tx: nat)
    requires ChainFits(env, w) && tx < |w.chain|
    requires NamesHash(w.chain[tx].response) && EvmHash(w.chain[tx].response) != ""
    ensures ScanFor(w, env, tx) == ScanLogs(w.chain[tx].logs, env.bridge)
  {
    assert TxFits(env, w.chain[tx]);
    OwnReceipt(w.chain, tx);
  }

  lemma OnlyTransactionsTouchTheChain(env: Env, w: World, step: Step)
    requires !step.Transact?
    ensures Next(env, w, step).source == w.source && Next(env, w, step).chain == w.chain
  {
    hide ScanFor, Witness, ParseFile, CanProve, Export, ApplyMint, MintOutcome;
  }

  lemma ChainFitsAside(env: Env, w: World, next: World)
    requires ChainFits(env, w) && next.source == w.source && next.chain == w.chain
    ensures ChainFits(env, next)
  {
    hide SourceInvariant, TxFits, DistinctHashes;
  }

  lemma StepKeepsChain(env: Env, w: World, step: Step)
    requires ChainFits(env, w)
    ensures ChainFits(env, Next(env, w, step))
  {
    hide ChainFits, DoTransact;
    if step.Transact? {
      if FreshTransaction(w, env, step.actions, step.evmHash, step.response) {
        TransactKeepsChain(env, w, step.actions, step.evmHash, step.response);
      } else {
        StaleTransaction(env, w, step.actions, step.evmHash, step.response);
      }
    } else {
      hide Next;
      OnlyTransactionsTouchTheChain(env, w, step);
      ChainFitsAside(env, w, Next(env, w, step));
    }
  }

  lemma StaleTransaction(env: Env, w: World, actions: seq<Action>, evmHash: string, response: TxResponse)
    requires !FreshTransaction(w, env, actions, evmHash, response)
    ensures DoTransact(env, w, actions, evmHash, response) == w
  {
  }

  lemma QuietKeepsShared(env: Env, w: World, i: nat, step: Step)
    requires Quiet(env, w, step, i)
    ensures Next(env, w, step).file == w.file
    ensures Next(env, w, step).dest.trustedBlockRoot == w.dest.trustedBlockRoot
  {
  }

  lemma QuietKeepsCourse(env: Env, w: World, c: Course, left: nat, step: Step)
    requires OnCourse(env, w, c, left) && Quiet(env, w, step, c.i)
    ensures OnCourse(env, Next(env, w, step), c, left)
  {
    hide Next, ChainFits, AtStage, RelayableTx, TrustedRoot;
    StepKeepsChain(env, w, step);
    StepOnlyGrows(env, w, step);
    OtherStepKeepsRun(env, w, c.i, step);
    QuietKeepsShared(env, w, c.i, step);
  }

  /** The run's steps, one by one, when each of them succeeds. */
  lemma FetchingSucceeds(env: Env, w: World, i: nat)
    requires i < |w.runs| && w.runs[i].stage == Fetching && ScanFor(w, env, w.runs[i].tx).Found?
    ensures var found, next := ScanFor(w, env, w.runs[i].tx), DoFetchLock(env, w, i);
      next == SetStage(w, i, HasLock(found.recipient, found.amount))
  {
    hide ScanFor;
  }

  lemma ProvingSucceeds(env: Env, w: World, i: nat, proof: Groth16Proof)
    requires i < |w.runs| && w.runs[i].stage.HasLock? && w.runs[i].tx < |w.chain|
    requires CanProve(env, Witness(w.chain[w.runs[i].tx].response), proof)
    ensures var s, built := w.runs[i].stage, Witness(w.chain[w.runs[i].tx].response);
      DoProve(env, w, i, proof)
        == SetStage(w, i, HasProof(s.recipient, s.amount, built.root, built.tx)).(file := Export(proof))
    ensures Witness(w.chain[w.runs[i].tx].response).Built?
  {
    hide Export, Witness;
  }

  lemma UpdatingSucceeds(w: World, i: nat, mined: bool)
    requires i < |w.runs| && w.runs[i].stage.HasProof?
    ensures var s := w.runs[i].stage;
      DoUpdateRoot(w, i, mined) == SetStage(w, i, RootDone(s.recipient, s.amount, s.root, s.key)).(
        dest := w.dest.(trustedBlockRoot := if mined then s.root else w.dest.trustedBlockRoot))
  {
  }

  lemma SubmittingSucceeds(w: World, i: nat)
    requires i < |w.runs| && w.runs[i].stage.RootDone? && ParseFile(w.file).Some?
    ensures var s := w.runs[i].stage;
      DoSubmit(w, i)
        == SetStage(w, i, Submitted(MintCall(ParseFile(w.file).value, s.root, s.key, s.recipient, s.amount)))
  {
    hide ParseFile;
  }

  lemma FetchingAdvances(env: Env, w: World, c: Course)
    requires OnCourse(env, w, c, 4)
    ensures OnCourse(env, Next(env, w, FetchLock(c.i)), c, 3)
  {
    hide ChainFits, ScanFor, NamesHash, DoFetchLock, DoProve, DoUpdateRoot, DoSubmit, ParseFile, Export, Witness,
      ScanLogs, EvmHash, CanProve;
    StepKeepsChain(env, w, FetchLock(c.i));
    ExportParses(c.proof);
    OwnScan(env, w, c.tx);
    FetchingSucceeds(env, w, c.i);
    assert !Panics(env, w, FetchLock(c.i));
  }

  lemma ProvingAdvances(env: Env, w: World, c: Course)
    requires OnCourse(env, w, c, 3)
    ensures OnCourse(env, Next(env, w, Prove(c.i, c.proof)), c, 2)
  {
    hide ChainFits, ScanFor, NamesHash, DoFetchLock, DoProve, DoUpdateRoot, DoSubmit, ParseFile, Export, Witness,
      ScanLogs, EvmHash, CanProve;
    StepKeepsChain(env, w, Prove(c.i, c.proof));
    ExportParses(c.proof);
    ProvingSucceeds(env, w, c.i, c.proof);
    assert !Panics(env, w, Prove(c.i, c.proof));
  }

  lemma UpdatingAdvances(env: Env, w: World, c: Course)
    requires OnCourse(env, w, c, 2)
    ensures OnCourse(env, Next(env, w, UpdateRoot(c.i, c.mined)), c, 1)
  {
    hide ChainFits, ScanFor, NamesHash, DoFetchLock, DoProve, DoUpdateRoot, DoSubmit, ParseFile, Export, Witness,
      ScanLogs, EvmHash, CanProve;
    StepKeepsChain(env, w, UpdateRoot(c.i, c.mined));
    ExportParses(c.proof);
    UpdatingSucceeds(w, c.i, c.mined);
    assert !Panics(env, w, UpdateRoot(c.i, c.mined));
  }

  lemma SubmittingAdvances(env: Env, w: World, c: Course)
    requires OnCourse(env, w, c, 1)
    ensures OnCourse(env, Next(env, w, Submit(c.i)), c, 0)
  {
    hide ChainFits, ScanFor, NamesHash, DoFetchLock, DoProve, DoUpdateRoot, DoSubmit, ParseFile, Export, Witness,
      ScanLogs, EvmHash, CanProve;
    StepKeepsChain(env, w, Submit(c.i));
    ExportParses(c.proof);
    SubmittingSucceeds(w, c.i);
    assert !Panics(env, w, Submit(c.i));
  }

  lemma OwnStepAdvances(env: Env, w: World, c: Course, left: nat)
    requires 0 < left <= 4 && OnCourse(env, w, c, left)
    ensures OnCourse(env, Next(env, w, OwnSteps(c.i, c.proof, c.mined)[4 - left]), c, left - 1)
  {
    hide OnCourse, Next;
    match left {
      case 4 => FetchingAdvances(env, w, c);
      case 3 => ProvingAdvances(env, w, c);
      case 2 => UpdatingAdvances(env, w, c);
      case 1 => SubmittingAdvances(env, w, c);
    }
  }

  lemma {:induction false} RunStaysOnCourse(env: Env, w: World, c: Course, left: nat, steps: seq<Step>)
    requires left <= 4 && OnCourse(env, w, c, left)
    requires Interleaves(env, w, steps, OwnSteps(c.i, c.proof, c.mined)[4 - left..], c.i)
    ensures OnCourse(env, Reach(env, w, steps), c, 0)
    decreases |steps|
  {
    hide OnCourse;
    if |steps| > 0 {
      var own := OwnSteps(c.i, c.proof, c.mined)[4 - left..];
      if Quiet(env, w, steps[0], c.i) && Interleaves(env, Next(env, w, steps[0]), steps[1..], own, c.i) {
        QuietKeepsCourse(env, w, c, left, steps[0]);
        RunStaysOnCourse(env, Next(env, w, steps[0]), c, left, steps[1..]);
      } else {
        OwnStepAdvances(env, w, c, left);
        assert own[1..] == OwnSteps(c.i, c.proof, c.mined)[4 - (left - 1)..];
        RunStaysOnCourse(env, Next(env, w, steps[0]), c, left - 1, steps[1..]);
      }
    }
  }

  /** Delivery of tx, then the steps given: the world in which the new run's mint is mined. */
  ghost function BeforeMint(env: Env, w: World, tx: nat, steps: seq<Step>): World {
    Reach(env, Next(env, w, Deliver(tx)), steps)
  }

  /** That world after the mint. */
  ghost function AfterRun(env: Env, w: World, tx: nat, steps: seq<Step>): World {
    Next(env, BeforeMint(env, w, tx, steps), Mine(|w.runs|))
  }

  lemma AfterRunReachable(env: Env, w: World, tx: nat, steps: seq<Step>)
    requires Reachable(env, w)
    ensures Reachable(env, BeforeMint(env, w, tx, steps)) && Reachable(env, AfterRun(env, w, tx, steps))
  {
    NextReachable(env, w, Deliver(tx));
    StepsReachable(env, Next(env, w, Deliver(tx)), steps);
    NextReachable(env, BeforeMint(env, w, tx, steps), Mine(|w.runs|));
  }

  /** However the quiet steps fall, the run ends with its own call applied, at its own root if the update succeeded. */
  lemma UndisturbedRunMinesOwnCall(
    env: Env, w: World, tx: nat, proof: Groth16Proof, mined: bool, steps: seq<Step>)
    requires Reachable(env, w) && Relayable(env, w, tx, proof)
    requires RunsAlone(env, w, tx, proof, mined, steps)
    ensures ParseFile(Export(proof)).Some?
    ensures var call, before := OwnCall(w.chain[tx], env.bridge, proof), BeforeMint(env, w, tx, steps);
      && before.dest.trustedBlockRoot == (if mined then call.root else w.dest.trustedBlockRoot)
      && AfterRun(env, w, tx, steps).dest == ApplyMint(env.verifier, before.dest, call)
  {
    hide Reachable, OnCourse, Interleaves, OwnSteps, ApplyMint, Reach, Export, ParseFile, Witness, EvmHash, ScanLogs;
    var i, oldRoot := |w.runs|, w.dest.trustedBlockRoot;
    var c, w1 := Course(i, tx, proof, mined, oldRoot), Next(env, w, Deliver(tx));
    StartsOnCourse(env, w, c);
    assert OwnSteps(i, proof, mined)[0..] == OwnSteps(i, proof, mined);
    RunStaysOnCourse(env, w1, c, 4, steps);
    StepsOnlyGrow(env, w1, steps);
    OutsideSteps(env, w, tx, i, oldRoot, w.file);
    MiningACourse(env, BeforeMint(env, w, tx, steps), c);
  }

  lemma StartsOnCourse(env: Env, w: World, c: Course)
    requires Reachable(env, w) && Relayable(env, w, c.tx, c.proof)
    requires c.i == |w.runs| && c.oldRoot == w.dest.trustedBlockRoot
    ensures OnCourse(env, Next(env, w, Deliver(c.tx)), c, 4)
  {
    hide Reachable, ChainFits, Next, Accepts, EvmHash, ScanLogs, Witness, Export, ParseFile;
    ReachableChainFits(env, w);
    OutsideSteps(env, w, c.tx, c.i, c.oldRoot, w.file);
    ChainFitsAside(env, w, Next(env, w, Deliver(c.tx)));
  }

  lemma ReachableChainFits(env: Env, w: World)
    requires Reachable(env, w)
    ensures ChainFits(env, w)
  {
    hide Reachable, ChainFits;
    ReachableKeeps(env, w);
  }

  lemma MiningACourse(env: Env, w: World, c: Course)
    requires OnCourse(env, w, c, 0)
    ensures ParseFile(Export(c.proof)).Some?
    ensures var call := OwnCall(w.chain[c.tx], env.bridge, c.proof);
      && w.dest.trustedBlockRoot == (if c.mined then call.root else c.oldRoot)
      && Next(env, w, Mine(c.i)).dest == ApplyMint(env.verifier, w.dest, call)
  {
    hide ChainFits, ApplyMint, DoMine, ParseFile, Export, Witness, ScanLogs, EvmHash, CanProve;
    ExportParses(c.proof);
    MiningApplies(env, w, c.i);
  }

  lemma MiningApplies(env: Env, w: World, i: nat)
    requires i < |w.runs| && w.runs[i].stage.Submitted?
    ensures DoMine(env, w, i).dest == ApplyMint(env.verifier, w.dest, w.runs[i].stage.call)
  {
    hide ApplyMint, MintOutcome;
  }

  // ----- when the verifier accepts a run's own proof -----

  lemma CoordinateByCoordinate(w: MintWords)
    ensures AreCoordinates(Flatten(w) + w.commitments + w.commitmentPok) <==>
      && AreCoordinates(w.a) && AreCoordinates(w.b[0]) && AreCoordinates(w.b[1]) && AreCoordinates(w.c)
      && AreCoordinates(w.commitments) && AreCoordinates(w.commitmentPok)
  {
    assert Flatten(w) == w.a + w.b[0] + w.b[1] + w.c;
    CoordinatesOfBoth(w.a, w.b[0]);
    CoordinatesOfBoth(w.a + w.b[0], w.b[1]);
    CoordinatesOfBoth(w.a + w.b[0] + w.b[1], w.c);
    CoordinatesOfBoth(Flatten(w), w.commitments);
    CoordinatesOfBoth(Flatten(w) + w.commitments, w.commitmentPok);
  }

  lemma CoordinatesOfBoth(a: seq<nat>, b: seq<nat>)
    ensures AreCoordinates(a + b) <==> AreCoordinates(a) && AreCoordinates(b)
  {
    if AreCoordinates(a + b) {
      assert forall i :: 0 <= i < |a| ==> (a + b)[i] == a[i];
      assert forall i :: 0 <= i < |b| ==> (a + b)[|a| + i] == b[i];
    }
  }

  lemma PairPrintsPlainly(x: Coordinate, y: Coordinate)
    ensures AreCoordinates([Arrives(x), Arrives(y)]) <==> PrintsPlainly(x) && PrintsPlainly(y)
  {
    WordArrives(x);
    WordArrives(y);
    var w := [Arrives(x), Arrives(y)];
    assert w[0] == Arrives(x) && w[1] == Arrives(y);
  }

  /** A coordinate that does not survive printing arrives as no field element. */
  lemma MisprintedIsNoProof(env: Env, proof: Groth16Proof)
    requires !PrintsWell(proof) && ParseFile(Export(proof)).Some?
    ensures StatementOf(env, ParseFile(Export(proof)).value) == None
  {
    hide Export, ParseFile, PrintsPlainly, Arrives, AreCoordinates, Flatten;
    ExportArrives(proof);
    CoordinateByCoordinate(ParseFile(Export(proof)).value);
    PairPrintsPlainly(proof.ArX, proof.ArY);
    PairPrintsPlainly(proof.BsXA1, proof.BsXA0);
    PairPrintsPlainly(proof.BsYA1, proof.BsYA0);
    PairPrintsPlainly(proof.KrsX, proof.KrsY);
    PairPrintsPlainly(proof.pokX, proof.pokY);
    if |proof.commitments| > 0 {
      PairPrintsPlainly(proof.commitments[0].0, proof.commitments[0].1);
    }
  }

  /** The run's own proof is accepted exactly when all its coordinates print plainly. */
  lemma OwnProofAccepted(env: Env, t: SourceTx, proof: Groth16Proof)
    requires IdealVerifier(env) && RelayableTx(env, t, proof)
    ensures ParseFile(Export(proof)).Some?
    ensures VerifierSays(env.verifier, OwnCall(t, env.bridge, proof)) <==> PrintsWell(proof)
  {
    hide PrintsWell, ParseFile, Export, Provable, Accepts, Witness, ScanLogs, EvmHash, Coordinates, Meaning;
    ExportParses(proof);
    ProofWordsSurvive(proof);
    AcceptedIsProvable(env, t);
    BuiltInputs(t.response);
    if !PrintsWell(proof) {
      MisprintedIsNoProof(env, proof);
    }
  }

  // ----- progress -----

  function EventOf(call: MintCall): BridgeMinted {
    BridgeMinted(call.recipient, call.amount, call.lockTxHash)
  }

  ghost predicate Creditable(s: DestState, e: BridgeMinted) {
    && e.txHash !in s.processedTxs
    && e.recipient != Zeros(20)
    && s.totalSupply + e.amount < U256
  }

  /** Exactly the event's amount more for its recipient, nothing else for anyone, and its hash processed. */
  ghost predicate Credited(s: DestState, e: BridgeMinted, after: DestState) {
    && BalanceOf(after, e.recipient) == BalanceOf(s, e.recipient) + e.amount
    && (forall a: Address :: a != e.recipient ==> BalanceOf(after, a) == BalanceOf(s, a))
    && after.totalSupply == s.totalSupply + e.amount
    && after.processedTxs == s.processedTxs + {e.txHash}
    && after.minted == s.minted + [e]
  }

  /** `mint` of a call whose proof is accepted or not. */
  lemma MintExactly(verifier: Verifier, s: DestState, c: MintCall)
    ensures var after := ApplyMint(verifier, s, c);
      if c.root == s.trustedBlockRoot && VerifierSays(verifier, c) && Creditable(s, EventOf(c))
      then Credited(s, EventOf(c), after) && after.trustedBlockRoot == s.trustedBlockRoot
      else after == s
  {
  }

  lemma TrustedRootAside(s: DestState, root: Digest, e: BridgeMinted, after: DestState)
    ensures Creditable(s.(trustedBlockRoot := root), e) <==> Creditable(s, e)
    ensures Credited(s.(trustedBlockRoot := root), e, after) <==> Credited(s, e, after)
  {
  }

  lemma OwnLockIsFirst(env: Env, w: World, tx: nat)
    requires ChainFits(env, w) && tx < |w.chain| && ScanLogs(w.chain[tx].logs, env.bridge).Found?
    ensures var found := ScanLogs(w.chain[tx].logs, env.bridge);
      FirstLockIs(w.chain[tx], found.recipient, found.amount)
  {
    assert TxFits(env, w.chain[tx]);
    ScanFindsFirstLock(env.bridge, w.chain[tx].logs, w.chain[tx].locks);
  }

  /**
   * A run of a relayable transaction, with mints of earlier runs still being mined meanwhile: its
   * own mint credits the transaction's first lock exactly when, as it is mined, its root is the
   * trusted one, the hash is not processed, the recipient is not zero and the supply has room, and
   * the proof prints plainly. The root is trusted for sure if its update succeeded.
   */
  lemma UndisturbedRunCreditsWhenMined(
    env: Env, w: World, tx: nat, proof: Groth16Proof, mined: bool, steps: seq<Step>)
    requires Reachable(env, w) && IdealVerifier(env) && Relayable(env, w, tx, proof)
    requires RunsAlone(env, w, tx, proof, mined, steps)
    ensures ParseFile(Export(proof)).Some?
    ensures var call := OwnCall(w.chain[tx], env.bridge, proof);
      var before, after := BeforeMint(env, w, tx, steps).dest, AfterRun(env, w, tx, steps).dest;
      && FirstLockIs(w.chain[tx], call.recipient, call.amount)
      && before.trustedBlockRoot == after.trustedBlockRoot
      && before.trustedBlockRoot == (if mined then call.root else w.dest.trustedBlockRoot)
      && if PrintsWell(proof) && (mined || w.dest.trustedBlockRoot == call.root) && Creditable(before, EventOf(call))
         then Credited(before, EventOf(call), after)
         else after == before
  {
    ReachableKeeps(env, w);
    UndisturbedRunMinesOwnCall(env, w, tx, proof, mined, steps);
    OwnProofAccepted(env, w.chain[tx], proof);
    OwnLockIsFirst(env, w, tx);
    MintExactly(env.verifier, BeforeMint(env, w, tx, steps).dest, OwnCall(w.chain[tx], env.bridge, proof));
    hide Reachable, IdealVerifier, Relayable, RunsAlone, PrintsWell, Creditable, Credited, FirstLockIs, AfterRun,
      BeforeMint;
  }

  /**
   * Progress: with no earlier mint pending, such a run credits the lock whenever it could be
   * credited at the start, its root update succeeds or its root was trusted already, and the proof
   * prints plainly; otherwise at most the trusted root changes.
   */
  lemma UndisturbedRunCredits(env: Env, w: World, tx: nat, proof: Groth16Proof, mined: bool, steps: seq<Step>)
    requires Reachable(env, w) && IdealVerifier(env) && Relayable(env, w, tx, proof)
    requires RunsAlone(env, w, tx, proof, mined, steps) && NoMines(steps)
    ensures ParseFile(Export(proof)).Some?
    ensures var call := OwnCall(w.chain[tx], env.bridge, proof);
      var after, root := AfterRun(env, w, tx, steps).dest, if mined then call.root else w.dest.trustedBlockRoot;
      && FirstLockIs(w.chain[tx], call.recipient, call.amount)
      && after.trustedBlockRoot == root
      && if PrintsWell(proof) && (mined || w.dest.trustedBlockRoot == call.root) && Creditable(w.dest, EventOf(call))
         then Credited(w.dest, EventOf(call), after)
         else after == w.dest.(trustedBlockRoot := root)
  {
    UndisturbedRunCreditsWhenMined(env, w, tx, proof, mined, steps);
    WithoutMinesNoTokenMoves(env, Next(env, w, Deliver(tx)), steps);
    var call := OwnCall(w.chain[tx], env.bridge, proof);
    var root := if mined then call.root else w.dest.trustedBlockRoot;
    TrustedRootAside(w.dest, root, EventOf(call), AfterRun(env, w, tx, steps).dest);
    hide Reachable, IdealVerifier, Relayable, RunsAlone, PrintsWell, FirstLockIs, AfterRun, Creditable, Credited,
      OwnCall, Reach;
  }

  /** Idempotence: once its hash is processed, a further run changes no token, whatever is mined meanwhile. */
  lemma RepeatedRunChangesNothing(
    env: Env, w: World, tx: nat, proof: Groth16Proof, mined: bool, steps: seq<Step>)
    requires Reachable(env, w) && Relayable(env, w, tx, proof)
    requires RunsAlone(env, w, tx, proof, mined, steps)
    requires Witness(w.chain[tx].response).tx in w.dest.processedTxs
    ensures AfterRun(env, w, tx, steps).dest == BeforeMint(env, w, tx, steps).dest
  {
    hide Reachable, Relayable, RunsAlone, AfterRun;
    UndisturbedRunMinesOwnCall(env, w, tx, proof, mined, steps);
    StepsOnlyGrow(env, Next(env, w, Deliver(tx)), steps);
  }

  /** Such a run credits its lock as it is mined. */
  ghost predicate CreditsItsLock(env: Env, w: World, tx: nat, proof: Groth16Proof, mined: bool, steps: seq<Step>)
    requires Relayable(env, w, tx, proof)
  {
    ExportParses(proof);
    var call := OwnCall(w.chain[tx], env.bridge, proof);
    && RunsAlone(env, w, tx, proof, mined, steps) && PrintsWell(proof)
    && (mined || w.dest.trustedBlockRoot == call.root)
    && Creditable(BeforeMint(env, w, tx, steps).dest, EventOf(call))
  }

  /**
   * After a run that credited its lock and any steps at all, another run for the same transaction,
   * with whatever proof it makes, leaves balances, supply and processed hashes alone.
   */
  lemma SecondRunAddsNothing(
    env: Env, w: World, tx: nat, proof: Groth16Proof, mined: bool, steps: seq<Step>,
    meanwhile: seq<Step>, again: Groth16Proof, minedAgain: bool, more: seq<Step>)
    requires Reachable(env, w) && IdealVerifier(env) && Relayable(env, w, tx, proof) && Relayable(env, w, tx, again)
    requires CreditsItsLock(env, w, tx, proof, mined, steps)
    requires RunsAlone(env, Reach(env, AfterRun(env, w, tx, steps), meanwhile), tx, again, minedAgain, more)
    ensures var second := Reach(env, AfterRun(env, w, tx, steps), meanwhile);
      var root := if minedAgain then Witness(w.chain[tx].response).root else second.dest.trustedBlockRoot;
      && AfterRun(env, second, tx, more).dest == BeforeMint(env, second, tx, more).dest
      && (NoMines(more) ==> AfterRun(env, second, tx, more).dest == second.dest.(trustedBlockRoot := root))
  {
    var once := AfterRun(env, w, tx, steps);
    var second := Reach(env, once, meanwhile);
    FirstRunProcesses(env, w, tx, proof, mined, steps);
    StepsOnlyGrow(env, once, meanwhile);
    AfterRunReachable(env, w, tx, steps);
    StepsReachable(env, once, meanwhile);
    hide AfterRun, BeforeMint, Reach, Reachable, IdealVerifier, RunsAlone, RelayableTx, Witness, CreditsItsLock,
      OwnCall, OwnSteps;
    assert second.chain[tx] == w.chain[tx];
    RepeatedRunChangesNothing(env, second, tx, again, minedAgain, more);
    if NoMines(more) {
      SecondRunRoot(env, second, tx, again, minedAgain, more);
    }
  }

  lemma FirstRunProcesses(env: Env, w: World, tx: nat, proof: Groth16Proof, mined: bool, steps: seq<Step>)
    requires Reachable(env, w) && IdealVerifier(env) && Relayable(env, w, tx, proof)
    requires CreditsItsLock(env, w, tx, proof, mined, steps)
    ensures Witness(w.chain[tx].response).tx in AfterRun(env, w, tx, steps).dest.processedTxs
    ensures w.chain <= AfterRun(env, w, tx, steps).chain
  {
    hide Reachable, IdealVerifier, RunsAlone, PrintsWell, Creditable, FirstLockIs, Reach, Next, EvmHash, ScanLogs,
      Witness, Export, ParseFile, CanProve;
    UndisturbedRunCreditsWhenMined(env, w, tx, proof, mined, steps);
    var w1 := Next(env, w, Deliver(tx));
    OutsideSteps(env, w, tx, |w.runs|, w.dest.trustedBlockRoot, w.file);
    StepsOnlyGrow(env, w1, steps);
    StepOnlyGrows(env, Reach(env, w1, steps), Mine(|w.runs|));
  }

  lemma SecondRunRoot(env: Env, w: World, tx: nat, proof: Groth16Proof, mined: bool, steps: seq<Step>)
    requires Reachable(env, w) && Relayable(env, w, tx, proof) && NoMines(steps)
    requires RunsAlone(env, w, tx, proof, mined, steps)
    ensures BeforeMint(env, w, tx, steps).dest == w.dest.(trustedBlockRoot :=
      if mined then Witness(w.chain[tx].response).root else w.dest.trustedBlockRoot)
  {
    hide Reachable, Relayable, RunsAlone, AfterRun;
    UndisturbedRunMinesOwnCall(env, w, tx, proof, mined, steps);
    WithoutMinesNoTokenMoves(env, Next(env, w, Deliver(tx)), steps);
  }

  // ----- overlapping runs -----

  /** The file held a proof of the run's own inputs when it submitted. */
  ghost predicate HeldOwnProof(env: Env, file: File, root: Digest, key: Digest) {
    && ParseFile(file).Some?
    && StatementOf(env, ParseFile(file).value) == Some(Packing.PackedInputs(root, key))
  }

  /**
   * Whatever all other runs, chains and files do between a run's submission and the mining of its
   * mint, the mint goes through exactly when the file held a proof of its own root and hash as it
   * submitted and, as it is mined, its root is trusted, its hash is not processed, its recipient is
   * not zero and the supply has room. Otherwise nothing is minted.
   */
  lemma MintGoesThroughExactlyWhen(env: Env, w: World, i: nat, between: seq<Step>)
    requires Reachable(env, w) && IdealVerifier(env)
    requires i < |w.runs| && w.runs[i].stage.RootDone? && NoneOfRun(between, i)
    ensures var s := w.runs[i].stage;
      var before := Reach(env, Next(env, w, Submit(i)), between);
      var after := Next(env, before, Mine(i));
      var event := BridgeMinted(s.recipient, s.amount, s.key);
      if HeldOwnProof(env, w.file, s.root, s.key)
         && before.dest.trustedBlockRoot == s.root && Creditable(before.dest, event)
      then Credited(before.dest, event, after.dest) && |after.history| == |before.history| + 1
      else after.dest == before.dest && after.history == before.history
  {
    hide Reachable, IdealVerifier, HeldOwnProof, Provable, Reach, NoneOfRun, ParseFile, DoMine, DoSubmit, Next,
      Creditable, Credited;
    var submitted := Next(env, w, Submit(i));
    RunCanBeProved(env, w, i);
    SubmittingTries(env, w, i);
    OtherStepsKeepRun(env, submitted, i, between);
    MiningExactly(env, Reach(env, submitted, between), i, w.file, w.runs[i].stage);
  }

  lemma RunCanBeProved(env: Env, w: World, i: nat)
    requires Reachable(env, w) && i < |w.runs| && w.runs[i].stage.RootDone?
    ensures Provable(env.sha, Packing.PackedInputs(w.runs[i].stage.root, w.runs[i].stage.key))
  {
    ReachableKeeps(env, w);
    assert RunFits(env, w.chain, w.runs[i]);
  }

  lemma SubmittingTries(env: Env, w: World, i: nat)
    requires i < |w.runs| && w.runs[i].stage.RootDone?
    ensures var s, next := w.runs[i].stage, Next(env, w, Submit(i));
      && i < |next.runs|
      && next.runs[i].stage == if ParseFile(w.file).Some?
           then Submitted(MintCall(ParseFile(w.file).value, s.root, s.key, s.recipient, s.amount)) else Finished
  {
    hide ParseFile;
  }

  lemma MiningExactly(env: Env, w: World, i: nat, file: File, s: Stage)
    requires IdealVerifier(env) && i < |w.runs| && s.RootDone?
    requires Provable(env.sha, Packing.PackedInputs(s.root, s.key))
    requires w.runs[i].stage == if ParseFile(file).Some?
      then Submitted(MintCall(ParseFile(file).value, s.root, s.key, s.recipient, s.amount)) else Finished
    ensures var after, event := Next(env, w, Mine(i)), BridgeMinted(s.recipient, s.amount, s.key);
      if HeldOwnProof(env, file, s.root, s.key) && w.dest.trustedBlockRoot == s.root && Creditable(w.dest, event)
      then Credited(w.dest, event, after.dest) && |after.history| == |w.history| + 1
      else after.dest == w.dest && after.history == w.history
  {
    hide ParseFile, Provable;
  }

  /**
   * So a run that submits after another run's proof replaced its own in the file mints nothing,
   * unless that proof happens to be for the same root and hash.
   */
  lemma OverwrittenProofMintsNothing(env: Env, w: World, i: nat, between: seq<Step>, root: Digest, key: Digest)
    requires Reachable(env, w) && IdealVerifier(env)
    requires i < |w.runs| && w.runs[i].stage.RootDone? && NoneOfRun(between, i)
    requires HeldOwnProof(env, w.file, root, key)
    requires root != w.runs[i].stage.root || key != w.runs[i].stage.key
    ensures var before := Reach(env, Next(env, w, Submit(i)), between);
      && Next(env, before, Mine(i)).dest == before.dest
      && Next(env, before, Mine(i)).history == before.history
  {
    hide Reachable, IdealVerifier, Reach, Next, ParseFile;
    MintGoesThroughExactlyWhen(env, w, i, between);
    Packing.PackedInputsInjective(root, key, w.runs[i].stage.root, w.runs[i].stage.key);
  }

  // ----- which honest transactions can be relayed -----

  /**
   * For an honest response about leaf m, barring collisions among the inputs hashed, no run gets
   * past proving unless its path has at most 32 hashes, m is below 2^(number of aunts), and neither
   * the leaf hash nor an aunt is base64 beginning "0x"; and an aunt of that kind ends the process.
   */
  lemma MisfitNeverProves(env: Env, w: World, i: nat, proof: Groth16Proof, d: Rfc6962.Leaves, m: nat)
    requires i < |w.runs| && w.runs[i].tx < |w.chain| && m < |d|
    requires var r := w.chain[w.runs[i].tx].response;
      HonestResponse(env.sha, r, d, m) && !Relays(r, m) && NoWitnessCollision(env.sha, r, d)
    ensures Next(env, w, Prove(i, proof)) ==
      if w.runs[i].stage.HasLock? && Witness(w.chain[w.runs[i].tx].response).Crash? then EndAll(w) else w
  {
    hide HonestResponse, Relays, NoWitnessCollision, Witness, Accepts, EndAll;
    HonestWitnessExact(env.sha, w.chain[w.runs[i].tx].response, d, m);
  }

  /** And with a lock to find and a proof of its inputs it is relayable exactly then, if it names a hash. */
  lemma HonestTransactionRelayableExactlyWhen(
    env: Env, w: World, tx: nat, proof: Groth16Proof, d: Rfc6962.Leaves, m: nat)
    requires tx < |w.chain| && m < |d|
    requires EvmHash(w.chain[tx].response) != "" && ScanLogs(w.chain[tx].logs, env.bridge).Found?
    requires HonestResponse(env.sha, w.chain[tx].response, d, m) && NoWitnessCollision(env.sha, w.chain[tx].response, d)
    requires StatementOf(env, Coordinates(proof))
          == Some(Packing.PackedInputs(Rfc6962.TreeHash(env.sha, d), env.sha(Rfc6962.LeafInput(d[m]))))
    ensures Relayable(env, w, tx, proof) <==> NamesHash(w.chain[tx].response) && Relays(w.chain[tx].response, m)
    ensures Relayable(env, w, tx, proof) ==> Witness(w.chain[tx].response).tx == env.sha(Rfc6962.LeafInput(d[m]))
  {
    hide HonestResponse, Relays, NoWitnessCollision, Witness, Accepts, EvmHash, ScanLogs, StatementOf, Coordinates,
      Export;
    var r := w.chain[tx].response;
    HonestWitnessExact(env.sha, r, d, m);
    if Relays(r, m) {
      HonestWitnessAccepted(env.sha, r, d, m);
      BuiltInputs(r);
    }
  }

  /** A response that names its hash nowhere, or in `txhash` alone, is skipped. */
  lemma UnnamedIsSkipped(env: Env, w: World, i: nat)
    requires i < |w.runs| && w.runs[i].tx < |w.chain|
    requires w.chain[w.runs[i].tx].response.resultHash == "" && w.chain[w.runs[i].tx].response.hash == ""
    ensures Next(env, w, FetchLock(i)) == w
  {
  }

  /** So is a transaction unknown, without an EVM hash, without a receipt for it, or without a lock in that receipt. */
  lemma LocklessIsSkipped(env: Env, w: World, i: nat)
    requires i < |w.runs|
    requires w.runs[i].tx < |w.chain| && EvmHash(w.chain[w.runs[i].tx].response) != "" ==>
      match FindReceipt(w.chain, EvmHash(w.chain[w.runs[i].tx].response))
      case None => true
      case Some(logs) => Emits(env.bridge, logs, []) && forall k :: 0 <= k < |logs| ==> |logs[k].topics| > 0
    ensures Next(env, w, FetchLock(i)) == w
  {
    hide EvmHash, FindReceipt, ScanLogs, Emits;
    if w.runs[i].tx < |w.chain| && EvmHash(w.chain[w.runs[i].tx].response) != "" {
      match FindReceipt(w.chain, EvmHash(w.chain[w.runs[i].tx].response)) {
        case None =>
        case Some(logs) => ScanFindsFirstLock(env.bridge, logs, []);
      }
    }
  }

  /**
   * Such a response for the one leaf of a tree: honest, with an EVM hash and a hash in `txhash`, and
   * with a witness the circuit accepts, yet skipped.
   */
  lemma TxhashAloneIsNotRelayed() returns (sha: Sha256, r: TxResponse, d: Rfc6962.Leaves)
    ensures d == [[]] && HonestResponse(sha, r, d, 0) && Relays(r, 0)
    ensures Witness(r).Built? && Accepts(sha, Witness(r).assignment)
    ensures r.txHash != "" && EvmHash(r) != "" && !NamesHash(r)
  {
    hide HonestResponse, EvmHash, Witness, Accepts, Relays;
    sha, d, r := _ => Zeros(32), [[]], OneLeafResponse("", "");
    OneLeafResponseIsHonest(sha, "", "");
  }

  lemma NamedByItsEvent(event: Event, r: TxResponse)
    requires event.kind == "evm" && event.attributes == [Attribute("txhash", "0x" + r.txHash)]
    requires |r.txHash| == 64 && r.events == [event]
    ensures EvmHash(r) != ""
  {
    hide IsEvmEvent, IsHashAttribute, Answer;
    var events := AllEvents(r);
    assert events[0] == event && events[..0] == [];
    NamesItsHash(event);
    assert FirstAnswer(events, 0, 0);
    FirstEvmHashFound(events, 0, 0);
  }

  lemma NamesItsHash(event: Event)
    requires event.kind == "evm" && |event.attributes| == 1
    requires event.attributes[0].key == "txhash" && |event.attributes[0].value| == 66
    ensures IsEvmEvent(event) && IsHashAttribute(event.attributes[0])
  {
    hide Lower, Base64Decode;
    NothingToLower("evm");
    NothingToLower("txhash");
  }

  // ----- a world in which a response is relayed or skipped -----

  /** The one log of a first transaction that locks once. */
  lemma FirstLockIsFound(bridge: Address, call: LockCall)
    requires call.value > 0
    ensures var e := Execute(bridge, EMPTY_SOURCE, [CallLock(call)]);
      ScanLogs(e.logs, bridge) == Found(call.ethDestination, call.value)
  {
    var record := LockDetails(call.sender, call.value, call.ethDestination, 0);
    LockRecordsItsCall(EMPTY_SOURCE, call.sender, call.value, call.ethDestination);
    assert [CallLock(call)][..0] == [];
    assert Execute(bridge, EMPTY_SOURCE, []) == Executed(EMPTY_SOURCE, [], []);
    assert Execute(bridge, EMPTY_SOURCE, [CallLock(call)]).logs == [LockLog(bridge, record)];
    LockRoundTrip(bridge, record);
  }

  /** The response of a node for the only leaf of a tree, with these two hashes. */
  function OneLeafResponse(resultHash: string, hash: string): TxResponse {
    var s := HexEncode(Zeros(32));
    TxResponse(hash, s, resultHash, [Event("evm", [Attribute("txhash", "0x" + s)])], [], [], s, s, [], DecimalString(0))
  }

  lemma OneLeafResponseIsHonest(sha: Sha256, resultHash: string, hash: string)
    requires forall x: Bytes :: sha(x) == Zeros(32)
    ensures var r := OneLeafResponse(resultHash, hash);
      && HonestResponse(sha, r, [[]], 0) && Relays(r, 0) && EvmHash(r) != ""
      && Witness(r).Built? && Accepts(sha, Witness(r).assignment)
      && Witness(r).root == Zeros(32) && Witness(r).tx == Zeros(32)
  {
    hide HonestResponse, HexEncode, Lower, DecimalString, EvmHash, Witness, Accepts, Readable, Zeros;
    var r := OneLeafResponse(resultHash, hash);
    LowerHex(Zeros(32));
    HexStartsNot0x(HexEncode(Zeros(32)), Zeros(32));
    OneLeafIsHonest(sha, r, Zeros(32));
    HonestWitnessAccepted(sha, r, [[]], 0);
    NamedByItsEvent(r.events[0], r);
  }

  /** A reachable world with one lock, one response of this kind and one run that has been started for it. */
  ghost function OneLockWorld(env: Env, call: LockCall, r: TxResponse, file: File): World {
    var first := Next(env, Genesis(Zeros(32), file), Transact([CallLock(call)], EvmHash(r), r));
    Next(env, first, Deliver(0))
  }

  lemma OneLockWorldIs(env: Env, call: LockCall, r: TxResponse, file: File)
    requires call.value > 0
    ensures var w := OneLockWorld(env, call, r, file);
      && Reachable(env, w) && w.runs == [Run(0, Fetching)] && |w.chain| == 1
      && w.chain[0].response == r && ScanLogs(w.chain[0].logs, env.bridge) == Found(call.ethDestination, call.value)
  {
    var genesis := Genesis(Zeros(32), file);
    var step := Transact([CallLock(call)], EvmHash(r), r);
    var first := Next(env, genesis, step);
    FirstLockIsFound(env.bridge, call);
    OutsideSteps(env, first, 0, 0, Zeros(32), file);
    assert Reach(env, genesis, []) == genesis;
    NextReachable(env, genesis, step);
    NextReachable(env, first, Deliver(0));
  }

  /** A response with its hash in `result.hash`, or in `hash`, or in both, is relayed; without either it is skipped. */
  lemma EitherHashIsRelayed(resultHash: string, hash: string, call: LockCall)
    returns (env: Env, w: World, proof: Groth16Proof)
    requires call.value > 0
    ensures Reachable(env, w) && IdealVerifier(env) && w.runs == [Run(0, Fetching)] && |w.chain| == 1
    ensures var r := w.chain[0].response;
      r.resultHash == resultHash && r.hash == hash && HonestResponse(env.sha, r, [[]], 0)
    ensures Relayable(env, w, 0, proof) <==> resultHash != "" || hash != ""
    ensures Next(env, w, FetchLock(0)) ==
      if resultHash != "" || hash != "" then w.(runs := [Run(0, HasLock(call.ethDestination, call.value))]) else w
  {
    var sha: Sha256 := _ => Zeros(32);
    env := IdealVerifierExists(sha, Zeros(20), (_, _, _) => Some(Packing.PackedInputs(Zeros(32), Zeros(32))));
    proof := Groth16Proof(0, 0, 0, 0, 0, 0, 0, 0, [], 0, 0);
    w := OneLockWorld(env, call, OneLeafResponse(resultHash, hash), Export(proof));
    OneLeafResponseIsHonest(sha, resultHash, hash);
    OneLockWorldIs(env, call, OneLeafResponse(resultHash, hash), Export(proof));
    ZeroProofIsOne(env, proof);
    RelayedIfNamed(env, w, proof, call);
  }

  /** Where all else is in order, the two hashes decide. */
  lemma RelayedIfNamed(env: Env, w: World, proof: Groth16Proof, call: LockCall)
    requires Reachable(env, w) && w.runs == [Run(0, Fetching)] && |w.chain| == 1
    requires ScanLogs(w.chain[0].logs, env.bridge) == Found(call.ethDestination, call.value)
    requires EvmHash(w.chain[0].response) != ""
    requires var built := Witness(w.chain[0].response);
      && built.Built? && Accepts(env.sha, built.assignment)
      && StatementOf(env, Coordinates(proof)) == Some(Packing.PackedInputs(built.root, built.tx))
    ensures var r := w.chain[0].response;
      && (Relayable(env, w, 0, proof) <==> r.resultHash != "" || r.hash != "")
      && Next(env, w, FetchLock(0)) ==
           if r.resultHash != "" || r.hash != "" then w.(runs := [Run(0, HasLock(call.ethDestination, call.value))])
           else w
  {
    hide Reachable, EvmHash, Witness, Accepts, ScanLogs, StatementOf, Coordinates, ChainFits;
    BuiltInputs(w.chain[0].response);
    ReachableChainFits(env, w);
    if NamesHash(w.chain[0].response) {
      OwnScan(env, w, 0);
      FetchingSucceeds(env, w, 0);
    }
  }

  lemma ZeroProofIsOne(env: Env, proof: Groth16Proof)
    requires proof == Groth16Proof(0, 0, 0, 0, 0, 0, 0, 0, [], 0, 0)
    requires forall p: seq<nat>, c: seq<nat>, k: seq<nat> ::
      env.statement(p, c, k) == Some(Packing.PackedInputs(Zeros(32), Zeros(32)))
    ensures StatementOf(env, Coordinates(proof)) == Some(Packing.PackedInputs(Zeros(32), Zeros(32)))
  {
    var w := Coordinates(proof);
    assert forall i :: 0 <= i < 12 ==> (Flatten(w) + w.commitments + w.commitmentPok)[i] == 0;
  }
}
