/** The relayer: any number of `processEvent` runs over two chains, one proof file and one trusted root. */
module Relay {
  import opened Words
  import opened Source
  import opened Receipt
  import opened Rpc
  import opened Prover
  import opened ProofWords
  import opened Destination
  import opened Circuit
  import Packing

  // ----- the surroundings -----

  /** A proof carries its statement: the eight public inputs it was made for, if it is a proof at all. */
  type Statement = (seq<nat>, seq<nat>, seq<nat>) -> Option<seq<nat>>

  datatype Env = Env(sha: Sha256, bridge: Address, verifier: Verifier, statement: Statement)

  ghost predicate Provable(sha: Sha256, inputs: seq<nat>) {
    exists w: Assignment :: Accepts(sha, w) && w.packedRoot + w.packedTxHash == inputs
  }

  predicate AreCoordinates(w: seq<nat>) {
    forall i :: 0 <= i < |w| ==> w[i] < BASE_FIELD
  }

  /** The statement of a proof given as words; words that are no field elements are no proof (EIP-196, EIP-197). */
  function Meaning(env: Env, p: seq<nat>, c: seq<nat>, k: seq<nat>): Option<seq<nat>>
  {
    if AreCoordinates(p + c + k) then env.statement(p, c, k) else None
  }

  function StatementOf(env: Env, words: MintWords): Option<seq<nat>>
  {
    Meaning(env, Flatten(words), words.commitments, words.commitmentPok)
  }

  /** Groth16 idealised: the verifier accepts exactly a proof of the very inputs given, when they are provable. */
  ghost predicate IdealVerifier(env: Env) {
    forall p: seq<nat>, c: seq<nat>, k: seq<nat>, inputs: seq<nat> ::
      env.verifier(p, c, k, inputs) <==> Meaning(env, p, c, k) == Some(inputs) && Provable(env.sha, inputs)
  }

  /** Whatever statements proofs carry, there is such a verifier. */
  lemma IdealVerifierExists(sha: Sha256, bridge: Address, statement: Statement) returns (env: Env)
    ensures env.sha == sha && env.bridge == bridge && env.statement == statement && IdealVerifier(env)
  {
    var verifier := (p: seq<nat>, c: seq<nat>, k: seq<nat>, inputs: seq<nat>) =>
      AreCoordinates(p + c + k) && statement(p, c, k) == Some(inputs) && Provable(sha, inputs);
    env := Env(sha, bridge, verifier, statement);
  }

  /** One action of a source-chain transaction: a call of `lock`, or any other contract's log. */
  datatype Action = CallLock(call: LockCall) | EmitLog(log: Log)

  datatype Executed = Executed(source: SourceState, logs: seq<Log>, locks: seq<LockDetails>)

  function Execute(bridge: Address, s: SourceState, actions: seq<Action>): Executed
    decreases |actions|
  {
    var n := |actions|;
    if n == 0 then Executed(s, [], [])
    else
      var e := Execute(bridge, s, actions[..n - 1]);
      match actions[n - 1]
      case EmitLog(log) => e.(logs := e.logs + [log])
      case CallLock(call) =>
        if !LockSucceeds(e.source, call) then e
        else
          var record := Recorded(e.source, call);
          Executed(ApplyLock(e.source, call), e.logs + [LockLog(bridge, record)], e.locks + [record])
  }

  /** The lock calls among the actions that send something, in order. */
  function PaidLocks(actions: seq<Action>): seq<LockCall>
    decreases |actions|
  {
    var n := |actions|;
    if n == 0 then []
    else
      match actions[n - 1]
      case EmitLog(_) => PaidLocks(actions[..n - 1])
      case CallLock(call) => PaidLocks(actions[..n - 1]) + if call.value > 0 then [call] else []
  }

  /** The logs the actions emit themselves. */
  function OtherLogs(actions: seq<Action>): seq<Log>
    decreases |actions|
  {
    var n := |actions|;
    if n == 0 then []
    else OtherLogs(actions[..n - 1]) + if actions[n - 1].EmitLog? then [actions[n - 1].log] else []
  }

  function NotFrom(bridge: Address, logs: seq<Log>): seq<Log>
    decreases |logs|
  {
    var n := |logs|;
    if n == 0 then []
    else NotFrom(bridge, logs[..n - 1]) + if logs[n - 1].address != bridge then [logs[n - 1]] else []
  }

  /** Each record is of the paid call at its place: its sender, value and destination, under consecutive nonces. */
  ghost predicate LocksOfCalls(locks: seq<LockDetails>, paid: seq<LockCall>, first: nat) {
    && |locks| <= |paid|
    && forall k :: 0 <= k < |locks| ==>
         && locks[k].sender == paid[k].sender && locks[k].amount == paid[k].value
         && locks[k].ethDestination == paid[k].ethDestination && locks[k].nonce == first + k
  }

  /** A transaction records its paid lock calls in order, all of them as long as the counter can grow. */
  lemma {:induction false} ExecuteRecordsCalls(bridge: Address, s: SourceState, actions: seq<Action>)
    ensures var e, paid := Execute(bridge, s, actions), PaidLocks(actions);
      && LocksOfCalls(e.locks, paid, s.nextNonce)
      && |e.locks| == RoomFor(|paid|, s.nextNonce)
      && e.source.nextNonce == s.nextNonce + |e.locks|
    decreases |actions|
  {
    var n := |actions|;
    if n > 0 {
      ExecuteRecordsCalls(bridge, s, actions[..n - 1]);
      var e := Execute(bridge, s, actions[..n - 1]);
      match actions[n - 1] {
        case EmitLog(_) =>
        case CallLock(call) =>
          LockRecordsItsCall(e.source, call.sender, call.value, call.ethDestination);
      }
    }
  }

  /** The logs that are not the bridge's are those the actions emit, in order. */
  lemma {:induction false} ExecuteEmitsOtherLogs(bridge: Address, s: SourceState, actions: seq<Action>)
    requires forall k :: 0 <= k < |actions| ==> actions[k].EmitLog? ==> actions[k].log.address != bridge
    ensures NotFrom(bridge, Execute(bridge, s, actions).logs) == OtherLogs(actions)
    decreases |actions|
  {
    var n := |actions|;
    if n > 0 {
      ExecuteEmitsOtherLogs(bridge, s, actions[..n - 1]);
      var before, after := Execute(bridge, s, actions[..n - 1]).logs, Execute(bridge, s, actions).logs;
      if after != before {
        assert after[..|after| - 1] == before;
      }
    }
  }

  /**
   * A finalised source-chain transaction, with what it did, emitted and recorded; its position in
   * the chain stands for its Tendermint hash.
   */
  datatype SourceTx = SourceTx(
    evmHash: string, response: TxResponse, actions: seq<Action>, logs: seq<Log>, locks: seq<LockDetails>)

  /** The receipt lookup by EVM hash. */
  function FindReceipt(chain: seq<SourceTx>, evmHash: string): Option<seq<Log>> {
    if |chain| == 0 then None
    else if chain[|chain| - 1].evmHash == evmHash then Some(chain[|chain| - 1].logs)
    else FindReceipt(chain[..|chain| - 1], evmHash)
  }

  // ----- waiting for the transaction to be indexed -----

  /** One attempt at `GetTxDetails`: nothing, or a response with its error code. */
  datatype Reply = NoReply | Reply(errorCode: int, response: TxResponse)

  /** The guard after the loop; a hash in `txhash` alone is not looked at. */
  predicate NamesHash(r: TxResponse) {
    r.resultHash != "" || r.hash != ""
  }

  predicate HasHash(r: Reply) {
    r.Reply? && NamesHash(r.response)
  }

  predicate Indexed(r: Reply) {
    HasHash(r) && r.errorCode == 0
  }

  /** Reply i has error code 0 and a hash in `result.hash` or `hash`. */
  ghost predicate GoodAt(replies: seq<Reply>, i: nat) {
    && i < |replies| && replies[i].Reply? && replies[i].errorCode == 0
    && (replies[i].response.resultHash != "" || replies[i].response.hash != "")
  }

  /**
   * The retry loop of `processEvent` over its five attempts: the first good reply; failing that the
   * last one if one of its two hashes is not empty, whatever its error code; else nothing.
   */
  method AwaitIndexed(replies: seq<Reply>) returns (r: Option<TxResponse>)
    requires |replies| == 5
    ensures forall i: nat ::
      GoodAt(replies, i) && (forall k: nat :: k < i ==> !GoodAt(replies, k)) ==> r == Some(replies[i].response)
    ensures (forall i: nat :: !GoodAt(replies, i)) && replies[4].NoReply? ==> r == None
    ensures (forall i: nat :: !GoodAt(replies, i)) && replies[4].Reply? ==>
      var last := replies[4].response;
      r == if last.resultHash == "" && last.hash == "" then None else Some(last)
  {
    var resp := NoReply;
    for i := 0 to 5
      invariant forall k: nat :: k < i ==> !GoodAt(replies, k)
      invariant i > 0 ==> resp == replies[i - 1]
    {
      resp := replies[i];
      if Indexed(resp) {
        assert GoodAt(replies, i);
        return Some(resp.response);
      }
    }
    r := if HasHash(resp) then Some(resp.response) else None;
  }

  // ----- the relayer's state -----

  type File = f: ProofFile | FileShape(f)
    witness ProofFile(["", ""], [["", ""], ["", ""]], ["", ""], ["", ""], ["", ""])

  datatype Stage =
    | Fetching
    | HasLock(recipient: Address, amount: Uint256)
    | HasProof(recipient: Address, amount: Uint256, root: Digest, key: Digest)
    | RootDone(recipient: Address, amount: Uint256, root: Digest, key: Digest)
    | Submitted(call: MintCall)
    | Finished

  datatype Run = Run(tx: nat, stage: Stage)

  /** A mint that went through, and the transaction whose run sent it. */
  datatype Delivery = Delivery(tx: nat, call: MintCall)

  datatype World = World(
    source: SourceState,
    chain: seq<SourceTx>,
    dest: DestState,
    file: File,
    runs: seq<Run>,
    history: seq<Delivery>)

  function Genesis(initialRoot: Digest, file: File): World {
    World(EMPTY_SOURCE, [], Deployed(initialRoot), file, [], [])
  }

  // ----- the steps -----

  datatype Step =
    | Transact(actions: seq<Action>, evmHash: string, response: TxResponse)
    | Deliver(tx: nat)
    | FetchLock(i: nat)
    | Prove(i: nat, proof: Groth16Proof)
    | UpdateRoot(i: nat, mined: bool)
    | Submit(i: nat)
    | Mine(i: nat)
    | Abandon(i: nat)
    | SetRoot(root: Digest)
    | OverwriteFile(file: File)
    | Stop

  function SetStage(w: World, i: nat, stage: Stage): World
    requires i < |w.runs|
  {
    w.(runs := w.runs[i := w.runs[i].(stage := stage)])
  }

  /** Hashes identify transactions: the hash is new, and the response leads to it or to none. */
  ghost predicate FreshTransaction(w: World, env: Env, actions: seq<Action>, evmHash: string, response: TxResponse) {
    && (forall k :: 0 <= k < |w.chain| ==> w.chain[k].evmHash != evmHash)
    && (EvmHash(response) == "" || EvmHash(response) == evmHash)
    && (forall k :: 0 <= k < |actions| ==> actions[k].EmitLog? ==> actions[k].log.address != env.bridge)
  }

  /** From a delivered transaction to its receipt: skipped when the response names no hash or no EVM hash. */
  function ScanFor(w: World, env: Env, tx: nat): Scan {
    if tx >= |w.chain| || !NamesHash(w.chain[tx].response) then NotFound
    else
      var evmHash := EvmHash(w.chain[tx].response);
      if evmHash == "" then NotFound
      else
        match FindReceipt(w.chain, evmHash)
        case None => NotFound
        case Some(logs) => ScanLogs(logs, env.bridge)
  }

  /** `groth16.Prove` succeeds on a satisfying witness, with a proof of that witness's public inputs. */
  ghost predicate CanProve(env: Env, built: BuildOutcome, proof: Groth16Proof) {
    && built.Built? && Accepts(env.sha, built.assignment)
    && StatementOf(env, Coordinates(proof)) == Some(built.assignment.packedRoot + built.assignment.packedTxHash)
  }

  // Each step is atomic; one that is not enabled leaves the world as it is.

  ghost function DoTransact(env: Env, w: World, actions: seq<Action>, evmHash: string, response: TxResponse): World {
    if FreshTransaction(w, env, actions, evmHash, response) then
      var e := Execute(env.bridge, w.source, actions);
      w.(source := e.source, chain := w.chain + [SourceTx(evmHash, response, actions, e.logs, e.locks)])
    else w
  }

  ghost function DoFetchLock(env: Env, w: World, i: nat): World {
    if i < |w.runs| && w.runs[i].stage.Fetching? && ScanFor(w, env, w.runs[i].tx).Found? then
      var found := ScanFor(w, env, w.runs[i].tx);
      SetStage(w, i, HasLock(found.recipient, found.amount))
    else w
  }

  /** `GenerateProof`: the proof replaces whatever the shared file holds. */
  ghost function DoProve(env: Env, w: World, i: nat, proof: Groth16Proof): World {
    if i < |w.runs| && w.runs[i].stage.HasLock? && w.runs[i].tx < |w.chain|
       && CanProve(env, Witness(w.chain[w.runs[i].tx].response), proof) then
      var s, built := w.runs[i].stage, Witness(w.chain[w.runs[i].tx].response);
      SetStage(w, i, HasProof(s.recipient, s.amount, built.root, built.tx)).(file := Export(proof))
    else w
  }

  /** `UpdateRoot`: a failure is logged and the run goes on. */
  ghost function DoUpdateRoot(w: World, i: nat, mined: bool): World {
    if i < |w.runs| && w.runs[i].stage.HasProof? then
      var s := w.runs[i].stage;
      var next := SetStage(w, i, RootDone(s.recipient, s.amount, s.root, s.key));
      if mined then next.(dest := w.dest.(trustedBlockRoot := s.root)) else next
    else w
  }

  /** `SubmitProof` sends whatever proof the shared file holds by now, without waiting for the result. */
  ghost function DoSubmit(w: World, i: nat): World {
    if i < |w.runs| && w.runs[i].stage.RootDone? && ParseFile(w.file).Some? then
      var s := w.runs[i].stage;
      SetStage(w, i, Submitted(MintCall(ParseFile(w.file).value, s.root, s.key, s.recipient, s.amount)))
    else w
  }

  ghost function DoMine(env: Env, w: World, i: nat): World {
    if i < |w.runs| && w.runs[i].stage.Submitted? then
      var call := w.runs[i].stage.call;
      var mined := SetStage(w, i, Finished).(dest := ApplyMint(env.verifier, w.dest, call));
      if MintOutcome(env.verifier, w.dest, call) == Minted then
        mined.(history := w.history + [Delivery(w.runs[i].tx, call)])
      else mined
    else w
  }

  /**
   * A panic: a log without topics or with too little data, an aunt that cannot be decoded, or a
   * string in the file that is no number.
   */
  predicate Panics(env: Env, w: World, step: Step) {
    match step
    case FetchLock(i) => i < |w.runs| && w.runs[i].stage.Fetching? && ScanFor(w, env, w.runs[i].tx).Crash?
    case Prove(i, _) =>
      i < |w.runs| && w.runs[i].stage.HasLock? && w.runs[i].tx < |w.chain|
      && Witness(w.chain[w.runs[i].tx].response).Crash?
    case Submit(i) => i < |w.runs| && w.runs[i].stage.RootDone? && ParseFile(w.file).None?
    case _ => false
  }

  function EndRun(run: Run): Run {
    if run.stage.Submitted? then run else run.(stage := Finished)
  }

  /** The end of the process ends every run; what has been submitted can still be mined. */
  function EndAll(w: World): World {
    w.(runs := seq(|w.runs|, i requires 0 <= i < |w.runs| => EndRun(w.runs[i])))
  }

  /** A panic in one run ends the process. */
  ghost function Next(env: Env, w: World, step: Step): World {
    if Panics(env, w, step) then EndAll(w) else Advance(env, w, step)
  }

  ghost function Advance(env: Env, w: World, step: Step): World {
    match step
    case Transact(actions, evmHash, response) => DoTransact(env, w, actions, evmHash, response)
    case Deliver(tx) => w.(runs := w.runs + [Run(tx, Fetching)])
    case FetchLock(i) => DoFetchLock(env, w, i)
    case Prove(i, proof) => DoProve(env, w, i, proof)
    case UpdateRoot(i, mined) => DoUpdateRoot(w, i, mined)
    case Submit(i) => DoSubmit(w, i)
    case Mine(i) => DoMine(env, w, i)
    case Abandon(i) => if i < |w.runs| then SetStage(w, i, Finished) else w
    case SetRoot(root) => w.(dest := w.dest.(trustedBlockRoot := root))
    case OverwriteFile(file) => w.(file := file)
    case Stop => EndAll(w)
  }

  ghost function Reach(env: Env, w: World, steps: seq<Step>): World
    decreases |steps|
  {
    if |steps| == 0 then w else Reach(env, Next(env, w, steps[0]), steps[1..])
  }

  /** The steps of run i; the others leave it alone, unless they end the process. */
  predicate OfRun(step: Step, i: nat) {
    match step
    case FetchLock(j) => j == i
    case Prove(j, _) => j == i
    case UpdateRoot(j, _) => j == i
    case Submit(j) => j == i
    case Mine(j) => j == i
    case Abandon(j) => j == i
    case _ => false
  }

  predicate NoneOfRun(steps: seq<Step>, i: nat) {
    forall k :: 0 <= k < |steps| ==> !OfRun(steps[k], i)
  }

  predicate EndsProcess(env: Env, w: World, step: Step) {
    step.Stop? || Panics(env, w, step)
  }

  predicate OutOfProcess(run: Run) {
    run.stage.Submitted? || run.stage.Finished?
  }

  lemma OtherStepKeepsRun(env: Env, w: World, i: nat, step: Step)
    requires i < |w.runs| && !OfRun(step, i)
    requires EndsProcess(env, w, step) ==> OutOfProcess(w.runs[i])
    ensures var next := Next(env, w, step);
      i < |next.runs| && next.runs[i] == w.runs[i]
  {
  }

  /** Once a run has submitted or is over, no steps but its own change it. */
  lemma {:induction false} OtherStepsKeepRun(env: Env, w: World, i: nat, steps: seq<Step>)
    requires i < |w.runs| && NoneOfRun(steps, i) && OutOfProcess(w.runs[i])
    ensures var after := Reach(env, w, steps);
      i < |after.runs| && after.runs[i] == w.runs[i]
    decreases |steps|
  {
    if |steps| > 0 {
      OtherStepKeepsRun(env, w, i, steps[0]);
      OtherStepsKeepRun(env, Next(env, w, steps[0]), i, steps[1..]);
    }
  }

  // ----- what single steps do -----

  /** A new transaction joins the chain with what it did; a stale one leaves no trace. */
  lemma TransactionsAreRecorded(env: Env, w: World, actions: seq<Action>, evmHash: string, response: TxResponse)
    ensures var next := Next(env, w, Transact(actions, evmHash, response));
      && next.dest == w.dest && next.file == w.file && next.runs == w.runs && next.history == w.history
      && if FreshTransaction(w, env, actions, evmHash, response) then
           && |next.chain| == |w.chain| + 1 && w.chain <= next.chain
           && var t := next.chain[|w.chain|];
             && t.actions == actions && t.evmHash == evmHash && t.response == response
             && LocksOfCalls(t.locks, PaidLocks(actions), w.source.nextNonce)
             && |t.locks| == RoomFor(|PaidLocks(actions)|, w.source.nextNonce)
             && NotFrom(env.bridge, t.logs) == OtherLogs(actions)
         else next == w
  {
    hide Execute, PaidLocks, OtherLogs, NotFrom, LocksOfCalls, RoomFor;
    ExecuteRecordsCalls(env.bridge, w.source, actions);
    if FreshTransaction(w, env, actions, evmHash, response) {
      ExecuteEmitsOtherLogs(env.bridge, w.source, actions);
    }
  }

  /** The receipt found for an EVM hash is that of a transaction with the hash, and none is found when there is none. */
  lemma {:induction false} FindReceiptExact(chain: seq<SourceTx>, evmHash: string)
    ensures FindReceipt(chain, evmHash).None? <==> forall k :: 0 <= k < |chain| ==> chain[k].evmHash != evmHash
    ensures FindReceipt(chain, evmHash).Some? ==>
      exists k :: 0 <= k < |chain| && chain[k].evmHash == evmHash && FindReceipt(chain, evmHash) == Some(chain[k].logs)
    decreases |chain|
  {
    var n := |chain| - 1;
    if n >= 0 && chain[n].evmHash != evmHash {
      FindReceiptExact(chain[..n], evmHash);
    }
  }

  /** Delivery starts a run; giving up, a new root and new contents of the file change only what they say. */
  lemma OutsideSteps(env: Env, w: World, tx: nat, i: nat, root: Digest, file: File)
    ensures Next(env, w, Deliver(tx)) == w.(runs := w.runs + [Run(tx, Fetching)])
    ensures i < |w.runs| ==> Next(env, w, Abandon(i)) == w.(runs := w.runs[i := Run(w.runs[i].tx, Finished)])
    ensures Next(env, w, SetRoot(root)) == w.(dest := w.dest.(trustedBlockRoot := root))
    ensures Next(env, w, OverwriteFile(file)) == w.(file := file)
  {
  }

  /** Once a mint is mined, for good or bad, its run is over, and nothing is mined for it again. */
  lemma MiningEndsRun(env: Env, w: World, i: nat)
    requires i < |w.runs| && w.runs[i].stage.Submitted?
    ensures var next := Next(env, w, Mine(i));
      && next.runs == w.runs[i := Run(w.runs[i].tx, Finished)]
      && next.chain == w.chain && next.source == w.source && next.file == w.file
      && Next(env, next, Mine(i)) == next
  {
    hide ApplyMint, MintOutcome;
  }

  /** When the process ends, what was submitted stays so, and every other run is over. */
  lemma EndingEndsAll(env: Env, w: World, i: nat)
    requires i < |w.runs|
    ensures var after := Next(env, w, Stop);
      && |after.runs| == |w.runs| && after == w.(runs := after.runs) && after.runs[i].tx == w.runs[i].tx
      && after.runs[i].stage == if w.runs[i].stage.Submitted? then w.runs[i].stage else Finished
  {
  }

  /** A run that comes upon a log without topics before any log of the bridge ends the process. */
  lemma LogWithoutTopicsEndsProcess(
    env: Env, w: World, i: nat, logs: seq<Log>, locks: seq<LockDetails>, k: nat)
    requires i < |w.runs| && w.runs[i].stage.Fetching? && w.runs[i].tx < |w.chain|
    requires var r := w.chain[w.runs[i].tx].response;
      (r.resultHash != "" || r.hash != "") && EvmHash(r) != "" && FindReceipt(w.chain, EvmHash(r)) == Some(logs)
    requires Emits(env.bridge, logs, locks)
    requires k < |logs| && |logs[k].topics| == 0 && forall j :: 0 <= j < k ==> logs[j].address != env.bridge
    ensures Next(env, w, FetchLock(i)) == EndAll(w)
  {
    hide Emits, EvmHash, EndAll, ScanLogs, FindReceipt;
    ScanFindsFirstLock(env.bridge, logs, locks);
    OwnLogsHaveTopics(env.bridge, logs, locks);
  }

  /** A failed root update leaves the contract alone, and the run goes on with what it had. */
  lemma FailedUpdateLeavesContract(env: Env, w: World, i: nat)
    requires i < |w.runs| && w.runs[i].stage.HasProof?
    ensures var s, next := w.runs[i].stage, Next(env, w, UpdateRoot(i, false));
      && next.dest == w.dest && next.file == w.file && next.chain == w.chain && next.history == w.history
      && next.runs == w.runs[i := Run(w.runs[i].tx, RootDone(s.recipient, s.amount, s.root, s.key))]
  {
  }

  // What no step takes back.

  lemma StepOnlyGrows(env: Env, w: World, step: Step)
    ensures var next := Next(env, w, step);
      && w.chain <= next.chain
      && |w.runs| <= |next.runs|
      && w.dest.processedTxs <= next.dest.processedTxs
      && w.dest.minted <= next.dest.minted
  {
  }

  lemma {:induction false} StepsOnlyGrow(env: Env, w: World, steps: seq<Step>)
    ensures var after := Reach(env, w, steps);
      && w.chain <= after.chain
      && |w.runs| <= |after.runs|
      && w.dest.processedTxs <= after.dest.processedTxs
      && w.dest.minted <= after.dest.minted
    decreases |steps|
  {
    if |steps| > 0 {
      StepOnlyGrows(env, w, steps[0]);
      StepsOnlyGrow(env, Next(env, w, steps[0]), steps[1..]);
    }
  }

  predicate NoMines(steps: seq<Step>) {
    forall k :: 0 <= k < |steps| ==> !steps[k].Mine?
  }

  lemma OnlyMiningTouchesTokens(env: Env, w: World, step: Step)
    requires !step.Mine?
    ensures var root := Next(env, w, step).dest.trustedBlockRoot;
      Next(env, w, step).dest == w.dest.(trustedBlockRoot := root)
  {
  }

  lemma {:induction false} WithoutMinesNoTokenMoves(env: Env, w: World, steps: seq<Step>)
    requires NoMines(steps)
    ensures var root := Reach(env, w, steps).dest.trustedBlockRoot;
      Reach(env, w, steps).dest == w.dest.(trustedBlockRoot := root)
    decreases |steps|
  {
    if |steps| > 0 {
      OnlyMiningTouchesTokens(env, w, steps[0]);
      WithoutMinesNoTokenMoves(env, Next(env, w, steps[0]), steps[1..]);
    }
  }

  // ----- what a source-chain transaction leaves behind -----

  /** The logs of the bridge, in order, are those of the recorded locks. */
  ghost predicate Emits(bridge: Address, logs: seq<Log>, locks: seq<LockDetails>)
    decreases |logs|
  {
    if |logs| == 0 then |locks| == 0
    else if logs[0].address == bridge then
      |locks| > 0 && logs[0] == LockLog(bridge, locks[0]) && Emits(bridge, logs[1..], locks[1..])
    else Emits(bridge, logs[1..], locks)
  }

  lemma {:induction false} EmitsOneMore(
    bridge: Address, logs: seq<Log>, locks: seq<LockDetails>, log: Log, more: seq<LockDetails>)
    requires Emits(bridge, logs, locks) && Emits(bridge, [log], more)
    ensures Emits(bridge, logs + [log], locks + more)
    decreases |logs|
  {
    if |logs| == 0 {
      assert logs + [log] == [log] && locks + more == more;
    } else {
      assert (logs + [log])[1..] == logs[1..] + [log];
      if logs[0].address == bridge {
        EmitsOneMore(bridge, logs[1..], locks[1..], log, more);
        assert (locks + more)[1..] == locks[1..] + more;
      } else {
        EmitsOneMore(bridge, logs[1..], locks, log, more);
      }
    }
  }

  /** Where the bridge's first log stands, or the number of logs. */
  function FirstOwnLog(bridge: Address, logs: seq<Log>): (i: nat)
    ensures i <= |logs|
    ensures i < |logs| ==> logs[i].address == bridge
    ensures forall k :: 0 <= k < i ==> logs[k].address != bridge
  {
    if |logs| == 0 || logs[0].address == bridge then 0 else 1 + FirstOwnLog(bridge, logs[1..])
  }

  /** No log without topics stands before the bridge's first. */
  predicate ScanGetsThere(bridge: Address, logs: seq<Log>) {
    forall k :: 0 <= k < FirstOwnLog(bridge, logs) ==> |logs[k].topics| > 0
  }

  lemma ScanGetsThereFrom(bridge: Address, logs: seq<Log>)
    requires |logs| > 0 && logs[0].address != bridge
    ensures FirstOwnLog(bridge, logs) == 1 + FirstOwnLog(bridge, logs[1..])
    ensures ScanGetsThere(bridge, logs) <==> |logs[0].topics| > 0 && ScanGetsThere(bridge, logs[1..])
  {
    if ScanGetsThere(bridge, logs) {
      forall k | 0 <= k < FirstOwnLog(bridge, logs[1..])
        ensures |logs[1..][k].topics| > 0
      {
        assert logs[1..][k] == logs[k + 1];
      }
    }
  }

  /**
   * The scan crashes exactly on a log without topics before the bridge's first; otherwise it finds
   * the transaction's first lock, or nothing when the transaction has none.
   */
  lemma {:induction false} ScanFindsFirstLock(bridge: Address, logs: seq<Log>, locks: seq<LockDetails>)
    requires Emits(bridge, logs, locks)
    ensures ScanLogs(logs, bridge) ==
      if !ScanGetsThere(bridge, logs) then Scan.Crash
      else if |locks| == 0 then NotFound
      else Found(locks[0].ethDestination, locks[0].amount)
    ensures |locks| > 0 <==> FirstOwnLog(bridge, logs) < |logs|
    decreases |logs|
  {
    if |logs| > 0 {
      if logs[0].address == bridge {
        LockRoundTrip(bridge, locks[0]);
      } else {
        ScanFindsFirstLock(bridge, logs[1..], locks);
        ScanGetsThereFrom(bridge, logs);
      }
    }
  }

  /** The logs of the bridge are Lock logs, which have topics. */
  lemma {:induction false} OwnLogsHaveTopics(bridge: Address, logs: seq<Log>, locks: seq<LockDetails>)
    requires Emits(bridge, logs, locks)
    ensures forall k :: 0 <= k < |logs| && logs[k].address == bridge ==> |logs[k].topics| > 0
    decreases |logs|
  {
    if |logs| > 0 {
      OwnLogsHaveTopics(bridge, logs[1..], if logs[0].address == bridge then locks[1..] else locks);
      forall k | 0 <= k < |logs| && logs[k].address == bridge
        ensures |logs[k].topics| > 0
      {
        assert k > 0 ==> logs[k] == logs[1..][k - 1];
      }
    }
  }

  lemma EmitsLock(bridge: Address, record: LockDetails)
    ensures Emits(bridge, [LockLog(bridge, record)], [record])
  {
    var log := LockLog(bridge, record);
    assert [log][1..] == [] && [record][1..] == [];
  }

  lemma EmitsOther(bridge: Address, log: Log)
    requires log.address != bridge
    ensures Emits(bridge, [log], [])
  {
    assert [log][1..] == [];
  }

  lemma {:induction false} ExecuteEmits(bridge: Address, s: SourceState, actions: seq<Action>)
    requires SourceInvariant(s)
    requires forall k :: 0 <= k < |actions| ==> actions[k].EmitLog? ==> actions[k].log.address != bridge
    ensures var e := Execute(bridge, s, actions);
      && SourceInvariant(e.source)
      && e.source.events == s.events + e.locks
      && Emits(bridge, e.logs, e.locks)
    decreases |actions|
  {
    hide SourceInvariant, LockLog, Recorded;
    var n := |actions|;
    if n > 0 {
      var e := Execute(bridge, s, actions[..n - 1]);
      ExecuteEmits(bridge, s, actions[..n - 1]);
      match actions[n - 1] {
        case EmitLog(log) =>
          EmitsOther(bridge, log);
          EmitsOneMore(bridge, e.logs, e.locks, log, []);
          assert e.locks + [] == e.locks;
        case CallLock(call) =>
          ApplyLockKeeps(e.source, call);
          if LockSucceeds(e.source, call) {
            var record := Recorded(e.source, call);
            EmitsLock(bridge, record);
            EmitsOneMore(bridge, e.logs, e.locks, LockLog(bridge, record), [record]);
            assert s.events + (e.locks + [record]) == s.events + e.locks + [record];
          }
      }
    }
  }
}
